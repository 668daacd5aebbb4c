/** The parsed JNLP descriptor and the resource list the script derives from its `jar` and
    `nativelib` elements. */
module Descriptor {
  import opened Wrappers
  import opened PyStrings

  /** One XML element: its tag and its attributes. */
  datatype Element = Element(tag: string, attrib: map<string, string>)

  /** A parsed document: the root element, then every other element in document order (the
      order of a preorder walk of the tree). */
  datatype Document = Document(root: Element, descendants: seq<Element>)

  function Elements(doc: Document): seq<Element> {
    [doc.root] + doc.descendants
  }

  /** The elements of `elems` whose tag is `tag`, in their original order. */
  function Filter(elems: seq<Element>, tag: string): (r: seq<Element>)
    ensures |r| <= |elems|
    ensures forall x :: x in r <==> x in elems && x.tag == tag
  {
    if elems == [] then []
    else
      var last := elems[|elems| - 1];
      Filter(elems[..|elems| - 1], tag) + (if last.tag == tag then [last] else [])
  }

  /** Filtering a run of elements followed by another is filtering each, in that order. */
  lemma {:induction false} FilterAppend(a: seq<Element>, b: seq<Element>, tag: string)
    ensures Filter(a + b, tag) == Filter(a, tag) + Filter(b, tag)
    decreases |b|
  {
    if b == [] {
      assert a + b == a;
    } else {
      var ab, init, last := a + b, b[..|b| - 1], b[|b| - 1];
      assert ab[..|ab| - 1] == a + init;
      assert ab[|ab| - 1] == last;
      var fa, fi, fl := Filter(a, tag), Filter(init, tag), if last.tag == tag then [last] else [];
      FilterAppend(a, init, tag);
      assert Filter(ab, tag) == Filter(a + init, tag) + fl;
      assert Filter(b, tag) == fi + fl;
      Regroup(fa, fi, fl);
    }
  }

  lemma Regroup(x: seq<Element>, y: seq<Element>, z: seq<Element>)
    ensures (x + y) + z == x + (y + z)
  {
  }

  /** A single element is kept exactly when it carries the tag. With `FilterAppend` this
      determines `Filter` on every sequence: the kept elements, each as often as it occurs, in
      their original order. */
  lemma FilterSingle(e: Element, tag: string)
    ensures Filter([e], tag) == if e.tag == tag then [e] else []
  {
    assert [e][..0] == [];
  }

  /** `root.iter(tag)`: the root and its descendants that carry the tag, in document order. */
  function Iter(doc: Document, tag: string): seq<Element> {
    Filter(Elements(doc), tag)
  }

  /** One entry of the script's resource list, the five-element list
      `[uri, versioned uri, file name, alternate uri, alternate file name]`. */
  datatype Link = Link(uri: string, versioned: Option<string>, file: string,
                       alt: Option<string>, altFile: Option<string>)

  /** The two ways deriving an entry raises: the element has no `href` (so `get` yields `None`,
      which has no `rsplit`), or the `href` has no `/` (so index 1 of its pieces is missing). */
  datatype LinkError = HrefMissing | HrefWithoutSlash

  /** The entry the script derives from one `jar` or `nativelib` element. */
  function DeriveLink(e: Element): Result<Link, LinkError> {
    if "href" !in e.attrib then Err(HrefMissing)
    else
      var href := e.attrib["href"];
      var pieces := RSplit(href, "/");
      if |pieces| < 2 then Err(HrefWithoutSlash)
      else
        var file := pieces[1];
        var path := pieces[0] + "/";
        if "version" !in e.attrib then Ok(Link(href, None, file, None, None))
        else
          var version := e.attrib["version"];
          var stem := RSplit(file, ".jar")[0];
          Ok(Link(href, Some(href + "?version-id=" + version), file,
                  Some(path + stem + "__V" + version + ".jar"),
                  Some(stem + "__V" + version + ".jar")))
  }

  /** The version information of an entry is all there or all absent, and the alternate file
      name never coincides with the plain one. */
  predicate WellFormed(l: Link) {
    && l.versioned.Some? == l.alt.Some? == l.altFile.Some?
    && (l.altFile.Some? ==> l.altFile.value != l.file)
  }

  lemma SlashPieces(href: string)
    ensures RSplit(href, "/") == Split(href, "/")
    ensures |RSplit(href, "/")| >= 2 <==> '/' in href
  {
    RSplitIsSplit(href, "/");
    SplitPieces(href, "/");
    FindChar(href, '/');
  }

  /** Deriving an entry fails exactly when `href` is missing or has no `/`. */
  lemma DeriveLinkFails(e: Element)
    ensures DeriveLink(e) == Err(HrefMissing) <==> "href" !in e.attrib
    ensures DeriveLink(e) == Err(HrefWithoutSlash) <==> "href" in e.attrib && '/' !in e.attrib["href"]
    ensures DeriveLink(e).Ok? <==> "href" in e.attrib && '/' in e.attrib["href"]
  {
    if "href" in e.attrib {
      SlashPieces(e.attrib["href"]);
    }
  }

  /** The uri is the `href` itself, and the file name is the second `/`-separated segment of it:
      the text after the first `/` up to the next `/` or the end. */
  lemma FileIsSecondSegment(e: Element)
    requires DeriveLink(e).Ok?
    ensures "href" in e.attrib
    ensures var href, l := e.attrib["href"], DeriveLink(e).value;
      && l.uri == href
      && Find(href, "/").Some?
      && l.file == BeforeFirst(href[Find(href, "/").value + 1..], "/")
  {
    var href := e.attrib["href"];
    SlashPieces(href);
    SplitPieces(href, "/");
  }

  /** `rsplit('/')[0] + '/'` is `href` up to and including its first `/`. */
  lemma PathPrefix(href: string)
    requires '/' in href
    ensures Find(href, "/").Some?
    ensures RSplit(href, "/")[0] + "/" == href[..Find(href, "/").value + 1]
  {
    SlashPieces(href);
    SplitPieces(href, "/");
    FindChar(href, '/');
    var n := Find(href, "/").value;
    assert href[..n + 1] == href[..n] + [href[n]];
  }

  /** `rsplit('.jar')[0]` is the text of the file name before its first `.jar`. */
  lemma StemBeforeJar(file: string)
    ensures RSplit(file, ".jar")[0] == BeforeFirst(file, ".jar")
  {
    RSplitIsSplit(file, ".jar");
    SplitPieces(file, ".jar");
  }

  /** Without a `version` attribute the entry has no versioned uri and no alternate names. */
  lemma UnversionedEntry(e: Element)
    requires DeriveLink(e).Ok? && "version" !in e.attrib
    ensures DeriveLink(e).value.versioned.None?
    ensures DeriveLink(e).value.alt.None? && DeriveLink(e).value.altFile.None?
  {
  }

  /** With a `version` attribute `v` the versioned uri is `href + "?version-id=" + v`, the
      alternate file name is the file name cut before its first `.jar`, followed by
      `"__V" + v + ".jar"`, and the alternate uri is the path prefix followed by that name. */
  lemma VersionedEntry(e: Element)
    requires DeriveLink(e).Ok? && "version" in e.attrib
    ensures "href" in e.attrib && Find(e.attrib["href"], "/").Some?
    ensures var href, v, l := e.attrib["href"], e.attrib["version"], DeriveLink(e).value;
      && l.versioned == Some(href + "?version-id=" + v)
      && l.altFile == Some(BeforeFirst(l.file, ".jar") + "__V" + v + ".jar")
      && l.alt == Some(href[..Find(href, "/").value + 1] + l.altFile.value)
  {
    var href, v, l := e.attrib["href"], e.attrib["version"], DeriveLink(e).value;
    DeriveLinkFails(e);
    PathPrefix(href);
    StemBeforeJar(l.file);
    var path, stem := RSplit(href, "/")[0] + "/", RSplit(l.file, ".jar")[0];
    RegroupAlternate(path, stem, "__V", v, ".jar");
  }

  /** The alternate uri is the path followed by the alternate name. */
  lemma RegroupAlternate(path: string, stem: string, mark: string, v: string, ext: string)
    ensures path + stem + mark + v + ext == path + (stem + mark + v + ext)
  {
  }

  /** Every derived entry is well formed. */
  lemma DerivedWellFormed(e: Element)
    requires DeriveLink(e).Ok?
    ensures WellFormed(DeriveLink(e).value)
  {
    var l := DeriveLink(e).value;
    if "version" in e.attrib {
      VersionedEntry(e);
      var v := e.attrib["version"];
      var stem := BeforeFirst(l.file, ".jar");
      var alt := l.altFile.value;
      assert alt == stem + "__V" + v + ".jar";
      assert alt[|stem|] == '_';
      if |stem| < |l.file| {
        assert l.file[|stem|] == l.file[|stem|..|stem| + 4][0] == '.';
      } else {
        assert |alt| > |l.file|;
      }
    }
  }

  /** `dir + "/" + tail` with no `/` in `dir` is cut at its first `/` after `dir`. */
  lemma CutAfterDir(href: string, dir: string, tail: string)
    requires href == dir + "/" + tail && '/' !in dir
    ensures Find(href, "/") == Some(|dir|)
    ensures href[|dir| + 1..] == tail && href[..|dir| + 1] == dir + "/"
    ensures BeforeFirst(href, "/") == dir
  {
    assert href[..|dir|] == dir && href[|dir|..|dir| + 1] == "/";
    BeforeFirstAt(href, "/", |dir|);
  }

  /** `name + ".jar"` with no `/` and no `.jar` in `name` has no `/` and is cut before `.jar` at
      `name`: no occurrence can straddle the end of `name`, since `.` does not recur in `.jar`. */
  lemma JarName(name: string)
    requires '/' !in name && Find(name, ".jar").None?
    ensures BeforeFirst(name + ".jar", "/") == name + ".jar"
    ensures BeforeFirst(name + ".jar", ".jar") == name
  {
    var file := name + ".jar";
    assert '/' !in file by {
      assert file == name + ['.', 'j', 'a', 'r'];
    }
    BeforeFirstNone(file, "/");
    assert file[..|name|] == name && file[|name|..|name| + 4] == ".jar";
    forall k: nat | k < |name| ensures !OccursAt(file, ".jar", k) {
      if k + 4 <= |name| {
        OccursInPrefix(file, ".jar", |name|, k);
      } else {
        var d := |name| - k;
        assert file[k + d] == '.' != ".jar"[d];
        assert file[k..k + 4][d] == file[k + d];
      }
    }
    BeforeFirstIs(file, ".jar", |name|);
  }

  /** For an `href` of the form `dir/sub/rest` (no `/` in `dir` or `sub`) the file name is `sub`,
      the second segment and not the last one, and the path is `dir/`. */
  lemma NestedHref(e: Element, dir: string, sub: string, rest: string)
    requires "href" in e.attrib && e.attrib["href"] == dir + "/" + sub + "/" + rest
    requires '/' !in dir && '/' !in sub
    ensures DeriveLink(e).Ok? && DeriveLink(e).value.file == sub
    ensures RSplit(e.attrib["href"], "/")[0] + "/" == dir + "/"
  {
    var href := e.attrib["href"];
    var tail := sub + "/" + rest;
    assert href == dir + "/" + tail;
    CutAfterDir(href, dir, tail);
    DeriveLinkFails(e);
    FileIsSecondSegment(e);
    PathPrefix(href);
    CutAfterDir(tail, sub, rest);
  }

  /** For a versioned `href` of the form `dir/name.jar` (no `/` in `dir`, no `/` and no `.jar` in
      `name`) at version `v`, the file name is `name.jar`, the versioned uri is
      `dir/name.jar?version-id=v`, the alternate file name `name__Vv.jar` and the alternate uri
      `dir/` followed by it. */
  lemma VersionedHref(e: Element, dir: string, name: string, v: string)
    requires "href" in e.attrib && e.attrib["href"] == dir + "/" + name + ".jar"
    requires "version" in e.attrib && e.attrib["version"] == v
    requires '/' !in dir && '/' !in name && Find(name, ".jar").None?
    ensures DeriveLink(e).Ok?
    ensures var l := DeriveLink(e).value;
      && l.file == name + ".jar"
      && l.versioned == Some(e.attrib["href"] + "?version-id=" + v)
      && l.altFile == Some(name + "__V" + v + ".jar")
      && l.alt == Some(dir + "/" + l.altFile.value)
  {
    var href := e.attrib["href"];
    assert href == dir + "/" + (name + ".jar");
    CutAfterDir(href, dir, name + ".jar");
    JarName(name);
    DeriveLinkFails(e);
    FileIsSecondSegment(e);
    VersionedEntry(e);
  }

  /** The resource list built from `elems`: their entries in order, or the error of the first
      element whose entry cannot be derived. */
  function DeriveLinks(elems: seq<Element>): Result<seq<Link>, LinkError>
    decreases |elems|
  {
    if elems == [] then Ok([])
    else
      match DeriveLinks(elems[..|elems| - 1])
      case Err(e) => Err(e)
      case Ok(links) =>
        match DeriveLink(elems[|elems| - 1])
        case Err(e) => Err(e)
        case Ok(l) => Ok(links + [l])
  }

  /** The list exists exactly when every element yields an entry; it then holds one entry per
      element, in the same order. */
  lemma {:induction false} DeriveLinksOk(elems: seq<Element>)
    ensures DeriveLinks(elems).Ok? <==> forall k :: 0 <= k < |elems| ==> DeriveLink(elems[k]).Ok?
    ensures DeriveLinks(elems).Ok? ==>
      && |DeriveLinks(elems).value| == |elems|
      && forall k :: 0 <= k < |elems| ==> DeriveLink(elems[k]) == Ok(DeriveLinks(elems).value[k])
    decreases |elems|
  {
    if elems != [] {
      var init := elems[..|elems| - 1];
      DeriveLinksOk(init);
      assert forall k :: 0 <= k < |init| ==> init[k] == elems[k];
    }
  }

  /** When the list cannot be built, its error is that of the first failing element. */
  lemma {:induction false} DeriveLinksErr(elems: seq<Element>)
    requires DeriveLinks(elems).Err?
    ensures exists k ::
      && 0 <= k < |elems|
      && DeriveLink(elems[k]) == Err(DeriveLinks(elems).error)
      && (forall j :: 0 <= j < k ==> DeriveLink(elems[j]).Ok?)
    decreases |elems|
  {
    var init := elems[..|elems| - 1];
    assert forall k :: 0 <= k < |init| ==> init[k] == elems[k];
    if DeriveLinks(init).Err? {
      DeriveLinksErr(init);
      var k :| 0 <= k < |init| && DeriveLink(init[k]) == Err(DeriveLinks(init).error)
        && forall j :: 0 <= j < k ==> DeriveLink(init[j]).Ok?;
      assert DeriveLink(elems[k]) == Err(DeriveLinks(elems).error);
    } else {
      DeriveLinksOk(init);
      var k := |elems| - 1;
      assert forall j :: 0 <= j < k ==> DeriveLink(elems[j]).Ok?;
    }
  }

  /** Appending one element to `elems` appends its entry, or stops at the first error. */
  lemma DeriveLinksSnoc(elems: seq<Element>, e: Element)
    ensures DeriveLinks(elems + [e]) ==
      match DeriveLinks(elems)
      case Err(err) => Err(err)
      case Ok(links) => match DeriveLink(e) case Err(err) => Err(err) case Ok(l) => Ok(links + [l])
  {
    assert (elems + [e])[..|elems|] == elems;
  }

  /** A failure among the first elements is the failure of the whole list. */
  lemma {:induction false} DeriveLinksErrPrefix(a: seq<Element>, b: seq<Element>)
    requires DeriveLinks(a).Err?
    ensures DeriveLinks(a + b) == DeriveLinks(a)
    decreases |b|
  {
    if b != [] {
      assert (a + b)[..|a + b| - 1] == a + b[..|b| - 1];
      DeriveLinksErrPrefix(a, b[..|b| - 1]);
    } else {
      assert a + b == a;
    }
  }

  /** The script's `jnlplinks`: one entry per `jar` element, then one per `nativelib` element. */
  function ResourceList(doc: Document): Result<seq<Link>, LinkError> {
    DeriveLinks(Iter(doc, "jar") + Iter(doc, "nativelib"))
  }

  /** The list of two runs of elements exists exactly when the list of each does, and is their
      concatenation. */
  lemma {:induction false} DeriveLinksAppend(a: seq<Element>, b: seq<Element>)
    ensures DeriveLinks(a + b).Ok? <==> DeriveLinks(a).Ok? && DeriveLinks(b).Ok?
    ensures DeriveLinks(a + b).Ok? ==> DeriveLinks(a + b).value == DeriveLinks(a).value + DeriveLinks(b).value
    decreases |b|
  {
    if b == [] {
      assert a + b == a;
    } else {
      var init, e := b[..|b| - 1], b[|b| - 1];
      assert a + b == (a + init) + [e];
      assert b == init + [e];
      DeriveLinksAppend(a, init);
      DeriveLinksSnoc(a + init, e);
      DeriveLinksSnoc(init, e);
      if DeriveLinks(a + b).Ok? {
        var x, y, z := DeriveLinks(a).value, DeriveLinks(init).value, DeriveLink(e).value;
        assert (x + y) + [z] == x + (y + [z]);
      }
    }
  }

  /** `jnlplinks` is the list of the `jar` elements followed by the list of the `nativelib`
      elements, each in document order: it exists exactly when both do. */
  lemma ResourceListShape(doc: Document)
    ensures var jars, natives := DeriveLinks(Iter(doc, "jar")), DeriveLinks(Iter(doc, "nativelib"));
      && (ResourceList(doc).Ok? <==> jars.Ok? && natives.Ok?)
      && (ResourceList(doc).Ok? ==> ResourceList(doc).value == jars.value + natives.value)
  {
    DeriveLinksAppend(Iter(doc, "jar"), Iter(doc, "nativelib"));
  }

  /** Every entry of a built resource list is well formed. */
  lemma ResourceListWellFormed(doc: Document)
    requires ResourceList(doc).Ok?
    ensures forall l :: l in ResourceList(doc).value ==> WellFormed(l)
  {
    var elems := Iter(doc, "jar") + Iter(doc, "nativelib");
    var links := ResourceList(doc).value;
    DeriveLinksOk(elems);
    forall l | l in links ensures WellFormed(l) {
      var k :| 0 <= k < |links| && links[k] == l;
      DerivedWellFormed(elems[k]);
    }
  }

  lemma ExtendPrefix(a: seq<Element>, b: seq<Element>, k: nat)
    requires k < |b|
    ensures a + b[..k + 1] == (a + b[..k]) + [b[k]]
    ensures (a + b[..k + 1]) + b[k + 1..] == a + b
  {
    assert b[..k + 1] + b[k + 1..] == b;
  }

  /** One of the script's two loops that fill `jnlplinks` and bump the counter `i`: it derives
      the entry of each element in turn and appends it, after the entries already built from
      `before`. An element whose entry cannot be derived raises, ending the loop and the
      script. */
  method AppendEntries(before: seq<Element>, elems: seq<Element>, links0: seq<Link>, count0: nat)
    returns (r: Result<seq<Link>, LinkError>, count: nat)
    requires DeriveLinks(before) == Ok(links0)
    ensures r == DeriveLinks(before + elems)
    ensures r.Ok? ==> count == count0 + |r.value| - |links0|
  {
    var links := links0;
    count := count0;
    var k := 0;
    assert before + elems[..0] == before;
    while k < |elems|
      invariant 0 <= k <= |elems|
      invariant DeriveLinks(before + elems[..k]) == Ok(links)
      invariant |links| == |links0| + k && count == count0 + k
    {
      ExtendPrefix(before, elems, k);
      var d := DeriveLink(elems[k]);
      DeriveLinksSnoc(before + elems[..k], elems[k]);
      if d.Err? {
        DeriveLinksErrPrefix(before + elems[..k + 1], elems[k + 1..]);
        return Err(d.error), count;
      }
      links := links + [d.value];
      count := count + 1;
      k := k + 1;
    }
    assert elems[..k] == elems;
    r := Ok(links);
  }

  /** The script's two loops, over the `jar` elements and then over the `nativelib` elements,
      with the list and the counter starting empty and at zero. */
  method BuildLinks(doc: Document) returns (r: Result<seq<Link>, LinkError>, count: nat)
    ensures r == ResourceList(doc)
    ensures r.Ok? ==> count == |r.value|
  {
    var jars, natives := Iter(doc, "jar"), Iter(doc, "nativelib");
    assert [] + jars == jars;
    r, count := AppendEntries([], jars, [], 0);
    if r.Err? {
      DeriveLinksErrPrefix(jars, natives);
      return;
    }
    r, count := AppendEntries(jars, natives, r.value, count);
  }
}
