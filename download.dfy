/** The download loop: for each resource entry the direct request, and when it fails and the
    entry has version information, the versioned and the alternate requests, each saving its
    body when the status is 200. */
module Download {
  import opened Wrappers
  import opened Descriptor
  import opened Credentials

  newtype byte = x: int | 0 <= x < 256

  /** A GET made through the script's session: the url, the authentication the session carries,
      and the cookies passed with this one request. */
  datatype Request = Get(url: string, auth: Auth, cookies: map<string, string>)

  datatype Response = Response(status: int, content: seq<byte>)

  /** The HTTP side, as an oracle from a request to its response. */
  type Server = Request -> Response

  /** The output directory: file name to content. */
  type Directory = map<string, seq<byte>>

  /** One url the script may request for an entry, and the file name its body is saved under. */
  datatype Candidate = Candidate(uri: string, target: string)

  /** The candidates of an entry in the order they are tried: the direct uri saved under the plain
      name, then the versioned uri saved under the plain name, then the alternate uri saved
      under the alternate name, each of the last two only when the entry has it. */
  function Candidates(l: Link): seq<Candidate> {
    [Candidate(l.uri, l.file)]
    + (if l.versioned.Some? then [Candidate(l.versioned.value, l.file)] else [])
    + (if l.alt.Some? && l.altFile.Some? then [Candidate(l.alt.value, l.altFile.value)] else [])
  }

  function RequestFor(base: string, c: Candidate, auth: Auth): Request {
    Get(base + c.uri, auth, map[])
  }

  predicate Succeeds(server: Server, base: string, c: Candidate, auth: Auth) {
    server(RequestFor(base, c, auth)).status == 200
  }

  /** The candidates actually requested: only the direct one when it succeeds, otherwise every
      candidate, whatever the versioned request returned. */
  function Tried(base: string, l: Link, server: Server, auth: Auth): seq<Candidate> {
    var cs := Candidates(l);
    if Succeeds(server, base, cs[0], auth) then cs[..1] else cs
  }

  /** The requests made for a list of candidates, in order. */
  function Requests(base: string, cs: seq<Candidate>, auth: Auth): seq<Request> {
    seq(|cs|, k requires 0 <= k < |cs| => RequestFor(base, cs[k], auth))
  }

  /** The directory after requesting each candidate in turn and saving every 200 body under the
      candidate's target name. */
  function Saved(dir: Directory, base: string, cs: seq<Candidate>, server: Server, auth: Auth): Directory
    decreases |cs|
  {
    if cs == [] then dir
    else
      var d, c := Saved(dir, base, cs[..|cs| - 1], server, auth), cs[|cs| - 1];
      var resp := server(RequestFor(base, c, auth));
      if resp.status == 200 then d[c.target := resp.content] else d
  }

  /** The requests made for one entry. */
  function ResourceRequests(base: string, l: Link, server: Server, auth: Auth): seq<Request> {
    Requests(base, Tried(base, l, server, auth), auth)
  }

  /** The directory after the attempts for one entry. */
  function ResourceSaved(dir: Directory, base: string, l: Link, server: Server, auth: Auth): Directory {
    Saved(dir, base, Tried(base, l, server, auth), server, auth)
  }

  /** Requesting one more candidate saves its body when the status is 200 and leaves the
      directory alone otherwise. */
  lemma SavedSnoc(dir: Directory, base: string, cs: seq<Candidate>, c: Candidate, server: Server, auth: Auth)
    ensures Saved(dir, base, cs + [c], server, auth) ==
      (var resp := server(RequestFor(base, c, auth));
       if resp.status == 200 then Saved(dir, base, cs, server, auth)[c.target := resp.content]
       else Saved(dir, base, cs, server, auth))
  {
    assert (cs + [c])[..|cs|] == cs;
  }

  /** One attempt of the script: request `c` and save the body under its target when the status
      is 200. */
  method Attempt(base: string, c: Candidate, server: Server, auth: Auth,
                 ghost done: seq<Candidate>, dir0: Directory, dir: Directory, sent: seq<Request>)
    returns (dir': Directory, sent': seq<Request>, ok: bool)
    requires dir == Saved(dir0, base, done, server, auth)
    requires sent == Requests(base, done, auth)
    ensures dir' == Saved(dir0, base, done + [c], server, auth)
    ensures sent' == Requests(base, done + [c], auth)
    ensures ok <==> Succeeds(server, base, c, auth)
  {
    var req := Get(base + c.uri, auth, map[]);
    var resp := server(req);
    sent' := sent + [req];
    ok := resp.status == 200;
    dir' := if ok then dir[c.target := resp.content] else dir;
    SavedSnoc(dir0, base, done, c, server, auth);
  }

  /** The body of the download loop for one entry, as the script writes it: the direct request;
      when it does not return 200, the versioned request if there is one and then the alternate
      request if there is one. */
  method DownloadResource(base: string, l: Link, server: Server, auth: Auth, dir0: Directory)
    returns (dir: Directory, sent: seq<Request>)
    ensures sent == ResourceRequests(base, l, server, auth)
    ensures dir == ResourceSaved(dir0, base, l, server, auth)
  {
    var ok;
    ghost var done: seq<Candidate> := [];
    assert [] + [Candidate(l.uri, l.file)] == [Candidate(l.uri, l.file)];
    dir, sent, ok := Attempt(base, Candidate(l.uri, l.file), server, auth, done, dir0, dir0, []);
    done := [Candidate(l.uri, l.file)];
    if !ok {
      if l.versioned.Some? {
        dir, sent, ok := Attempt(base, Candidate(l.versioned.value, l.file), server, auth, done, dir0, dir, sent);
        done := done + [Candidate(l.versioned.value, l.file)];
      }
      if l.alt.Some? && l.altFile.Some? {
        dir, sent, ok := Attempt(base, Candidate(l.alt.value, l.altFile.value), server, auth, done, dir0, dir, sent);
        done := done + [Candidate(l.alt.value, l.altFile.value)];
      }
      assert done == Candidates(l);
    } else {
      assert done == Candidates(l)[..1];
    }
  }

  /** Some requested candidate with target `name` returned 200. */
  predicate SavedAs(server: Server, base: string, cs: seq<Candidate>, auth: Auth, name: string) {
    exists i :: 0 <= i < |cs| && cs[i].target == name && Succeeds(server, base, cs[i], auth)
  }

  /** A name is in the directory afterwards exactly when it was before or some candidate saved
      under it returned 200. */
  lemma {:induction false} SavedNames(dir: Directory, base: string, cs: seq<Candidate>, server: Server, auth: Auth, name: string)
    ensures name in Saved(dir, base, cs, server, auth) <==> name in dir || SavedAs(server, base, cs, auth, name)
    decreases |cs|
  {
    if cs != [] {
      var init, last := cs[..|cs| - 1], cs[|cs| - 1];
      SavedNames(dir, base, init, server, auth, name);
      if SavedAs(server, base, init, auth, name) {
        var i :| 0 <= i < |init| && init[i].target == name && Succeeds(server, base, init[i], auth);
        assert cs[i] == init[i];
      }
      if SavedAs(server, base, cs, auth, name) && !(last.target == name && Succeeds(server, base, last, auth)) {
        var i :| 0 <= i < |cs| && cs[i].target == name && Succeeds(server, base, cs[i], auth);
        assert i < |init| && init[i] == cs[i];
      }
    }
  }

  /** A successful candidate that no later successful candidate overwrites leaves its body
      under its target. */
  lemma {:induction false} SavedLastWins(dir: Directory, base: string, cs: seq<Candidate>, server: Server, auth: Auth, i: nat)
    requires i < |cs| && Succeeds(server, base, cs[i], auth)
    requires forall j :: i < j < |cs| && cs[j].target == cs[i].target ==> !Succeeds(server, base, cs[j], auth)
    ensures cs[i].target in Saved(dir, base, cs, server, auth)
    ensures Saved(dir, base, cs, server, auth)[cs[i].target] == server(RequestFor(base, cs[i], auth)).content
    decreases |cs|
  {
    var init := cs[..|cs| - 1];
    if i < |cs| - 1 {
      assert init[i] == cs[i];
      forall j | i < j < |init| && init[j].target == init[i].target
        ensures !Succeeds(server, base, init[j], auth)
      {
        assert init[j] == cs[j];
      }
      SavedLastWins(dir, base, init, server, auth, i);
    }
  }

  /** A name no successful candidate is saved under keeps its old entry, or its absence. */
  lemma {:induction false} SavedUntouched(dir: Directory, base: string, cs: seq<Candidate>, server: Server, auth: Auth, name: string)
    requires !SavedAs(server, base, cs, auth, name)
    ensures name in Saved(dir, base, cs, server, auth) <==> name in dir
    ensures name in dir ==> Saved(dir, base, cs, server, auth)[name] == dir[name]
    decreases |cs|
  {
    if cs != [] {
      var init := cs[..|cs| - 1];
      forall i | 0 <= i < |init| && init[i].target == name
        ensures !Succeeds(server, base, init[i], auth)
      {
        assert cs[i] == init[i];
      }
      SavedUntouched(dir, base, init, server, auth, name);
    }
  }

  /** When every requested candidate fails, the directory is left as it was. */
  lemma {:induction false} NothingSavedOnFailure(dir: Directory, base: string, cs: seq<Candidate>, server: Server, auth: Auth)
    requires forall i :: 0 <= i < |cs| ==> !Succeeds(server, base, cs[i], auth)
    ensures Saved(dir, base, cs, server, auth) == dir
    decreases |cs|
  {
    if cs != [] {
      NothingSavedOnFailure(dir, base, cs[..|cs| - 1], server, auth);
    }
  }

  /** A direct request returning 200 is the only request for the entry, and its body is saved
      under the entry's file name. */
  lemma DirectSuccess(dir: Directory, base: string, l: Link, server: Server, auth: Auth)
    requires server(Get(base + l.uri, auth, map[])).status == 200
    ensures ResourceRequests(base, l, server, auth) == [Get(base + l.uri, auth, map[])]
    ensures ResourceSaved(dir, base, l, server, auth) == dir[l.file := server(Get(base + l.uri, auth, map[])).content]
  {
    assert Tried(base, l, server, auth) == [] + [Candidate(l.uri, l.file)];
    SavedSnoc(dir, base, [], Candidate(l.uri, l.file), server, auth);
  }

  /** When the direct request fails, the versioned and the alternate requests are both made
      whenever the entry carries a version, whatever the versioned request returns. */
  lemma FallbackRequests(base: string, l: Link, server: Server, auth: Auth)
    requires WellFormed(l)
    requires server(Get(base + l.uri, auth, map[])).status != 200
    ensures l.versioned.None? ==> ResourceRequests(base, l, server, auth) == [Get(base + l.uri, auth, map[])]
    ensures l.versioned.Some? ==>
      ResourceRequests(base, l, server, auth) ==
        [Get(base + l.uri, auth, map[]), Get(base + l.versioned.value, auth, map[]), Get(base + l.alt.value, auth, map[])]
  {
    var r := ResourceRequests(base, l, server, auth);
    if l.versioned.Some? {
      assert |r| == 3 && r[0] == Get(base + l.uri, auth, map[]);
      assert r[1] == Get(base + l.versioned.value, auth, map[]);
      assert r[2] == Get(base + l.alt.value, auth, map[]);
    } else {
      assert |r| == 1 && r[0] == Get(base + l.uri, auth, map[]);
    }
  }

  /** When the direct request of a versioned entry fails, the plain name holds the versioned
      body if that request returned 200, the alternate name holds the alternate body if that
      one did, and every other name is left alone; the two saves never overwrite each other. */
  lemma FallbackSaves(dir: Directory, base: string, l: Link, server: Server, auth: Auth, name: string)
    requires WellFormed(l) && l.versioned.Some?
    requires server(Get(base + l.uri, auth, map[])).status != 200
    ensures var d, v, a := ResourceSaved(dir, base, l, server, auth),
                           server(Get(base + l.versioned.value, auth, map[])),
                           server(Get(base + l.alt.value, auth, map[]));
      && (v.status == 200 ==> l.file in d && d[l.file] == v.content)
      && (a.status == 200 ==> l.altFile.value in d && d[l.altFile.value] == a.content)
      && (v.status != 200 ==> (l.file in d <==> l.file in dir) && (l.file in dir ==> d[l.file] == dir[l.file]))
      && (a.status != 200 ==> (l.altFile.value in d <==> l.altFile.value in dir)
                              && (l.altFile.value in dir ==> d[l.altFile.value] == dir[l.altFile.value]))
      && (name != l.file && name != l.altFile.value ==> (name in d <==> name in dir) && (name in dir ==> d[name] == dir[name]))
  {
    var cs := Candidates(l);
    assert Tried(base, l, server, auth) == cs;
    assert |cs| == 3 && cs[1] == Candidate(l.versioned.value, l.file) && cs[2] == Candidate(l.alt.value, l.altFile.value);
    if server(Get(base + l.versioned.value, auth, map[])).status == 200 {
      SavedLastWins(dir, base, cs, server, auth, 1);
    } else {
      SavedUntouched(dir, base, cs, server, auth, l.file);
    }
    if server(Get(base + l.alt.value, auth, map[])).status == 200 {
      SavedLastWins(dir, base, cs, server, auth, 2);
    } else {
      SavedUntouched(dir, base, cs, server, auth, l.altFile.value);
    }
    if name != l.file && name != l.altFile.value {
      SavedUntouched(dir, base, cs, server, auth, name);
    }
  }

  /** The requests of each entry in turn, joined. */
  function Flatten(f: Link -> seq<Request>, links: seq<Link>): seq<Request>
    decreases |links|
  {
    if links == [] then [] else Flatten(f, links[..|links| - 1]) + f(links[|links| - 1])
  }

  lemma {:induction false} FlattenConcat(f: Link -> seq<Request>, a: seq<Link>, b: seq<Link>)
    ensures Flatten(f, a + b) == Flatten(f, a) + Flatten(f, b)
    decreases |b|
  {
    if b == [] {
      assert a + b == a;
    } else {
      var ab, init := a + b, b[..|b| - 1];
      assert ab[..|ab| - 1] == a + init;
      assert ab[|ab| - 1] == b[|b| - 1];
      FlattenConcat(f, a, init);
    }
  }

  /** The requests the download loop makes for a list of entries. */
  function RunRequests(base: string, links: seq<Link>, server: Server, auth: Auth): seq<Request> {
    Flatten(l => ResourceRequests(base, l, server, auth), links)
  }

  /** The directory after the download loop over a list of entries. */
  function RunSaved(dir: Directory, base: string, links: seq<Link>, server: Server, auth: Auth): Directory
    decreases |links|
  {
    if links == [] then dir
    else ResourceSaved(RunSaved(dir, base, links[..|links| - 1], server, auth), base, links[|links| - 1], server, auth)
  }

  /** One more entry of the loop. */
  lemma RunStep(dir: Directory, base: string, links: seq<Link>, k: nat, server: Server, auth: Auth)
    requires k < |links|
    ensures RunRequests(base, links[..k + 1], server, auth) ==
      RunRequests(base, links[..k], server, auth) + ResourceRequests(base, links[k], server, auth)
    ensures RunSaved(dir, base, links[..k + 1], server, auth) ==
      ResourceSaved(RunSaved(dir, base, links[..k], server, auth), base, links[k], server, auth)
  {
    assert links[..k + 1][..k] == links[..k];
  }

  /** The requests for two runs of entries, one after the other, are those of the whole run:
      what an entry's requests are does not depend on the entries before it. */
  lemma RunRequestsConcat(base: string, a: seq<Link>, b: seq<Link>, server: Server, auth: Auth)
    ensures RunRequests(base, a + b, server, auth) == RunRequests(base, a, server, auth) + RunRequests(base, b, server, auth)
  {
    FlattenConcat(l => ResourceRequests(base, l, server, auth), a, b);
  }

  /** Every entry's direct request is made, whatever happened to the entries before it. */
  lemma EveryResourceAttempted(base: string, links: seq<Link>, server: Server, auth: Auth, k: nat)
    requires k < |links|
    ensures Get(base + links[k].uri, auth, map[]) in RunRequests(base, links, server, auth)
  {
    assert links == links[..k + 1] + links[k + 1..];
    RunRequestsConcat(base, links[..k + 1], links[k + 1..], server, auth);
    RunStep(map[], base, links, k, server, auth);
    assert ResourceRequests(base, links[k], server, auth)[0] == Get(base + links[k].uri, auth, map[]);
  }

  /** Every request of the loop is the request for one of the candidates of one of the entries:
      the codebase followed by that candidate's uri, through the session's authentication, with
      no cookies of its own. */
  lemma {:induction false} RequestsAreCodebaseRelative(base: string, links: seq<Link>, server: Server, auth: Auth)
    ensures forall r :: r in RunRequests(base, links, server, auth) ==>
      exists k, c :: 0 <= k < |links| && c in Candidates(links[k]) && r == Get(base + c.uri, auth, map[])
    ensures forall r :: r in RunRequests(base, links, server, auth) ==>
      && r.auth == auth && r.cookies == map[]
      && |base| <= |r.url| && r.url[..|base|] == base
    decreases |links|
  {
    if links != [] {
      var init, l := links[..|links| - 1], links[|links| - 1];
      RequestsAreCodebaseRelative(base, init, server, auth);
      forall r | r in RunRequests(base, init, server, auth)
        ensures exists k, c :: 0 <= k < |links| && c in Candidates(links[k]) && r == Get(base + c.uri, auth, map[])
      {
        var k, c :| 0 <= k < |init| && c in Candidates(init[k]) && r == Get(base + c.uri, auth, map[]);
        assert init[k] == links[k];
      }
      var rs, cs := ResourceRequests(base, l, server, auth), Tried(base, l, server, auth);
      forall r | r in rs
        ensures exists k, c :: 0 <= k < |links| && c in Candidates(links[k]) && r == Get(base + c.uri, auth, map[])
        ensures r.auth == auth && r.cookies == map[] && |base| <= |r.url| && r.url[..|base|] == base
      {
        var i :| 0 <= i < |rs| && rs[i] == r;
        var c := cs[i];
        assert c in Candidates(l);
        assert r == Get(base + c.uri, auth, map[]);
        assert (base + c.uri)[..|base|] == base;
      }
    }
  }

  /** A name that is neither the file name nor the alternate name of any entry keeps its old
      entry, or its absence, through the whole loop. */
  lemma {:induction false} RunOnlyTargetsChange(dir: Directory, base: string, links: seq<Link>, server: Server, auth: Auth, name: string)
    requires forall k :: 0 <= k < |links| ==>
      name != links[k].file && (links[k].altFile.Some? ==> name != links[k].altFile.value)
    ensures name in RunSaved(dir, base, links, server, auth) <==> name in dir
    ensures name in dir ==> RunSaved(dir, base, links, server, auth)[name] == dir[name]
    decreases |links|
  {
    if links != [] {
      var init, l := links[..|links| - 1], links[|links| - 1];
      assert forall k :: 0 <= k < |init| ==> init[k] == links[k];
      RunOnlyTargetsChange(dir, base, init, server, auth, name);
      var cs := Tried(base, l, server, auth);
      forall i | 0 <= i < |cs| ensures cs[i].target != name {
        assert cs[i] in Candidates(l);
      }
      SavedUntouched(RunSaved(dir, base, init, server, auth), base, cs, server, auth, name);
    }
  }

  /** The requests of a single entry are those the loop makes for it. */
  lemma RunRequestsSingle(base: string, l: Link, server: Server, auth: Auth)
    ensures RunRequests(base, [l], server, auth) == ResourceRequests(base, l, server, auth)
  {
    var f := l' => ResourceRequests(base, l', server, auth);
    assert [l][..0] == [];
    assert Flatten(f, [l]) == Flatten(f, []) + f(l);
    assert [] + f(l) == f(l);
  }

  /** When none of the loop's requests is answered with 200, the loop saves nothing. */
  lemma {:induction false} RunNothingSaved(dir: Directory, base: string, links: seq<Link>, server: Server, auth: Auth)
    requires forall r :: r in RunRequests(base, links, server, auth) ==> server(r).status != 200
    ensures RunSaved(dir, base, links, server, auth) == dir
    decreases |links|
  {
    if links != [] {
      var init, l := links[..|links| - 1], links[|links| - 1];
      assert links == init + [l];
      RunRequestsConcat(base, init, [l], server, auth);
      RunRequestsSingle(base, l, server, auth);
      RunNothingSaved(dir, base, init, server, auth);
      var cs, rs := Tried(base, l, server, auth), ResourceRequests(base, l, server, auth);
      forall i | 0 <= i < |cs| ensures !Succeeds(server, base, cs[i], auth) {
        assert rs[i] == RequestFor(base, cs[i], auth) && rs[i] in rs;
      }
      NothingSavedOnFailure(dir, base, cs, server, auth);
    }
  }

  /** The download loop over `jnlplinks`: an entry whose every attempt fails is simply passed
      over. */
  method DownloadAll(base: string, links: seq<Link>, server: Server, auth: Auth, dir0: Directory)
    returns (dir: Directory, sent: seq<Request>)
    ensures sent == RunRequests(base, links, server, auth)
    ensures dir == RunSaved(dir0, base, links, server, auth)
  {
    dir, sent := dir0, [];
    for k := 0 to |links|
      invariant sent == RunRequests(base, links[..k], server, auth)
      invariant dir == RunSaved(dir0, base, links[..k], server, auth)
    {
      var d, s := DownloadResource(base, links[k], server, auth, dir);
      RunStep(dir0, base, links, k, server, auth);
      dir, sent := d, sent + s;
    }
    assert links[..|links|] == links;
  }
}
