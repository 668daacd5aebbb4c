/** The Python `str` operations the script relies on: searching for a separator, `split` (which
    scans from the left) and `rsplit` without a `maxsplit` (which scans from the right). */
module PyStrings {
  import opened Wrappers

  /** `sep` occurs in `s` starting at index `i`. */
  predicate OccursAt(s: string, sep: string, i: nat) {
    i + |sep| <= |s| && s[i..i + |sep|] == sep
  }

  /** The lowest index at or after `from` where `sep` occurs, as `s.find(sep, from)`. */
  function FindFrom(s: string, sep: string, from: nat): (r: Option<nat>)
    requires |sep| > 0
    decreases |s| - from
    ensures r.Some? ==> from <= r.value && OccursAt(s, sep, r.value)
    ensures r.Some? ==> forall k :: from <= k < r.value ==> !OccursAt(s, sep, k)
    ensures r.None? ==> forall k: nat :: from <= k ==> !OccursAt(s, sep, k)
  {
    if |s| < from + |sep| then None
    else if s[from..from + |sep|] == sep then Some(from)
    else FindFrom(s, sep, from + 1)
  }

  /** The first occurrence of `sep` in `s`, as `s.find(sep)`. */
  function Find(s: string, sep: string): (r: Option<nat>)
    requires |sep| > 0
    ensures r.Some? ==> OccursAt(s, sep, r.value) && forall k: nat :: k < r.value ==> !OccursAt(s, sep, k)
    ensures r.None? ==> forall k: nat :: !OccursAt(s, sep, k)
  {
    FindFrom(s, sep, 0)
  }

  /** The highest index below `n` where `sep` occurs. */
  function RFindBelow(s: string, sep: string, n: nat): (r: Option<nat>)
    requires |sep| > 0
    ensures r.Some? ==> r.value < n && OccursAt(s, sep, r.value)
    ensures r.Some? ==> forall k :: r.value < k < n ==> !OccursAt(s, sep, k)
    ensures r.None? ==> forall k: nat :: k < n ==> !OccursAt(s, sep, k)
  {
    if n == 0 then None
    else if OccursAt(s, sep, n - 1) then Some(n - 1)
    else RFindBelow(s, sep, n - 1)
  }

  /** The last occurrence of `sep` in `s`, as `s.rfind(sep)`. */
  function RFind(s: string, sep: string): (r: Option<nat>)
    requires |sep| > 0
    ensures r.Some? ==> OccursAt(s, sep, r.value) && forall k: nat :: r.value < k ==> !OccursAt(s, sep, k)
    ensures r.None? ==> forall k: nat :: !OccursAt(s, sep, k)
  {
    RFindBelow(s, sep, |s|)
  }

  /** `s.split(sep)`: the pieces between the occurrences of `sep`, found from the left. */
  function Split(s: string, sep: string): seq<string>
    requires |sep| > 0
    decreases |s|
  {
    match Find(s, sep)
    case None => [s]
    case Some(i) => [s[..i]] + Split(s[i + |sep|..], sep)
  }

  /** `s.rsplit(sep)` with no `maxsplit`: the pieces between the occurrences of `sep`, found from
      the right. */
  function RSplit(s: string, sep: string): seq<string>
    requires |sep| > 0
    decreases |s|
  {
    match RFind(s, sep)
    case None => [s]
    case Some(i) => RSplit(s[..i], sep) + [s[i + |sep|..]]
  }

  /** The text of `s` before the first occurrence of `sep`, or all of `s` when `sep` does not
      occur. */
  function BeforeFirst(s: string, sep: string): (r: string)
    requires |sep| > 0
    ensures |r| <= |s| && s[..|r|] == r
    ensures forall k: nat :: k < |r| ==> !OccursAt(s, sep, k)
    ensures |r| == |s| || OccursAt(s, sep, |r|)
  {
    match Find(s, sep)
    case None => s
    case Some(i) => s[..i]
  }

  /** No proper suffix of `sep` starts with the first character of `sep`, so two occurrences of
      `sep` can never overlap. True of "/", ";", "=" and ".jar". */
  predicate SelfDisjoint(sep: string) {
    |sep| > 0 && forall k :: 0 < k < |sep| ==> sep[k] != sep[0]
  }

  lemma CharOfOccurrence(s: string, sep: string, i: nat, k: nat)
    requires OccursAt(s, sep, i) && k < |sep|
    ensures s[i + k] == sep[k]
  {
    assert s[i..i + |sep|][k] == s[i + k];
  }

  lemma NoOverlap(s: string, sep: string, i: nat, j: nat)
    requires SelfDisjoint(sep)
    requires OccursAt(s, sep, i) && OccursAt(s, sep, j) && i < j
    ensures i + |sep| <= j
  {
    if j < i + |sep| {
      CharOfOccurrence(s, sep, i, j - i);
      assert false;
    }
  }

  lemma OccursInPrefix(s: string, sep: string, n: nat, k: nat)
    requires n <= |s|
    ensures OccursAt(s[..n], sep, k) <==> OccursAt(s, sep, k) && k + |sep| <= n
  {
    if k + |sep| <= n {
      assert s[..n][k..k + |sep|] == s[k..k + |sep|];
    }
  }

  lemma OccursInSuffix(s: string, sep: string, m: nat, k: nat)
    requires m <= |s|
    ensures OccursAt(s[m..], sep, k) <==> OccursAt(s, sep, m + k)
  {
    if m + k + |sep| <= |s| {
      assert s[m..][k..k + |sep|] == s[m + k..m + k + |sep|];
    }
  }

  /** When the first occurrence in `s` is at `j` and ends by `n`, it is also the first
      occurrence in `s[..n]`. */
  lemma FindInPrefix(s: string, sep: string, n: nat)
    requires |sep| > 0 && n <= |s|
    requires Find(s, sep).Some? && Find(s, sep).value + |sep| <= n
    ensures Find(s[..n], sep) == Find(s, sep)
  {
    var j := Find(s, sep).value;
    OccursInPrefix(s, sep, n, j);
    var f := Find(s[..n], sep);
    if f.Some? {
      OccursInPrefix(s, sep, n, f.value);
    }
  }

  /** When the last occurrence in `s` is at `i` and `m <= i`, it is the last occurrence in
      `s[m..]`, at `i - m`. */
  lemma RFindInSuffix(s: string, sep: string, m: nat)
    requires |sep| > 0 && m <= |s|
    requires RFind(s, sep).Some? && m <= RFind(s, sep).value
    ensures RFind(s[m..], sep) == Some(RFind(s, sep).value - m)
  {
    var i := RFind(s, sep).value;
    OccursInSuffix(s, sep, m, i - m);
    var f := RFind(s[m..], sep);
    if f.Some? {
      OccursInSuffix(s, sep, m, f.value);
    }
  }

  /** Nothing occurs in `s` before its first occurrence. */
  lemma NoneBeforeFirst(s: string, sep: string)
    requires |sep| > 0 && Find(s, sep).Some?
    ensures RFind(s[..Find(s, sep).value], sep).None?
  {
    var j := Find(s, sep).value;
    var f := RFind(s[..j], sep);
    if f.Some? {
      OccursInPrefix(s, sep, j, f.value);
    }
  }

  /** Nothing occurs in `s` after its last occurrence. */
  lemma NoneAfterLast(s: string, sep: string)
    requires |sep| > 0 && RFind(s, sep).Some?
    ensures Find(s[RFind(s, sep).value + |sep|..], sep).None?
  {
    var i := RFind(s, sep).value;
    var f := Find(s[i + |sep|..], sep);
    if f.Some? {
      OccursInSuffix(s, sep, i + |sep|, f.value);
    }
  }

  /** Cutting `s` just before its last occurrence `i` leaves the first occurrence `j` first, so
      `split` of `s[..i]` peels off `s[..j]` and continues with the text between the two. */
  lemma {:induction false} SplitOfPrefix(s: string, sep: string, j: nat, i: nat)
    requires |sep| > 0 && Find(s, sep) == Some(j) && j + |sep| <= i <= |s|
    ensures Split(s[..i], sep) == [s[..j]] + Split(s[j + |sep|..i], sep)
  {
    FindInPrefix(s, sep, i);
    var p, q := s[..i], s[j + |sep|..i];
    assert p[..j] == s[..j];
    assert p[j + |sep|..] == q;
    assert Find(p, sep) == Some(j);
    assert Split(p, sep) == [s[..j]] + Split(q, sep);
  }

  /** Dropping `s` up to the end of its first occurrence `j` leaves the last occurrence `i` last,
      so `rsplit` of `s[j + |sep|..]` peels off `s[i + |sep|..]` and continues with the text
      between the two. */
  lemma {:induction false} RSplitOfSuffix(s: string, sep: string, j: nat, i: nat)
    requires |sep| > 0 && RFind(s, sep) == Some(i) && j + |sep| <= i
    ensures RSplit(s[j + |sep|..], sep) == RSplit(s[j + |sep|..i], sep) + [s[i + |sep|..]]
  {
    var t := s[j + |sep|..];
    RFindInSuffix(s, sep, j + |sep|);
    assert RSplit(t, sep) == RSplit(t[..i - j - |sep|], sep) + [t[i - j - |sep| + |sep|..]];
    assert t[..i - j - |sep|] == s[j + |sep|..i];
    assert t[i - j - |sep| + |sep|..] == s[i + |sep|..];
  }

  /** One step of `split`: the text before the first occurrence, then `split` of the rest. */
  lemma SplitStep(s: string, sep: string, j: nat)
    requires |sep| > 0 && Find(s, sep) == Some(j)
    ensures Split(s, sep) == [s[..j]] + Split(s[j + |sep|..], sep)
  {
  }

  /** One step of `rsplit`: `rsplit` of the text before the last occurrence, then the rest. */
  lemma RSplitStep(s: string, sep: string, i: nat)
    requires |sep| > 0 && RFind(s, sep) == Some(i)
    ensures RSplit(s, sep) == RSplit(s[..i], sep) + [s[i + |sep|..]]
  {
  }

  lemma SplitNone(s: string, sep: string)
    requires |sep| > 0 && Find(s, sep).None?
    ensures Split(s, sep) == [s]
  {
  }

  lemma RSplitNone(s: string, sep: string)
    requires |sep| > 0 && RFind(s, sep).None?
    ensures RSplit(s, sep) == [s]
  {
  }

  /** `rsplit` at a last occurrence `i` with nothing before it gives two pieces. */
  lemma RSplitTwo(s: string, sep: string, i: nat)
    requires |sep| > 0 && RFind(s, sep) == Some(i) && RFind(s[..i], sep).None?
    ensures RSplit(s, sep) == [s[..i], s[i + |sep|..]]
  {
    RSplitStep(s, sep, i);
  }

  /** `split` at a first occurrence `i` with nothing after it gives two pieces. */
  lemma SplitTwo(s: string, sep: string, i: nat)
    requires |sep| > 0 && Find(s, sep) == Some(i) && Find(s[i + |sep|..], sep).None?
    ensures Split(s, sep) == [s[..i], s[i + |sep|..]]
  {
    SplitStep(s, sep, i);
  }

  /** With a single occurrence `i` both functions give the text before it and the text after
      it. */
  lemma SplitsOnce(s: string, sep: string, i: nat)
    requires |sep| > 0 && RFind(s, sep) == Some(i) && Find(s, sep) == Some(i)
    ensures RSplit(s, sep) == Split(s, sep)
  {
    NoneBeforeFirst(s, sep);
    NoneAfterLast(s, sep);
    RSplitTwo(s, sep, i);
    SplitTwo(s, sep, i);
  }

  /** The equational core of `RSplitIsSplit`, stated over plain sequences. `SplitsApart` passes
      the pieces in as opaque values, so that this last step is pure sequence algebra and does
      not unfold `Split` or `RSplit` again. */
  lemma Reassemble(whole: seq<string>, whole': seq<string>, front: seq<string>, front': seq<string>,
                   rest: seq<string>, rest': seq<string>, middle: seq<string>, middle': seq<string>,
                   head: string, last: string)
    requires whole == front + [last] && whole' == [head] + rest'
    requires front == front' && rest == rest' && middle == middle'
    requires front' == [head] + middle' && rest == middle + [last]
    ensures whole == whole'
  {
  }

  /** The step of `RSplitIsSplit` when the first occurrence `j` and the last occurrence `i`
      differ and the pieces in between already agree. */
  lemma SplitsApart(s: string, sep: string, j: nat, i: nat, front: string, rest: string, middle: string)
    requires |sep| > 0 && Find(s, sep) == Some(j) && RFind(s, sep) == Some(i) && j + |sep| <= i
    requires front == s[..i] && rest == s[j + |sep|..] && middle == s[j + |sep|..i]
    requires RSplit(front, sep) == Split(front, sep)
    requires RSplit(rest, sep) == Split(rest, sep)
    requires RSplit(middle, sep) == Split(middle, sep)
    ensures RSplit(s, sep) == Split(s, sep)
  {
    SplitOfPrefix(s, sep, j, i);
    RSplitOfSuffix(s, sep, j, i);
    RSplitStep(s, sep, i);
    SplitStep(s, sep, j);
    Reassemble(RSplit(s, sep), Split(s, sep), RSplit(s[..i], sep), Split(s[..i], sep),
      RSplit(s[j + |sep|..], sep), Split(s[j + |sep|..], sep),
      RSplit(s[j + |sep|..i], sep), Split(s[j + |sep|..i], sep), s[..j], s[i + |sep|..]);
  }

  /** When `sep` occurs, its first occurrence `j` comes no later than its last one `i`. */
  lemma FirstAndLast(s: string, sep: string) returns (j: nat, i: nat)
    requires |sep| > 0 && RFind(s, sep).Some?
    ensures Find(s, sep) == Some(j) && RFind(s, sep) == Some(i) && j <= i
  {
    i := RFind(s, sep).value;
    assert Find(s, sep).Some?;
    j := Find(s, sep).value;
  }

  /** `rsplit` and `split` give the same pieces for a separator whose occurrences cannot overlap. */
  lemma {:induction false} RSplitIsSplit(s: string, sep: string)
    requires SelfDisjoint(sep)
    ensures RSplit(s, sep) == Split(s, sep)
    decreases |s|
  {
    if RFind(s, sep).None? {
      assert Find(s, sep).None?;
      RSplitNone(s, sep);
      SplitNone(s, sep);
    } else {
      var j, i := FirstAndLast(s, sep);
      var n := |sep|;
      if j == i {
        SplitsOnce(s, sep, i);
      } else {
        NoOverlap(s, sep, j, i);
        var front, rest, middle := s[..i], s[j + n..], s[j + n..i];
        RSplitIsSplit(front, sep);
        RSplitIsSplit(rest, sep);
        RSplitIsSplit(middle, sep);
        SplitsApart(s, sep, j, i, front, rest, middle);
      }
    }
  }

  /** The first piece of `split` is the text before the first separator; there is a second piece
      exactly when the separator occurs, and it is the text after the first separator up to the
      next one. */
  lemma SplitPieces(s: string, sep: string)
    requires |sep| > 0
    ensures Split(s, sep)[0] == BeforeFirst(s, sep)
    ensures |Split(s, sep)| >= 2 <==> Find(s, sep).Some?
    ensures Find(s, sep).Some? ==>
      Split(s, sep)[1] == BeforeFirst(s[Find(s, sep).value + |sep|..], sep)
  {
  }

  /** For a one-character separator, `Find` is the first index holding that character. */
  lemma FindChar(s: string, c: char)
    ensures Find(s, [c]).Some? <==> c in s
    ensures Find(s, [c]).Some? ==> s[Find(s, [c]).value] == c && c !in s[..Find(s, [c]).value]
  {
    if c in s {
      var i :| 0 <= i < |s| && s[i] == c;
      assert s[i..i + 1] == [c];
      assert OccursAt(s, [c], i);
    }
    if Find(s, [c]).Some? {
      var n := Find(s, [c]).value;
      assert s[n] == s[n..n + 1][0] == c;
      forall k | 0 <= k < n ensures s[..n][k] != c {
        assert !OccursAt(s, [c], k);
        assert s[k..k + 1] == [s[k]];
      }
    }
  }

  /** An occurrence at `n` with no earlier occurrence is the first one. */
  lemma BeforeFirstIs(s: string, sep: string, n: nat)
    requires |sep| > 0 && OccursAt(s, sep, n) && forall k: nat :: k < n ==> !OccursAt(s, sep, k)
    ensures Find(s, sep) == Some(n)
    ensures BeforeFirst(s, sep) == s[..n]
  {
  }

  /** An occurrence at `n` with no earlier occurrence of the separator's first character is the
      first occurrence, so the text before it is `s[..n]`. */
  lemma BeforeFirstAt(s: string, sep: string, n: nat)
    requires |sep| > 0 && OccursAt(s, sep, n) && sep[0] !in s[..n]
    ensures Find(s, sep) == Some(n)
    ensures BeforeFirst(s, sep) == s[..n]
  {
    forall k: nat | k < n ensures !OccursAt(s, sep, k) {
      assert s[..n][k] == s[k] == s[k..k + |sep|][0];
    }
  }

  /** With no occurrence of the separator's first character, the whole text comes before it. */
  lemma BeforeFirstNone(s: string, sep: string)
    requires |sep| > 0 && sep[0] !in s
    ensures Find(s, sep) == None
    ensures BeforeFirst(s, sep) == s
  {
    forall k: nat | k + |sep| <= |s| ensures !OccursAt(s, sep, k) {
      assert s[k] == s[k..k + |sep|][0];
    }
  }
}
