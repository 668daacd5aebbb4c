/** How the script authenticates: which credentials it picks from its arguments, and how it turns
    a cookie argument into the cookies sent with the descriptor request. */
module Credentials {
  import opened Wrappers
  import opened PyStrings

  /** The command-line arguments; an argument left out is `None`. */
  datatype Args = Args(
    link: string,
    ntlmUser: Option<string>, ntlmPass: Option<string>,
    basicUser: Option<string>, basicPass: Option<string>,
    digestUser: Option<string>, digestPass: Option<string>,
    cookie: Option<string>)

  /** The authentication mode the script settles on. */
  datatype Auth =
    | Ntlm(user: string, pass: string)
    | Basic(user: string, pass: string)
    | Digest(user: string, pass: string)
    | Cookie(raw: string)
    | Anonymous

  predicate HasNtlm(a: Args) { a.ntlmUser.Some? && a.ntlmPass.Some? }
  predicate HasBasic(a: Args) { a.basicUser.Some? && a.basicPass.Some? }
  predicate HasDigest(a: Args) { a.digestUser.Some? && a.digestPass.Some? }

  /** The `if`/`elif` chain choosing the mode: NTLM, then Basic, then Digest, each needing both
      its user and its password, then a cookie, then none. */
  function SelectAuth(a: Args): (r: Auth)
    ensures r.Ntlm? <==> HasNtlm(a)
    ensures r.Basic? <==> !HasNtlm(a) && HasBasic(a)
    ensures r.Digest? <==> !HasNtlm(a) && !HasBasic(a) && HasDigest(a)
    ensures r.Cookie? <==> !HasNtlm(a) && !HasBasic(a) && !HasDigest(a) && a.cookie.Some?
    ensures r.Anonymous? <==> !HasNtlm(a) && !HasBasic(a) && !HasDigest(a) && a.cookie.None?
    ensures r.Ntlm? ==> r.user == a.ntlmUser.value && r.pass == a.ntlmPass.value
    ensures r.Basic? ==> r.user == a.basicUser.value && r.pass == a.basicPass.value
    ensures r.Digest? ==> r.user == a.digestUser.value && r.pass == a.digestPass.value
    ensures r.Cookie? ==> r.raw == a.cookie.value
  {
    if HasNtlm(a) then Ntlm(a.ntlmUser.value, a.ntlmPass.value)
    else if HasBasic(a) then Basic(a.basicUser.value, a.basicPass.value)
    else if HasDigest(a) then Digest(a.digestUser.value, a.digestPass.value)
    else if a.cookie.Some? then Cookie(a.cookie.value)
    else Anonymous
  }

  /** A user given without its password (or the other way round) is ignored: the choice is the
      same as if neither had been given. */
  lemma HalfPairIgnored(a: Args)
    ensures a.ntlmUser.Some? != a.ntlmPass.Some? ==>
      SelectAuth(a) == SelectAuth(a.(ntlmUser := None, ntlmPass := None))
    ensures a.basicUser.Some? != a.basicPass.Some? ==>
      SelectAuth(a) == SelectAuth(a.(basicUser := None, basicPass := None))
    ensures a.digestUser.Some? != a.digestPass.Some? ==>
      SelectAuth(a) == SelectAuth(a.(digestUser := None, digestPass := None))
  {
  }

  /** `re.search('[a-zA-Z0-9]', s)` on a byte string. */
  predicate HasAlnum(s: string) {
    exists i :: 0 <= i < |s| && ('a' <= s[i] <= 'z' || 'A' <= s[i] <= 'Z' || '0' <= s[i] <= '9')
  }

  /** A `;`-separated segment the script keeps: it holds an alphanumeric character and an `=`. */
  predicate IsCookieSegment(seg: string) {
    HasAlnum(seg) && '=' in seg
  }

  /** `seg.split('=')[0]`, the cookie's name. */
  function CookieName(seg: string): string {
    Split(seg, "=")[0]
  }

  /** `seg.split('=')[1]`, the cookie's value. */
  function CookieValue(seg: string): string
    requires '=' in seg
  {
    FindChar(seg, '=');
    SplitPieces(seg, "=");
    Split(seg, "=")[1]
  }

  /** The name is the text before the first `=`; the value is the text after it, up to the next
      `=` or the end. */
  lemma CookieParts(seg: string)
    requires '=' in seg
    ensures Find(seg, "=").Some?
    ensures CookieName(seg) == BeforeFirst(seg, "=")
    ensures CookieValue(seg) == BeforeFirst(seg[Find(seg, "=").value + 1..], "=")
  {
    FindChar(seg, '=');
    SplitPieces(seg, "=");
  }

  /** The dictionary the loop over `;`-separated segments builds: each kept segment, in order,
      stores its value under its name. */
  function CookieJar(segs: seq<string>): map<string, string>
    decreases |segs|
  {
    if segs == [] then map[]
    else
      var jar, last := CookieJar(segs[..|segs| - 1]), segs[|segs| - 1];
      if IsCookieSegment(last) then jar[CookieName(last) := CookieValue(last)] else jar
  }

  /** The cookies the script sends with the descriptor request for a cookie argument. */
  function CookieDict(raw: string): map<string, string> {
    if ';' in raw then CookieJar(Split(raw, ";"))
    else if '=' in raw then
      FindChar(raw, '=');
      SplitPieces(raw, "=");
      map[Split(raw, "=")[0] := Split(raw, "=")[1]]
    else map["jnlp" := "jnlpdownloader"]
  }

  /** Some kept segment of `segs` has name `name`. */
  predicate NamedIn(segs: seq<string>, name: string) {
    exists i :: 0 <= i < |segs| && IsCookieSegment(segs[i]) && CookieName(segs[i]) == name
  }

  /** The names in the jar are exactly those of the kept segments. */
  lemma {:induction false} CookieJarNames(segs: seq<string>, name: string)
    ensures name in CookieJar(segs) <==> NamedIn(segs, name)
    decreases |segs|
  {
    if segs != [] {
      var init, last := segs[..|segs| - 1], segs[|segs| - 1];
      CookieJarNames(init, name);
      if NamedIn(init, name) {
        var i :| 0 <= i < |init| && IsCookieSegment(init[i]) && CookieName(init[i]) == name;
        assert segs[i] == init[i];
      }
      if NamedIn(segs, name) && !(IsCookieSegment(last) && CookieName(last) == name) {
        var i :| 0 <= i < |segs| && IsCookieSegment(segs[i]) && CookieName(segs[i]) == name;
        assert i < |init| && init[i] == segs[i];
      }
    }
  }

  /** A kept segment whose name no later kept segment repeats gives that name its value: a later
      duplicate overwrites an earlier one. */
  lemma {:induction false} CookieJarLastWins(segs: seq<string>, i: nat)
    requires i < |segs| && IsCookieSegment(segs[i])
    requires forall j :: i < j < |segs| && IsCookieSegment(segs[j]) ==> CookieName(segs[j]) != CookieName(segs[i])
    ensures CookieName(segs[i]) in CookieJar(segs)
    ensures CookieJar(segs)[CookieName(segs[i])] == CookieValue(segs[i])
    decreases |segs|
  {
    var init := segs[..|segs| - 1];
    if i < |segs| - 1 {
      assert init[i] == segs[i];
      forall j | i < j < |init| && IsCookieSegment(init[j]) ensures CookieName(init[j]) != CookieName(init[i]) {
        assert init[j] == segs[j];
      }
      CookieJarLastWins(init, i);
    }
  }

  /** Without `;` but with `=`, the argument is a single cookie, named by the text before the
      first `=`. */
  lemma SingleCookie(raw: string)
    requires ';' !in raw && '=' in raw
    ensures Find(raw, "=").Some?
    ensures CookieDict(raw) ==
      map[BeforeFirst(raw, "=") := BeforeFirst(raw[Find(raw, "=").value + 1..], "=")]
  {
    FindChar(raw, '=');
    SplitPieces(raw, "=");
  }

  /** Without `;` or `=`, the placeholder cookie alone is sent. */
  lemma PlaceholderCookie(raw: string)
    requires ';' !in raw && '=' !in raw
    ensures CookieDict(raw) == map["jnlp" := "jnlpdownloader"]
  {
  }

  /** The cookie parsing of the script: with a `;`, the loop over the segments fills the
      dictionary in place; otherwise a single pair or the placeholder. */
  method ParseCookie(raw: string) returns (cookies: map<string, string>)
    ensures cookies == CookieDict(raw)
  {
    cookies := map[];
    if ';' in raw {
      var segs := Split(raw, ";");
      var k := 0;
      while k < |segs|
        invariant 0 <= k <= |segs|
        invariant cookies == CookieJar(segs[..k])
      {
        var seg := segs[k];
        assert segs[..k + 1][..k] == segs[..k];
        if HasAlnum(seg) && '=' in seg {
          var parts := Split(seg, "=");
          FindChar(seg, '=');
          SplitPieces(seg, "=");
          cookies := cookies[parts[0] := parts[1]];
        }
        k := k + 1;
      }
      assert segs[..k] == segs;
    } else {
      if '=' in raw {
        var parts := Split(raw, "=");
        FindChar(raw, '=');
        SplitPieces(raw, "=");
        cookies := cookies[parts[0] := parts[1]];
      } else {
        cookies := cookies["jnlp" := "jnlpdownloader"];
      }
    }
  }
}
