/** The script from end to end: choose the authentication, fetch the descriptor, read its
    codebase and resource list, and run the download loop. */
module Downloader {
  import opened Wrappers
  import opened Credentials
  import opened Descriptor
  import opened Download

  /** How a run ends. The first three are the script's early exits: the descriptor request did
      not return 200, the descriptor could not be read or has no `codebase` on its root, or an
      entry could not be derived (an exception in the resource loops, before any download).
      `Completed` holds the directory after the download loop. */
  datatype Outcome =
    | LinkInaccessible
    | Misformed
    | Aborted(error: LinkError)
    | Completed(dir: Directory)

  /** The parsing of the descriptor's body, as an oracle; `None` when it is not XML. */
  type Parser = seq<byte> -> Option<Document>

  /** The authentication the session carries for all its requests. A cookie never becomes part
      of it: the session authenticates exactly when a user and password pair of some kind was
      given, and then with the pair the choice settled on. */
  function SessionAuth(a: Args): (r: Auth)
    ensures !r.Cookie?
    ensures r.Anonymous? <==> !HasNtlm(a) && !HasBasic(a) && !HasDigest(a)
    ensures r.Ntlm? || r.Basic? || r.Digest? ==> r == SelectAuth(a)
  {
    var auth := SelectAuth(a);
    if auth.Cookie? then Anonymous else auth
  }

  /** The cookies passed with the descriptor request: the parsed cookie argument in cookie mode,
      none otherwise. */
  function DescriptorCookies(a: Args): map<string, string> {
    var auth := SelectAuth(a);
    if auth.Cookie? then CookieDict(auth.raw) else map[]
  }

  function DescriptorRequest(a: Args): Request {
    Get(a.link, SessionAuth(a), DescriptorCookies(a))
  }

  /** The run. `dir0` is the output directory as it is before the loop. */
  method Run(a: Args, server: Server, parse: Parser, dir0: Directory)
    returns (outcome: Outcome, sent: seq<Request>)
    ensures |sent| >= 1 && sent[0] == DescriptorRequest(a)
    ensures sent[0].url == a.link
    ensures SelectAuth(a).Cookie? ==> sent[0].cookies == CookieDict(a.cookie.value)
    ensures outcome.LinkInaccessible? <==> server(DescriptorRequest(a)).status != 200
    ensures outcome.Misformed? <==>
      && server(DescriptorRequest(a)).status == 200
      && (|| parse(server(DescriptorRequest(a)).content).None?
          || "codebase" !in parse(server(DescriptorRequest(a)).content).value.root.attrib)
    ensures outcome.Aborted? <==>
      && server(DescriptorRequest(a)).status == 200
      && parse(server(DescriptorRequest(a)).content).Some?
      && "codebase" in parse(server(DescriptorRequest(a)).content).value.root.attrib
      && ResourceList(parse(server(DescriptorRequest(a)).content).value).Err?
    ensures outcome.Aborted? ==>
      outcome.error == ResourceList(parse(server(DescriptorRequest(a)).content).value).error
    ensures !outcome.Completed? ==> sent == [DescriptorRequest(a)]
    ensures outcome.Completed? ==>
      var doc := parse(server(DescriptorRequest(a)).content).value;
      var base := doc.root.attrib["codebase"] + "/";
      var links := ResourceList(doc).value;
      && sent == [DescriptorRequest(a)] + RunRequests(base, links, server, SessionAuth(a))
      && outcome.dir == RunSaved(dir0, base, links, server, SessionAuth(a))
    ensures forall r :: r in sent[1..] ==> r.cookies == map[] && r.auth == SessionAuth(a)
  {
    var auth := SelectAuth(a);
    var cookies: map<string, string> := map[];
    var session := auth;
    if auth.Cookie? {
      cookies := ParseCookie(auth.raw);
      session := Anonymous;
    }
    var req := Get(a.link, session, cookies);
    var resp := server(req);
    sent := [req];
    if resp.status != 200 {
      return LinkInaccessible, sent;
    }
    var parsed := parse(resp.content);
    if parsed.None? {
      return Misformed, sent;
    }
    var root := parsed.value.root;
    if "codebase" !in root.attrib {
      return Misformed, sent;
    }
    var base := root.attrib["codebase"] + "/";
    var links, count := BuildLinks(parsed.value);
    if links.Err? {
      return Aborted(links.error), sent;
    }
    var dir, more := DownloadAll(base, links.value, server, session, dir0);
    RequestsAreCodebaseRelative(base, links.value, server, session);
    assert (sent + more)[1..] == more;
    sent := sent + more;
    outcome := Completed(dir);
  }
}
