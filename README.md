# jnlpdownloader in Dafny

`jnlpdownloader.py` downloads the JAR files and native libraries listed in a Java Network
Launching Protocol (JNLP) descriptor. It fetches the descriptor through an HTTP session,
optionally authenticated by NTLM, Basic or Digest credentials or by a cookie. It reads the
codebase from the root element of the descriptor. For every `jar` and `nativelib` element it
builds a five-part entry:

- the uri;
- the versioned uri;
- the file name;
- the alternate uri;
- the alternate file name.

It then requests each entry relative to the codebase, and saves every answer with status 200
into an output directory.

This project models that core and proves what the script does with it:

- `Wrappers` holds the `Option` and `Result` types.
- `PyStrings` holds Python's `str.split` and `str.rsplit`, with no limit on the number of
  splits. The script calls `rsplit` on its separators `/` and `.jar`, and for these it is proved
  equal to `split`.
- `Credentials` holds the choice of authentication and the parsing of the cookie argument.
- `Descriptor` holds the parsed descriptor, the derivation of an entry from an element, and the
  two loops that build `jnlplinks`.
- `Download` holds the download loop. HTTP is an oracle from a request to its response, and the
  output directory is a map from file name to content.
- `Downloader` holds the run from end to end, with its three early exits.

Five points where the script's behaviour is easy to misread, and how the model follows it:

- After a failed direct request, the script requests the versioned uri and then the alternate
  uri whenever the entry has one. It does this even when the versioned request returned 200,
  so both may be saved.
- Cookies are sent with the descriptor request only. The resource requests carry only the
  session's authentication, and in cookie mode that authentication is none.
- The file name is index 1 of `href.rsplit('/')`. That is the second `/`-separated segment,
  not the last one: `lib/ext/app.jar` gives `ext` (`Descriptor.NestedHref`). The path is the
  text up to the first `/`.
- The stem of the alternate name is the text before the first `.jar`, not the removal of a
  trailing `.jar`.
- An element without `href`, or with an `href` that has no `/`, raises in the resource loops.
  The script then stops before any download. The model returns `Aborted` with the error.

## Model

| member | source | states |
|---|---|---|
| PyStrings.Find | jnlpdownloader.py:146-147 | the result, when there is one, is an occurrence of the separator with none before it; there is none exactly when the separator does not occur |
| PyStrings.RFind | jnlpdownloader.py:146-147 | the result, when there is one, is an occurrence of the separator with none after it; there is none exactly when the separator does not occur |
| PyStrings.BeforeFirst | jnlpdownloader.py:146-157 | piece 0 of a split is a prefix of the text in which the separator does not start, and it ends at the end of the text or where the separator first occurs |
| PyStrings.RSplitIsSplit | jnlpdownloader.py:146-147 | for a separator whose first character does not recur in it (`/`, `.jar`), `rsplit` with no limit yields the same pieces as `split` |
| PyStrings.SplitPieces | jnlpdownloader.py:146-147 | piece 0 of a split is the text before the first separator; there are two or more pieces exactly when the separator occurs; piece 1 is the text after the first separator up to the next one |
| PyStrings.FindChar | jnlpdownloader.py:70 | a one-character separator is found exactly when the character occurs, and it is found at its first position |
| PyStrings.BeforeFirstAt | jnlpdownloader.py:156-157 | an occurrence with no earlier occurrence of the separator's first character is the first, and the text before it is the prefix up to there |
| PyStrings.BeforeFirstNone | jnlpdownloader.py:146 | without the separator's first character, the separator is not found and the whole text comes before it |
| Credentials.SelectAuth | jnlpdownloader.py:56-94 | NTLM when both NTLM user and password are given; otherwise Basic with both of its parts; otherwise Digest with both; otherwise the cookie; otherwise none; each mode holds exactly its own arguments |
| Credentials.HalfPairIgnored | jnlpdownloader.py:56-66 | a user without its password, or a password without its user, changes nothing in the choice |
| Credentials.CookieParts | jnlpdownloader.py:79-80 | a segment's name is the text before its first `=`, and its value is the text after it, up to the next `=` |
| Credentials.CookieJarNames | jnlpdownloader.py:75-80 | a name is in the built dictionary exactly when some segment with an alphanumeric character and an `=` has that name |
| Credentials.CookieJarLastWins | jnlpdownloader.py:75-80 | a kept segment that no later kept segment with the same name follows gives the dictionary its value: a later duplicate overwrites |
| Credentials.SingleCookie | jnlpdownloader.py:86-88 | without `;` but with `=`, the cookies are the single pair (text before the first `=`, text after it up to the next `=`) |
| Credentials.PlaceholderCookie | jnlpdownloader.py:89-90 | without `;` or `=`, only the placeholder cookie `jnlp=jnlpdownloader` is sent |
| Credentials.ParseCookie | jnlpdownloader.py:67-90 | the loop over the `;`-separated segments and the two other branches yield the dictionary described by the three lemmas above |
| Descriptor.Filter | jnlpdownloader.py:143 | the elements iterated are exactly those of the document with the tag, and no more of them than the document has |
| Descriptor.FilterAppend | jnlpdownloader.py:143 | filtering two runs of elements is filtering each and joining the results: the iteration keeps document order and every occurrence |
| Descriptor.FilterSingle | jnlpdownloader.py:143 | one element is kept, once, exactly when it has the tag |
| Descriptor.SlashPieces | jnlpdownloader.py:146-147 | `href.rsplit('/')` equals `href.split('/')`, and it has a piece 1 exactly when `href` has a `/` |
| Descriptor.DeriveLinkFails | jnlpdownloader.py:146-148 | deriving an entry fails with a missing `href` exactly when there is none, and with a missing piece exactly when `href` has no `/`; it succeeds exactly otherwise |
| Descriptor.FileIsSecondSegment | jnlpdownloader.py:146-148 | the entry's uri is the `href`, and its file name is the text after the first `/` up to the next `/` or the end |
| Descriptor.PathPrefix | jnlpdownloader.py:147 | the path is the `href` up to and including its first `/` |
| Descriptor.StemBeforeJar | jnlpdownloader.py:156-157 | `rsplit('.jar')[0]` is the text before the first `.jar` |
| Descriptor.UnversionedEntry | jnlpdownloader.py:151-154 | without `version` the entry has no versioned uri, no alternate uri and no alternate name |
| Descriptor.VersionedEntry | jnlpdownloader.py:155-158 | with `version` v, the versioned uri is `href + "?version-id=" + v`, the alternate name is the stem followed by `__V`, v and `.jar`, and the alternate uri is the path followed by the alternate name |
| Descriptor.DerivedWellFormed | jnlpdownloader.py:150-158 | the three version parts of an entry are all present or all absent, and the alternate name never equals the file name |
| Descriptor.CutAfterDir | jnlpdownloader.py:146-147 | `dir/tail` with no `/` in `dir` is cut at the `/` after `dir` |
| Descriptor.JarName | jnlpdownloader.py:156-157 | `name.jar` with no `/` and no `.jar` in `name` has no `/`, and its stem is `name` |
| Descriptor.NestedHref | jnlpdownloader.py:146-147 | for `dir/sub/rest` the file name is `sub` and the path is `dir/` |
| Descriptor.VersionedHref | jnlpdownloader.py:146-158 | for `dir/name.jar` at version v the file name is `name.jar`, the versioned uri is the `href` followed by `?version-id=` and v, the alternate name is `name__V` v `.jar`, and the alternate uri is `dir/` followed by it |
| Descriptor.DeriveLinksOk | jnlpdownloader.py:143-164 | the list is built exactly when every element yields an entry; it then holds one entry per element, in order |
| Descriptor.DeriveLinksErr | jnlpdownloader.py:143-164 | a list that cannot be built fails with the error of the first element that fails, and every element before it succeeds |
| Descriptor.DeriveLinksErrPrefix | jnlpdownloader.py:143-188 | an error among the first elements is the error of the whole list: the later loop never runs |
| Descriptor.DeriveLinksAppend | jnlpdownloader.py:143-188 | the list for two runs of elements exists exactly when the list of each does, and is their concatenation |
| Descriptor.ResourceListShape | jnlpdownloader.py:139-188 | `jnlplinks` is built exactly when the entries of the `jar` elements and those of the `nativelib` elements both are, and it is the first followed by the second |
| Descriptor.ResourceListWellFormed | jnlpdownloader.py:139-188 | every entry of `jnlplinks` is well formed |
| Descriptor.AppendEntries | jnlpdownloader.py:143-164 | one resource loop appends the entries of its elements after those already built and counts them, or stops with the first error |
| Descriptor.BuildLinks | jnlpdownloader.py:139-188 | the two loops yield `jnlplinks`, or the first error, and the counter `i` ends at the number of entries |
| Download.Attempt | jnlpdownloader.py:195-202 | one request, and its save on 200, extend the requests and the directory by that candidate |
| Download.DownloadResource | jnlpdownloader.py:191-231 | the body of the download loop makes the requests and the saves of the entry's tried candidates |
| Download.SavedNames | jnlpdownloader.py:198-231 | a name is in the directory afterwards exactly when it was before or a candidate saved under it returned 200 |
| Download.SavedLastWins | jnlpdownloader.py:198-231 | a successful candidate with no later successful candidate for the same name leaves its body under that name |
| Download.SavedUntouched | jnlpdownloader.py:198-231 | a name under which no candidate was saved keeps its old content, or stays absent |
| Download.NothingSavedOnFailure | jnlpdownloader.py:198-231 | when every request of an entry fails, the directory is unchanged |
| Download.DirectSuccess | jnlpdownloader.py:195-202 | a direct request returning 200 is the only request for the entry, and its body is saved under the file name |
| Download.FallbackRequests | jnlpdownloader.py:203-231 | after a failed direct request, an entry with a version is also requested at its versioned uri and then at its alternate uri, whatever the versioned request returned; an entry without one is not requested again |
| Download.FallbackSaves | jnlpdownloader.py:203-231 | after a failed direct request, the file name holds the versioned body when that request returned 200, the alternate name holds the alternate body when that one did, a failed request leaves its name alone, and every other name is unchanged |
| Download.FlattenConcat | jnlpdownloader.py:191 | joining the requests of each entry over two lists in turn is joining them over the joined list |
| Download.RunRequestsConcat | jnlpdownloader.py:191 | the requests of two lists of entries run one after the other are those of the joined list |
| Download.EveryResourceAttempted | jnlpdownloader.py:191-195 | every entry's direct request is made, whatever became of the entries before it |
| Download.RequestsAreCodebaseRelative | jnlpdownloader.py:191-224 | every request of the loop is the request for one of the tried candidates of some entry: the codebase followed by that candidate's uri, through the session's authentication, without cookies of its own |
| Download.RunOnlyTargetsChange | jnlpdownloader.py:191-231 | a name that is neither the file name nor the alternate name of any entry is unchanged by the whole loop |
| Download.RunNothingSaved | jnlpdownloader.py:191-231 | when none of the requests the loop makes is answered with 200, the loop saves nothing |
| Download.RunRequestsSingle | jnlpdownloader.py:191 | the loop over a single entry makes exactly that entry's requests |
| Download.DownloadAll | jnlpdownloader.py:191-231 | the download loop makes the requests and the saves of every entry, in order |
| Downloader.SessionAuth | jnlpdownloader.py:56-94 | a cookie never becomes the session's authentication; the session authenticates exactly when some user and password pair is given in full, and then with the chosen pair |
| Downloader.Run | jnlpdownloader.py:56-231 | the descriptor request goes to the link, with the parsed cookies in cookie mode; the run ends as inaccessible exactly when that request does not return 200, as misformed exactly when its body does not parse or its root has no `codebase`, and as aborted exactly when `jnlplinks` cannot be built, with the first element's error; then no other request is made; otherwise the loop runs over `jnlplinks` under the codebase followed by `/`, and no resource request carries cookies |

## Definitions

These functions have no contract of their own; the lemmas above are about them.

- `PyStrings.Split` and `PyStrings.RSplit`: `str.split` and `str.rsplit` with no limit (jnlpdownloader.py:71, :79, :87, :146-147, :156-157).
- `Credentials.HasAlnum` and `Credentials.IsCookieSegment`: the two `re.search` tests on a segment (jnlpdownloader.py:70, :78).
- `Credentials.CookieName` and `Credentials.CookieValue`: pieces 0 and 1 of a segment split at `=` (jnlpdownloader.py:79-80, :87-88).
- `Credentials.CookieJar` and `Credentials.CookieDict`: the dictionary built by the segment loop, and the three branches of cookie parsing (jnlpdownloader.py:67-90).
- `Descriptor.Iter`: `xmlroot.iter(tag)` (jnlpdownloader.py:143, :167).
- `Descriptor.DeriveLink`: the body of a resource loop (jnlpdownloader.py:146-158, :170-182).
- `Descriptor.DeriveLinks` and `Descriptor.ResourceList`: one resource loop, and both of them one after the other (jnlpdownloader.py:139-188).
- `Download.Candidates`: the direct, versioned and alternate requests an entry may need (jnlpdownloader.py:191-231).
- `Download.Tried`: the candidates actually requested, the fallbacks only after the direct request fails (jnlpdownloader.py:198-231).
- `Download.Saved`: the writes of the answers with status 200 (jnlpdownloader.py:198-231).
- `Download.RunRequests` and `Download.RunSaved`: the requests and the writes of the whole loop (jnlpdownloader.py:191-231).
- `Downloader.DescriptorRequest`: the descriptor request, with the session's authentication and, in cookie mode, the parsed cookies (jnlpdownloader.py:56-94).

## Left out

- Argument parsing is not modelled: the arguments are a record of optional strings.
- The `requests` library's session and the NTLM, Basic and Digest handlers are not modelled; a request records the mode and the credentials it is made with.
- TLS verification is not modelled, so the model does not record that the descriptor request turns it off.
- Cookies set by the server, which the session would keep for later requests, are not modelled.
- HTTP is a function from request to response: the same request always gets the same answer, and a request never raises.
- XML parsing is an oracle from the descriptor's body to a document, or `None` when it does not parse. `iter` is modelled by filtering the root and its descendants in document order.
- The random directory name, the check for an existing directory, `mkdir` and the fallback to the current directory are not modelled. The directory before the loop is a parameter.
- Opening and writing files is writing into the directory map. The model does not capture errors from `open`, or names with `/` that would point into subdirectories.
- Printing and `exit` are not modelled: the exits are the outcomes `LinkInaccessible`, `Misformed` and `Aborted`.
- `status_code is not 200` is modelled as an inequality. It compares identities, and for CPython's cached small integers that is the same.
- The regular-expression searches in cookie parsing are modelled as membership of a character, and their character classes as ASCII ranges.
