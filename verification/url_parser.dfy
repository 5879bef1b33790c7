/** The git-remote parser of `utils/repository_url_parser.py`: a remote string
    becomes a `RepoRef` (host, provider, namespace, repository name, full name).
    URL form (`scheme://netloc/path`) is tried first, through a model of
    Python's `urllib.parse.urlparse`; otherwise the stripped text must match
    the scp-like pattern `[user@]host:path`. */
module UrlParser {
  import opened Wrappers
  import opened Text

  /** The parsed remote (`RepoRef`). `provider` is `"gitlab"`, `"github"` or
      the lower-cased host itself. */
  datatype RepoRef = RepoRef(
    original: string,
    host: string,
    provider: string,
    namespace: seq<string>,
    repo: string,
    fullName: string)

  /** The `ValueError`s the parser can raise, by cause. */
  datatype ParseError =
    | InvalidIpv6Url          // urlparse: a netloc with an unmatched bracket
    | UnrecognizedFormat      // neither URL form nor scp form
    | MissingNamespaceOrRepo  // fewer than two path segments

  // ---------------------------------------------------------------------------
  // urllib.parse.urlparse
  // ---------------------------------------------------------------------------

  predicate IsSchemeChar(c: char) {
    IsAsciiLetter(c) || IsAsciiDigit(c) || c == '+' || c == '-' || c == '.'
  }

  /** The C0 control characters and space, stripped from the front of a URL. */
  predicate IsC0OrSpace(c: char) {
    c <= ' '
  }

  /** Tab, carriage return and line feed are deleted anywhere in a URL. */
  const UnsafeUrlChars: set<char> := {'\t', '\r', '\n'}

  /** Schemes whose last path segment may carry `;params`. */
  const UsesParams: set<string> := {
    "", "ftp", "hdl", "prospero", "http", "imap", "https", "shttp", "rtsp",
    "rtsps", "rtspu", "sip", "sips", "mms", "sftp", "tel"}

  datatype UrlParts = UrlParts(scheme: string, netloc: string, path: string)

  function SanitizeUrl(url: string): string {
    RemoveChars(DropWhile(url, IsC0OrSpace), UnsafeUrlChars)
  }

  /** The text before the first `:` is a scheme: non-empty, starting with an
      ASCII letter, made of scheme characters only. */
  predicate HasScheme(url: string) {
    var i := FindFirst(url, {':'});
    0 < i < |url| && IsAsciiLetter(url[0])
    && forall j :: 0 <= j < i ==> IsSchemeChar(url[j])
  }

  /** The path without its `;params`: cut at the first `;` of the last
      segment, or at the first `;` when there is no `/`. */
  function WithoutParams(path: string): string {
    if '/' in path then
      var lastSlash := |path| - |AfterLast(path, '/')| - 1;
      path[..lastSlash + FindFirst(path[lastSlash..], {';'})]
    else
      path[..FindFirst(path, {';'})]
  }

  /** The lower-cased scheme, or `""` when the text has none. */
  function SchemeOf(clean: string): (scheme: string)
    ensures IsLowerCase(scheme)
    ensures scheme != "" <==> HasScheme(clean)
    ensures scheme != "" ==>
              && |scheme| < |clean| && clean[|scheme|] == ':' && ':' !in clean[..|scheme|]
              && forall j :: 0 <= j < |scheme| ==> scheme[j] == LowerChar(clean[j])
  {
    if HasScheme(clean) then
      var i := FindFirst(clean, {':'});
      LowerIsLowerCase(clean[..i]);
      Lower(clean[..i])
    else ""
  }

  /** The text after the scheme and its `:`. */
  function AfterScheme(clean: string): string {
    if HasScheme(clean) then clean[FindFirst(clean, {':'}) + 1..] else clean
  }

  /** Where the netloc introduced by `//` ends: at the first `/`, `?` or `#`. */
  function NetlocEnd(rest: string): (k: nat)
    ensures k <= |rest|
  {
    if StartsWith(rest, "//") then 2 + FindFirst(rest[2..], {'/', '?', '#'}) else 0
  }

  function NetlocOf(rest: string): (netloc: string)
    ensures forall i :: 0 <= i < |netloc| ==> netloc[i] !in {'/', '?', '#'}
  {
    if StartsWith(rest, "//") then rest[2..NetlocEnd(rest)] else ""
  }

  /** The path: what follows the netloc up to the query or fragment, without
      `;params` for the schemes that use them. */
  function PathOf(scheme: string, tail: string): string {
    var path := tail[..FindFirst(tail, {'?', '#'})];
    if scheme in UsesParams && ';' in path then WithoutParams(path) else path
  }

  /** `urlparse(url)`, reduced to the scheme, netloc and path it yields. */
  function UrlParse(url: string): UrlParts {
    var clean := SanitizeUrl(url);
    var rest := AfterScheme(clean);
    UrlParts(SchemeOf(clean), NetlocOf(rest), PathOf(SchemeOf(clean), rest[NetlocEnd(rest)..]))
  }

  /** `ParseResult.hostname` for a netloc without brackets: after the last `@`,
      before the first `:`, lower-cased up to a `%` zone separator; `""`
      stands for `None`. */
  function Hostname(netloc: string): (h: string)
    ensures forall i :: 0 <= i < |h| ==> h[i] != '@' && h[i] != ':'
  {
    var hostinfo := AfterLast(netloc, '@');
    LowerBeforeZone(hostinfo[..FindFirst(hostinfo, {':'})])
  }

  /** `hostname.partition('%')` with only the part before the separator
      lower-cased: the zone of a scoped address keeps its case. */
  function LowerBeforeZone(h: string): (r: string)
    ensures |r| == |h|
    ensures forall i :: 0 <= i < |h| ==>
              r[i] == if i < FindFirst(h, {'%'}) then LowerChar(h[i]) else h[i]
    ensures '%' !in h ==> r == Lower(h)
    ensures Lower(r) == Lower(h)
  {
    var k := FindFirst(h, {'%'});
    assert '%' !in h ==> k == |h|;
    LowerUpTo(h, k);
    Lower(h[..k]) + h[k..]
  }

  /** Lower-casing a prefix of `h` changes only that prefix, and lower-casing
      the whole afterwards gives `Lower(h)`. */
  lemma {:induction false} LowerUpTo(h: string, k: nat)
    requires k <= |h|
    ensures var r := Lower(h[..k]) + h[k..];
            && |r| == |h|
            && (forall i :: 0 <= i < |h| ==> r[i] == if i < k then LowerChar(h[i]) else h[i])
            && (k == |h| ==> r == Lower(h))
            && Lower(r) == Lower(h)
  {
    var r := Lower(h[..k]) + h[k..];
    forall i | 0 <= i < |h|
      ensures r[i] == (if i < k then LowerChar(h[i]) else h[i])
      ensures LowerChar(r[i]) == LowerChar(h[i])
    {
      if i < k {
        assert r[i] == Lower(h[..k])[i];
      } else {
        assert r[i] == h[k..][i - k];
      }
    }
    if k == |h| {
      assert r == Lower(h);
    }
    assert Lower(r) == Lower(h);
  }

  /** The host taken from a URL: `(parsed.hostname or parsed.netloc).lower()`. */
  function UrlHost(netloc: string): string {
    Lower(if Hostname(netloc) != "" then Hostname(netloc) else netloc)
  }

  /** The netloc holds a bracketed (IPv6 literal) host; such inputs are
      outside the model. */
  predicate HasBracketedNetloc(remote: string) {
    var n := UrlParse(remote).netloc;
    '[' in n && ']' in n
  }

  // ---------------------------------------------------------------------------
  // _SCP_RE = ^(?:(?P<user>[^@]+)@)?(?P<host>[^:]+):(?P<path>.+)$
  // ---------------------------------------------------------------------------

  datatype ScpParts = ScpParts(user: Option<string>, host: string, path: string)

  /** The text the pattern matches for the given groups. */
  function ScpText(user: Option<string>, host: string, path: string): string {
    (if user.Some? then user.value + "@" else "") + host + ":" + path
  }

  /** `m` is a way for the pattern to match `s`: user (if any) non-empty and
      free of `@`, host non-empty and free of `:`, path non-empty with no line
      break (`.` does not match `\n`). */
  predicate ScpShape(s: string, m: ScpParts) {
    && (m.user.Some? ==> m.user.value != "" && '@' !in m.user.value)
    && m.host != "" && ':' !in m.host
    && m.path != "" && '\n' !in m.path
    && s == ScpText(m.user, m.host, m.path)
  }

  /** `host:path` at the start of `t`: the host runs to the first `:`. */
  function ScpHostPath(t: string): (r: Option<(string, string)>)
    ensures r.Some? ==>
              && r.value.0 != "" && ':' !in r.value.0
              && r.value.1 != "" && '\n' !in r.value.1
              && t == r.value.0 + ":" + r.value.1
  {
    var k := FindFirst(t, {':'});
    if 0 < k && k + 1 < |t| && '\n' !in t[k + 1..] then
      assert t == t[..k] + ":" + t[k + 1..];
      Some((t[..k], t[k + 1..]))
    else None
  }

  /** `_SCP_RE.match(s)`: the optional user group is tried first, as the
      regex engine does, and dropped when the rest cannot match after it. */
  function ScpMatch(s: string): (r: Option<ScpParts>)
    ensures r.Some? ==> ScpShape(s, r.value)
  {
    var a := FindFirst(s, {'@'});
    if 0 < a < |s| && ScpHostPath(s[a + 1..]).Some? then
      var hp := ScpHostPath(s[a + 1..]).value;
      assert s == s[..a] + "@" + (hp.0 + ":" + hp.1) by {
        assert s == s[..a] + "@" + s[a + 1..];
      }
      Some(ScpParts(Some(s[..a]), hp.0, hp.1))
    else
      match ScpHostPath(s)
      case Some(hp) => Some(ScpParts(None, hp.0, hp.1))
      case None => None
  }

  /** The pattern matches whenever some split of `s` has its shape; a split
      with a user is always preferred, and a split is unique once the
      presence of the user is fixed. */
  lemma {:induction false} ScpMatchComplete(s: string, m: ScpParts)
    requires ScpShape(s, m)
    ensures ScpMatch(s).Some?
    ensures m.user.Some? ==> ScpMatch(s) == Some(m)
    ensures ScpMatch(s).value.user.None? ==> ScpMatch(s) == Some(m)
  {
    if m.user.Some? {
      ScpMatchWithUser(m.user.value, m.host, m.path);
    } else {
      ScpMatchWithoutUser(m.host, m.path);
    }
  }

  lemma {:induction false} ScpMatchWithUser(u: string, host: string, path: string)
    requires u != "" && '@' !in u
    requires host != "" && ':' !in host && path != "" && '\n' !in path
    ensures ScpMatch(ScpText(Some(u), host, path)) == Some(ScpParts(Some(u), host, path))
  {
    var t := host + ":" + path;
    var s := ScpText(Some(u), host, path);
    assert s == u + "@" + t;
    ScpUserSplit(u, t);
    ScpHostPathOfText(host, path);
  }

  lemma {:induction false} ScpMatchWithoutUser(host: string, path: string)
    requires host != "" && ':' !in host && path != "" && '\n' !in path
    ensures ScpMatch(ScpText(None, host, path)).Some?
    ensures ScpMatch(ScpText(None, host, path)).value.user.None? ==>
              ScpMatch(ScpText(None, host, path)) == Some(ScpParts(None, host, path))
  {
    var s := ScpText(None, host, path);
    assert s == host + ":" + path;
    ScpHostPathOfText(host, path);
  }

  /** The host runs to the first `:`, so `host:path` splits back into its parts. */
  lemma {:induction false} ScpHostPathOfText(host: string, path: string)
    requires host != "" && ':' !in host && path != "" && '\n' !in path
    ensures ScpHostPath(host + ":" + path) == Some((host, path))
  {
    var t := host + ":" + path;
    assert t[|host|] == ':';
    assert forall j :: 0 <= j < |host| ==> t[j] == host[j];
    FindFirstAt(t, {':'}, |host|);
    assert t[..|host|] == host && t[|host| + 1..] == path;
  }

  /** A user free of `@` ends at the first `@`. */
  lemma {:induction false} ScpUserSplit(u: string, t: string)
    requires u != "" && '@' !in u
    ensures FindFirst(u + "@" + t, {'@'}) == |u|
    ensures (u + "@" + t)[..|u|] == u && (u + "@" + t)[|u| + 1..] == t
  {
    var s := u + "@" + t;
    assert s[|u|] == '@';
    assert forall j :: 0 <= j < |u| ==> s[j] == u[j];
    FindFirstAt(s, {'@'}, |u|);
    assert s[..|u|] == u && s[|u| + 1..] == t;
  }

  // ---------------------------------------------------------------------------
  // _provider_from_host and _split_path
  // ---------------------------------------------------------------------------

  /** `_provider_from_host`: `gitlab` wins over `github`, and an unrecognised
      host is its own provider tag. */
  function ProviderFromHost(host: string): (p: string)
    ensures p == "gitlab" <==> (exists i :: OccursAt(Lower(host), "gitlab", i))
    ensures p == "github" <==>
              (exists i :: OccursAt(Lower(host), "github", i))
              && !(exists i :: OccursAt(Lower(host), "gitlab", i))
    ensures (!(exists i :: OccursAt(Lower(host), "gitlab", i))
             && !(exists i :: OccursAt(Lower(host), "github", i))) ==> p == Lower(host)
    ensures p != "gitlab" && p != "github" ==> p == Lower(host)
  {
    var h := Lower(host);
    if Contains(h, "gitlab") then "gitlab"
    else if Contains(h, "github") then "github"
    else
      assert !OccursAt(h, "gitlab", 0) && !OccursAt(h, "github", 0);
      h
  }

  predicate IsSlash(c: char) {
    c == '/'
  }

  /** `path.strip("/")`. */
  function StripSlashes(path: string): string {
    DropWhileEnd(DropWhile(path, IsSlash), IsSlash)
  }

  /** Removes one trailing `.git` from the last segment only. */
  function StripGitSuffix(parts: seq<string>): (r: seq<string>)
    ensures |r| == |parts|
    ensures forall i :: 0 <= i < |parts| - 1 ==> r[i] == parts[i]
  {
    if |parts| == 0 then []
    else
      var last := parts[|parts| - 1];
      parts[..|parts| - 1] + [if EndsWith(last, ".git") then last[..|last| - 4] else last]
  }

  /** The non-empty `/`-separated pieces of a path. */
  function Segments(path: string): (segs: seq<string>)
    ensures forall i :: 0 <= i < |segs| ==> segs[i] != "" && '/' !in segs[i]
  {
    var r := NonEmpty(Split(path, '/'));
    assert forall i :: 0 <= i < |r| ==> r[i] in Split(path, '/');
    r
  }

  /** `_split_path`: the non-empty `/`-separated segments, with `.git` removed
      from the last one. */
  function SplitPath(path: string): (parts: seq<string>)
    ensures forall i :: 0 <= i < |parts| ==> '/' !in parts[i]
    ensures forall i :: 0 <= i < |parts| - 1 ==> parts[i] != ""
  {
    StripGitSuffix(Segments(StripSlashes(path)))
  }

  // ---------------------------------------------------------------------------
  // parse_git_remote
  // ---------------------------------------------------------------------------

  /** The parse found both a scheme and a netloc: the remote is in URL form. */
  predicate UrlForm(u: UrlParts) {
    u.scheme != "" && u.netloc != ""
  }

  /** The scp pattern fails exactly when no split of the text has its shape. */
  lemma {:induction false} ScpMatchNone(s: string)
    ensures ScpMatch(s).None? <==> !exists m :: ScpShape(s, m)
  {
    forall m | ScpShape(s, m)
      ensures ScpMatch(s).Some?
    {
      ScpMatchComplete(s, m);
    }
  }

  /** The host and path of the form that applies: URL form when the parse
      found both a scheme and a netloc, scp form on the stripped text
      otherwise; neither applying is the unrecognised-format failure. */
  function Locate(remote: string, u: UrlParts): (r: Result<(string, string), ParseError>)
    ensures r.Success? ==> IsLowerCase(r.value.0)
    ensures r.Failure? <==> !UrlForm(u) && !exists m :: ScpShape(Strip(remote), m)
    ensures r.Failure? ==> r.error == UnrecognizedFormat
    ensures UrlForm(u) ==> r == Success((UrlHost(u.netloc), u.path))
    ensures !UrlForm(u) && r.Success? ==>
              exists m :: ScpShape(Strip(remote), m) && r.value == (Lower(m.host), m.path)
    ensures forall m :: !UrlForm(u) && ScpShape(Strip(remote), m) && m.user.Some? ==>
              r == Success((Lower(m.host), m.path))
  {
    if UrlForm(u) then
      LowerIsLowerCase(if Hostname(u.netloc) != "" then Hostname(u.netloc) else u.netloc);
      Success((UrlHost(u.netloc), u.path))
    else
      var s := Strip(remote);
      ScpMatchNone(s);
      match ScpMatch(s)
      case None => Failure(UnrecognizedFormat)
      case Some(m) =>
        LowerIsLowerCase(m.host);
        assert forall m' :: ScpShape(s, m') && m'.user.Some? ==> m' == m by {
          forall m' | ScpShape(s, m') && m'.user.Some?
            ensures m' == m
          {
            ScpMatchComplete(s, m');
          }
        }
        Success((Lower(m.host), m.path))
  }

  /** The reference built from a located host and path: the segmented path
      must have at least two segments, the last being the repository name. */
  function Build(remote: string, host: string, path: string): (r: Result<RepoRef, ParseError>)
    ensures r.Failure? <==> |SplitPath(path)| < 2
    ensures r.Failure? ==> r.error == MissingNamespaceOrRepo
    ensures r.Success? ==>
              && r.value.original == remote
              && r.value.host == host
              && r.value.provider == ProviderFromHost(host)
              && r.value.namespace + [r.value.repo] == SplitPath(path)
              && r.value.fullName == Join(SplitPath(path), '/')
    ensures r.Success? ==> |r.value.namespace| >= 1
    ensures r.Success? ==> forall i :: 0 <= i < |r.value.namespace| ==>
              r.value.namespace[i] != "" && '/' !in r.value.namespace[i]
    ensures r.Success? ==> '/' !in r.value.repo
  {
    var parts := SplitPath(path);
    if |parts| < 2 then Failure(MissingNamespaceOrRepo)
    else
      var namespace := parts[..|parts| - 1];
      SplitAtLast(parts, namespace);
      Success(RepoRef(remote, host, ProviderFromHost(host), namespace, parts[|parts| - 1], Join(parts, '/')))
  }

  /** Split-path segments cut before the last: the namespace and the repository. */
  lemma {:induction false} SplitAtLast(parts: seq<string>, namespace: seq<string>)
    requires |parts| >= 2 && namespace == parts[..|parts| - 1]
    requires forall i :: 0 <= i < |parts| ==> '/' !in parts[i]
    requires forall i :: 0 <= i < |parts| - 1 ==> parts[i] != ""
    ensures namespace + [parts[|parts| - 1]] == parts
    ensures forall i :: 0 <= i < |namespace| ==> namespace[i] != "" && '/' !in namespace[i]
  {
    assert namespace + [parts[|parts| - 1]] == parts;
    assert forall i :: 0 <= i < |namespace| ==> namespace[i] == parts[i];
  }

  /** `parse_git_remote`. A returned reference always has a non-empty
      namespace of non-empty segments, a lower-case host classified by
      `ProviderFromHost`, and a full name that joins namespace and repository
      name with `/`; the original text is kept verbatim. */
  function ParseGitRemote(remote: string): (r: Result<RepoRef, ParseError>)
    requires !HasBracketedNetloc(remote)
    ensures r.Success? ==> r.value.original == remote
    ensures r.Success? ==> |r.value.namespace| >= 1
    ensures r.Success? ==> forall i :: 0 <= i < |r.value.namespace| ==>
              r.value.namespace[i] != "" && '/' !in r.value.namespace[i]
    ensures r.Success? ==> '/' !in r.value.repo
    ensures r.Success? ==> r.value.fullName == Join(r.value.namespace + [r.value.repo], '/')
    ensures r.Success? ==> IsLowerCase(r.value.host)
    ensures r.Success? ==> r.value.provider == ProviderFromHost(r.value.host)
    ensures r.Failure? && r.error == InvalidIpv6Url <==>
              ('[' in UrlParse(remote).netloc) != (']' in UrlParse(remote).netloc)
    ensures r.Failure? && r.error == UnrecognizedFormat <==>
              && ('[' in UrlParse(remote).netloc) == (']' in UrlParse(remote).netloc)
              && !UrlForm(UrlParse(remote))
              && !exists m :: ScpShape(Strip(remote), m)
  {
    var u := UrlParse(remote);
    if ('[' in u.netloc) != (']' in u.netloc) then Failure(InvalidIpv6Url)
    else
      var (host, path) :- Locate(remote, u);
      Build(remote, host, path)
  }

  // ---------------------------------------------------------------------------
  // Properties of _split_path
  // ---------------------------------------------------------------------------

  /** Leading slashes contribute only empty pieces. */
  lemma {:induction false} DropLeadingSlashes(p: string)
    ensures Segments(DropWhile(p, IsSlash)) == Segments(p)
    decreases |p|
  {
    if |p| > 0 && IsSlash(p[0]) {
      DropLeadingSlashes(p[1..]);
      var rest := Split(p[1..], '/');
      assert Split(p, '/') == [""] + rest;
      assert ([""] + rest)[1..] == rest;
    }
  }

  lemma {:induction false} SegmentsOfEmpty()
    ensures Segments("") == []
  {
    assert Split("", '/') == [""];
  }

  /** The segments of `a/b` are those of `a` followed by those of `b`. */
  lemma {:induction false} SegmentsOfJoin(a: string, b: string)
    ensures Segments(a + "/" + b) == Segments(a) + Segments(b)
  {
    SplitAppend(a, b, '/');
    NonEmptyAppend(Split(a, '/'), Split(b, '/'));
  }

  /** Trailing slashes contribute only empty pieces. */
  lemma {:induction false} DropTrailingSlashes(p: string)
    ensures Segments(DropWhileEnd(p, IsSlash)) == Segments(p)
    decreases |p|
  {
    if |p| > 0 && IsSlash(p[|p| - 1]) {
      var q := p[..|p| - 1];
      assert DropWhileEnd(p, IsSlash) == DropWhileEnd(q, IsSlash);
      assert Segments(p) == Segments(q) by {
        assert p == q + "/" + "";
        SegmentsOfJoin(q, "");
        SegmentsOfEmpty();
        assert Segments(q) + [] == Segments(q);
      }
      DropTrailingSlashes(q);
    }
  }

  /** `path.strip("/")` before splitting changes nothing once empty segments
      are dropped. */
  lemma {:induction false} SplitPathIgnoresStrip(p: string)
    ensures SplitPath(p) == StripGitSuffix(Segments(p))
  {
    DropTrailingSlashes(DropWhile(p, IsSlash));
    DropLeadingSlashes(p);
  }

  /** A doubled slash counts as one. */
  lemma {:induction false} SplitPathDoubleSlash(a: string, b: string)
    ensures SplitPath(a + "//" + b) == SplitPath(a + "/" + b)
  {
    var x := a + "//" + b;
    var y := a + "/" + b;
    assert Segments(x) == Segments(y) by {
      assert x == a + "/" + ("" + "/" + b);
      SegmentsOfJoin(a, "" + "/" + b);
      SegmentsOfJoin("", b);
      SegmentsOfJoin(a, b);
      SegmentsOfEmpty();
      assert [] + Segments(b) == Segments(b);
    }
    SplitPathIgnoresStrip(x);
    SplitPathIgnoresStrip(y);
  }

  /** A leading slash is ignored. */
  lemma {:induction false} SplitPathLeadingSlash(a: string)
    ensures SplitPath("/" + a) == SplitPath(a)
  {
    assert Segments("/" + a) == Segments(a) by {
      assert "/" + a == "" + "/" + a;
      SegmentsOfJoin("", a);
      SegmentsOfEmpty();
      assert [] + Segments(a) == Segments(a);
    }
    SplitPathIgnoresStrip("/" + a);
    SplitPathIgnoresStrip(a);
  }

  /** A trailing slash is ignored. */
  lemma {:induction false} SplitPathTrailingSlash(a: string)
    ensures SplitPath(a + "/") == SplitPath(a)
  {
    assert Segments(a + "/") == Segments(a) by {
      assert a + "/" == a + "/" + "";
      SegmentsOfJoin(a, "");
      SegmentsOfEmpty();
      assert Segments(a) + [] == Segments(a);
    }
    SplitPathIgnoresStrip(a + "/");
    SplitPathIgnoresStrip(a);
  }

  lemma {:induction false} LastSplit(segs: seq<string>)
    requires |segs| >= 1
    ensures segs[..|segs| - 1] + [segs[|segs| - 1]] == segs
  {
  }

  /** Joined non-empty, slash-free segments segment back to themselves. */
  lemma {:induction false} SegmentsOfJoined(segs: seq<string>)
    requires |segs| >= 1
    requires forall i :: 0 <= i < |segs| ==> segs[i] != "" && '/' !in segs[i]
    ensures Segments(Join(segs, '/')) == segs
  {
    SplitJoin(segs, '/');
    NonEmptyIdentity(segs);
  }

  /** The `.git` appended to a joined path stays on its last segment. */
  lemma {:induction false} SegmentsWithSuffix(segs: seq<string>)
    requires |segs| >= 1
    requires forall i :: 0 <= i < |segs| ==> segs[i] != "" && '/' !in segs[i]
    ensures Segments(Join(segs, '/') + ".git") == segs[..|segs| - 1] + [segs[|segs| - 1] + ".git"]
  {
    var ext := segs[..|segs| - 1] + [segs[|segs| - 1] + ".git"];
    JoinExtendLast(segs, '/', ".git");
    assert '/' !in segs[|segs| - 1] + ".git";
    SegmentsOfJoined(ext);
  }

  /** `StripGitSuffix` undoes a `.git` appended to the last segment. */
  lemma {:induction false} StripAddedSuffix(segs: seq<string>)
    requires |segs| >= 1
    ensures StripGitSuffix(segs[..|segs| - 1] + [segs[|segs| - 1] + ".git"]) == segs
  {
    var last := segs[|segs| - 1];
    assert EndsWith(last + ".git", ".git");
    assert (last + ".git")[..|last + ".git"| - 4] == last;
    LastSplit(segs);
  }

  /** Segmentation round trip: joining non-empty, slash-free segments with `/`
      and appending `.git` gives back exactly those segments. */
  lemma {:induction false} SplitPathRoundTrip(segs: seq<string>)
    requires |segs| >= 1
    requires forall i :: 0 <= i < |segs| ==> segs[i] != "" && '/' !in segs[i]
    ensures SplitPath(Join(segs, '/') + ".git") == segs
  {
    SegmentsWithSuffix(segs);
    StripAddedSuffix(segs);
    SplitPathIgnoresStrip(Join(segs, '/') + ".git");
  }

  /** `StripGitSuffix` is the identity exactly when the last segment does not
      end in `.git`. */
  lemma {:induction false} StripGitSuffixIdentity(segs: seq<string>)
    requires |segs| >= 1
    ensures StripGitSuffix(segs) == segs <==> !EndsWith(segs[|segs| - 1], ".git")
  {
    var r := StripGitSuffix(segs);
    var n := |segs|;
    if EndsWith(segs[n - 1], ".git") {
      assert |r[n - 1]| == |segs[n - 1]| - 4;
    } else {
      LastSplit(segs);
    }
  }

  /** Without the suffix the round trip holds exactly when the last segment
      does not itself end in `.git`. */
  lemma {:induction false} SplitPathRoundTripPlain(segs: seq<string>)
    requires |segs| >= 1
    requires forall i :: 0 <= i < |segs| ==> segs[i] != "" && '/' !in segs[i]
    ensures SplitPath(Join(segs, '/')) == segs <==> !EndsWith(segs[|segs| - 1], ".git")
  {
    SegmentsOfJoined(segs);
    SplitPathIgnoresStrip(Join(segs, '/'));
    StripGitSuffixIdentity(segs);
  }

  // ---------------------------------------------------------------------------
  // Properties of parse_git_remote
  // ---------------------------------------------------------------------------

  /** Printable ASCII other than space: text on which neither URL sanitising
      nor `strip()` has anything to remove. */
  predicate Graphic(s: string) {
    forall i :: 0 <= i < |s| ==> '!' <= s[i] <= '~'
  }

  /** A printable ASCII character is neither whitespace nor unsafe. */
  lemma {:induction false} GraphicCharIsClean(c: char)
    requires '!' <= c <= '~'
    ensures !IsC0OrSpace(c) && !IsPySpace(c) && c !in UnsafeUrlChars
  {
  }

  lemma {:induction false} GraphicIsClean(s: string)
    requires Graphic(s)
    ensures SanitizeUrl(s) == s
    ensures Strip(s) == s
  {
    if |s| > 0 {
      GraphicCharIsClean(s[0]);
      GraphicCharIsClean(s[|s| - 1]);
      assert SanitizeUrl(s) == s by {
        assert DropWhile(s, IsC0OrSpace) == s;
        forall i | 0 <= i < |s|
          ensures s[i] !in UnsafeUrlChars
        {
          GraphicCharIsClean(s[i]);
        }
      }
      StrippedWhenEndsAreNotSpace(s);
    }
  }

  /** A scheme `urlparse` recognises: an ASCII letter, then scheme characters. */
  predicate SchemeText(scheme: string) {
    |scheme| >= 1 && IsAsciiLetter(scheme[0])
    && forall i :: 0 <= i < |scheme| ==> IsSchemeChar(scheme[i])
  }

  /** A netloc without the characters that end one. */
  predicate NetlocText(netloc: string) {
    forall i :: 0 <= i < |netloc| ==> netloc[i] !in {'/', '?', '#'}
  }

  /** A path that follows a netloc and carries no query, fragment or
      parameters. */
  predicate PathText(path: string) {
    (path == "" || path[0] == '/')
    && forall i :: 0 <= i < |path| ==> path[i] !in {'?', '#', ';'}
  }

  /** A valid scheme before the first `:` is recognised and lower-cased. */
  lemma {:induction false} SchemeSplit(scheme: string, rest: string)
    requires SchemeText(scheme)
    ensures HasScheme(scheme + ":" + rest)
    ensures SchemeOf(scheme + ":" + rest) == Lower(scheme)
    ensures AfterScheme(scheme + ":" + rest) == rest
  {
    var s := scheme + ":" + rest;
    assert s[|scheme|] == ':';
    assert forall j :: 0 <= j < |scheme| ==> s[j] == scheme[j] && s[j] != ':';
    assert FindFirst(s, {':'}) == |scheme|;
    assert s[..|scheme|] == scheme;
    assert s[|scheme| + 1..] == rest;
  }

  /** The netloc introduced by `//` runs up to the path's leading `/`. */
  lemma {:induction false} NetlocSplit(rest: string, netloc: string, path: string)
    requires rest == "//" + netloc + path
    requires NetlocText(netloc)
    requires path == "" || path[0] == '/'
    ensures NetlocOf(rest) == netloc
    ensures rest[NetlocEnd(rest)..] == path
  {
    assert StartsWith(rest, "//");
    assert rest[2..] == netloc + path;
    if path != "" {
      assert (netloc + path)[|netloc|] == '/';
    }
    assert FindFirst(netloc + path, {'/', '?', '#'}) == |netloc|;
    assert rest[2..2 + |netloc|] == netloc;
    assert rest[2 + |netloc|..] == path;
  }

  /** A path without query, fragment or parameters is kept whole. */
  lemma {:induction false} PathKept(scheme: string, path: string)
    requires PathText(path)
    ensures PathOf(scheme, path) == path
  {
    assert FindFirst(path, {'?', '#'}) == |path|;
    assert path[..|path|] == path;
  }

  lemma {:induction false} GraphicConcat(a: string, b: string)
    requires Graphic(a) && Graphic(b)
    ensures Graphic(a + b)
  {
    assert forall i :: 0 <= i < |a + b| ==> (a + b)[i] == if i < |a| then a[i] else b[i - |a|];
  }

  /** Scheme characters are printable. */
  lemma {:induction false} SchemeIsGraphic(scheme: string)
    requires SchemeText(scheme)
    ensures Graphic(scheme)
  {
  }

  /** On text that sanitising leaves alone, `urlparse` works on the text
      itself. */
  lemma {:induction false} UrlParseOfClean(url: string)
    requires SanitizeUrl(url) == url
    ensures UrlParse(url)
            == UrlParts(SchemeOf(url), NetlocOf(AfterScheme(url)),
                        PathOf(SchemeOf(url), AfterScheme(url)[NetlocEnd(AfterScheme(url))..]))
  {
  }

  lemma {:induction false} UrlTextIsClean(scheme: string, netloc: string, path: string)
    requires SchemeText(scheme) && Graphic(netloc) && Graphic(path)
    ensures SanitizeUrl(scheme + "://" + netloc + path) == scheme + "://" + netloc + path
  {
    SchemeIsGraphic(scheme);
    GraphicConcat(scheme, "://");
    GraphicConcat(scheme + "://", netloc);
    GraphicConcat(scheme + "://" + netloc, path);
    GraphicIsClean(scheme + "://" + netloc + path);
  }

  /** What `urlparse` yields for `scheme://netloc/path`. */
  lemma {:induction false} UrlParseOfUrl(scheme: string, netloc: string, path: string)
    requires SchemeText(scheme)
    requires Graphic(netloc) && NetlocText(netloc)
    requires Graphic(path) && PathText(path)
    ensures UrlParse(scheme + "://" + netloc + path) == UrlParts(Lower(scheme), netloc, path)
  {
    var rest := "//" + netloc + path;
    var s := scheme + ":" + rest;
    assert s == scheme + "://" + netloc + path;
    UrlTextIsClean(scheme, netloc, path);
    UrlParseOfClean(s);
    SchemeSplit(scheme, rest);
    NetlocSplit(rest, netloc, path);
    PathKept(Lower(scheme), path);
  }

  /** Once located, a remote without brackets is built from its host and
      path. */
  lemma {:induction false} ParseViaLocate(remote: string, u: UrlParts, host: string, path: string)
    requires u == UrlParse(remote)
    requires '[' !in u.netloc && ']' !in u.netloc
    requires Locate(remote, u) == Success((host, path))
    ensures !HasBracketedNetloc(remote)
    ensures ParseGitRemote(remote) == Build(remote, host, path)
  {
  }

  /** URL form: for `scheme://netloc/path` the host is the lower-cased
      hostname of the netloc (user-info and port removed), or the lower-cased
      netloc when that is empty, and the path is segmented by `SplitPath`;
      fewer than two segments is the missing-namespace failure. */
  lemma {:induction false} ParseUrlForm(scheme: string, netloc: string, path: string)
    requires SchemeText(scheme)
    requires netloc != "" && Graphic(netloc) && NetlocText(netloc)
    requires '[' !in netloc && ']' !in netloc
    requires Graphic(path) && PathText(path)
    ensures !HasBracketedNetloc(scheme + "://" + netloc + path)
    ensures var remote := scheme + "://" + netloc + path;
            ParseGitRemote(remote) == Build(remote, UrlHost(netloc), path)
  {
    var remote := scheme + "://" + netloc + path;
    UrlParseOfUrl(scheme, netloc, path);
    var u := UrlParts(Lower(scheme), netloc, path);
    assert Lower(scheme) != "";
    assert Locate(remote, u) == Success((UrlHost(netloc), path));
    ParseViaLocate(remote, u, UrlHost(netloc), path);
  }

  /** The pieces of an scp-form remote, as `ParseScpForm` admits them. */
  predicate ScpPieces(user: Option<string>, host: string, path: string) {
    && (user.Some? ==>
          user.value != "" && Graphic(user.value)
          && forall i :: 0 <= i < |user.value| ==> user.value[i] !in {'@', ':', '/'})
    && host != "" && Graphic(host)
    && (forall i :: 0 <= i < |host| ==> host[i] !in {'@', ':', '/'})
    && path != "" && Graphic(path) && !StartsWith(path, "//")
    && (user.None? ==> '@' !in path)
  }

  lemma {:induction false} ScpTextIsClean(user: Option<string>, host: string, path: string)
    requires ScpPieces(user, host, path)
    ensures SanitizeUrl(ScpText(user, host, path)) == ScpText(user, host, path)
    ensures Strip(ScpText(user, host, path)) == ScpText(user, host, path)
  {
    var pre := if user.Some? then user.value + "@" else "";
    if user.Some? {
      GraphicConcat(user.value, "@");
    }
    GraphicConcat(pre, host);
    GraphicConcat(pre + host, ":");
    GraphicConcat(pre + host + ":", path);
    GraphicIsClean(ScpText(user, host, path));
  }

  /** Text in scp form has no netloc, whether or not its host reads as a
      scheme. */
  lemma {:induction false} ScpTextHasNoNetloc(user: Option<string>, host: string, path: string)
    requires ScpPieces(user, host, path)
    ensures UrlParse(ScpText(user, host, path)).netloc == ""
  {
    var s := ScpText(user, host, path);
    ScpTextIsClean(user, host, path);
    UrlParseOfClean(s);
    if user.Some? {
      ScpUserTextHasNoScheme(user.value, host, path);
    } else {
      ScpHostText(host, path);
    }
  }

  /** With a user part, the `@` before the first `:` rules out a scheme. */
  lemma {:induction false} ScpUserTextHasNoScheme(u: string, host: string, path: string)
    requires u != "" && forall i :: 0 <= i < |u| ==> u[i] !in {'@', ':', '/'}
    ensures !HasScheme(ScpText(Some(u), host, path))
    ensures !StartsWith(AfterScheme(ScpText(Some(u), host, path)), "//")
  {
    var s := ScpText(Some(u), host, path);
    assert s == u + "@" + host + ":" + path;
    assert s[|u|] == '@';
    assert forall j :: 0 <= j < |u| ==> s[j] == u[j];
    assert FindFirst(s, {':'}) > |u|;
    assert s[0] == u[0];
  }

  /** Without a user part, either the host is read as a scheme and the path
      follows it, or there is no scheme; neither begins with `//`. */
  lemma {:induction false} ScpHostText(host: string, path: string)
    requires host != "" && forall i :: 0 <= i < |host| ==> host[i] !in {'@', ':', '/'}
    requires !StartsWith(path, "//")
    ensures !StartsWith(AfterScheme(ScpText(None, host, path)), "//")
  {
    var s := ScpText(None, host, path);
    assert s == host + ":" + path;
    assert FindFirst(s, {':'}) == |host| by {
      assert forall j :: 0 <= j < |host| ==> s[j] == host[j];
      FindFirstAt(s, {':'}, |host|);
    }
    if HasScheme(s) {
      assert AfterScheme(s) == path by { assert s[|host| + 1..] == path; }
    } else {
      assert AfterScheme(s) == s;
      assert s[0] == host[0];
    }
  }

  /** Text in scp form matches the pattern with exactly its own groups. */
  lemma {:induction false} ScpTextMatches(user: Option<string>, host: string, path: string)
    requires ScpPieces(user, host, path)
    ensures ScpMatch(ScpText(user, host, path)) == Some(ScpParts(user, host, path))
  {
    var s := ScpText(user, host, path);
    assert '\n' !in path;
    ScpMatchComplete(s, ScpParts(user, host, path));
    if user.None? {
      assert s == host + ":" + path;
      assert '@' !in s;
      assert FindFirst(s, {'@'}) == |s|;
    }
  }

  /** scp form: `[user@]host:path` is parsed with the lower-cased host and the
      segmented path, even when the host could be read as a URL scheme. */
  lemma {:induction false} ParseScpForm(user: Option<string>, host: string, path: string)
    requires ScpPieces(user, host, path)
    ensures !HasBracketedNetloc(ScpText(user, host, path))
    ensures var remote := ScpText(user, host, path);
            ParseGitRemote(remote) == Build(remote, Lower(host), path)
  {
    var remote := ScpText(user, host, path);
    var u := UrlParse(remote);
    assert u.netloc == "" by { ScpTextHasNoNetloc(user, host, path); }
    assert Locate(remote, u) == Success((Lower(host), path)) by {
      ScpTextIsClean(user, host, path);
      ScpTextMatches(user, host, path);
    }
    ParseViaLocate(remote, u, Lower(host), path);
  }

  /** Without a `:` there is no scp match. */
  lemma {:induction false} NoColonNoScp(t: string)
    requires ':' !in t
    ensures ScpMatch(t).None?
  {
    assert FindFirst(t, {':'}) == |t|;
    var a := FindFirst(t, {'@'});
    if 0 < a < |t| {
      assert ':' !in t[a + 1..];
      assert FindFirst(t[a + 1..], {':'}) == |t[a + 1..]|;
    }
  }

  /** Text without any `:` is never a remote: it has no scheme and cannot
      match the scp pattern. This covers the empty and blank strings and bare
      shorthand such as `owner/repo` or `/owner/repo`, which the parser does
      not accept. */
  lemma {:induction false} ShorthandRejected(remote: string)
    requires ':' !in remote
    requires !HasBracketedNetloc(remote)
    ensures ParseGitRemote(remote).Failure?
  {
    var u := UrlParse(remote);
    assert u.scheme == "" by {
      var clean := SanitizeUrl(remote);
      assert ':' !in clean;
      assert FindFirst(clean, {':'}) == |clean|;
    }
    assert ScpMatch(Strip(remote)).None? by {
      StripKeepsCharacters(remote);
      NoColonNoScp(Strip(remote));
    }
    assert Locate(remote, u).Failure?;
  }

  /** The full name of a parsed remote splits back into namespace and
      repository name. */
  lemma {:induction false} FullNameSplits(remote: string)
    requires !HasBracketedNetloc(remote)
    requires ParseGitRemote(remote).Success?
    ensures var ref := ParseGitRemote(remote).value;
            Split(ref.fullName, '/') == ref.namespace + [ref.repo]
  {
    var ref := ParseGitRemote(remote).value;
    SplitJoin(ref.namespace + [ref.repo], '/');
  }

  /** The netloc `[user@]host[:port]`. */
  function NetlocFrom(user: Option<string>, host: string, port: Option<string>): string {
    (if user.Some? then user.value + "@" else "") + host + (if port.Some? then ":" + port.value else "")
  }

  /** The text after the last `@` of `[user@]host[:port]` is `host[:port]`. */
  lemma {:induction false} NetlocHostinfo(user: Option<string>, host: string, post: string)
    requires '@' !in host && '@' !in post
    ensures AfterLast((if user.Some? then user.value + "@" else "") + host + post, '@') == host + post
  {
    var pre := if user.Some? then user.value + "@" else "";
    var hostinfo := host + post;
    var netloc := pre + host + post;
    assert netloc == pre + hostinfo;
    assert netloc[|netloc| - |hostinfo|..] == hostinfo;
    assert '@' !in hostinfo by {
      assert forall i :: 0 <= i < |hostinfo| ==> hostinfo[i] == if i < |host| then host[i] else post[i - |host|];
    }
    if user.Some? {
      assert netloc[|netloc| - |hostinfo| - 1] == '@';
    }
    AfterLastAt(netloc, '@', hostinfo);
  }

  /** The port of `host[:port]` starts at the first `:`, just after the host. */
  lemma {:induction false} HostinfoPortAt(host: string, port: Option<string>)
    requires ':' !in host
    ensures var hostinfo := host + (if port.Some? then ":" + port.value else "");
            FindFirst(hostinfo, {':'}) == |host| && hostinfo[..|host|] == host
  {
    var hostinfo := host + (if port.Some? then ":" + port.value else "");
    assert forall j :: 0 <= j < |host| ==> hostinfo[j] == host[j];
    if port.Some? {
      assert hostinfo[|host|] == ':';
      FindFirstAt(hostinfo, {':'}, |host|);
    }
    assert hostinfo[..|host|] == host;
  }

  /** `hostname` drops the user-info up to the last `@` and the port from
      the first `:` on, and lower-cases what is left up to a `%` zone. */
  lemma {:induction false} HostnameOfNetloc(user: Option<string>, host: string, port: Option<string>)
    requires '@' !in host && ':' !in host
    requires port.Some? ==> '@' !in port.value
    ensures var k := FindFirst(host, {'%'});
            Hostname(NetlocFrom(user, host, port)) == Lower(host[..k]) + host[k..]
    ensures '%' !in host ==> Hostname(NetlocFrom(user, host, port)) == Lower(host)
    ensures Lower(Hostname(NetlocFrom(user, host, port))) == Lower(host)
  {
    var post := if port.Some? then ":" + port.value else "";
    assert '@' !in post by {
      if port.Some? {
        assert forall i :: 0 <= i < |post| ==> post[i] == if i == 0 then ':' else port.value[i - 1];
      }
    }
    NetlocHostinfo(user, host, post);
    HostinfoPortAt(host, port);
  }

  /** URL form takes its host from `hostname` whenever that is not empty:
      `https://user:pw@GitHub.com:8443/o/r` has the host `github.com`. */
  lemma {:induction false} UrlHostOfNetloc(user: Option<string>, host: string, port: Option<string>)
    requires host != "" && '@' !in host && ':' !in host
    requires port.Some? ==> '@' !in port.value
    ensures UrlHost(NetlocFrom(user, host, port)) == Lower(host)
  {
    HostnameOfNetloc(user, host, port);
  }

  /** A host without user-info or port is its own hostname. */
  lemma {:induction false} PlainHost(h: string)
    requires h != "" && IsLowerCase(h)
    requires forall i :: 0 <= i < |h| ==> h[i] != '@' && h[i] != ':'
    ensures UrlHost(h) == h
  {
    assert AfterLast(h, '@') == h;
    assert FindFirst(h, {':'}) == |h|;
    assert h[..|h|] == h;
    assert Lower(Hostname(h)) == Lower(h);
    LowerIsLowerCase(h);
  }

  /** A last segment that is exactly `.git` loses its whole text. */
  lemma {:induction false} SplitPathDotGitSegment(segs: seq<string>, dotGit: string)
    requires |segs| >= 1
    requires forall i :: 0 <= i < |segs| ==> segs[i] != "" && '/' !in segs[i]
    requires dotGit == ".git"
    ensures SplitPath(Join(segs, '/') + "/" + dotGit) == segs + [""]
  {
    assert '/' !in dotGit by {
      assert dotGit == ['.', 'g', 'i', 't'];
    }
    SegmentsWithLast(segs, dotGit);
    var path := Join(segs, '/') + "/" + dotGit;
    SplitPathIgnoresStrip(path);
    StripDotGitSegment(segs, dotGit);
  }

  lemma {:induction false} SegmentsWithLast(segs: seq<string>, last: string)
    requires |segs| >= 1
    requires forall i :: 0 <= i < |segs| ==> segs[i] != "" && '/' !in segs[i]
    requires last != "" && '/' !in last
    ensures Segments(Join(segs, '/') + "/" + last) == segs + [last]
  {
    SegmentsOfJoin(Join(segs, '/'), last);
    SegmentsOfJoined(segs);
    SegmentsOfSingle(last);
  }

  lemma {:induction false} SegmentsOfSingle(s: string)
    requires s != "" && '/' !in s
    ensures Segments(s) == [s]
  {
    SplitNoSeparator(s, '/');
    NonEmptyIdentity([s]);
  }

  lemma {:induction false} StripDotGitSegment(segs: seq<string>, dotGit: string)
    requires dotGit == ".git"
    ensures StripGitSuffix(segs + [dotGit]) == segs + [""]
  {
    assert EndsWith(dotGit, ".git");
    assert (segs + [dotGit])[..|segs|] == segs;
  }

  /** Consequently the parser accepts `[user@]host:owner/.git` with an empty
      repository name, although a `RepoRef` is meant to name a repository. */
  lemma {:induction false} EmptyRepoNameAccepted(user: Option<string>, host: string, segs: seq<string>)
    requires |segs| >= 1
    requires forall i :: 0 <= i < |segs| ==> segs[i] != "" && '/' !in segs[i]
    requires ScpPieces(user, host, Join(segs, '/') + "/" + ".git")
    ensures !HasBracketedNetloc(ScpText(user, host, Join(segs, '/') + "/" + ".git"))
    ensures var r := ParseGitRemote(ScpText(user, host, Join(segs, '/') + "/" + ".git"));
            r.Success? && r.value.repo == "" && r.value.namespace == segs
  {
    var path := Join(segs, '/') + "/" + ".git";
    assert SplitPath(path) == segs + [""] by { SplitPathDotGitSegment(segs, ".git"); }
    assert !HasBracketedNetloc(ScpText(user, host, path))
        && ParseGitRemote(ScpText(user, host, path)) == Build(ScpText(user, host, path), Lower(host), path) by {
      ParseScpForm(user, host, path);
    }
    var r := ParseGitRemote(ScpText(user, host, path));
    assert r.value.namespace + [r.value.repo] == segs + [""];
    assert r.value.namespace == (segs + [""])[..|segs|];
  }
}
