/** `repo_fetcher.py`: the provider dispatcher `RepoFetcher.get_components`
    and the two fetchers, which reshape what an authenticated manager returns.
    The manager is a parameter: a record of the four calls the fetchers make,
    each an arbitrary function. */
module Fetcher {
  import opened Wrappers
  import opened Text
  import opened PyValues
  import opened Schema
  import opened UrlParser
  import opened Managers
  import GitHubTransformer
  import GitLabTransformer

  // ---------------------------------------------------------------------------
  // Dispatch
  // ---------------------------------------------------------------------------

  /** The `provider` argument: a `GitHosting` member or any string. */
  datatype ProviderArg = Member(hosting: GitHosting) | Name(text: string)

  /** `provider.value if isinstance(provider, GitHosting) else provider`. */
  function ProviderValue(provider: ProviderArg): string {
    match provider
    case Member(h) => h.Value()
    case Name(s) => s
  }

  /** A fetcher: which manager it builds, and the base URL it builds it with. */
  datatype RepoFetcher = RepoFetcher(hosting: GitHosting, baseUrl: string)

  /** A response transformer class. */
  datatype ResponseTransformer = ResponseTransformer(hosting: GitHosting)

  /** The managers' `default_base_url`s, which a fetcher built without
      arguments uses. */
  function DefaultBaseUrl(h: GitHosting): string {
    match h
    case GitHub => "https://api.github.com"
    case GitLab => "https://gitlab.com"
  }

  /** A fetcher built with no arguments. */
  function NewFetcher(h: GitHosting): (f: RepoFetcher)
    ensures f.hosting == h
  {
    RepoFetcher(h, DefaultBaseUrl(h))
  }

  /** `get_components`: a fresh fetcher and transformer for the same provider
      when the value is exactly `github` or `gitlab` (a `GitHosting` is a
      `str` enum, so a member equals its value); `(None, None)` otherwise. */
  function GetComponents(provider: ProviderArg): (r: Option<(RepoFetcher, ResponseTransformer)>)
    ensures r.Some? <==> HostingOf(ProviderValue(provider)).Some?
    ensures r.Some? ==> r.value.0 == NewFetcher(HostingOf(ProviderValue(provider)).value)
                        && r.value.1 == ResponseTransformer(r.value.0.hosting)
  {
    var value := ProviderValue(provider);
    if value == GitHub.Value() || provider == Member(GitHub) then Some((NewFetcher(GitHub), ResponseTransformer(GitHub)))
    else if value == GitLab.Value() || provider == Member(GitLab) then Some((NewFetcher(GitLab), ResponseTransformer(GitLab)))
    else None
  }

  /** A member and its value select the same components, and a string
      selects components exactly when it is a member's value: matching is
      exact, so `GitHub` or `GITLAB` select nothing. */
  lemma {:induction false} DispatchIsExact(h: GitHosting, s: string)
    ensures GetComponents(Member(h)) == GetComponents(Name(h.Value()))
    ensures GetComponents(Member(h)).Some? && GetComponents(Member(h)).value.0.hosting == h
    ensures GetComponents(Name(s)).Some? <==> s == "github" || s == "gitlab"
  {
    HostingValueRoundTrip(h, s);
  }

  // ---------------------------------------------------------------------------
  // The authenticated manager
  // ---------------------------------------------------------------------------

  /** Why a fetch raises. */
  datatype FetchError =
    | InvalidRemote(cause: ParseError)   // `parse_git_remote` raised `ValueError`
    | InvalidHeader(header: string)      // a GitLab pagination header is not an integer

  /** What `get_user_repositories` returns, as far as the fetchers read it. */
  datatype Listing = Listing(repositories: seq<Value>, totalCount: int)

  /** An authenticated manager: the calls a fetcher makes on it. Languages
      come back as the entries of the language dict, in order. */
  datatype Manager = Manager(
    userRepositories: (int, int) -> Result<Listing, FetchError>,
    getProject: string -> Value,
    projectLanguages: Value -> seq<(string, int)>,
    getUser: () -> Value)

  // ---------------------------------------------------------------------------
  // Fetchers (the GitHub and GitLab fetchers run the same code)
  // ---------------------------------------------------------------------------

  /** The dict `fetch_user_repositories` returns. */
  datatype RepositoryPage = RepositoryPage(dataCount: int, data: seq<Value>)

  /** `fetch_user_repositories`: the offset counts pages from 0, the manager
      from 1; the count is the total the manager reports. */
  function FetchUserRepositories(m: Manager, offset: int, limit: int): (r: Result<RepositoryPage, FetchError>)
    ensures m.userRepositories(offset + 1, limit).Failure? <==> r.Failure?
    ensures r.Success? ==>
              var listing := m.userRepositories(offset + 1, limit).value;
              r.value.dataCount == listing.totalCount && r.value.data == listing.repositories
  {
    var listing :- m.userRepositories(offset + 1, limit);
    Success(RepositoryPage(listing.totalCount, listing.repositories))
  }

  /** `[*languages]`: the keys of the language dict, in order. */
  function LanguageNames(languages: seq<(string, int)>): (names: seq<string>)
    ensures |names| == |languages|
    ensures forall i :: 0 <= i < |names| ==> names[i] == languages[i].0
  {
    if |languages| == 0 then [] else [languages[0].0] + LanguageNames(languages[1..])
  }

  /** `fetch_single_repo`: the remote is parsed, the project is looked up by
      its full name, and nothing is returned when the manager finds nothing. */
  function FetchSingleRepo(m: Manager, relativePath: string): (r: Result<Option<(Value, seq<string>)>, FetchError>)
    requires !HasBracketedNetloc(relativePath)
    ensures ParseGitRemote(relativePath).Failure? <==> r.Failure?
    ensures r.Failure? ==> r.error == InvalidRemote(ParseGitRemote(relativePath).error)
    ensures r.Success? ==>
              var project := m.getProject(ParseGitRemote(relativePath).value.fullName);
              && (r.value.None? <==> !Truthy(project))
              && (r.value.Some? ==> r.value.value.0 == project
                                    && r.value.value.1 == LanguageNames(m.projectLanguages(project)))
  {
    match ParseGitRemote(relativePath)
    case Failure(e) => Failure(InvalidRemote(e))
    case Success(ref) =>
      var repository := m.getProject(ref.fullName);
      if !Truthy(repository) then Success(None)
      else Success(Some((repository, LanguageNames(m.projectLanguages(repository)))))
  }

  /** `fetch_repo_user`: a falsy user becomes `None`, any other is returned
      unchanged. */
  function FetchRepoUser(m: Manager): (r: Option<Value>)
    ensures r.None? <==> !Truthy(m.getUser())
    ensures r.Some? ==> r.value == m.getUser()
  {
    var user := m.getUser();
    if !Truthy(user) then None else Some(user)
  }

  // ---------------------------------------------------------------------------
  // Properties across modules
  // ---------------------------------------------------------------------------

  /** A remote without a `:` (bare `owner/repo` shorthand) is rejected
      before the authenticated manager is asked for a project. */
  lemma {:induction false} ShorthandFetchFails(m: Manager, relativePath: string)
    requires ':' !in relativePath
    requires !HasBracketedNetloc(relativePath)
    ensures FetchSingleRepo(m, relativePath).Failure?
  {
    ShorthandRejected(relativePath);
  }

  /** The host of the remote plays no part: a URL remote and an scp-like
      remote with the same path fetch the same project (the manager is
      authenticated against its own base URL). */
  lemma {:induction false} HostIgnoredBySingleFetch(m: Manager, scheme: string, netloc: string,
                                 user: Option<string>, host: string, path: string)
    requires SchemeText(scheme)
    requires netloc != "" && Graphic(netloc) && NetlocText(netloc)
    requires '[' !in netloc && ']' !in netloc
    requires Graphic("/" + path) && PathText("/" + path)
    requires ScpPieces(user, host, path)
    ensures !HasBracketedNetloc(scheme + "://" + netloc + "/" + path)
    ensures !HasBracketedNetloc(ScpText(user, host, path))
    ensures FetchSingleRepo(m, scheme + "://" + netloc + "/" + path) == FetchSingleRepo(m, ScpText(user, host, path))
  {
    var url := scheme + "://" + netloc + "/" + path;
    var scp := ScpText(user, host, path);
    UrlRemoteNames(scheme, netloc, path);
    ScpRemoteNames(user, host, path);
    SameFullNameSameFetch(m, url, scp);
  }

  /** What the fetcher reads of a parsed URL remote: whether it fails, and
      the full name. */
  lemma {:induction false} UrlRemoteNames(scheme: string, netloc: string, path: string)
    requires SchemeText(scheme)
    requires netloc != "" && Graphic(netloc) && NetlocText(netloc)
    requires '[' !in netloc && ']' !in netloc
    requires Graphic("/" + path) && PathText("/" + path)
    ensures !HasBracketedNetloc(scheme + "://" + netloc + "/" + path)
    ensures var r := ParseGitRemote(scheme + "://" + netloc + "/" + path);
            && (r.Failure? <==> |SplitPath(path)| < 2)
            && (r.Failure? ==> r.error == MissingNamespaceOrRepo)
            && (r.Success? ==> r.value.fullName == Join(SplitPath(path), '/'))
  {
    assert scheme + "://" + netloc + "/" + path == scheme + "://" + netloc + ("/" + path);
    ParseUrlForm(scheme, netloc, "/" + path);
    SplitPathLeadingSlash(path);
  }

  /** The same for an scp-like remote. */
  lemma {:induction false} ScpRemoteNames(user: Option<string>, host: string, path: string)
    requires ScpPieces(user, host, path)
    ensures !HasBracketedNetloc(ScpText(user, host, path))
    ensures var r := ParseGitRemote(ScpText(user, host, path));
            && (r.Failure? <==> |SplitPath(path)| < 2)
            && (r.Failure? ==> r.error == MissingNamespaceOrRepo)
            && (r.Success? ==> r.value.fullName == Join(SplitPath(path), '/'))
  {
    ParseScpForm(user, host, path);
  }

  /** Two remotes that fail together and otherwise name the same project
      fetch the same thing. */
  lemma {:induction false} SameFullNameSameFetch(m: Manager, a: string, b: string)
    requires !HasBracketedNetloc(a) && !HasBracketedNetloc(b)
    requires ParseGitRemote(a).Failure? <==> ParseGitRemote(b).Failure?
    requires ParseGitRemote(a).Failure? ==> ParseGitRemote(a).error == ParseGitRemote(b).error
    requires ParseGitRemote(a).Success? ==> ParseGitRemote(a).value.fullName == ParseGitRemote(b).value.fullName
    ensures FetchSingleRepo(m, a) == FetchSingleRepo(m, b)
  {
  }

  /** How a manager's user maps to a transformer's `data`: a dict, an SDK
      object, nothing, or a value of another type. */
  function PayloadOf(v: Value): (p: Payload)
    ensures Falsy(p) <==> !Truthy(v)
  {
    match v
    case VNone => PNone
    case VMap(d) => PDict(d)
    case VObj(a) => PObject(a)
    case _ => POther(Truthy(v))
  }

  /** `fetch_repo_user` and the transformers' `from_git_user` agree on what
      counts as no user. */
  lemma {:induction false} NoUserAgreement(m: Manager)
    ensures FetchRepoUser(m).None? <==> GitHubTransformer.FromGitUser(PayloadOf(m.getUser())) == Success(None)
    ensures FetchRepoUser(m).None? <==> GitLabTransformer.FromGitUser(PayloadOf(m.getUser())) == Success(None)
  {
  }

  // ---------------------------------------------------------------------------
  // The fetchers over the managers' own listing code
  // ---------------------------------------------------------------------------

  /** GitHub's repository list as the SDK sees it: a total count, and the
      repositories on a zero-based page of a given size. */
  datatype GitHubRepos = GitHubRepos(totalCount: int, pageOf: (int, int) -> seq<Value>)

  /** `AuthenticatedGitHubManager.get_user_repositories`. */
  function GitHubUserRepositories(repos: GitHubRepos, page: int, perPage: int): (r: Result<Listing, FetchError>)
    ensures r.Success?
    ensures r.value.totalCount == repos.totalCount
    ensures r.value.repositories == repos.pageOf(ValidatePage(page) - 1, ValidatePerPage(perPage))
  {
    var (index, info) := GitHubListingPage(page, perPage, repos.totalCount);
    Success(Listing(repos.pageOf(index, info.perPage), info.totalCount))
  }

  /** A GitHub manager listing through the SDK. */
  function GitHubManager(repos: GitHubRepos, getProject: string -> Value,
                         projectLanguages: Value -> seq<(string, int)>, getUser: () -> Value): Manager {
    Manager((page: int, perPage: int) => GitHubUserRepositories(repos, page, perPage),
            getProject, projectLanguages, getUser)
  }

  /** Through GitHub, the offset is the SDK's zero-based page index; an
      offset before the first page reads page 0, and a limit outside 1..100
      reads pages of 30. The count is the SDK's total. */
  lemma {:induction false} GitHubOffsetIsPageIndex(repos: GitHubRepos, getProject: string -> Value,
                                projectLanguages: Value -> seq<(string, int)>, getUser: () -> Value,
                                offset: int, limit: int)
    ensures var r := FetchUserRepositories(GitHubManager(repos, getProject, projectLanguages, getUser), offset, limit);
            && r.Success? && r.value.dataCount == repos.totalCount
            && (offset >= 0 && MinPerPage <= limit <= MaxPerPage ==> r.value.data == repos.pageOf(offset, limit))
            && (offset < 0 ==> r.value.data == repos.pageOf(0, ValidatePerPage(limit)))
            && (!(MinPerPage <= limit <= MaxPerPage) ==> r.value.data == repos.pageOf(ValidatePage(offset + 1) - 1, FallbackPerPage))
  {
  }

  /** GitLab's projects endpoint: the repositories and response headers for a
      page number and page size. */
  datatype GitLabServer = GitLabServer(projects: (int, int) -> (seq<Value>, map<string, string>))

  /** `AuthenticatedGitLabManager.get_user_repositories`. */
  function GitLabUserRepositories(server: GitLabServer, page: int, perPage: int): (r: Result<Listing, FetchError>)
    ensures var (repos, headers) := server.projects(ClampPage(page), ClampPerPage(perPage));
            && (r.Failure? <==> GitLabPagination(page, perPage, headers).Failure?)
            && (r.Success? ==> r.value.repositories == repos
                               && r.value.totalCount == GitLabPagination(page, perPage, headers).value.totalCount)
  {
    var (repos, headers) := server.projects(ClampPage(page), ClampPerPage(perPage));
    match GitLabPagination(page, perPage, headers)
    case Failure(e) => Failure(InvalidHeader(e.header))
    case Success(info) => Success(Listing(repos, info.totalCount))
  }

  /** A GitLab manager listing through the projects endpoint. */
  function GitLabManager(server: GitLabServer, getProject: string -> Value,
                         projectLanguages: Value -> seq<(string, int)>, getUser: () -> Value): Manager {
    Manager((page: int, perPage: int) => GitLabUserRepositories(server, page, perPage),
            getProject, projectLanguages, getUser)
  }

  /** Through GitLab, an offset from 0 and a limit within 1..100 ask the
      server for page `offset + 1` of `limit` items, and the count is the
      `X-Total` header, 0 when the server sends none. */
  lemma {:induction false} GitLabOffsetIsPage(server: GitLabServer, getProject: string -> Value,
                           projectLanguages: Value -> seq<(string, int)>, getUser: () -> Value,
                           offset: int, limit: int)
    requires offset >= 0 && MinPerPage <= limit <= MaxPerPage
    ensures var r := FetchUserRepositories(GitLabManager(server, getProject, projectLanguages, getUser), offset, limit);
            var (repos, headers) := server.projects(offset + 1, limit);
            && (r.Failure? <==> GitLabPagination(offset + 1, limit, headers).Failure?)
            && (r.Success? ==> r.value.data == repos)
            && (r.Success? && TotalHeader !in headers ==> r.value.dataCount == 0)
            && (r.Success? && TotalHeader in headers && headers[TotalHeader] != "" ==>
                  Some(r.value.dataCount) == ParseInt(headers[TotalHeader]))
  {
  }
}
