# devdox-ai-git core, modelled in Dafny

This project models the pure logic inside the `devdox_ai_git` library. The
library lists and fetches repositories from GitHub and GitLab. The model
covers four pieces:

- **The git-remote parser** (`utils/repository_url_parser.py`). It turns a
  remote such as `git@gitlab.example.org:team/tooling/repo.git` or
  `https://github.com/owner/repo.git` into a `RepoRef`: lower-cased host,
  provider tag, namespace segments, repository name and full name. URL form
  is tried first, through a model of Python's `urllib.parse.urlparse`.
  Otherwise the stripped text must match `[user@]host:path`, modelled with
  the regular expression's backtracking. (`url_parser.dfy`, with string
  helpers in `text.dfy`.)
- **The response transformers** (`schema/repo.py`). They turn a provider
  payload into a `NormalizedGitRepo` or a `GitUserResponse`. A payload is
  nothing, an SDK object, a dict, or another value. Fields are Python
  values with Python's truth testing, `dict.get`, `or` and `str()`.
  Construction validates field types strictly. (`py_values.dfy`,
  `schema.dfy`, `gitlab_transformer.dfy`, `github_transformer.dfy`.)
- **The managers' helpers** (`git_managers.py`). These are GitHub's page
  validation and pagination record, GitLab's clamping and header-based
  pagination, repository permissions, and the supported-file check.
  (`managers.dfy`.)
- **The fetchers and the dispatcher** (`repo_fetcher.py`). They work over
  an abstract authenticated manager, given as a record of functions. The
  model also composes them with the managers' own listing code.
  (`fetcher.dfy`.)

Errors that Python raises are `Failure` values naming their cause:
`ParseError`, `TransformError`, `PaginationError`, `HeaderError` and
`FetchError`.

## Model

| member | source | states |
|---|---|---|
| Text.LowerIsLowerCase | src/devdox_ai_git/utils/repository_url_parser.py:20 | lower-casing leaves no upper-case ASCII letter, keeps lower-case text as it is, and is idempotent |
| Text.StripKeepsCharacters | src/devdox_ai_git/utils/repository_url_parser.py:46 | `str.strip()` only removes characters, and leaves text alone that has no whitespace at either end |
| Text.Contains | src/devdox_ai_git/utils/repository_url_parser.py:22-24 | `needle in hay` holds exactly when the needle occurs at some index |
| Text.SplitJoin | src/devdox_ai_git/utils/repository_url_parser.py:29 | `"/".join` followed by `split("/")` gives back slash-free parts |
| Text.JoinSplit | src/devdox_ai_git/utils/repository_url_parser.py:29 | `"/".join(s.split("/"))` gives back `s` for any text |
| Text.RemoveChars | src/devdox_ai_git/utils/repository_url_parser.py:39 | the characters urlparse strips are gone, only characters of the input remain, and text without them is unchanged |
| Text.RemoveCharsCounts | src/devdox_ai_git/utils/repository_url_parser.py:39 | every other character is kept exactly as often as it occurs |
| Text.RemoveCharsAppend | src/devdox_ai_git/utils/repository_url_parser.py:39 | removal works piece by piece, so the kept characters stay in order |
| Text.ParseIntRoundTrip | src/devdox_ai_git/schema/repo.py:79 | the decimal text `str()` gives an integer parses back to that integer under the `int()` rules |
| UrlParser.SchemeOf | src/devdox_ai_git/utils/repository_url_parser.py:39-40 | the scheme urlparse reports is lower-case; it is empty exactly when the text has no valid scheme, and otherwise it is the lower-cased text before the first `:` |
| UrlParser.Hostname | src/devdox_ai_git/utils/repository_url_parser.py:41-42 | `hostname` has no user-info (`@`) and no port (`:`) |
| UrlParser.LowerBeforeZone | src/devdox_ai_git/utils/repository_url_parser.py:41 | `hostname` lower-cases the text before the first `%` and keeps the zone after it as written; lower-casing the result again gives the fully lower-cased host |
| UrlParser.HostnameOfNetloc | src/devdox_ai_git/utils/repository_url_parser.py:41-42 | for a netloc `[user@]host[:port]` whose host has no `@` or `:` and whose port has no `@`, `hostname` is the host lower-cased up to its first `%` (a scoped zone keeps its case), and the lower-cased host once line 42 applies `.lower()` |
| UrlParser.UrlHostOfNetloc | src/devdox_ai_git/utils/repository_url_parser.py:42 | for such a netloc with a non-empty host, the URL-form host is the lower-cased host, whatever the user-info and port |
| UrlParser.ScpMatch | src/devdox_ai_git/utils/repository_url_parser.py:17 | any match has the pattern's shape: user non-empty with no `@`, host non-empty with no `:`, path non-empty with no line break |
| UrlParser.ScpHostPath | src/devdox_ai_git/utils/repository_url_parser.py:17 | a `host:path` split has a non-empty host without `:`, a non-empty path without a line break, and rebuilds the text |
| UrlParser.ScpMatchComplete | src/devdox_ai_git/utils/repository_url_parser.py:17 | the pattern matches whenever some split has that shape; a split with a user wins; the split is unique once the user is fixed |
| UrlParser.ScpMatchNone | src/devdox_ai_git/utils/repository_url_parser.py:17 | the pattern fails to match exactly when no split of the text has its shape |
| UrlParser.ProviderFromHost | src/devdox_ai_git/utils/repository_url_parser.py:19-26 | `gitlab` whenever it occurs in the host; `github` exactly when only `github` occurs; otherwise the lower-cased host itself |
| UrlParser.StripGitSuffix | src/devdox_ai_git/utils/repository_url_parser.py:30-34 | only the last segment can change, and the number of segments is kept |
| UrlParser.Segments | src/devdox_ai_git/utils/repository_url_parser.py:29 | every segment is non-empty and slash-free |
| UrlParser.SplitPath | src/devdox_ai_git/utils/repository_url_parser.py:28-35 | no segment holds a slash, and all but the last are non-empty |
| UrlParser.Locate | src/devdox_ai_git/utils/repository_url_parser.py:39-50 | fails, as an unrecognised format, exactly when urlparse finds no scheme or no netloc and no split of the stripped text has the scp shape; URL form yields the hostname (else the netloc) lower-cased and the parsed path; scp form yields the lower-cased host and path of a matching split, the split with a user whenever one exists; the host is always lower-case |
| UrlParser.Build | src/devdox_ai_git/utils/repository_url_parser.py:52-63 | fails exactly when the path has fewer than two segments; otherwise `namespace + [repo]` is the segmented path, the full name joins it, and the input is kept as `original` |
| UrlParser.ParseGitRemote | src/devdox_ai_git/utils/repository_url_parser.py:37-63 | an unmatched bracket in the netloc is the IPv6 failure; the unrecognised-format failure happens exactly when the remote is in neither form; on success: the original is kept, the namespace is non-empty with slash-free segments, the full name joins namespace and repo, the host is lower-case, and the provider is classified from the host |
| UrlParser.SplitPathDoubleSlash | src/devdox_ai_git/utils/repository_url_parser.py:29 | a doubled slash segments like a single one |
| UrlParser.SplitPathLeadingSlash | src/devdox_ai_git/utils/repository_url_parser.py:29 | leading slashes do not change the segments |
| UrlParser.SplitPathTrailingSlash | src/devdox_ai_git/utils/repository_url_parser.py:29 | trailing slashes do not change the segments |
| UrlParser.SplitPathRoundTrip | src/devdox_ai_git/utils/repository_url_parser.py:28-35 | `s1/…/sn.git` segments back to `[s1, …, sn]` for any non-empty slash-free segments |
| UrlParser.SplitPathRoundTripPlain | src/devdox_ai_git/utils/repository_url_parser.py:30-34 | `s1/…/sn` segments back to the list exactly when `sn` does not end in `.git` |
| UrlParser.ParseUrlForm | src/devdox_ai_git/utils/repository_url_parser.py:39-43 | a `scheme://netloc/path` remote is built from urlparse's hostname (else the netloc) and path |
| UrlParser.ParseScpForm | src/devdox_ai_git/utils/repository_url_parser.py:44-50 | a `[user@]host:path` remote is built from the lower-cased host and the path after the first `:` |
| UrlParser.ShorthandRejected | src/devdox_ai_git/utils/repository_url_parser.py:44-48 | a remote with no `:` at all, such as bare `owner/repo`, fails |
| UrlParser.FullNameSplits | src/devdox_ai_git/utils/repository_url_parser.py:55-62 | splitting the full name at `/` gives back `namespace + [repo]` |
| UrlParser.PlainHost | src/devdox_ai_git/utils/repository_url_parser.py:42 | a lower-case host without user-info or port is its own hostname |
| UrlParser.EmptyRepoNameAccepted | src/devdox_ai_git/utils/repository_url_parser.py:30-34 | a last segment that is exactly `.git` yields a successful parse with an empty repository name |
| PyValues.Get | src/devdox_ai_git/schema/repo.py:108-119 | `dict.get` uses its default only for an absent key, never for a present falsy value |
| PyValues.Or | src/devdox_ai_git/schema/repo.py:118 | `a or b` is `a` exactly when `a` is truthy |
| PyValues.PyStrProperties | src/devdox_ai_git/schema/repo.py:79 | `str()` of a string is that string, rendering twice changes nothing, and an integer renders to decimal text that parses back |
| PyValues.FirstMissing | src/devdox_ai_git/schema/repo.py:78-90 | reading attributes in order fails at the first absent one, and at none exactly when all are present |
| Schema.HostingOf | src/devdox_ai_git/schema/repo.py:11-13 | a string names a `GitHosting` member only through that member's value |
| Schema.HostingValueRoundTrip | src/devdox_ai_git/schema/repo.py:11-13 | every member is found from its value; only `gitlab` and `github` name a member |
| Schema.ValidateRepoRoundTrip | src/devdox_ai_git/schema/repo.py:15-38 | a validated `NormalizedGitRepo` describes its arguments exactly; every well-formed record validates from its own description |
| Schema.ValidateUserRoundTrip | src/devdox_ai_git/schema/repo.py:41-47 | the same for `GitUserResponse` |
| Schema.ValidateRepoAccepts | src/devdox_ai_git/schema/repo.py:15-38 | validation accepts exactly the arguments of the declared types: strings for name, URL, path and branch, integers for the counts, `None` or the declared type for the optional fields |
| Schema.ValidateUserAccepts | src/devdox_ai_git/schema/repo.py:41-47 | validation accepts exactly the arguments that are `None`, an integer id or strings |
| GitLabTransformer.DeriveStorageSize | src/devdox_ai_git/schema/repo.py:52-57 | `None` exactly for falsy statistics; otherwise `repository_size`, or 0 when that key is absent; `.get` fails only on a truthy non-dict |
| GitLabTransformer.DerivedPrivateField | src/devdox_ai_git/schema/repo.py:59-69 | `None` exactly for a falsy visibility; otherwise `True` exactly when the lower-cased text is `private` or `internal` |
| GitLabTransformer.DerivedPrivateIgnoresCase | src/devdox_ai_git/schema/repo.py:64 | visibilities that agree after lower-casing give the same flag |
| GitLabTransformer.TransformProjectToDict | src/devdox_ai_git/schema/repo.py:71-90 | fails at the first missing required attribute; otherwise the dict has exactly the eleven keys, the id is rendered by `str()`, every required attribute is copied, and visibility and statistics are `None` when absent |
| GitLabTransformer.FromGit | src/devdox_ai_git/schema/repo.py:92-120 | `None` exactly for falsy data; other types raise; only an object can lack an attribute; a result always has a size, and its private flag is derived from its visibility |
| GitLabTransformer.GitLabSizeFromStatistics | src/devdox_ai_git/schema/repo.py:52-118 | a dict's size is 0 without statistics or `repository_size`; otherwise it is `repository_size or 0` |
| GitLabTransformer.GitLabDictRenames | src/devdox_ai_git/schema/repo.py:107-119 | the record's fields are read from GitLab's keys: `star_count`, `http_url_to_repo`, `path_with_namespace`, `main` for an absent default branch |
| GitLabTransformer.GitLabIntegerId | src/devdox_ai_git/schema/repo.py:108 | an integer id becomes its decimal text, which parses back to it |
| GitLabTransformer.StorageSizeTyped | src/devdox_ai_git/schema/repo.py:52-57 | the derived size is an integer or `None` exactly when statistics are falsy or a dict whose `repository_size` is absent, falsy or an integer |
| GitLabTransformer.FromDictAccepts | src/devdox_ai_git/schema/repo.py:52-118 | a dict gives a record exactly when name, URL and path are strings, branch and counts are absent or of their type, the optional fields are `None` or of their type, and the statistics are usable; it never gives `None` |
| GitLabTransformer.GitLabDictAccepted | src/devdox_ai_git/schema/repo.py:92-120 | `from_git` accepts a non-empty dict exactly when it is well typed, and then gives a record |
| GitLabTransformer.GitLabObjectAccepted | src/devdox_ai_git/schema/repo.py:71-120 | `from_git` accepts an object exactly when it has every required attribute and those are well typed, and then gives a record |
| GitLabTransformer.GitLabObjectMatchesDict | src/devdox_ai_git/schema/repo.py:71-120 | an object with all required attributes gives the same result as a dict with the same entries |
| GitLabTransformer.FromGitUser | src/devdox_ai_git/schema/repo.py:122-140 | `None` exactly for falsy data; only a dict is accepted; the user describes the dict's entries exactly |
| GitLabTransformer.GitLabUserAccepted | src/devdox_ai_git/schema/repo.py:122-140 | a dict is accepted exactly when it is empty or its six entries are absent, `None` or of the declared type; a non-empty accepted dict gives a user; an object is never accepted |
| GitHubTransformer.ResolveSizeKbToBytes | src/devdox_ai_git/schema/repo.py:145-150 | 0 for a falsy size; 1024 times a number; a `TypeError` exactly for a truthy value that cannot be multiplied |
| PyValues.Repeat | src/devdox_ai_git/schema/repo.py:150 | `s * n` is `n` times as long as `s`, starts with `s` and repeats with the length of `s` as its period |
| GitHubTransformer.SizeBytesRoundTrip | src/devdox_ai_git/schema/repo.py:145-150 | an integer result is a whole number of kilobytes, and dividing by 1024 gives back the input |
| GitHubTransformer.TransformRepositoryToDict | src/devdox_ai_git/schema/repo.py:152-169 | fails exactly at the first missing required attribute, naming it; otherwise it is the twelve-key dict of `RepositoryDictEntries` |
| GitHubTransformer.RepositoryDictEntries | src/devdox_ai_git/schema/repo.py:156-168 | the dict's entries key by key: the id rendered, `main` or 0 for a falsy branch, count or size, and `created_at` moved to `repo_created_at` |
| GitHubTransformer.RepositoryAttributesPresent | src/devdox_ai_git/schema/repo.py:156-168 | an object converts exactly when it has every attribute read without a default |
| GitHubTransformer.FromGit | src/devdox_ai_git/schema/repo.py:184-213 | `None` exactly for falsy data; other types raise; only an object can lack an attribute; the size is a whole number of kilobytes |
| GitHubTransformer.FromDictProperties | src/devdox_ai_git/schema/repo.py:200-213 | a record built from a dict has a size of 1024 times the number in `size`, or 0 when that is absent; a dict never causes a missing-attribute error |
| GitHubTransformer.FromDictAccepts | src/devdox_ai_git/schema/repo.py:145-213 | a dict gives a record exactly when name, URL and full name are strings, branch and counts are absent or of their type, the size can be multiplied, and the optional fields are `None` or of their type; it never gives `None` |
| GitHubTransformer.GitHubDictAccepted | src/devdox_ai_git/schema/repo.py:184-213 | `from_git` accepts a non-empty dict exactly when it is well typed, and then gives a record |
| GitHubTransformer.RepositoryDictTyped | src/devdox_ai_git/schema/repo.py:152-169 | the dict built from an object is well typed exactly when the object's attributes are, where falsy branch, counts and size are replaced by defaults |
| GitHubTransformer.GitHubObjectAccepted | src/devdox_ai_git/schema/repo.py:152-213 | `from_git` accepts an object exactly when it has every required attribute and those are well typed, and then gives a record |
| GitHubTransformer.GitHubDictRenames | src/devdox_ai_git/schema/repo.py:200-213 | the record's fields come from GitHub's keys: `full_name`, `repo_created_at`, `main` and 0 for absent ones |
| GitHubTransformer.GitHubDictSize | src/devdox_ai_git/schema/repo.py:146-211 | a dict's size is 0 when absent or falsy, and 1024 times an integer otherwise |
| GitHubTransformer.GitHubObjectDefaults | src/devdox_ai_git/schema/repo.py:160-163 | for an object, a falsy default branch becomes `main` and falsy forks, stars or size become 0 |
| GitHubTransformer.GitHubObjectMatchesDict | src/devdox_ai_git/schema/repo.py:152-213 | an object gives the same result as a dict with its attributes and `repo_created_at`, when the branch is set and forks and stars are set or 0 |
| GitHubTransformer.TransformAuthenticatedUserToDict | src/devdox_ai_git/schema/repo.py:171-182 | fails at the first missing attribute; otherwise the keys are exactly the six attributes read, each holding the user's value |
| GitHubTransformer.FromGitUser | src/devdox_ai_git/schema/repo.py:215-237 | `None` exactly for falsy data; other types raise; the user describes the dict's or object's entries, with the username taken from `login` |
| GitHubTransformer.FromUserDictAccepts | src/devdox_ai_git/schema/repo.py:215-237 | a user dict gives a user exactly when its six entries, read with `login` for the username, are absent, `None` or of the declared type |
| GitHubTransformer.GitHubUserAccepted | src/devdox_ai_git/schema/repo.py:171-237 | `from_git_user` accepts a non-empty dict exactly when it is well typed, and an object exactly when it has all six attributes and they are well typed, then giving a user |
| GitHubTransformer.GitHubUserObjectMatchesDict | src/devdox_ai_git/schema/repo.py:171-237 | an object gives the same user as a dict with the same entries |
| Managers.ValidatePerPage | src/devdox_ai_git/git_managers.py:219-221 | the result is always in 1..100; a size is kept exactly when in range, otherwise 30 |
| Managers.ValidatePage | src/devdox_ai_git/git_managers.py:223-225 | the result is at least 1; a page is kept exactly when it is at least 1 |
| Managers.ClampPerPage | src/devdox_ai_git/git_managers.py:375 | the result is in 1..100: a size below the range moves up to 1, one above moves down to 100 |
| Managers.ClampPage | src/devdox_ai_git/git_managers.py:376 | the result is at least 1 and at least the page |
| Managers.FallbackVersusClamp | src/devdox_ai_git/git_managers.py:219-376 | GitHub and GitLab agree on pages, and on page sizes exactly within 1..100; both normalisations are idempotent |
| Managers.FloorDiv | src/devdox_ai_git/git_managers.py:267 | Python's `//` rounds down for either sign of divisor |
| Managers.GetPaginationInfo | src/devdox_ai_git/git_managers.py:265-280 | raises only for a zero page size; for a positive page size, `total_pages` is the ceiling of count over size; next/previous exist exactly after/before the bounds and hold `page ± 1`; the inputs are echoed |
| Managers.HasNextPageIffItemsRemain | src/devdox_ai_git/git_managers.py:267-268 | a next page exists exactly when `page * per_page` is below the count |
| Managers.NextThenPrev | src/devdox_ai_git/git_managers.py:268-280 | the page after the current one reports the current one as its previous page |
| Managers.GitHubListingPage | src/devdox_ai_git/git_managers.py:146-166 | the SDK is asked for zero-based page `page - 1` of the validated arguments, and the pagination record describes those arguments |
| Managers.IntHeader | src/devdox_ai_git/git_managers.py:389-392 | `int(h.get(name) or default)`: the default for a missing or empty header; otherwise the header parsed, or a failure naming it |
| Managers.PageOrNone | src/devdox_ai_git/git_managers.py:391-392 | `or None` turns exactly 0 into no page |
| Managers.GitLabPagination | src/devdox_ai_git/git_managers.py:375-393 | arguments are clamped; a missing or empty `X-Total` gives 0 and `X-Total-Pages` gives 1; every other header value is the integer its text parses to; next/prev are absent exactly for a missing, empty or zero header; it fails exactly when some present, non-empty header is not an integer, naming the first in read order |
| Managers.HeaderRoundTrip | src/devdox_ai_git/git_managers.py:386-393 | the headers written for a pagination record read back as that record |
| Managers.AttrOrFalse | src/devdox_ai_git/git_managers.py:260-262 | `getattr(obj, name, False)` is the attribute when the object has it and `False` otherwise |
| Managers.GetRepoPermissions | src/devdox_ai_git/git_managers.py:256-263 | every flag is `False` without a permissions object; otherwise each is that object's attribute, or `False` |
| Managers.PermissionsRoundTrip | src/devdox_ai_git/git_managers.py:256-263 | a permissions object with three flags reports exactly those flags |
| Managers.AnySuffix | src/devdox_ai_git/git_managers.py:185 | `any(f.endswith(e) for e in exts)` holds exactly when some extension is a suffix |
| Managers.IsSupportedFile | src/devdox_ai_git/git_managers.py:24-185 | a file is supported exactly when some member of `SUPPORTED_EXTENSIONS` is a suffix of its name |
| Managers.SupportedFileSuffixes | src/devdox_ai_git/git_managers.py:24-185 | any name with a supported extension appended is supported; a name without a dot never is |
| Fetcher.GetComponents | src/devdox_ai_git/repo_fetcher.py:122-136 | components exist exactly when the provider's value names a `GitHosting`; the fetcher is fresh with the default base URL, and the transformer is for the same provider |
| Fetcher.DispatchIsExact | src/devdox_ai_git/repo_fetcher.py:130-136 | a member and its value dispatch alike; a string dispatches exactly when it equals `github` or `gitlab` |
| Fetcher.FetchUserRepositories | src/devdox_ai_git/repo_fetcher.py:30-88 | the manager is asked for page `offset + 1` of `limit`; the count is its total and the data its repositories |
| Fetcher.LanguageNames | src/devdox_ai_git/repo_fetcher.py:60 | `[*languages]` lists the language dict's keys in order |
| Fetcher.FetchSingleRepo | src/devdox_ai_git/repo_fetcher.py:43-107 | fails exactly when the remote does not parse; the project is looked up by its full name; `None` exactly when the manager's project is falsy; otherwise the project with its language names |
| Fetcher.FetchRepoUser | src/devdox_ai_git/repo_fetcher.py:62-117 | `None` exactly for a falsy user; otherwise the user unchanged |
| Fetcher.ShorthandFetchFails | src/devdox_ai_git/repo_fetcher.py:49-51 | bare `owner/repo` shorthand fails before the manager is asked for a project |
| Fetcher.HostIgnoredBySingleFetch | src/devdox_ai_git/repo_fetcher.py:49-51 | a URL remote and an scp-like remote with the same path fetch the same project |
| Fetcher.UrlRemoteNames | src/devdox_ai_git/utils/repository_url_parser.py:39-62 | a URL remote fails exactly when its path has fewer than two segments; otherwise its full name joins the segments |
| Fetcher.ScpRemoteNames | src/devdox_ai_git/utils/repository_url_parser.py:44-62 | the same for an scp-like remote |
| Fetcher.SameFullNameSameFetch | src/devdox_ai_git/repo_fetcher.py:49-60 | remotes that fail alike or share a full name fetch the same thing |
| Fetcher.PayloadOf | src/devdox_ai_git/repo_fetcher.py:67 | a manager's value is falsy exactly when the payload made of it is |
| Fetcher.NoUserAgreement | src/devdox_ai_git/repo_fetcher.py:67-70 | `fetch_repo_user` returns nothing exactly when both transformers' `from_git_user` would |
| Fetcher.GitHubUserRepositories | src/devdox_ai_git/git_managers.py:134-170 | GitHub's listing never fails; it reports the SDK's total and the validated zero-based page |
| Fetcher.GitHubOffsetIsPageIndex | src/devdox_ai_git/repo_fetcher.py:30-41 | through GitHub, the offset is the SDK's zero-based page index for in-range limits; a negative offset reads page 0; an out-of-range limit reads pages of 30 |
| Fetcher.GitLabUserRepositories | src/devdox_ai_git/git_managers.py:371-393 | GitLab's listing asks the server for the clamped page and fails exactly when a header is not an integer |
| Fetcher.GitLabOffsetIsPage | src/devdox_ai_git/repo_fetcher.py:77-88 | through GitLab, an in-range request asks for page `offset + 1` of `limit`; the count is `X-Total`, or 0 without it |

## Left out

- Network and SDK calls are not modelled: authentication, `get_project`, `get_project_languages`, `get_user`, HTTP requests and `raise_for_status`. Neither are the `DevDoxGitException` wrappers around them. The authenticated manager is a parameter: a record of arbitrary functions.
- The GitLab projects URL and its query string are not modelled; the server is a function of page number and page size.
- `extract_repo_info` is not modelled. It copies fields and calls `datetime.isoformat`. Only its permissions helper is modelled.
- Timestamps are opaque values: a `datetime`, or text that validation would parse. No date parsing is modelled.
- Pydantic's coercion is not modelled: a field accepts exactly the types it names. So `"5"` for an `int` field is a validation failure here.
- Response headers are an exact-key map. `requests` matches header names case-insensitively.
- `str.lower()` is modelled for ASCII letters only.
- `int()` accepts decimal digits only from ASCII. Python also accepts other Unicode decimal digits, such as Arabic-Indic digits, in header values and id text.
- CPython's limit on integer text is not modelled. Since 3.11 (and 3.10.7), `int()` of a string with more than 4300 digits and `str()` of an integer with more than 4300 digits raise `ValueError`. The limit is an interpreter setting (`sys.set_int_max_str_digits`, `PYTHONINTMAXSTRDIGITS`, `0` turns it off), so the model converts integers of any length. The members below inherit this gap.
- Text.ParseIntRoundTrip: the round trip also holds here for text longer than 4300 digits, which CPython's default limit rejects.
- PyValues.PyStrProperties: an integer of more than 4300 digits renders here, where `str()` raises `ValueError` under the default limit.
- Managers.IntHeader: a header of more than 4300 digits parses here, where `int()` raises `ValueError` under the default limit.
- Managers.GitLabPagination: fails only for headers that are not integer text; a header of more than 4300 digits is read, not rejected.
- Managers.HeaderRoundTrip: also holds for values of more than 4300 digits, which CPython's default limit would not read back.
- Fetcher.GitLabUserRepositories: inherits the `GitLabPagination` gap for headers of more than 4300 digits.
- GitLabTransformer.GitLabIntegerId: renders ids of any length; CPython's default limit raises for more than 4300 digits.
- GitLabTransformer.TransformProjectToDict: succeeds on an integer id of more than 4300 digits, where `str()` raises under the default limit.
- GitLabTransformer.FromGit: renders the integer id of a dict or object at any length, where `str()` raises for more than 4300 digits under the default limit.
- GitLabTransformer.FromDictAccepts: accepts a well-typed dict whose integer id has more than 4300 digits, which CPython's default limit rejects.
- GitLabTransformer.GitLabDictAccepted: `from_git` accepts a dict whose integer id has more than 4300 digits, which CPython's default limit rejects.
- GitLabTransformer.GitLabObjectAccepted: `from_git` accepts an object whose integer id has more than 4300 digits, which CPython's default limit rejects.
- GitHubTransformer.TransformRepositoryToDict: succeeds on an integer id of more than 4300 digits, where `str()` raises under the default limit.
- GitHubTransformer.FromGit: renders the integer id of a dict or object at any length, where `str()` raises for more than 4300 digits under the default limit.
- GitHubTransformer.FromDictAccepts: accepts a well-typed dict whose integer id has more than 4300 digits, which CPython's default limit rejects.
- GitHubTransformer.GitHubDictAccepted: `from_git` accepts a dict whose integer id has more than 4300 digits, which CPython's default limit rejects.
- GitHubTransformer.GitHubObjectAccepted: `from_git` accepts an object whose integer id has more than 4300 digits, which CPython's default limit rejects.
- urlparse's `_checknetloc` is not modelled. It raises `ValueError` for some non-ASCII netlocs whose NFKC normalisation introduces `/`, `?`, `#`, `@` or `:`.
- UrlParser.ParseGitRemote: remotes whose netloc holds both `[` and `]` (IPv6 literal hosts) are excluded by its precondition, because urlparse's bracket validation is not modelled. An unmatched bracket is modelled; it fails.
- GitLabTransformer.FromGit, GitHubTransformer.FromGit, GitLabTransformer.TransformProjectToDict, GitHubTransformer.TransformRepositoryToDict, GitHubTransformer.RepositoryDictEntries, and the acceptance lemmas FromDictAccepts, GitLabDictAccepted, GitLabObjectAccepted, GitHubDictAccepted and GitHubObjectAccepted: they require an `id` that is not a mapping or an arbitrary object, because the `str()` of those is not modelled.
- Fetcher.FetchSingleRepo: inherits the bracketed-netloc precondition of the parser.
- Fetcher.GetComponents: fetcher and transformer instances are values, so "fresh" is stated as "built with the default base URL". Object identity is not modelled.
- The test doubles are not modelled. They return constants.
- The parser's `.git` stripping yields an empty repository name for a last segment that is exactly `.git` (`UrlParser.EmptyRepoNameAccepted`). This is modelled as written and not corrected.
