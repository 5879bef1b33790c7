/** The pure helpers of `git_managers.py`: GitHub's page validation and
    pagination record, GitLab's clamping and header-based pagination,
    repository permissions, and the supported-file check. The SDK and HTTP
    calls around them are not part of this model. */
module Managers {
  import opened Wrappers
  import opened Text
  import opened PyValues

  // ---------------------------------------------------------------------------
  // GitHub page arguments
  // ---------------------------------------------------------------------------

  /** Bounds GitHub accepts for a page size. */
  const MinPerPage: int := 1
  const MaxPerPage: int := 100
  /** The page size used in place of an out-of-range one. */
  const FallbackPerPage: int := 30

  /** `validate_per_page`: an in-range size is kept, any other is replaced
      by 30 (not moved to the nearer bound). */
  function ValidatePerPage(perPage: int): (r: int)
    ensures MinPerPage <= r <= MaxPerPage
    ensures MinPerPage <= perPage <= MaxPerPage <==> r == perPage
    ensures !(MinPerPage <= perPage <= MaxPerPage) ==> r == FallbackPerPage
  {
    if MinPerPage <= perPage <= MaxPerPage then perPage else FallbackPerPage
  }

  /** `validate_page`: pages are numbered from 1. */
  function ValidatePage(page: int): (r: int)
    ensures r >= 1
    ensures page >= 1 <==> r == page
    ensures page < 1 ==> r == 1
  {
    if page >= 1 then page else 1
  }

  // ---------------------------------------------------------------------------
  // GitLab page arguments
  // ---------------------------------------------------------------------------

  /** `max(1, min(per_page, 100))`. */
  function ClampPerPage(perPage: int): (r: int)
    ensures MinPerPage <= r <= MaxPerPage
    ensures perPage <= MinPerPage ==> r == MinPerPage
    ensures perPage >= MaxPerPage ==> r == MaxPerPage
    ensures MinPerPage <= perPage <= MaxPerPage ==> r == perPage
  {
    var capped := if perPage < MaxPerPage then perPage else MaxPerPage;
    if MinPerPage < capped then capped else MinPerPage
  }

  /** `max(1, page)`. */
  function ClampPage(page: int): (r: int)
    ensures r >= 1 && r >= page
    ensures r == page || r == 1
  {
    if 1 < page then page else 1
  }

  /** Both providers leave valid arguments alone, and GitLab's clamp and
      GitHub's validation agree on pages. On page sizes they agree exactly
      on the valid range: outside it GitHub falls back to 30 where GitLab
      moves to the nearer bound. Each normalisation is idempotent. */
  lemma {:induction false} FallbackVersusClamp(perPage: int, page: int)
    ensures ValidatePage(page) == ClampPage(page)
    ensures ValidatePerPage(perPage) == ClampPerPage(perPage) <==> MinPerPage <= perPage <= MaxPerPage
    ensures ValidatePerPage(ValidatePerPage(perPage)) == ValidatePerPage(perPage)
    ensures ClampPerPage(ClampPerPage(perPage)) == ClampPerPage(perPage)
  {
  }

  // ---------------------------------------------------------------------------
  // GitHub pagination
  // ---------------------------------------------------------------------------

  /** The dict `get_pagination_info` returns. */
  datatype PaginationInfo = PaginationInfo(
    currentPage: int,
    perPage: int,
    totalCount: int,
    totalPages: int,
    hasNextPage: bool,
    hasPrevPage: bool,
    nextPage: Option<int>,
    prevPage: Option<int>)

  /** Python's `//` raises on a zero divisor. */
  datatype PaginationError = ZeroDivision

  /** Python's `a // b`: the floor of the quotient, also for a negative
      divisor (Dafny's `/` is Euclidean). */
  function FloorDiv(a: int, b: int): (q: int)
    requires b != 0
    ensures b > 0 ==> q * b <= a < q * b + b
    ensures b < 0 ==> q * b >= a > q * b + b
  {
    if b > 0 then a / b else (-a) / (-b)
  }

  /** `get_pagination_info`: the number of pages is the ceiling of the count
      over the page size; a next page exists exactly while the current one is
      not the last, a previous one exactly after the first. */
  function GetPaginationInfo(totalCount: int, page: int, perPage: int): (r: Result<PaginationInfo, PaginationError>)
    ensures r.Failure? <==> perPage == 0
    ensures r.Success? ==> r.value.currentPage == page && r.value.perPage == perPage
                           && r.value.totalCount == totalCount
    ensures r.Success? && perPage > 0 ==>
              (r.value.totalPages - 1) * perPage < totalCount <= r.value.totalPages * perPage
    ensures r.Success? ==> (r.value.hasNextPage <==> page < r.value.totalPages)
    ensures r.Success? ==> (r.value.hasPrevPage <==> page > 1)
    ensures r.Success? ==> (r.value.nextPage.Some? <==> r.value.hasNextPage)
                           && (r.value.nextPage.Some? ==> r.value.nextPage.value == page + 1)
    ensures r.Success? ==> (r.value.prevPage.Some? <==> r.value.hasPrevPage)
                           && (r.value.prevPage.Some? ==> r.value.prevPage.value == page - 1)
  {
    if perPage == 0 then Failure(ZeroDivision)
    else
      var totalPages := FloorDiv(totalCount + perPage - 1, perPage);
      var hasNext := page < totalPages;
      var hasPrev := page > 1;
      Success(PaginationInfo(
        currentPage := page,
        perPage := perPage,
        totalCount := totalCount,
        totalPages := totalPages,
        hasNextPage := hasNext,
        hasPrevPage := hasPrev,
        nextPage := if hasNext then Some(page + 1) else None,
        prevPage := if hasPrev then Some(page - 1) else None))
  }

  /** `a * k <= b * k` for `a <= b` and positive `k`. */
  lemma {:induction false} MulMonotone(a: int, b: int, k: int)
    requires a <= b && k > 0
    ensures a * k <= b * k
  {
    assert b * k - a * k == (b - a) * k;
  }

  /** A next page exists exactly when the items on the pages up to the
      current one do not yet cover the count: an independent reading of the
      ceiling in `get_pagination_info`. */
  lemma {:induction false} HasNextPageIffItemsRemain(totalCount: int, page: int, perPage: int)
    requires perPage > 0
    ensures GetPaginationInfo(totalCount, page, perPage).value.hasNextPage <==> page * perPage < totalCount
  {
    var info := GetPaginationInfo(totalCount, page, perPage).value;
    var c := info.totalPages;
    if page < c {
      MulMonotone(page, c - 1, perPage);
    } else {
      MulMonotone(c, page, perPage);
    }
  }

  /** Following `next_page` leads to a page whose `prev_page` is where one
      came from. */
  lemma {:induction false} NextThenPrev(totalCount: int, page: int, perPage: int)
    requires perPage != 0 && page >= 1
    requires GetPaginationInfo(totalCount, page, perPage).value.hasNextPage
    ensures var next := GetPaginationInfo(totalCount, page, perPage).value.nextPage.value;
            GetPaginationInfo(totalCount, next, perPage).value.prevPage == Some(page)
  {
  }

  /** GitHub's `get_user_repositories` pagination step: the page and size are
      validated, the SDK is asked for the zero-based page `page - 1`, and the
      pagination record describes the validated arguments. */
  function GitHubListingPage(page: int, perPage: int, totalCount: int): (r: (int, PaginationInfo))
    ensures r.0 >= 0 && r.0 == r.1.currentPage - 1
    ensures r.1.currentPage == ValidatePage(page) && r.1.perPage == ValidatePerPage(perPage)
    ensures r.1.totalCount == totalCount
    ensures Success(r.1) == GetPaginationInfo(totalCount, ValidatePage(page), ValidatePerPage(perPage))
  {
    var p := ValidatePage(page);
    var size := ValidatePerPage(perPage);
    (p - 1, GetPaginationInfo(totalCount, p, size).value)
  }

  // ---------------------------------------------------------------------------
  // GitLab pagination
  // ---------------------------------------------------------------------------

  /** The pagination dict GitLab's `get_user_repositories` returns. */
  datatype HeaderPagination = HeaderPagination(
    currentPage: int,
    perPage: int,
    totalCount: int,
    totalPages: int,
    nextPage: Option<int>,
    prevPage: Option<int>)

  /** `int()` of a header that is not an integer raises `ValueError`. */
  datatype HeaderError = NotAnInteger(header: string)

  /** `int(headers.get(name) or default)`: a missing or empty header gives
      the default. */
  function IntHeader(headers: map<string, string>, name: string, default: int): (r: Result<int, HeaderError>)
    ensures name !in headers || headers[name] == "" ==> r == Success(default)
    ensures name in headers && headers[name] != "" ==>
              (r.Success? <==> ParseInt(headers[name]).Some?)
              && (r.Success? ==> Some(r.value) == ParseInt(headers[name]))
    ensures r.Failure? ==> r.error == NotAnInteger(name)
  {
    if name !in headers || headers[name] == "" then Success(default)
    else
      match ParseInt(headers[name])
      case Some(i) => Success(i)
      case None => Failure(NotAnInteger(name))
  }

  /** A header that `h.get(name) or default` passes over: missing or empty. */
  predicate HeaderUnset(headers: map<string, string>, name: string) {
    name !in headers || headers[name] == ""
  }

  /** A header that is present and non-empty but not an integer for `int()`. */
  predicate HeaderGarbled(headers: map<string, string>, name: string) {
    !HeaderUnset(headers, name) && ParseInt(headers[name]).None?
  }

  /** `int(...) or None`: a page number of 0 means there is none. */
  function PageOrNone(i: int): (r: Option<int>)
    ensures r.None? <==> i == 0
    ensures r.Some? ==> r.value == i
  {
    if i == 0 then None else Some(i)
  }

  const TotalHeader := "X-Total"
  const TotalPagesHeader := "X-Total-Pages"
  const NextPageHeader := "X-Next-Page"
  const PrevPageHeader := "X-Prev-Page"

  /** GitLab's `get_user_repositories` pagination step: the arguments are
      clamped, and the record is read from the response headers in order
      (total, total pages, next, previous), the first header that is not an
      integer raising. */
  function GitLabPagination(page: int, perPage: int, headers: map<string, string>): (r: Result<HeaderPagination, HeaderError>)
    ensures r.Success? ==> r.value.currentPage == ClampPage(page) && r.value.perPage == ClampPerPage(perPage)
    ensures r.Success? && (TotalPagesHeader !in headers || headers[TotalPagesHeader] == "") ==> r.value.totalPages == 1
    ensures r.Success? ==> (r.value.nextPage.None? <==>
              NextPageHeader !in headers || headers[NextPageHeader] == "" || ParseInt(headers[NextPageHeader]) == Some(0))
    ensures r.Success? ==> (r.value.prevPage.None? <==>
              PrevPageHeader !in headers || headers[PrevPageHeader] == "" || ParseInt(headers[PrevPageHeader]) == Some(0))
    ensures r.Failure? ==> r.error.header in headers && ParseInt(headers[r.error.header]).None?
    ensures r.Failure? <==>
              HeaderGarbled(headers, TotalHeader) || HeaderGarbled(headers, TotalPagesHeader)
              || HeaderGarbled(headers, NextPageHeader) || HeaderGarbled(headers, PrevPageHeader)
    ensures r.Failure? ==>
              r.error.header == (if HeaderGarbled(headers, TotalHeader) then TotalHeader
                                 else if HeaderGarbled(headers, TotalPagesHeader) then TotalPagesHeader
                                 else if HeaderGarbled(headers, NextPageHeader) then NextPageHeader
                                 else PrevPageHeader)
    ensures r.Success? && HeaderUnset(headers, TotalHeader) ==> r.value.totalCount == 0
    ensures r.Success? && !HeaderUnset(headers, TotalHeader) ==>
              ParseInt(headers[TotalHeader]) == Some(r.value.totalCount)
    ensures r.Success? && !HeaderUnset(headers, TotalPagesHeader) ==>
              ParseInt(headers[TotalPagesHeader]) == Some(r.value.totalPages)
    ensures r.Success? && r.value.nextPage.Some? ==>
              r.value.nextPage.value != 0 && ParseInt(headers[NextPageHeader]) == Some(r.value.nextPage.value)
    ensures r.Success? && r.value.prevPage.Some? ==>
              r.value.prevPage.value != 0 && ParseInt(headers[PrevPageHeader]) == Some(r.value.prevPage.value)
  {
    var total :- IntHeader(headers, TotalHeader, 0);
    var totalPages :- IntHeader(headers, TotalPagesHeader, 1);
    var next :- IntHeader(headers, NextPageHeader, 0);
    var prev :- IntHeader(headers, PrevPageHeader, 0);
    Success(HeaderPagination(
      currentPage := ClampPage(page),
      perPage := ClampPerPage(perPage),
      totalCount := total,
      totalPages := totalPages,
      nextPage := PageOrNone(next),
      prevPage := PageOrNone(prev)))
  }

  /** The headers a GitLab server sends for a pagination record: integers in
      decimal, and no next or previous header when there is no such page. */
  function HeadersOf(p: HeaderPagination): map<string, string> {
    var base := map[TotalHeader := IntToDecimal(p.totalCount), TotalPagesHeader := IntToDecimal(p.totalPages)];
    var withNext := if p.nextPage.Some? then base[NextPageHeader := IntToDecimal(p.nextPage.value)] else base;
    if p.prevPage.Some? then withNext[PrevPageHeader := IntToDecimal(p.prevPage.value)] else withNext
  }

  /** One decimal header reads back as the integer written. */
  lemma {:induction false} IntHeaderOfDecimal(headers: map<string, string>, name: string, default: int, i: int)
    requires name in headers && headers[name] == IntToDecimal(i)
    ensures IntHeader(headers, name, default) == Success(i)
  {
    ParseIntRoundTrip(i);
    assert IntToDecimal(i) != "" by { RenderedIsStripped(i); }
  }

  /** Reading the headers of a record gives the record back, for clamped
      arguments and page numbers other than 0. */
  lemma {:induction false} HeaderRoundTrip(p: HeaderPagination)
    requires p.currentPage >= 1 && MinPerPage <= p.perPage <= MaxPerPage
    requires p.nextPage.Some? ==> p.nextPage.value != 0
    requires p.prevPage.Some? ==> p.prevPage.value != 0
    ensures GitLabPagination(p.currentPage, p.perPage, HeadersOf(p)) == Success(p)
  {
    var h := HeadersOf(p);
    HeadersOfEntries(p, h);
    var next := if p.nextPage.Some? then p.nextPage.value else 0;
    var prev := if p.prevPage.Some? then p.prevPage.value else 0;
    assert IntHeader(h, TotalHeader, 0) == Success(p.totalCount) by {
      IntHeaderOfDecimal(h, TotalHeader, 0, p.totalCount);
    }
    assert IntHeader(h, TotalPagesHeader, 1) == Success(p.totalPages) by {
      IntHeaderOfDecimal(h, TotalPagesHeader, 1, p.totalPages);
    }
    assert IntHeader(h, NextPageHeader, 0) == Success(next) by {
      if p.nextPage.Some? {
        IntHeaderOfDecimal(h, NextPageHeader, 0, next);
      }
    }
    assert IntHeader(h, PrevPageHeader, 0) == Success(prev) by {
      if p.prevPage.Some? {
        IntHeaderOfDecimal(h, PrevPageHeader, 0, prev);
      }
    }
    GitLabPaginationOfHeaders(p.currentPage, p.perPage, h, p.totalCount, p.totalPages, next, prev);
  }

  /** The entries of `HeadersOf(p)`, header by header. */
  lemma {:induction false} HeadersOfEntries(p: HeaderPagination, h: map<string, string>)
    requires h == HeadersOf(p)
    ensures TotalHeader in h && h[TotalHeader] == IntToDecimal(p.totalCount)
    ensures TotalPagesHeader in h && h[TotalPagesHeader] == IntToDecimal(p.totalPages)
    ensures p.nextPage.Some? ==> NextPageHeader in h && h[NextPageHeader] == IntToDecimal(p.nextPage.value)
    ensures p.nextPage.None? ==> NextPageHeader !in h
    ensures p.prevPage.Some? ==> PrevPageHeader in h && h[PrevPageHeader] == IntToDecimal(p.prevPage.value)
    ensures p.prevPage.None? ==> PrevPageHeader !in h
  {
  }

  /** Once each header has been read, the record is assembled from the
      clamped arguments and the values read. */
  lemma {:induction false} GitLabPaginationOfHeaders(page: int, perPage: int, headers: map<string, string>,
                                                     total: int, totalPages: int, next: int, prev: int)
    requires IntHeader(headers, TotalHeader, 0) == Success(total)
    requires IntHeader(headers, TotalPagesHeader, 1) == Success(totalPages)
    requires IntHeader(headers, NextPageHeader, 0) == Success(next)
    requires IntHeader(headers, PrevPageHeader, 0) == Success(prev)
    ensures GitLabPagination(page, perPage, headers)
            == Success(HeaderPagination(ClampPage(page), ClampPerPage(perPage), total, totalPages,
                                        PageOrNone(next), PageOrNone(prev)))
  {
  }

  // ---------------------------------------------------------------------------
  // Permissions
  // ---------------------------------------------------------------------------

  /** The dict `_get_repo_permissions` returns. */
  datatype RepoPermissions = RepoPermissions(admin: Value, push: Value, pull: Value)

  /** `getattr(obj, name, False)`: only an object has attributes to read. */
  function AttrOrFalse(obj: Value, name: string): (v: Value)
    ensures obj.VObj? && name in obj.attrs ==> v == obj.attrs[name]
    ensures !(obj.VObj? && name in obj.attrs) ==> v == VBool(false)
  {
    if obj.VObj? then Get(obj.attrs, name, VBool(false)) else VBool(false)
  }

  /** `_get_repo_permissions`: each flag is the attribute of the
      repository's `permissions`, and `False` when either is missing. */
  function GetRepoPermissions(repo: map<string, Value>): (r: RepoPermissions)
    ensures "permissions" !in repo ==> r == RepoPermissions(VBool(false), VBool(false), VBool(false))
    ensures "permissions" in repo ==>
              r.admin == AttrOrFalse(repo["permissions"], "admin")
              && r.push == AttrOrFalse(repo["permissions"], "push")
              && r.pull == AttrOrFalse(repo["permissions"], "pull")
  {
    var permissions := Get(repo, "permissions", VNone);
    RepoPermissions(AttrOrFalse(permissions, "admin"), AttrOrFalse(permissions, "push"),
                    AttrOrFalse(permissions, "pull"))
  }

  /** A repository whose permissions object carries three flags reports
      exactly those flags. */
  lemma {:induction false} PermissionsRoundTrip(repo: map<string, Value>, admin: bool, push: bool, pull: bool)
    requires "permissions" in repo
    requires repo["permissions"] == VObj(map["admin" := VBool(admin), "push" := VBool(push), "pull" := VBool(pull)])
    ensures GetRepoPermissions(repo) == RepoPermissions(VBool(admin), VBool(push), VBool(pull))
  {
  }

  // ---------------------------------------------------------------------------
  // Supported files
  // ---------------------------------------------------------------------------

  /** `SUPPORTED_EXTENSIONS`, in the order written. */
  const SupportedExtensions: seq<string> := [
    ".py", ".js", ".ts", ".java", ".go", ".rs", ".cpp", ".c", ".hpp", ".h",
    ".rb", ".php", ".cs", ".jsx", ".tsx", ".vue", ".swift", ".kt", ".scala",
    ".md", ".txt", ".json", ".yaml", ".yml", ".xml"]

  /** `any(filename.endswith(ext) for ext in exts)`. */
  function AnySuffix(filename: string, exts: seq<string>): (r: bool)
    ensures r <==> exists i :: 0 <= i < |exts| && EndsWith(filename, exts[i])
  {
    if |exts| == 0 then false
    else if EndsWith(filename, exts[0]) then true
    else
      var rest := AnySuffix(filename, exts[1..]);
      assert forall i :: 1 <= i < |exts| ==> exts[i] == exts[1..][i - 1];
      rest
  }

  /** `_is_supported_file`, the same for both managers: case-sensitive. */
  function IsSupportedFile(filename: string): (r: bool)
    ensures r <==> exists ext :: ext in SupportedExtensions && EndsWith(filename, ext)
  {
    AnySuffix(filename, SupportedExtensions)
  }

  /** Every extension starts with a dot. */
  lemma {:induction false} ExtensionsStartWithDot(i: int)
    requires 0 <= i < |SupportedExtensions|
    ensures |SupportedExtensions[i]| >= 2 && SupportedExtensions[i][0] == '.'
  {
  }

  /** Any name with a supported extension appended is supported, and a name
      without a dot never is. */
  lemma {:induction false} SupportedFileSuffixes(name: string, ext: string)
    ensures ext in SupportedExtensions ==> IsSupportedFile(name + ext)
    ensures '.' !in name ==> !IsSupportedFile(name)
  {
    if ext in SupportedExtensions {
      assert (name + ext)[|name + ext| - |ext|..] == ext;
    }
    if '.' !in name {
      forall i | 0 <= i < |SupportedExtensions| ensures !EndsWith(name, SupportedExtensions[i]) {
        var e := SupportedExtensions[i];
        ExtensionsStartWithDot(i);
        if |e| <= |name| {
          var k := |name| - |e|;
          assert name[k] != '.' by { assert name[k] in name; }
          assert name[k..][0] != e[0];
        }
      }
    }
  }
}
