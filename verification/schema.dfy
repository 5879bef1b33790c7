/** The unified records of `schema/repo.py` (`GitHosting`, `NormalizedGitRepo`,
    `GitUserResponse`) and the type validation their constructors perform.
    Validation is strict: a field accepts exactly the Python types its
    annotation names, with no coercion. */
module Schema {
  import opened Wrappers
  import opened PyValues

  /** `GitHosting`, a string enum. */
  datatype GitHosting = GitLab | GitHub {
    function Value(): (s: string)
      ensures s == "gitlab" || s == "github"
    {
      match this
      case GitLab => "gitlab"
      case GitHub => "github"
    }
  }

  /** The member whose value is `s`, if any. */
  function HostingOf(s: string): (h: Option<GitHosting>)
    ensures h.Some? ==> h.value.Value() == s
  {
    if s == "gitlab" then Some(GitLab)
    else if s == "github" then Some(GitHub)
    else None
  }

  /** Every member is found again from its value, and only member values name
      a member. */
  lemma {:induction false} HostingValueRoundTrip(h: GitHosting, s: string)
    ensures HostingOf(h.Value()) == Some(h)
    ensures HostingOf(s).Some? <==> s == "gitlab" || s == "github"
  {
  }

  /** `NormalizedGitRepo`. A creation time is kept as the payload value it
      came from (a `datetime` or its text). */
  datatype NormalizedGitRepo = NormalizedGitRepo(
    id: string,
    repoName: string,
    description: Option<string>,
    htmlUrl: string,
    relativePath: string,
    defaultBranch: string,
    forksCount: int,
    stargazersCount: int,
    size: Option<int>,
    repoCreatedAt: Option<Value>,
    private: Option<bool>,
    visibility: Option<string>)

  /** `GitUserResponse`: every field optional. */
  datatype GitUserResponse = GitUserResponse(
    username: Option<string>,
    id: Option<int>,
    name: Option<string>,
    email: Option<string>,
    avatarUrl: Option<string>,
    htmlUrl: Option<string>)

  /** Why a transformer call raises. */
  datatype TransformError =
    | UnsupportedType             // TypeError: `data` of an unsupported type
    | MissingAttribute(name: string)  // AttributeError: the SDK object lacks an attribute
    | NoSuchMethod(name: string)      // AttributeError: a field value lacks `.get` / `.lower`
    | OperandError                // TypeError from `*` on a non-number
    | ValidationFailed            // pydantic ValidationError

  /** The keyword arguments a transformer passes to `NormalizedGitRepo`, as
      the values it computed for them (`id` is always a `str`). */
  datatype RepoFields = RepoFields(
    id: string,
    name: Value,
    description: Value,
    htmlUrl: Value,
    relativePath: Value,
    defaultBranch: Value,
    forksCount: Value,
    stargazersCount: Value,
    size: Value,
    createdAt: Value,
    private: Value,
    visibility: Value)

  /** The keyword arguments passed to `GitUserResponse`. */
  datatype UserFields = UserFields(
    username: Value,
    id: Value,
    name: Value,
    email: Value,
    avatarUrl: Value,
    htmlUrl: Value)

  // ---------------------------------------------------------------------------
  // Field types
  // ---------------------------------------------------------------------------

  /** A `str` field. */
  function AsStr(v: Value): Option<string> {
    if v.VStr? then Some(v.s) else None
  }

  /** An `int` field. */
  function AsInt(v: Value): Option<int> {
    if v.VInt? then Some(v.i) else None
  }

  /** A `str | None` field. */
  function AsOptStr(v: Value): Option<Option<string>> {
    match v
    case VNone => Some(None)
    case VStr(s) => Some(Some(s))
    case _ => None
  }

  /** An `int | None` field. */
  function AsOptInt(v: Value): Option<Option<int>> {
    match v
    case VNone => Some(None)
    case VInt(i) => Some(Some(i))
    case _ => None
  }

  /** A `bool | None` field. */
  function AsOptBool(v: Value): Option<Option<bool>> {
    match v
    case VNone => Some(None)
    case VBool(b) => Some(Some(b))
    case _ => None
  }

  /** A `datetime | None` field: a datetime, or text pydantic would parse. */
  function AsOptTime(v: Value): Option<Option<Value>> {
    match v
    case VNone => Some(None)
    case VTime(_) => Some(Some(v))
    case VStr(_) => Some(Some(v))
    case _ => None
  }

  /** `NormalizedGitRepo(**fields)`. */
  function ValidateRepo(f: RepoFields): Result<NormalizedGitRepo, TransformError> {
    var fields := (AsStr(f.name), AsOptStr(f.description), AsStr(f.htmlUrl), AsStr(f.relativePath),
                   AsStr(f.defaultBranch), AsInt(f.forksCount), AsInt(f.stargazersCount));
    var more := (AsOptInt(f.size), AsOptTime(f.createdAt), AsOptBool(f.private), AsOptStr(f.visibility));
    if fields.0.None? || fields.1.None? || fields.2.None? || fields.3.None? || fields.4.None?
       || fields.5.None? || fields.6.None?
       || more.0.None? || more.1.None? || more.2.None? || more.3.None?
    then Failure(ValidationFailed)
    else Success(NormalizedGitRepo(
      f.id, fields.0.value, fields.1.value, fields.2.value, fields.3.value, fields.4.value,
      fields.5.value, fields.6.value, more.0.value, more.1.value, more.2.value, more.3.value))
  }

  /** `GitUserResponse(**fields)`. */
  function ValidateUser(f: UserFields): Result<GitUserResponse, TransformError> {
    var r := (AsOptStr(f.username), AsOptInt(f.id), AsOptStr(f.name), AsOptStr(f.email),
              AsOptStr(f.avatarUrl), AsOptStr(f.htmlUrl));
    if r.0.None? || r.1.None? || r.2.None? || r.3.None? || r.4.None? || r.5.None?
    then Failure(ValidationFailed)
    else Success(GitUserResponse(r.0.value, r.1.value, r.2.value, r.3.value, r.4.value, r.5.value))
  }

  // ---------------------------------------------------------------------------
  // What validation accepts
  // ---------------------------------------------------------------------------

  predicate IsOptStr(v: Value) { v.VNone? || v.VStr? }

  predicate IsOptInt(v: Value) { v.VNone? || v.VInt? }

  predicate IsOptBool(v: Value) { v.VNone? || v.VBool? }

  /** A `datetime | None` argument: nothing, a datetime, or its text. */
  predicate IsOptTime(v: Value) { v.VNone? || v.VTime? || v.VStr? }

  /** Arguments of the types `NormalizedGitRepo` annotates. */
  predicate RepoFieldsTyped(f: RepoFields) {
    && f.name.VStr? && IsOptStr(f.description) && f.htmlUrl.VStr? && f.relativePath.VStr?
    && f.defaultBranch.VStr? && f.forksCount.VInt? && f.stargazersCount.VInt?
    && IsOptInt(f.size) && IsOptTime(f.createdAt) && IsOptBool(f.private) && IsOptStr(f.visibility)
  }

  /** Arguments of the types `GitUserResponse` annotates. */
  predicate UserFieldsTyped(f: UserFields) {
    && IsOptStr(f.username) && IsOptInt(f.id) && IsOptStr(f.name) && IsOptStr(f.email)
    && IsOptStr(f.avatarUrl) && IsOptStr(f.htmlUrl)
  }

  /** `NormalizedGitRepo(**fields)` succeeds exactly for well-typed arguments. */
  lemma {:induction false} ValidateRepoAccepts(f: RepoFields)
    ensures ValidateRepo(f).Success? <==> RepoFieldsTyped(f)
  {
  }

  /** `GitUserResponse(**fields)` succeeds exactly for well-typed arguments. */
  lemma {:induction false} ValidateUserAccepts(f: UserFields)
    ensures ValidateUser(f).Success? <==> UserFieldsTyped(f)
  {
  }

  // Payload entries: a key read with a `None` default (or a default of the
  // right type) is acceptable when absent.

  predicate StrAt(d: map<string, Value>, k: string) { k in d && d[k].VStr? }

  predicate StrOrAbsentAt(d: map<string, Value>, k: string) { k !in d || d[k].VStr? }

  predicate IntOrAbsentAt(d: map<string, Value>, k: string) { k !in d || d[k].VInt? }

  predicate OptStrAt(d: map<string, Value>, k: string) { k !in d || IsOptStr(d[k]) }

  predicate OptIntAt(d: map<string, Value>, k: string) { k !in d || IsOptInt(d[k]) }

  predicate OptBoolAt(d: map<string, Value>, k: string) { k !in d || IsOptBool(d[k]) }

  predicate OptTimeAt(d: map<string, Value>, k: string) { k !in d || IsOptTime(d[k]) }

  // ---------------------------------------------------------------------------
  // Records back to payload values
  // ---------------------------------------------------------------------------

  function OptStrValue(o: Option<string>): Value {
    match o
    case None => VNone
    case Some(s) => VStr(s)
  }

  function OptIntValue(o: Option<int>): Value {
    match o
    case None => VNone
    case Some(i) => VInt(i)
  }

  function OptBoolValue(o: Option<bool>): Value {
    match o
    case None => VNone
    case Some(b) => VBool(b)
  }

  function OptTimeValue(o: Option<Value>): Value {
    match o
    case None => VNone
    case Some(v) => v
  }

  /** The keyword arguments that describe a record exactly. */
  function RepoFieldsOf(n: NormalizedGitRepo): RepoFields {
    RepoFields(n.id, VStr(n.repoName), OptStrValue(n.description), VStr(n.htmlUrl),
               VStr(n.relativePath), VStr(n.defaultBranch), VInt(n.forksCount),
               VInt(n.stargazersCount), OptIntValue(n.size), OptTimeValue(n.repoCreatedAt),
               OptBoolValue(n.private), OptStrValue(n.visibility))
  }

  function UserFieldsOf(u: GitUserResponse): UserFields {
    UserFields(OptStrValue(u.username), OptIntValue(u.id), OptStrValue(u.name),
               OptStrValue(u.email), OptStrValue(u.avatarUrl), OptStrValue(u.htmlUrl))
  }

  /** A record whose creation time is a datetime or text. */
  predicate WellFormedRepo(n: NormalizedGitRepo) {
    n.repoCreatedAt.Some? ==> n.repoCreatedAt.value.VTime? || n.repoCreatedAt.value.VStr?
  }

  /** Validation keeps every value it accepts: a validated record describes
      its arguments exactly, and every well-formed record is accepted from
      its own description. */
  lemma {:induction false} ValidateRepoRoundTrip(f: RepoFields, n: NormalizedGitRepo)
    ensures ValidateRepo(f).Success? ==> RepoFieldsOf(ValidateRepo(f).value) == f
    ensures ValidateRepo(f).Success? ==> WellFormedRepo(ValidateRepo(f).value)
    ensures WellFormedRepo(n) ==> ValidateRepo(RepoFieldsOf(n)) == Success(n)
  {
  }

  /** The same for users. */
  lemma {:induction false} ValidateUserRoundTrip(f: UserFields, u: GitUserResponse)
    ensures ValidateUser(f).Success? ==> UserFieldsOf(ValidateUser(f).value) == f
    ensures ValidateUser(UserFieldsOf(u)) == Success(u)
  {
  }
}
