/** `GitHubRepoResponseTransformer` of `schema/repo.py`: a GitHub repository
    (an SDK object or a dict) becomes a `NormalizedGitRepo` with its size in
    bytes, an authenticated user (object or dict) a `GitUserResponse`. */
module GitHubTransformer {
  import opened Wrappers
  import opened Text
  import opened PyValues
  import opened Schema

  /** The number a truthy size stands for in `size * 1024` (`True` is 1). */
  function Kilobytes(size: Value): int {
    match size
    case VInt(i) => i
    case VBool(b) => if b then 1 else 0
    case _ => 0
  }

  /** `resolve_git_size_from_kb_to_byte`: 0 for a falsy size, otherwise the
      size times 1024. A string is repeated 1024 times, as `*` does in
      Python; other values cannot be multiplied. */
  function ResolveSizeKbToBytes(size: Value): (r: Result<Value, TransformError>)
    ensures !Truthy(size) ==> r == Success(VInt(0))
    ensures size.VInt? || size.VBool? ==> r == Success(VInt(Kilobytes(size) * 1024))
    ensures r.Failure? <==> Truthy(size) && (size.VTime? || size.VMap? || size.VObj?)
  {
    if !Truthy(size) then Success(VInt(0))
    else
      match size
      case VInt(i) => Success(VInt(i * 1024))
      case VBool(_) => Success(VInt(1024))
      case VStr(s) => Success(VStr(Repeat(s, 1024)))
      case _ => Failure(OperandError)
  }

  /** An integer size in bytes is always a whole number of kilobytes, and
      dividing it by 1024 gives back the kilobytes it came from. */
  lemma {:induction false} SizeBytesRoundTrip(size: Value)
    requires ResolveSizeKbToBytes(size).Success? && ResolveSizeKbToBytes(size).value.VInt?
    ensures ResolveSizeKbToBytes(size).value.i % 1024 == 0
    ensures ResolveSizeKbToBytes(size).value.i / 1024 == Kilobytes(size)
  {
  }

  /** The attributes `transform_repository_to_dict` reads, in order;
      visibility is read with a default and never missing. */
  const RepositoryAttributes: seq<string> := [
    "id", "name", "description", "default_branch", "forks_count", "size",
    "stargazers_count", "full_name", "html_url", "private", "created_at"]

  /** The keys of the dict `transform_repository_to_dict` builds. */
  const RepositoryDictKeys: set<string> := {
    "id", "name", "description", "default_branch", "forks_count", "size",
    "stargazers_count", "full_name", "html_url", "private", "visibility", "repo_created_at"}

  /** The value `transform_repository_to_dict` stores under a key: the id
      rendered, `or` defaults for branch and counts, the creation time under
      its new name, and the attribute itself otherwise. */
  function RepositoryEntry(repository: map<string, Value>, k: string): Value
    requires IdRenderable(repository)
  {
    if k == "id" then VStr(PyStr(Get(repository, "id", VStr(""))))
    else if k == "default_branch" then Or(Get(repository, k, VNone), VStr("main"))
    else if k == "forks_count" || k == "size" || k == "stargazers_count" then Or(Get(repository, k, VNone), VInt(0))
    else if k == "repo_created_at" then Get(repository, "created_at", VNone)
    else Get(repository, k, VNone)
  }

  /** The dict literal of `transform_repository_to_dict`: one entry per key,
      the id among them rendered as text. */
  function RepositoryDict(repository: map<string, Value>): (d: map<string, Value>)
    requires IdRenderable(repository)
    ensures d.Keys == RepositoryDictKeys
    ensures forall k :: k in d ==> d[k] == RepositoryEntry(repository, k)
    ensures IdRenderable(d)
  {
    var d := map k | k in RepositoryDictKeys :: RepositoryEntry(repository, k);
    assert "id" in d && d["id"] == VStr(PyStr(Get(repository, "id", VStr(""))));
    d
  }

  /** `transform_repository_to_dict`. */
  function TransformRepositoryToDict(repository: map<string, Value>): (r: Result<map<string, Value>, TransformError>)
    requires IdRenderable(repository)
    ensures r.Failure? <==> FirstMissing(repository, RepositoryAttributes).Some?
    ensures r.Failure? ==> r.error == MissingAttribute(FirstMissing(repository, RepositoryAttributes).value)
    ensures r.Success? ==> r.value == RepositoryDict(repository)
  {
    match FirstMissing(repository, RepositoryAttributes)
    case Some(name) => Failure(MissingAttribute(name))
    case None => Success(RepositoryDict(repository))
  }

  /** The keyword arguments `from_git` computes from a dict. */
  function RepoFieldsFromDict(d: map<string, Value>): (r: Result<RepoFields, TransformError>)
    requires IdRenderable(d)
  {
    var size :- ResolveSizeKbToBytes(Get(d, "size", VInt(0)));
    Success(RepoFields(
      id := PyStr(Get(d, "id", VStr(""))),
      name := Get(d, "name", VNone),
      description := Get(d, "description", VNone),
      htmlUrl := Get(d, "html_url", VNone),
      relativePath := Get(d, "full_name", VNone),
      defaultBranch := Get(d, "default_branch", VStr("main")),
      forksCount := Get(d, "forks_count", VInt(0)),
      stargazersCount := Get(d, "stargazers_count", VInt(0)),
      size := size,
      createdAt := Get(d, "repo_created_at", VNone),
      private := Get(d, "private", VNone),
      visibility := Get(d, "visibility", VNone)))
  }

  function FromDict(d: map<string, Value>): Result<Option<NormalizedGitRepo>, TransformError>
    requires IdRenderable(d)
  {
    var fields :- RepoFieldsFromDict(d);
    var repo :- ValidateRepo(fields);
    Success(Some(repo))
  }

  /** `from_git`. Nothing comes back exactly for falsy input; another type
      raises `TypeError`; an attribute can be missing only from an object. A
      record that comes back carries its size in whole kilobytes. */
  function FromGit(data: Payload): (r: Result<Option<NormalizedGitRepo>, TransformError>)
    requires PayloadIdRenderable(data)
    ensures r == Success(None) <==> Falsy(data)
    ensures data.POther? && !Falsy(data) ==> r == Failure(UnsupportedType)
    ensures r.Failure? && r.error.MissingAttribute? ==> data.PObject? && r.error.name !in data.attrs
    ensures r.Success? && r.value.Some? ==>
              r.value.value.size.Some? && r.value.value.size.value % 1024 == 0
  {
    if Falsy(data) then Success(None)
    else
      match data
      case PObject(repository) =>
        var d :- TransformRepositoryToDict(repository);
        var r := FromDict(d);
        FromDictProperties(d);
        r
      case PDict(d) =>
        FromDictProperties(d);
        FromDict(d)
      case POther(_) => Failure(UnsupportedType)
  }

  /** A size that `size * 1024` turns into an integer: falsy, an integer or
      a bool. */
  predicate SizeMultipliable(v: Value) {
    !Truthy(v) || v.VInt? || v.VBool?
  }

  /** A repository dict whose entries have the types the record needs:
      name, URL and full name are strings; branch and counts may be absent;
      the rest may also be `None`. */
  predicate RepoDictTyped(d: map<string, Value>) {
    && StrAt(d, "name") && OptStrAt(d, "description") && StrAt(d, "html_url") && StrAt(d, "full_name")
    && StrOrAbsentAt(d, "default_branch") && IntOrAbsentAt(d, "forks_count")
    && IntOrAbsentAt(d, "stargazers_count") && ("size" !in d || SizeMultipliable(d["size"]))
    && OptTimeAt(d, "repo_created_at") && OptBoolAt(d, "private") && OptStrAt(d, "visibility")
  }

  /** A dict converts to a record exactly when its entries are well typed. */
  lemma {:induction false} FromDictAccepts(d: map<string, Value>)
    requires IdRenderable(d)
    ensures FromDict(d).Success? <==> RepoDictTyped(d)
    ensures FromDict(d).Success? ==> FromDict(d).value.Some?
  {
    var size := Get(d, "size", VInt(0));
    var fields := RepoFieldsFromDict(d);
    if SizeMultipliable(size) {
      assert fields.Success? && IsOptInt(fields.value.size);
      ValidateRepoAccepts(fields.value);
      assert RepoFieldsTyped(fields.value) <==> RepoDictTyped(d);
    } else {
      if fields.Success? {
        assert !IsOptInt(fields.value.size);
        ValidateRepoAccepts(fields.value);
      }
      assert !RepoDictTyped(d);
    }
  }

  /** `from_git` on a non-empty dict returns a record exactly when the dict
      is well typed. */
  lemma {:induction false} GitHubDictAccepted(d: map<string, Value>)
    requires IdRenderable(d) && |d| != 0
    ensures FromGit(PDict(d)).Success? <==> RepoDictTyped(d)
    ensures FromGit(PDict(d)).Success? ==> FromGit(PDict(d)).value.Some?
  {
    assert FromGit(PDict(d)) == FromDict(d);
    FromDictAccepts(d);
  }

  /** An SDK repository whose attributes convert: every attribute read
      without a default is there, and the `or` defaults make a falsy branch,
      count or size acceptable. */
  predicate RepositoryTyped(repository: map<string, Value>) {
    && HasRepositoryAttributes(repository)
    && repository["name"].VStr? && IsOptStr(repository["description"])
    && repository["html_url"].VStr? && repository["full_name"].VStr?
    && (Truthy(repository["default_branch"]) ==> repository["default_branch"].VStr?)
    && (Truthy(repository["forks_count"]) ==> repository["forks_count"].VInt?)
    && (Truthy(repository["stargazers_count"]) ==> repository["stargazers_count"].VInt?)
    && SizeMultipliable(repository["size"])
    && IsOptTime(repository["created_at"]) && IsOptBool(repository["private"])
    && OptStrAt(repository, "visibility")
  }

  /** `from_git` on an SDK repository returns a record exactly when its
      attributes convert. */
  lemma {:induction false} GitHubObjectAccepted(repository: map<string, Value>)
    requires IdRenderable(repository)
    ensures FromGit(PObject(repository)).Success? <==> RepositoryTyped(repository)
    ensures FromGit(PObject(repository)).Success? ==> FromGit(PObject(repository)).value.Some?
  {
    RepositoryAttributesPresent(repository);
    if HasRepositoryAttributes(repository) {
      var d := RepositoryDict(repository);
      ObjectGoesThroughDict(repository);
      FromDictAccepts(d);
      RepositoryDictTyped(repository, d);
    } else {
      assert TransformRepositoryToDict(repository).Failure?;
    }
  }

  /** The step of the lemma above: the dict built from a repository is well
      typed exactly when the repository's attributes convert. */
  lemma {:induction false} RepositoryDictTyped(repository: map<string, Value>, d: map<string, Value>)
    requires IdRenderable(repository) && HasRepositoryAttributes(repository)
    requires d == RepositoryDict(repository)
    ensures RepoDictTyped(d) <==> RepositoryTyped(repository)
  {
    RepositoryDictEntries(repository, d);
    assert "name" in d && "description" in d && "html_url" in d && "full_name" in d;
    assert "default_branch" in d && "forks_count" in d && "stargazers_count" in d && "size" in d;
    assert "repo_created_at" in d && "private" in d && "visibility" in d;
  }

  /** What every record built from a dict satisfies. */
  lemma {:induction false} FromDictProperties(d: map<string, Value>)
    requires IdRenderable(d)
    ensures FromDict(d).Success? ==> FromDict(d).value.Some?
    ensures FromDict(d).Success? ==> FromDict(d).value.value.size.Some?
    ensures FromDict(d).Success? ==> FromDict(d).value.value.size.value % 1024 == 0
    ensures FromDict(d).Success? ==>
              FromDict(d).value.value.size.value == Kilobytes(Get(d, "size", VInt(0))) * 1024
    ensures FromDict(d).Failure? ==> !FromDict(d).error.MissingAttribute?
  {
    var f := RepoFieldsFromDict(d);
    if f.Success? {
      ValidateRepoRoundTrip(f.value, NormalizedGitRepo("", "", None, "", "", "", 0, 0, None, None, None, None));
      var size := Get(d, "size", VInt(0));
      if ValidateRepo(f.value).Success? {
        assert f.value.size.VInt?;
        assert size.VInt? || size.VBool? || !Truthy(size);
        SizeBytesRoundTrip(size);
      }
    }
  }

  /** A dict payload keeps its id (rendered) and takes the relative path from
      `full_name` and the creation time from `repo_created_at`; missing keys
      fall back to `main` and 0. */
  lemma {:induction false} GitHubDictRenames(d: map<string, Value>)
    requires IdRenderable(d) && |d| != 0
    requires FromGit(PDict(d)).Success?
    ensures var n := FromGit(PDict(d)).value.value;
            && n.id == PyStr(Get(d, "id", VStr("")))
            && VStr(n.repoName) == Get(d, "name", VNone)
            && VStr(n.htmlUrl) == Get(d, "html_url", VNone)
            && VStr(n.relativePath) == Get(d, "full_name", VNone)
            && VStr(n.defaultBranch) == Get(d, "default_branch", VStr("main"))
            && VInt(n.forksCount) == Get(d, "forks_count", VInt(0))
            && VInt(n.stargazersCount) == Get(d, "stargazers_count", VInt(0))
            && OptBoolValue(n.private) == Get(d, "private", VNone)
            && OptStrValue(n.visibility) == Get(d, "visibility", VNone)
            && OptTimeValue(n.repoCreatedAt) == Get(d, "repo_created_at", VNone)
  {
    var f := RepoFieldsFromDict(d).value;
    ValidateRepoRoundTrip(f, NormalizedGitRepo("", "", None, "", "", "", 0, 0, None, None, None, None));
  }

  /** The size of a dict payload: 0 when absent or falsy, otherwise 1024
      times the integer. */
  lemma {:induction false} GitHubDictSize(d: map<string, Value>)
    requires IdRenderable(d) && |d| != 0
    requires FromGit(PDict(d)).Success?
    ensures var n := FromGit(PDict(d)).value.value;
            && ("size" !in d || !Truthy(d["size"]) ==> n.size == Some(0))
            && ("size" in d && d["size"].VInt? ==> n.size == Some(d["size"].i * 1024))
  {
    FromDictProperties(d);
  }

  /** From an SDK object, a falsy default branch, fork count, star count or
      size is replaced by `main` or 0 before validation. */
  lemma {:induction false} GitHubObjectDefaults(repository: map<string, Value>)
    requires IdRenderable(repository)
    requires FromGit(PObject(repository)).Success?
    ensures forall i :: 0 <= i < |RepositoryAttributes| ==> RepositoryAttributes[i] in repository
    ensures var n := FromGit(PObject(repository)).value.value;
            && VStr(n.defaultBranch) == Or(repository["default_branch"], VStr("main"))
            && VInt(n.forksCount) == Or(repository["forks_count"], VInt(0))
            && VInt(n.stargazersCount) == Or(repository["stargazers_count"], VInt(0))
            && VStr(n.relativePath) == repository["full_name"]
            && OptTimeValue(n.repoCreatedAt) == repository["created_at"]
            && (!Truthy(repository["size"]) ==> n.size == Some(0))
  {
    var d := RepositoryDict(repository);
    assert HasRepositoryAttributes(repository) by { RepositoryAttributesPresent(repository); }
    RepositoryDictEntries(repository, d);
    assert |d| != 0 by { assert "id" in RepositoryDictKeys; }
    assert FromGit(PObject(repository)) == FromGit(PDict(d));
    GitHubDictRenames(d);
    GitHubDictSize(d);
  }

  /** Every attribute `transform_repository_to_dict` reads without a
      default. */
  predicate HasRepositoryAttributes(repository: map<string, Value>) {
    && "id" in repository && "name" in repository && "description" in repository
    && "default_branch" in repository && "forks_count" in repository && "size" in repository
    && "stargazers_count" in repository && "full_name" in repository && "html_url" in repository
    && "private" in repository && "created_at" in repository
  }

  /** A dict is built exactly when every attribute is there. */
  lemma {:induction false} RepositoryAttributesPresent(repository: map<string, Value>)
    ensures FirstMissing(repository, RepositoryAttributes).None? <==> HasRepositoryAttributes(repository)
  {
    if FirstMissing(repository, RepositoryAttributes).None? {
      assert RepositoryAttributes[0] in repository && RepositoryAttributes[1] in repository;
      assert RepositoryAttributes[2] in repository && RepositoryAttributes[3] in repository;
      assert RepositoryAttributes[4] in repository && RepositoryAttributes[5] in repository;
      assert RepositoryAttributes[6] in repository && RepositoryAttributes[7] in repository;
      assert RepositoryAttributes[8] in repository && RepositoryAttributes[9] in repository;
      assert RepositoryAttributes[10] in repository;
    }
  }

  /** The entries of the dict built from an SDK object, key by key: the id
      rendered, `main` or 0 in place of a falsy branch, count or size, and
      the creation time under `repo_created_at`. */
  lemma {:induction false} RepositoryDictEntries(repository: map<string, Value>, d: map<string, Value>)
    requires IdRenderable(repository) && HasRepositoryAttributes(repository)
    requires d == RepositoryDict(repository)
    ensures d["id"] == VStr(PyStr(repository["id"]))
    ensures d["name"] == repository["name"] && d["description"] == repository["description"]
    ensures d["default_branch"] == Or(repository["default_branch"], VStr("main"))
    ensures d["forks_count"] == Or(repository["forks_count"], VInt(0))
    ensures d["size"] == Or(repository["size"], VInt(0))
    ensures d["stargazers_count"] == Or(repository["stargazers_count"], VInt(0))
    ensures d["full_name"] == repository["full_name"] && d["html_url"] == repository["html_url"]
    ensures d["private"] == repository["private"]
    ensures d["repo_created_at"] == repository["created_at"]
    ensures d["visibility"] == Get(repository, "visibility", VNone)
  {
    RepositoryDictDefaults(repository, d);
    RepositoryDictCopies(repository, d);
  }

  lemma {:induction false} RepositoryDictDefaults(repository: map<string, Value>, d: map<string, Value>)
    requires IdRenderable(repository) && HasRepositoryAttributes(repository)
    requires d == RepositoryDict(repository)
    ensures d["id"] == VStr(PyStr(repository["id"]))
    ensures d["default_branch"] == Or(repository["default_branch"], VStr("main"))
    ensures d["forks_count"] == Or(repository["forks_count"], VInt(0))
    ensures d["size"] == Or(repository["size"], VInt(0))
    ensures d["stargazers_count"] == Or(repository["stargazers_count"], VInt(0))
    ensures d["repo_created_at"] == repository["created_at"]
  {
  }

  lemma {:induction false} RepositoryDictCopies(repository: map<string, Value>, d: map<string, Value>)
    requires IdRenderable(repository) && HasRepositoryAttributes(repository)
    requires d == RepositoryDict(repository)
    ensures d["name"] == repository["name"] && d["description"] == repository["description"]
    ensures d["full_name"] == repository["full_name"] && d["html_url"] == repository["html_url"]
    ensures d["private"] == repository["private"]
    ensures d["visibility"] == Get(repository, "visibility", VNone)
  {
  }

  /** `value or 0` is `value` itself: it is truthy or already 0. */
  predicate OrZeroKeeps(v: Value) {
    Truthy(v) || v == VInt(0)
  }

  /** An SDK object whose default branch is set and whose fork and star
      counts are set or 0 gives the same record as a dict holding the same attributes with the
      creation time under `repo_created_at`. */
  lemma {:induction false} GitHubObjectMatchesDict(repository: map<string, Value>)
    requires IdRenderable(repository)
    requires HasRepositoryAttributes(repository)
    requires Truthy(repository["default_branch"])
    requires OrZeroKeeps(repository["forks_count"]) && OrZeroKeeps(repository["stargazers_count"])
    ensures IdRenderable(repository["repo_created_at" := repository["created_at"]])
    ensures FromGit(PObject(repository))
            == FromGit(PDict(repository["repo_created_at" := repository["created_at"]]))
  {
    var e := repository["repo_created_at" := repository["created_at"]];
    var d := RepositoryDict(repository);
    assert IdRenderable(e) && "id" in e;
    ObjectGoesThroughDict(repository);
    DictGoesThroughFromDict(e);
    SameRepoFields(repository, d, e);
    SameFieldsSameRecord(d, e);
  }

  /** From an SDK object with every attribute, `from_git` validates the
      dict built from it. */
  lemma {:induction false} ObjectGoesThroughDict(repository: map<string, Value>)
    requires IdRenderable(repository) && HasRepositoryAttributes(repository)
    ensures FromGit(PObject(repository)) == FromDict(RepositoryDict(repository))
  {
    RepositoryAttributesPresent(repository);
    assert TransformRepositoryToDict(repository) == Success(RepositoryDict(repository));
  }

  /** From a non-empty dict, `from_git` validates the dict itself. */
  lemma {:induction false} DictGoesThroughFromDict(d: map<string, Value>)
    requires IdRenderable(d) && "id" in d
    ensures FromGit(PDict(d)) == FromDict(d)
  {
    assert |d| != 0;
  }

  /** Dicts that give the same keyword arguments give the same record. */
  lemma {:induction false} SameFieldsSameRecord(d: map<string, Value>, e: map<string, Value>)
    requires IdRenderable(d) && IdRenderable(e)
    requires RepoFieldsFromDict(d) == RepoFieldsFromDict(e)
    ensures FromDict(d) == FromDict(e)
  {
  }

  /** The step of the lemma above: both dicts give the same keyword
      arguments. */
  lemma {:induction false} SameRepoFields(repository: map<string, Value>, d: map<string, Value>, e: map<string, Value>)
    requires IdRenderable(repository) && HasRepositoryAttributes(repository)
    requires Truthy(repository["default_branch"])
    requires OrZeroKeeps(repository["forks_count"]) && OrZeroKeeps(repository["stargazers_count"])
    requires d == RepositoryDict(repository)
    requires e == repository["repo_created_at" := repository["created_at"]]
    ensures IdRenderable(d) && IdRenderable(e)
    ensures RepoFieldsFromDict(d) == RepoFieldsFromDict(e)
  {
    RepositoryDictEntries(repository, d);
    PyStrProperties(repository["id"]);
    assert Get(d, "id", VStr("")) == VStr(PyStr(Get(e, "id", VStr(""))));
    assert Get(d, "size", VInt(0)) == Or(Get(e, "size", VInt(0)), VInt(0));
    assert ResolveSizeKbToBytes(Get(d, "size", VInt(0))) == ResolveSizeKbToBytes(Get(e, "size", VInt(0)));
  }

  // ---------------------------------------------------------------------------
  // Users
  // ---------------------------------------------------------------------------

  /** The attributes `transform_authenticated_user_to_dict` reads, in order. */
  const UserAttributes: seq<string> := ["login", "id", "name", "email", "avatar_url", "html_url"]

  /** `transform_authenticated_user_to_dict`: the same attributes under the
      same keys. */
  function TransformAuthenticatedUserToDict(user: map<string, Value>): (r: Result<map<string, Value>, TransformError>)
    ensures r.Failure? <==> FirstMissing(user, UserAttributes).Some?
    ensures r.Failure? ==> r.error == MissingAttribute(FirstMissing(user, UserAttributes).value)
    ensures r.Success? ==> forall k :: k in r.value ==> k in user && r.value[k] == user[k]
    ensures r.Success? ==> forall k :: k in r.value <==> k in UserAttributes
  {
    match FirstMissing(user, UserAttributes)
    case Some(name) => Failure(MissingAttribute(name))
    case None =>
      Success(map k | k in user && k in {"login", "id", "name", "email", "avatar_url", "html_url"} :: user[k])
  }

  /** The keyword arguments `from_git_user` passes: the username comes from
      `login`. */
  function UserFieldsFromDict(d: map<string, Value>): UserFields {
    UserFields(Get(d, "login", VNone), Get(d, "id", VNone), Get(d, "name", VNone),
               Get(d, "email", VNone), Get(d, "avatar_url", VNone), Get(d, "html_url", VNone))
  }

  /** `from_git_user`. A user that comes back describes exactly the entries
      it was read from, the username being the `login`. */
  function FromGitUser(data: Payload): (r: Result<Option<GitUserResponse>, TransformError>)
    ensures r == Success(None) <==> Falsy(data)
    ensures data.POther? && !Falsy(data) ==> r == Failure(UnsupportedType)
    ensures r.Success? && r.value.Some? && data.PDict? ==>
              UserFieldsOf(r.value.value) == UserFieldsFromDict(data.entries)
    ensures r.Success? && r.value.Some? && data.PObject? ==>
              UserFieldsOf(r.value.value) == UserFieldsFromDict(data.attrs)
  {
    if Falsy(data) then Success(None)
    else
      match data
      case PObject(user) =>
        var d :- TransformAuthenticatedUserToDict(user);
        assert UserFieldsFromDict(d) == UserFieldsFromDict(user) by {
          assert UserAttributes[0] in user && UserAttributes[1] in user && UserAttributes[2] in user;
          assert UserAttributes[3] in user && UserAttributes[4] in user && UserAttributes[5] in user;
        }
        FromUserDict(d)
      case PDict(d) => FromUserDict(d)
      case POther(_) => Failure(UnsupportedType)
  }

  function FromUserDict(d: map<string, Value>): (r: Result<Option<GitUserResponse>, TransformError>)
    ensures r.Success? ==> r.value.Some? && UserFieldsOf(r.value.value) == UserFieldsFromDict(d)
    ensures r.Failure? ==> r.error == ValidationFailed
  {
    var f := UserFieldsFromDict(d);
    ValidateUserRoundTrip(f, GitUserResponse(None, None, None, None, None, None));
    var u :- ValidateUser(f);
    Success(Some(u))
  }

  /** A user dict whose entries are absent, `None`, or of the annotated type
      (an integer id, strings otherwise). */
  predicate UserDictTyped(d: map<string, Value>) {
    && OptStrAt(d, "login") && OptIntAt(d, "id") && OptStrAt(d, "name") && OptStrAt(d, "email")
    && OptStrAt(d, "avatar_url") && OptStrAt(d, "html_url")
  }

  /** A user dict converts exactly when it is well typed. */
  lemma {:induction false} FromUserDictAccepts(d: map<string, Value>)
    ensures FromUserDict(d).Success? <==> UserDictTyped(d)
  {
    ValidateUserAccepts(UserFieldsFromDict(d));
  }

  /** `from_git_user` on a non-empty dict returns a user exactly when the dict
      is well typed; on an SDK user, exactly when it has every attribute read
      and they are well typed. */
  lemma {:induction false} GitHubUserAccepted(d: map<string, Value>)
    ensures |d| != 0 ==> (FromGitUser(PDict(d)).Success? <==> UserDictTyped(d))
    ensures FromGitUser(PObject(d)).Success? <==>
              (forall i :: 0 <= i < |UserAttributes| ==> UserAttributes[i] in d) && UserDictTyped(d)
    ensures FromGitUser(PObject(d)).Success? ==> FromGitUser(PObject(d)).value.Some?
  {
    FromUserDictAccepts(d);
    if |d| != 0 {
      assert FromGitUser(PDict(d)) == FromUserDict(d);
    }
    if forall i :: 0 <= i < |UserAttributes| ==> UserAttributes[i] in d {
      GitHubUserObjectMatchesDict(d);
      assert FromGitUser(PDict(d)) == FromUserDict(d);
    } else {
      assert TransformAuthenticatedUserToDict(d).Failure?;
    }
  }

  /** An SDK user with every attribute read gives the same response as a dict
      with the same entries. */
  lemma {:induction false} GitHubUserObjectMatchesDict(user: map<string, Value>)
    requires forall i :: 0 <= i < |UserAttributes| ==> UserAttributes[i] in user
    ensures |user| != 0
    ensures FromGitUser(PObject(user)) == FromGitUser(PDict(user))
  {
    assert UserAttributes[0] in user;
    var d := TransformAuthenticatedUserToDict(user).value;
    assert FromGitUser(PObject(user)) == FromUserDict(d);
    assert FromGitUser(PDict(user)) == FromUserDict(user);
    UserDictFields(user, d);
  }

  /** The step of the lemma above: a dict holding the user's six attributes
      gives the same keyword arguments as the user's entries. */
  lemma {:induction false} UserDictFields(user: map<string, Value>, d: map<string, Value>)
    requires forall k :: k in d ==> k in user && d[k] == user[k]
    requires forall k :: k in UserAttributes ==> k in d
    ensures UserFieldsFromDict(d) == UserFieldsFromDict(user)
  {
    assert "login" in UserAttributes && "id" in UserAttributes && "name" in UserAttributes;
    assert "email" in UserAttributes && "avatar_url" in UserAttributes && "html_url" in UserAttributes;
  }
}
