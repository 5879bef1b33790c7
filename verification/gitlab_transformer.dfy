/** `GitLabRepoResponseTransformer` of `schema/repo.py`: a GitLab project (an
    SDK object or a dict) becomes a `NormalizedGitRepo`, a user dict becomes a
    `GitUserResponse`. */
module GitLabTransformer {
  import opened Wrappers
  import opened Text
  import opened PyValues
  import opened Schema

  /** `derive_storage_size`: nothing for absent or empty statistics;
      otherwise the `repository_size` entry, or 0 when it is missing. Only a
      dict has `.get`. */
  function DeriveStorageSize(statistics: Value): (r: Result<Option<Value>, TransformError>)
    ensures r == Success(None) <==> !Truthy(statistics)
    ensures r.Success? && r.value.Some? ==>
              statistics.VMap? && r.value.value == Get(statistics.entries, "repository_size", VInt(0))
    ensures r.Failure? ==> Truthy(statistics) && !statistics.VMap?
  {
    if !Truthy(statistics) then Success(None)
    else if statistics.VMap? then Success(Some(Get(statistics.entries, "repository_size", VInt(0))))
    else Failure(NoSuchMethod("get"))
  }

  /** The visibilities that make a project private. */
  predicate Restricted(visibility: string) {
    Lower(visibility) == "private" || Lower(visibility) == "internal"
  }

  /** `derived_private_field`: a tri-state flag, unset for an absent or empty
      visibility, set exactly for the restricted visibilities whatever their
      case. Only a string has `.lower()`. */
  function DerivedPrivateField(visibility: Value): (r: Result<Option<bool>, TransformError>)
    ensures r == Success(None) <==> !Truthy(visibility)
    ensures r.Success? && r.value.Some? ==> visibility.VStr? && (r.value.value <==> Restricted(visibility.s))
    ensures r.Failure? ==> Truthy(visibility) && !visibility.VStr?
  {
    if !Truthy(visibility) then Success(None)
    else if visibility.VStr? then Success(Some(Lower(visibility.s) in {"private", "internal"}))
    else Failure(NoSuchMethod("lower"))
  }

  /** The flag does not depend on the case of the visibility. */
  lemma {:induction false} DerivedPrivateIgnoresCase(s: string)
    ensures DerivedPrivateField(VStr(s)) == DerivedPrivateField(VStr(Lower(s)))
  {
    LowerIsLowerCase(s);
  }

  /** The private flag a record with the given visibility must carry. */
  function PrivateOf(visibility: Option<string>): Option<bool> {
    match visibility
    case None => None
    case Some(s) => if s == "" then None else Some(Restricted(s))
  }

  /** The attributes `transform_project_to_dict` reads, in order; visibility
      and statistics are read with a default and never missing. */
  const ProjectAttributes: seq<string> := [
    "id", "name", "description", "default_branch", "forks_count", "created_at",
    "star_count", "http_url_to_repo", "path_with_namespace"]

  /** The keys of the dict `transform_project_to_dict` builds. */
  const ProjectDictKeys: set<string> := {
    "id", "name", "description", "default_branch", "forks_count", "visibility", "created_at",
    "star_count", "http_url_to_repo", "path_with_namespace", "statistics"}

  /** `transform_project_to_dict`: the project's attributes under the same
      keys, the id as a string, visibility and statistics `None` when absent. */
  function TransformProjectToDict(project: map<string, Value>): (r: Result<map<string, Value>, TransformError>)
    requires IdRenderable(project)
    ensures r.Failure? <==> FirstMissing(project, ProjectAttributes).Some?
    ensures r.Failure? ==> r.error == MissingAttribute(FirstMissing(project, ProjectAttributes).value)
    ensures r.Success? ==> r.value.Keys == ProjectDictKeys
    ensures r.Success? ==>
              && IdRenderable(r.value) && "id" in project && "id" in r.value
              && r.value["id"] == VStr(PyStr(project["id"]))
    ensures r.Success? ==> forall k :: k in r.value && k != "id" ==> r.value[k] == Get(project, k, VNone)
    ensures r.Success? ==> forall k :: k in ProjectAttributes && k != "id" ==>
              k in project && k in r.value && r.value[k] == project[k]
  {
    match FirstMissing(project, ProjectAttributes)
    case Some(name) => Failure(MissingAttribute(name))
    case None =>
      assert ProjectAttributes[0] in project;
      var d := map k | k in ProjectDictKeys ::
                 if k == "id" then VStr(PyStr(project["id"])) else Get(project, k, VNone);
      ProjectDictCopies(project, d);
      Success(d)
  }

  /** The dict built from a project with every attribute holds the eleven
      keys and copies each attribute but the id. */
  lemma {:induction false} ProjectDictCopies(project: map<string, Value>, d: map<string, Value>)
    requires IdRenderable(project) && "id" in project
    requires forall i :: 0 <= i < |ProjectAttributes| ==> ProjectAttributes[i] in project
    requires d == map k | k in ProjectDictKeys ::
                 if k == "id" then VStr(PyStr(project["id"])) else Get(project, k, VNone)
    ensures d.Keys == ProjectDictKeys
    ensures IdRenderable(d) && "id" in d && d["id"] == VStr(PyStr(project["id"]))
    ensures forall k :: k in d && k != "id" ==> d[k] == Get(project, k, VNone)
    ensures forall k :: k in ProjectAttributes && k != "id" ==> k in project && k in d && d[k] == project[k]
  {
    assert "id" in ProjectDictKeys;
    assert forall k :: k in ProjectAttributes ==> k in ProjectDictKeys && k in project;
  }

  /** The keyword arguments `from_git` computes from a dict, in Python's
      evaluation order: the size helper may raise before the private-flag
      helper does. */
  function RepoFieldsFromDict(d: map<string, Value>): (r: Result<RepoFields, TransformError>)
    requires IdRenderable(d)
  {
    var storage :- DeriveStorageSize(Get(d, "statistics", VNone));
    var private :- DerivedPrivateField(Get(d, "visibility", VNone));
    Success(RepoFields(
      id := PyStr(Get(d, "id", VStr(""))),
      name := Get(d, "name", VNone),
      description := Get(d, "description", VNone),
      htmlUrl := Get(d, "http_url_to_repo", VNone),
      relativePath := Get(d, "path_with_namespace", VNone),
      defaultBranch := Get(d, "default_branch", VStr("main")),
      forksCount := Get(d, "forks_count", VInt(0)),
      stargazersCount := Get(d, "star_count", VInt(0)),
      size := Or(storage.GetOr(VNone), VInt(0)),
      createdAt := Get(d, "created_at", VNone),
      private := OptBoolValue(private),
      visibility := Get(d, "visibility", VNone)))
  }

  function FromDict(d: map<string, Value>): Result<Option<NormalizedGitRepo>, TransformError>
    requires IdRenderable(d)
  {
    var fields :- RepoFieldsFromDict(d);
    var repo :- ValidateRepo(fields);
    Success(Some(repo))
  }

  /** `from_git`. Nothing comes back exactly for falsy input; another type
      raises `TypeError`; an attribute can be missing only from an object. A
      record that comes back always has a size, and its private flag is the
      one its visibility determines. */
  function FromGit(data: Payload): (r: Result<Option<NormalizedGitRepo>, TransformError>)
    requires PayloadIdRenderable(data)
    ensures r == Success(None) <==> Falsy(data)
    ensures data.POther? && !Falsy(data) ==> r == Failure(UnsupportedType)
    ensures r.Failure? && r.error.MissingAttribute? ==> data.PObject? && r.error.name !in data.attrs
    ensures r.Success? && r.value.Some? ==> r.value.value.size.Some?
    ensures r.Success? && r.value.Some? ==> r.value.value.private == PrivateOf(r.value.value.visibility)
  {
    if Falsy(data) then Success(None)
    else
      match data
      case PObject(project) =>
        var d :- TransformProjectToDict(project);
        var r := FromDict(d);
        FromDictProperties(d);
        r
      case PDict(d) =>
        FromDictProperties(d);
        FromDict(d)
      case POther(_) => Failure(UnsupportedType)
  }

  /** Statistics the size can be derived from: falsy, or a dict whose
      `repository_size` is absent, falsy or an integer. */
  predicate StatisticsUsable(statistics: Value) {
    || !Truthy(statistics)
    || (&& statistics.VMap?
        && var e := statistics.entries;
           "repository_size" !in e || !Truthy(e["repository_size"]) || e["repository_size"].VInt?)
  }

  /** A project dict whose entries have the types the record needs: name,
      URL and path are strings; branch and counts may be absent; the rest may
      also be `None`. */
  predicate RepoDictTyped(d: map<string, Value>) {
    && StrAt(d, "name") && OptStrAt(d, "description") && StrAt(d, "http_url_to_repo")
    && StrAt(d, "path_with_namespace") && StrOrAbsentAt(d, "default_branch")
    && IntOrAbsentAt(d, "forks_count") && IntOrAbsentAt(d, "star_count")
    && OptTimeAt(d, "created_at") && OptStrAt(d, "visibility")
    && ("statistics" !in d || StatisticsUsable(d["statistics"]))
  }

  /** The size `from_git` derives is an integer exactly for usable
      statistics. */
  lemma {:induction false} StorageSizeTyped(statistics: Value)
    ensures var s := DeriveStorageSize(statistics);
            StatisticsUsable(statistics) <==> s.Success? && IsOptInt(Or(s.value.GetOr(VNone), VInt(0)))
  {
  }

  /** A dict converts to a record exactly when its entries are well typed. */
  lemma {:induction false} FromDictAccepts(d: map<string, Value>)
    requires IdRenderable(d)
    ensures FromDict(d).Success? <==> RepoDictTyped(d)
    ensures FromDict(d).Success? ==> FromDict(d).value.Some?
  {
    var statistics := Get(d, "statistics", VNone);
    var visibility := Get(d, "visibility", VNone);
    StorageSizeTyped(statistics);
    var fields := RepoFieldsFromDict(d);
    if fields.Success? {
      ValidateRepoAccepts(fields.value);
      assert fields.value.size == Or(DeriveStorageSize(statistics).value.GetOr(VNone), VInt(0));
      assert RepoFieldsTyped(fields.value) <==> RepoDictTyped(d);
    } else {
      assert !StatisticsUsable(statistics) || (Truthy(visibility) && !visibility.VStr?);
    }
  }

  /** `from_git` accepts a non-empty project dict exactly when it is well
      typed, and then yields a record. */
  lemma {:induction false} GitLabDictAccepted(d: map<string, Value>)
    requires IdRenderable(d)
    requires |d| != 0
    ensures FromGit(PDict(d)).Success? <==> RepoDictTyped(d)
    ensures FromGit(PDict(d)).Success? ==> FromGit(PDict(d)).value.Some?
  {
    assert FromGit(PDict(d)) == FromDict(d);
    FromDictAccepts(d);
  }

  /** What every record built from a dict satisfies. */
  lemma {:induction false} FromDictProperties(d: map<string, Value>)
    requires IdRenderable(d)
    ensures FromDict(d).Success? ==> FromDict(d).value.Some?
    ensures FromDict(d).Success? ==> FromDict(d).value.value.size.Some?
    ensures FromDict(d).Success? ==>
              FromDict(d).value.value.private == PrivateOf(FromDict(d).value.value.visibility)
    ensures FromDict(d).Failure? ==> !FromDict(d).error.MissingAttribute?
  {
    var f := RepoFieldsFromDict(d);
    if f.Success? {
      var vis := Get(d, "visibility", VNone);
      ValidateRepoRoundTrip(f.value, NormalizedGitRepo("", "", None, "", "", "", 0, 0, None, None, None, None));
      if ValidateRepo(f.value).Success? {
        var n := ValidateRepo(f.value).value;
        assert OptStrValue(n.visibility) == vis;
        assert OptBoolValue(n.private) == f.value.private;
      }
    }
  }

  /** The normalised size of a dict payload: the statistics' `repository_size`
      when that is a non-zero integer, 0 when statistics are absent or empty
      or lack the entry. */
  lemma {:induction false} GitLabSizeFromStatistics(d: map<string, Value>)
    requires IdRenderable(d) && |d| != 0
    requires FromGit(PDict(d)).Success?
    ensures var n := FromGit(PDict(d)).value.value;
            var stats := Get(d, "statistics", VNone);
            && (!Truthy(stats) ==> n.size == Some(0))
            && (stats.VMap? && Truthy(stats) && "repository_size" !in stats.entries ==> n.size == Some(0))
            && (stats.VMap? && Truthy(stats) && "repository_size" in stats.entries
                ==> OptIntValue(n.size) == Or(stats.entries["repository_size"], VInt(0)))
  {
    var f := RepoFieldsFromDict(d).value;
    ValidateRepoRoundTrip(f, NormalizedGitRepo("", "", None, "", "", "", 0, 0, None, None, None, None));
  }

  /** A dict payload keeps its id (rendered), names and counts under GitLab's
      keys: `star_count`, `http_url_to_repo` and `path_with_namespace` become
      the star count, URL and relative path; the default branch is `main`
      only when the key is absent; visibility and description are copied. */
  lemma {:induction false} GitLabDictRenames(d: map<string, Value>)
    requires IdRenderable(d) && |d| != 0
    requires FromGit(PDict(d)).Success?
    ensures var n := FromGit(PDict(d)).value.value;
            && n.id == PyStr(Get(d, "id", VStr("")))
            && VStr(n.repoName) == Get(d, "name", VNone)
            && VStr(n.htmlUrl) == Get(d, "http_url_to_repo", VNone)
            && VStr(n.relativePath) == Get(d, "path_with_namespace", VNone)
            && VStr(n.defaultBranch) == Get(d, "default_branch", VStr("main"))
            && VInt(n.forksCount) == Get(d, "forks_count", VInt(0))
            && VInt(n.stargazersCount) == Get(d, "star_count", VInt(0))
            && OptStrValue(n.visibility) == Get(d, "visibility", VNone)
            && OptStrValue(n.description) == Get(d, "description", VNone)
            && OptTimeValue(n.repoCreatedAt) == Get(d, "created_at", VNone)
  {
    var f := RepoFieldsFromDict(d).value;
    ValidateRepoRoundTrip(f, NormalizedGitRepo("", "", None, "", "", "", 0, 0, None, None, None, None));
  }

  /** An integer id is rendered in decimal, and the rendering parses back. */
  lemma {:induction false} GitLabIntegerId(d: map<string, Value>)
    requires IdRenderable(d) && |d| != 0
    requires FromGit(PDict(d)).Success?
    requires "id" in d && d["id"].VInt?
    ensures FromGit(PDict(d)).value.value.id == IntToDecimal(d["id"].i)
    ensures ParseInt(FromGit(PDict(d)).value.value.id) == Some(d["id"].i)
  {
    GitLabDictRenames(d);
    PyStrProperties(d["id"]);
  }

  /** An SDK project with every attribute `transform_project_to_dict` reads
      gives the same result as a dict with the same entries. */
  lemma {:induction false} GitLabObjectMatchesDict(project: map<string, Value>)
    requires IdRenderable(project)
    requires forall i :: 0 <= i < |ProjectAttributes| ==> ProjectAttributes[i] in project
    ensures |project| != 0
    ensures FromGit(PObject(project)) == FromGit(PDict(project))
  {
    assert ProjectAttributes[0] in project;
    var d := TransformProjectToDict(project).value;
    ObjectGoesThroughDict(project);
    DictGoesThroughFromDict(project);
    assert forall k :: k in ProjectAttributes ==> k in project;
    ProjectDictFields(project, d);
    SameFieldsSameRecord(d, project);
  }

  /** An object with every required attribute is read through its dict. */
  lemma {:induction false} ObjectGoesThroughDict(project: map<string, Value>)
    requires IdRenderable(project)
    requires TransformProjectToDict(project).Success?
    ensures FromGit(PObject(project)) == FromDict(TransformProjectToDict(project).value)
  {
  }

  /** A non-empty dict is read directly. */
  lemma {:induction false} DictGoesThroughFromDict(d: map<string, Value>)
    requires IdRenderable(d)
    requires |d| != 0
    ensures FromGit(PDict(d)) == FromDict(d)
  {
  }

  /** `from_git` accepts a project object exactly when it has every
      attribute the dict copies and those attributes are well typed. */
  lemma {:induction false} GitLabObjectAccepted(project: map<string, Value>)
    requires IdRenderable(project)
    ensures FromGit(PObject(project)).Success? <==>
              (forall i :: 0 <= i < |ProjectAttributes| ==> ProjectAttributes[i] in project)
              && RepoDictTyped(project)
    ensures FromGit(PObject(project)).Success? ==> FromGit(PObject(project)).value.Some?
  {
    if forall i :: 0 <= i < |ProjectAttributes| ==> ProjectAttributes[i] in project {
      GitLabObjectMatchesDict(project);
      GitLabDictAccepted(project);
    } else {
      assert TransformProjectToDict(project).Failure?;
    }
  }

  /** The step of the lemma above: the dict built from a project gives the
      same keyword arguments as the project's own entries. */
  lemma {:induction false} ProjectDictFields(project: map<string, Value>, d: map<string, Value>)
    requires IdRenderable(project) && IdRenderable(d)
    requires d.Keys == ProjectDictKeys
    requires "id" in project && d["id"] == VStr(PyStr(project["id"]))
    requires forall k :: k in d && k != "id" ==> d[k] == Get(project, k, VNone)
    requires forall k :: k in ProjectAttributes ==> k in project
    ensures RepoFieldsFromDict(d) == RepoFieldsFromDict(project)
  {
    PyStrProperties(project["id"]);
    assert PyStr(Get(d, "id", VStr(""))) == PyStr(Get(project, "id", VStr("")));
    assert Get(d, "name", VNone) == Get(project, "name", VNone) by {
      assert "name" in ProjectDictKeys;
    }
    assert Get(d, "description", VNone) == Get(project, "description", VNone) by {
      assert "description" in ProjectDictKeys;
    }
    assert Get(d, "http_url_to_repo", VNone) == Get(project, "http_url_to_repo", VNone) by {
      assert "http_url_to_repo" in ProjectDictKeys;
    }
    assert Get(d, "path_with_namespace", VNone) == Get(project, "path_with_namespace", VNone) by {
      assert "path_with_namespace" in ProjectDictKeys;
    }
    assert Get(d, "created_at", VNone) == Get(project, "created_at", VNone) by {
      assert "created_at" in ProjectDictKeys;
    }
    assert Get(d, "visibility", VNone) == Get(project, "visibility", VNone) by {
      assert "visibility" in ProjectDictKeys;
    }
    assert Get(d, "statistics", VNone) == Get(project, "statistics", VNone) by {
      assert "statistics" in ProjectDictKeys;
    }
    assert Get(d, "default_branch", VStr("main")) == Get(project, "default_branch", VStr("main")) by {
      assert "default_branch" in ProjectAttributes;
    }
    assert Get(d, "forks_count", VInt(0)) == Get(project, "forks_count", VInt(0)) by {
      assert "forks_count" in ProjectAttributes;
    }
    assert Get(d, "star_count", VInt(0)) == Get(project, "star_count", VInt(0)) by {
      assert "star_count" in ProjectAttributes;
    }
  }

  /** Dicts that give the same keyword arguments give the same record. */
  lemma {:induction false} SameFieldsSameRecord(d: map<string, Value>, e: map<string, Value>)
    requires IdRenderable(d) && IdRenderable(e)
    requires RepoFieldsFromDict(d) == RepoFieldsFromDict(e)
    ensures FromDict(d) == FromDict(e)
  {
  }

  /** `from_git_user`: only a dict is accepted; its entries are copied by
      name. */
  function FromGitUser(data: Payload): (r: Result<Option<GitUserResponse>, TransformError>)
    ensures r == Success(None) <==> Falsy(data)
    ensures !Falsy(data) && !data.PDict? ==> r == Failure(UnsupportedType)
    ensures r.Success? && r.value.Some? ==>
              data.PDict? && UserFieldsOf(r.value.value) == UserFieldsFromDict(data.entries)
  {
    if Falsy(data) then Success(None)
    else if data.PDict? then
      var f := UserFieldsFromDict(data.entries);
      ValidateUserRoundTrip(f, GitUserResponse(None, None, None, None, None, None));
      var u :- ValidateUser(f);
      Success(Some(u))
    else Failure(UnsupportedType)
  }

  /** The keyword arguments `from_git_user` passes, all read with a `None`
      default. */
  function UserFieldsFromDict(d: map<string, Value>): UserFields {
    UserFields(Get(d, "username", VNone), Get(d, "id", VNone), Get(d, "name", VNone),
               Get(d, "email", VNone), Get(d, "avatar_url", VNone), Get(d, "html_url", VNone))
  }

  /** A user dict whose entries have the types the record needs: the id may
      be absent, `None` or an integer, the rest absent, `None` or strings. */
  predicate UserDictTyped(d: map<string, Value>) {
    && OptStrAt(d, "username") && OptIntAt(d, "id") && OptStrAt(d, "name")
    && OptStrAt(d, "email") && OptStrAt(d, "avatar_url") && OptStrAt(d, "html_url")
  }

  /** `from_git_user` accepts a dict exactly when it is empty or well typed,
      and a non-empty accepted dict yields a record; it accepts no object. */
  lemma {:induction false} GitLabUserAccepted(d: map<string, Value>)
    ensures FromGitUser(PDict(d)).Success? <==> |d| == 0 || UserDictTyped(d)
    ensures |d| != 0 && FromGitUser(PDict(d)).Success? ==> FromGitUser(PDict(d)).value.Some?
    ensures FromGitUser(PObject(d)).Failure?
  {
    ValidateUserAccepts(UserFieldsFromDict(d));
  }
}
