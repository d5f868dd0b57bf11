/**
 * The decisions `PreReleaseHook` makes around the variable diff
 * (src/pre-release-hook.ts): which source environments are snapshotted and
 * under which file name, which snapshot file is picked as the migration
 * source, and how the target environment is resolved (first or create).
 */
module PreReleaseHook {
  import opened Wrappers
  import opened JsString
  import opened Lodash
  import Util

  /** `DeploymentEnvironmentType`. */
  datatype EnvironmentType = Test | Staging | Production

  function TypeName(t: EnvironmentType): string
  {
    match t
    case Test => "Test"
    case Staging => "Staging"
    case Production => "Production"
  }

  /** `DeploymentStage`: repository name, environment name and environment type. */
  datatype DeploymentStage = DeploymentStage(repo: string, name: string, envType: EnvironmentType)

  /** A deployment environment: its uuid, name and `environment_type.name`. */
  datatype Environment = Environment(uuid: string, name: string, typeName: string)

  /** The outcome of `firstOrCreateEnvironment`: a listed environment, or a request to create one. */
  datatype EnvironmentChoice = Existing(env: Environment) | Create(name: string, envType: EnvironmentType)

  /** `environment.name.toLowerCase().includes(name.toLowerCase())`. */
  predicate NameMatches(env: Environment, stageName: string)
  {
    Includes(ToLower(env.name), ToLower(stageName))
  }

  /**
   * `firstOrCreateEnvironment`: `listing` is the `values` of the response of
   * `listEnvironments` (`None` when the response is undefined; a response
   * without `values` makes `.filter` throw a TypeError, which this model does
   * not represent). The first listed environment whose lower-cased name
   * contains the lower-cased stage name is used; only when none does is an
   * environment `(name, type)` created.
   */
  function FirstOrCreateEnvironment(listing: Option<seq<Environment>>, stage: DeploymentStage): (r: EnvironmentChoice)
    ensures r.Existing? <==>
      listing.Some? && exists k :: 0 <= k < |listing.value| && NameMatches(listing.value[k], stage.name)
    ensures r.Existing? ==>
      exists k :: 0 <= k < |listing.value| && listing.value[k] == r.env && NameMatches(r.env, stage.name) &&
                  forall j :: 0 <= j < k ==> !NameMatches(listing.value[j], stage.name)
    ensures r.Create? ==> r == Create(stage.name, stage.envType)
  {
    match listing
    case None => Create(stage.name, stage.envType)
    case Some(envs) =>
      var matches := (e: Environment) => NameMatches(e, stage.name);
      var current := Filter(envs, matches);
      FilterEmpty(envs, matches);
      if |current| > 0 then
        FilterHead(envs, matches);
        Existing(current[0])
      else Create(stage.name, stage.envType)
  }

  /** A lower-cased name without the letter q (either case) does not contain "qa". */
  lemma NoQa(env: Environment)
    requires 'q' !in env.name && 'Q' !in env.name
    ensures !NameMatches(env, "qa")
  {
    var lower := ToLower(env.name);
    assert ToLower("qa") == "qa";
    forall j | OccursAt(lower, "qa", j)
      ensures false
    {
      CharOfOccurrence(lower, "qa", j, j);
    }
  }

  /**
   * Two lookups in the listing ["My App UAT", "My App Production"]: stage
   * "uat" picks "My App UAT", the first listed name containing it
   * case-insensitively; stage "qa" matches neither name and asks for
   * `("qa", Test)` to be created.
   */
  lemma EnvironmentLookupExamples(uat: Environment, prod: Environment)
    requires uat.name == "My App UAT" && prod.name == "My App Production"
    ensures FirstOrCreateEnvironment(Some([uat, prod]), DeploymentStage("app", "uat", Test)) == Existing(uat)
    ensures FirstOrCreateEnvironment(Some([uat, prod]), DeploymentStage("app", "qa", Test)) == Create("qa", Test)
  {
    ExampleNamesLackQ(uat, prod);
    QaLookup([uat, prod], DeploymentStage("app", "qa", Test));
    UatLookup(uat, prod);
  }

  lemma UatLookup(uat: Environment, prod: Environment)
    requires uat.name == "My App UAT"
    ensures FirstOrCreateEnvironment(Some([uat, prod]), DeploymentStage("app", "uat", Test)) == Existing(uat)
  {
    UatMatches(uat);
  }

  /** Neither "My App UAT" nor "My App Production" holds the letter q in either case. */
  lemma ExampleNamesLackQ(uat: Environment, prod: Environment)
    requires uat.name == "My App UAT" && prod.name == "My App Production"
    ensures forall k :: 0 <= k < |[uat, prod]| ==> 'q' !in [uat, prod][k].name && 'Q' !in [uat, prod][k].name
  {
    assert 'q' !in uat.name && 'Q' !in uat.name;
    assert 'q' !in prod.name && 'Q' !in prod.name;
  }

  /** A listing none of whose names holds the letter q has no environment for stage "qa": it is created. */
  lemma QaLookup(envs: seq<Environment>, stage: DeploymentStage)
    requires forall k :: 0 <= k < |envs| ==> 'q' !in envs[k].name && 'Q' !in envs[k].name
    requires stage.name == "qa"
    ensures FirstOrCreateEnvironment(Some(envs), stage) == Create("qa", stage.envType)
  {
    forall k | 0 <= k < |envs|
      ensures !NameMatches(envs[k], stage.name)
    {
      NoQa(envs[k]);
    }
  }

  /** "My App UAT" contains "uat" case-insensitively, at index 7. */
  lemma UatMatches(uat: Environment)
    requires uat.name == "My App UAT"
    ensures NameMatches(uat, "uat")
  {
    var lower := ToLower(uat.name);
    assert lower[7..10] == "uat";
    assert ToLower("uat") == "uat";
    assert OccursAt(lower, "uat", 7);
  }

  /** An environment of a listed source repository, with that repository's uuid and name attached. */
  datatype ListedEnvironment = ListedEnvironment(env: Environment, repoUuid: string, repoName: string)

  /** The loop at :80-95 reads an environment's variables unless it is missing, has no uuid, or is of another type. */
  predicate IsSnapshotSource(e: Option<ListedEnvironment>, source: DeploymentStage)
  {
    e.Some? && e.value.env.uuid != "" && e.value.env.typeName == TypeName(source.envType)
  }

  /** The environments whose variables the loop reads, in listing order. */
  function SnapshotSources(environments: seq<Option<ListedEnvironment>>, source: DeploymentStage): (r: seq<ListedEnvironment>)
    ensures |r| <= |environments|
    ensures forall e :: e in r <==> Some(e) in environments && IsSnapshotSource(Some(e), source)
  {
    if |environments| == 0 then []
    else
      var last := environments[|environments| - 1];
      var init := environments[..|environments| - 1];
      assert forall o :: o in environments <==> o in init || o == last;
      SnapshotSources(init, source) + if IsSnapshotSource(last, source) then [last.value] else []
  }

  /** The snapshot key of :90, `repo_uuid~repo_name~name`. */
  function SnapshotKey(e: ListedEnvironment): string
  {
    e.repoUuid + "~" + e.repoName + "~" + e.env.name
  }

  /** The name the snapshot file gets in the dump directory (:93). */
  function SnapshotFileName(e: ListedEnvironment): string
  {
    SnapshotKey(e) + ".json"
  }

  /**
   * The loop of `run` at :80-95, over the flattened environment listing:
   * returns the environments whose variables are read, in order, and the
   * names of the snapshot files written. `run` enters it only when
   * `readFromFile` is falsy (:60); otherwise nothing is read or written.
   */
  method SnapshotSourceEnvironments(environments: seq<Option<ListedEnvironment>>, source: DeploymentStage, writeToFile: bool)
    returns (read: seq<ListedEnvironment>, written: seq<string>)
    ensures read == SnapshotSources(environments, source)
    ensures forall e :: e in read <==> Some(e) in environments && e.env.uuid != "" && e.env.typeName == TypeName(source.envType)
    ensures !writeToFile ==> written == []
    ensures writeToFile ==> |written| == |read| && forall i :: 0 <= i < |read| ==> written[i] == SnapshotFileName(read[i])
  {
    read, written := [], [];
    for i := 0 to |environments|
      invariant read == SnapshotSources(environments[..i], source)
      invariant !writeToFile ==> written == []
      invariant writeToFile ==> |written| == |read| && forall k :: 0 <= k < |read| ==> written[k] == SnapshotFileName(read[k])
    {
      assert environments[..i + 1][..i] == environments[..i];
      var environment := environments[i];
      if !IsSnapshotSource(environment, source) {
        continue;
      }
      read := read + [environment.value];
      if writeToFile {
        written := written + [SnapshotFileName(environment.value)];
      }
    }
    assert environments[..|environments|] == environments;
  }

  /** `files.map(splitFullName)`: fails as soon as one name has no `~`. */
  function ParseAll(files: seq<string>): (r: Result<seq<seq<string>>, Util.JsError>)
    ensures r.Failure? <==> exists k :: 0 <= k < |files| && '~' !in files[k]
    ensures r.Success? ==> (|r.value| == |files| &&
      forall k :: 0 <= k < |files| ==> Util.SplitFullName(files[k]) == Success(r.value[k]))
  {
    if |files| == 0 then Success([])
    else
      match Util.SplitFullName(files[0])
      case Failure(e) => Failure(e)
      case Success(head) =>
        match ParseAll(files[1..])
        case Failure(e) => Failure(e)
        case Success(tail) =>
          ParseAllCons(files, head, tail);
          Success([head] + tail)
  }

  /** Whether `file` parses to `parts`. */
  predicate ParsesTo(file: string, parts: seq<string>)
  {
    Util.SplitFullName(file) == Success(parts)
  }

  /** Parsing the first name and then the rest parses every name. */
  lemma ParseAllCons(files: seq<string>, head: seq<string>, tail: seq<seq<string>>)
    requires |files| > 0 && Util.SplitFullName(files[0]) == Success(head)
    requires |tail| == |files| - 1 && forall k :: 0 <= k < |tail| ==> Util.SplitFullName(files[1..][k]) == Success(tail[k])
    ensures |[head] + tail| == |files|
    ensures forall k :: 0 <= k < |files| ==> Util.SplitFullName(files[k]) == Success(([head] + tail)[k])
  {
    var rel := ParsesTo;
    assert rel(files[0], head);
    assert forall k :: 0 <= k < |tail| ==> rel(files[1..][k], tail[k]);
    ConsRelated(files, head, tail, rel);
  }

  /** A relation that holds at the head and along the tail holds at every index. */
  lemma ConsRelated<A, B>(xs: seq<A>, head: B, tail: seq<B>, rel: (A, B) -> bool)
    requires |xs| > 0 && rel(xs[0], head)
    requires |tail| == |xs| - 1 && forall k :: 0 <= k < |tail| ==> rel(xs[1..][k], tail[k])
    ensures forall k :: 0 <= k < |xs| ==> rel(xs[k], ([head] + tail)[k])
  {
    forall k | 0 < k < |xs|
      ensures rel(xs[k], ([head] + tail)[k])
    {
      assert xs[k] == xs[1..][k - 1];
    }
  }

  /** The test of :109: the third field equals the source type and the second the source repository. */
  predicate IsSourceFile(parsed: seq<string>, source: DeploymentStage)
  {
    |parsed| == 4 && parsed[2] == TypeName(source.envType) && parsed[1] == source.repo
  }

  /** `parsedFiles.find(...)`: the first parsed name that passes the test. */
  function Find(parsed: seq<seq<string>>, source: DeploymentStage): (r: Option<nat>)
    ensures r.Some? ==> r.value < |parsed| && IsSourceFile(parsed[r.value], source) &&
                        forall j :: 0 <= j < r.value ==> !IsSourceFile(parsed[j], source)
    ensures r.None? ==> forall j :: 0 <= j < |parsed| ==> !IsSourceFile(parsed[j], source)
  {
    if |parsed| == 0 then None
    else if IsSourceFile(parsed[0], source) then Some(0)
    else
      match Find(parsed[1..], source)
      case None => None
      case Some(k) => Some(k + 1)
  }

  /**
   * The source file chosen at :106-119 from the dump directory listing:
   * `Failure` when parsing a name throws, `None` when no name passes the
   * test (the run stops), otherwise the path to read: `readFromFile` when it
   * is a non-empty string, else the chosen file name.
   */
  function SourceFilePath(files: seq<string>, source: DeploymentStage, readFromFile: Option<string>): (r: Result<Option<string>, Util.JsError>)
    ensures r.Failure? <==> exists k :: 0 <= k < |files| && '~' !in files[k]
    ensures r == Success(None) ==>
      forall k :: 0 <= k < |files| ==> !IsSourceFile(Util.SplitFullName(files[k]).value, source)
    ensures r.Success? && r.value.Some? ==>
      exists k :: 0 <= k < |files| && IsSourceFile(Util.SplitFullName(files[k]).value, source) &&
        (forall j :: 0 <= j < k ==> !IsSourceFile(Util.SplitFullName(files[j]).value, source)) &&
        r.value.value == (if readFromFile.Some? && readFromFile.value != "" then readFromFile.value else files[k])
  {
    match ParseAll(files)
    case Failure(e) => Failure(e)
    case Success(parsed) =>
      match Find(parsed, source)
      case None => Success(None)
      case Some(k) =>
        var path := parsed[k][3];
        Success(Some(if readFromFile.Some? && readFromFile.value != "" then readFromFile.value else path))
  }

  /**
   * A snapshot file name as :90-93 writes it, for a repository name without
   * space, `~` or ".json", parses with an empty stage and the repository name
   * as application name; the environment name is dropped.
   */
  lemma WrittenSnapshotNameParse(e: ListedEnvironment)
    requires '~' !in e.repoUuid && '~' !in e.repoName
    requires ' ' !in e.repoName && !Occurs(e.repoName, ".json")
    ensures Util.SplitFullName(SnapshotFileName(e)) == Success([e.repoUuid, "", e.repoName, SnapshotFileName(e)])
  {
    var name := SnapshotFileName(e);
    var fields := Util.StageAndApp(ReplaceFirst(e.repoName, ".json", ""));
    assert fields == ["", e.repoName] by {
      assert ReplaceFirst(e.repoName, ".json", "") == e.repoName;
      Util.SplitAtFirstSpaceNone(e.repoName);
    }
    assert Util.SplitFullName(name) == Success([e.repoUuid] + fields + [name]) by {
      var tail := "~" + e.env.name + ".json";
      assert name == e.repoUuid + "~" + e.repoName + tail;
      Util.SplitFullNameFields(e.repoUuid, e.repoName, tail);
    }
    assert [e.repoUuid] + fields + [name] == [e.repoUuid, "", e.repoName, name];
  }

  /**
   * The stage field `splitFullName` reads from a written snapshot name is
   * empty or shorter than the repository name, and empty when that name has
   * no space: it is cut from the text between the first two `~`, which is a
   * prefix of the repository name.
   */
  lemma WrittenStageShort(e: ListedEnvironment)
    requires '~' !in e.repoUuid
    ensures var r := Util.SplitFullName(SnapshotFileName(e));
      r.Success? && (r.value[1] == "" || |r.value[1]| < |e.repoName|) &&
      (' ' !in e.repoName ==> r.value[1] == "")
  {
    var name := SnapshotFileName(e);
    WrittenSegmentIsPrefix(e);
    var rest := Split(name, "~")[1];
    var k :| 0 <= k <= |e.repoName| && rest == e.repoName[..k];
    assert forall c :: c in rest ==> c in e.repoName;
    var clean := ReplaceFirst(rest, ".json", "");
    ReplaceFirstRemoves(rest, ".json");
    Util.StageShorter(clean);
    Util.SplitFullNameStage(name);
  }

  /** The piece between the first two `~` of a written snapshot name is a prefix of the repository name. */
  lemma WrittenSegmentIsPrefix(e: ListedEnvironment)
    requires '~' !in e.repoUuid
    ensures '~' in SnapshotFileName(e) && |Split(SnapshotFileName(e), "~")| >= 2
    ensures exists k :: 0 <= k <= |e.repoName| && Split(SnapshotFileName(e), "~")[1] == e.repoName[..k]
  {
    var rest := e.env.name + ".json";
    assert SnapshotFileName(e) == e.repoUuid + ['~'] + e.repoName + ['~'] + rest;
    assert SnapshotFileName(e)[|e.repoUuid|] == '~';
    SplitSecondPieceInPrefix(e.repoUuid, '~', e.repoName, rest);
  }

  /**
   * Hence no snapshot written by :90-93 is chosen for a source stage with a
   * non-empty repository name when its repository name has no space or is
   * no longer than the source repository's name; in particular the source
   * repository's own snapshots never are. When the dump directory holds only
   * such files, `run` stops with "Cannot find the source deployment stage".
   */
  lemma WrittenSnapshotsNeverChosen(written: seq<ListedEnvironment>, source: DeploymentStage, readFromFile: Option<string>)
    requires source.repo != ""
    requires forall i :: 0 <= i < |written| ==>
      '~' !in written[i].repoUuid && (|written[i].repoName| <= |source.repo| || ' ' !in written[i].repoName)
    ensures SourceFilePath(seq(|written|, i requires 0 <= i < |written| => SnapshotFileName(written[i])), source, readFromFile)
         == Success(None)
  {
    var files := seq(|written|, i requires 0 <= i < |written| => SnapshotFileName(written[i]));
    forall k | 0 <= k < |files|
      ensures '~' in files[k] && !IsSourceFile(Util.SplitFullName(files[k]).value, source)
    {
      WrittenStageShort(written[k]);
    }
  }

  /**
   * A repository name made of another repository's name, a space and a type
   * name is read as a stage and an application name: its snapshot is chosen
   * for a source stage of that other repository and that type.
   */
  lemma SpacedRepositorySnapshotChosen(e: ListedEnvironment, source: DeploymentStage)
    requires '~' !in e.repoUuid && '~' !in source.repo && ' ' !in source.repo
    requires e.repoName == source.repo + " " + TypeName(source.envType)
    requires !Occurs(e.repoName, ".json")
    ensures SourceFilePath([SnapshotFileName(e)], source, None) == Success(Some(SnapshotFileName(e)))
  {
    var stage, app := source.repo, TypeName(source.envType);
    var tail := "~" + e.env.name + ".json";
    assert SnapshotFileName(e) == e.repoUuid + "~" + (stage + " " + app) + tail;
    assert '~' !in app;
    SpacedSegmentFields(e.repoUuid, stage, app, tail);
    var parsed := Util.SplitFullName(SnapshotFileName(e)).value;
    assert IsSourceFile(parsed, source);
    SingleFileChosen(SnapshotFileName(e), source);
  }

  /**
   * For instance, the Production snapshot of repository "api Production" is
   * chosen, and read, for source repository "api" of type Production.
   */
  lemma OtherRepositorySnapshotChosen(e: ListedEnvironment, source: DeploymentStage)
    requires e.repoUuid == "u" && e.repoName == "api Production"
    requires source == DeploymentStage("api", e.env.name, Production)
    ensures SourceFilePath([SnapshotFileName(e)], source, None) == Success(Some(SnapshotFileName(e)))
  {
    assert e.repoName == source.repo + " " + TypeName(source.envType);
    NoJsonInName(e.repoName);
    SpacedRepositorySnapshotChosen(e, source);
  }

  /** A listing of one parsable file that passes the test of :109 has that file read. */
  lemma SingleFileChosen(file: string, source: DeploymentStage)
    requires Util.SplitFullName(file).Success? && IsSourceFile(Util.SplitFullName(file).value, source)
    ensures SourceFilePath([file], source, None) == Success(Some(file))
  {
    assert [file][0] == file;
  }

  /** A segment `stage + " " + app` between the first two `~` is read as that stage and application name. */
  lemma SpacedSegmentFields(id: string, stage: string, app: string, tail: string)
    requires '~' !in id && '~' !in stage && '~' !in app && ' ' !in stage
    requires !Occurs(stage + " " + app, ".json")
    requires tail == [] || tail[0] == '~'
    ensures var r := Util.SplitFullName(id + "~" + (stage + " " + app) + tail);
      r.Success? && r.value[1] == stage && r.value[2] == app
  {
    var segment := stage + " " + app;
    Util.SplitFullNameFields(id, segment, tail);
    assert ReplaceFirst(segment, ".json", "") == segment;
    Util.StageAndAppAtSpace(stage, app);
  }

  /** "api Production" holds no ".json". */
  lemma NoJsonInName(name: string)
    requires name == "api Production"
    ensures !Occurs(name, ".json")
  {
    forall j | OccursAt(name, ".json", j)
      ensures false
    {
      CharOfOccurrence(name, ".json", j, j);
    }
  }

  /**
   * The reader the written names evidently need: strip the ".json" suffix
   * and split the key into repository uuid, repository name and environment
   * name; `None` for a name of any other shape.
   */
  function ParseSnapshotName(fileName: string): (r: Option<(string, string, string)>)
    ensures r.Some? ==> r.value.0 + "~" + r.value.1 + "~" + r.value.2 + ".json" == fileName
  {
    if |fileName| < 5 || fileName[|fileName| - 5..] != ".json" then None
    else
      var key := fileName[..|fileName| - 5];
      var parts := Split(key, "~");
      if |parts| != 3 then None
      else
        JoinThree(key);
        assert fileName == key + ".json";
        Some((parts[0], parts[1], parts[2]))
  }

  /** A key that splits into three pieces is the three pieces joined by `~`. */
  lemma JoinThree(key: string)
    requires |Split(key, "~")| == 3
    ensures var parts := Split(key, "~"); key == parts[0] + "~" + parts[1] + "~" + parts[2]
  {
    SplitJoin(key, "~");
    JoinOfThree(Split(key, "~"), "~");
  }

  /** The intended round trip: the name written for an environment parses back into its three parts. */
  lemma SnapshotNameRoundTrip(e: ListedEnvironment)
    requires '~' !in e.repoUuid && '~' !in e.repoName && '~' !in e.env.name
    ensures ParseSnapshotName(SnapshotFileName(e)) == Some((e.repoUuid, e.repoName, e.env.name))
  {
    var key := SnapshotKey(e);
    var name := SnapshotFileName(e);
    assert name[|name| - 5..] == ".json" && name[..|name| - 5] == key;
    assert Split(key, "~") == [e.repoUuid, e.repoName, e.env.name] by {
      SplitThreeAtChar(e.repoUuid, e.repoName, e.env.name, '~');
    }
  }

  /** The selection the written names evidently need: the snapshot of the source stage's repository and environment name. */
  predicate IsIntendedSourceFile(fileName: string, source: DeploymentStage)
  {
    match ParseSnapshotName(fileName)
    case None => false
    case Some((_, repoName, envName)) => repoName == source.repo && envName == source.name
  }

  /** The first file of the listing that is the snapshot of the source stage. */
  function FindIntendedSourceFile(files: seq<string>, source: DeploymentStage): (r: Option<nat>)
    ensures r.Some? ==> r.value < |files| && IsIntendedSourceFile(files[r.value], source) &&
                        forall j :: 0 <= j < r.value ==> !IsIntendedSourceFile(files[j], source)
    ensures r.None? ==> forall j :: 0 <= j < |files| ==> !IsIntendedSourceFile(files[j], source)
  {
    if |files| == 0 then None
    else if IsIntendedSourceFile(files[0], source) then Some(0)
    else
      match FindIntendedSourceFile(files[1..], source)
      case None => None
      case Some(k) => Some(k + 1)
  }

  /**
   * With the intended selection, a dump directory holding the snapshot of an
   * environment named like the source stage, of the source repository, has a
   * file chosen, and the file chosen is a snapshot of that stage.
   */
  lemma WrittenSnapshotChosen(written: seq<ListedEnvironment>, source: DeploymentStage, i: nat)
    requires forall k :: 0 <= k < |written| ==>
      '~' !in written[k].repoUuid && '~' !in written[k].repoName && '~' !in written[k].env.name
    requires i < |written| && written[i].repoName == source.repo && written[i].env.name == source.name
    ensures var files := seq(|written|, k requires 0 <= k < |written| => SnapshotFileName(written[k]));
      var r := FindIntendedSourceFile(files, source);
      r.Some? && r.value <= i && written[r.value].repoName == source.repo && written[r.value].env.name == source.name
  {
    var files := seq(|written|, k requires 0 <= k < |written| => SnapshotFileName(written[k]));
    SnapshotNameRoundTrip(written[i]);
    assert IsIntendedSourceFile(files[i], source);
    var r := FindIntendedSourceFile(files, source);
    SnapshotNameRoundTrip(written[r.value]);
  }
}
