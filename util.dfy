/**
 * `splitFullName` from src/util.ts: parses a snapshot file name of the form
 * "{guid}~STAGENAME APPNAME.json" into `[guid, stage, appName, fullName]`.
 */
module Util {
  import opened Wrappers
  import opened JsString

  /** Evaluating `rest.replace` when `rest` is `undefined` throws a TypeError. */
  datatype JsError = TypeError

  /**
   * Models the arrow function as written: destructure the first two pieces of
   * `fullName.split("~")`, and read stage and application name from the
   * second piece.
   */
  function SplitFullName(fullName: string): (r: Result<seq<string>, JsError>)
    ensures r.Failure? <==> '~' !in fullName
    ensures r.Success? ==> |r.value| == 4 && r.value[3] == fullName
  {
    OccursChar(fullName, '~');
    var parts := Split(fullName, "~");
    if |parts| < 2 then Failure(TypeError)
    else
      var repoId := parts[0];
      var rest := parts[1];
      Success([repoId] + NameFields(rest) + [fullName])
  }

  /** The stage `splitFullName` returns is cut from the piece after the first `~`, its first ".json" dropped. */
  lemma SplitFullNameStage(fullName: string)
    requires '~' in fullName
    ensures |Split(fullName, "~")| >= 2
    ensures SplitFullName(fullName).value[1] == StageAndApp(ReplaceFirst(Split(fullName, "~")[1], ".json", ""))[0]
  {
    OccursChar(fullName, '~');
  }

  /**
   * Stage and application name of the piece after the first `~`: drop its
   * first ".json" and cut it with `indexOf(" ")` and `substr`. The result is
   * the cut at the first space of the reference definition.
   */
  function NameFields(rest: string): (r: seq<string>)
    ensures r == StageAndApp(ReplaceFirst(rest, ".json", ""))
  {
    var cleanFileName := ReplaceFirst(rest, ".json", "");
    var stage := Substr(cleanFileName, 0, IndexOf(cleanFileName, " "));
    var appName := SubstrFrom(cleanFileName, IndexOf(cleanFileName, " ") + 1);
    SubstrCutIsFirstSpaceCut(cleanFileName);
    [stage, appName]
  }

  /**
   * Reference definition of the cut at the first space, character by
   * character: `None` when there is no space, otherwise the text before and
   * the text after the first space.
   */
  function SplitAtFirstSpace(s: string): Option<(string, string)>
  {
    if |s| == 0 then None
    else if s[0] == ' ' then Some(([], s[1..]))
    else
      match SplitAtFirstSpace(s[1..])
      case None => None
      case Some(p) => Some(([s[0]] + p.0, p.1))
  }

  /** Stage and application name of a cleaned segment: with no space, stage is empty and the name is everything. */
  function StageAndApp(clean: string): (r: seq<string>)
    ensures |r| == 2
  {
    match SplitAtFirstSpace(clean)
    case None => ["", clean]
    case Some(p) => [p.0, p.1]
  }

  lemma {:induction false} SplitAtFirstSpaceAt(s: string, k: nat)
    requires k < |s| && s[k] == ' '
    requires forall j :: 0 <= j < k ==> s[j] != ' '
    ensures SplitAtFirstSpace(s) == Some((s[..k], s[k + 1..]))
  {
    if k > 0 {
      SplitAtFirstSpaceAt(s[1..], k - 1);
      assert [s[0]] + s[1..][..k - 1] == s[..k];
      assert s[1..][k..] == s[k + 1..];
    }
  }

  lemma {:induction false} SplitAtFirstSpaceNone(s: string)
    requires ' ' !in s
    ensures SplitAtFirstSpace(s) == None
  {
    if |s| > 0 {
      assert s[0] != ' ';
      assert forall c :: c in s[1..] ==> c in s;
      SplitAtFirstSpaceNone(s[1..]);
    }
  }

  /** The text before the first space is shorter than the segment, and it is empty when there is no space. */
  lemma {:induction false} StageShorter(clean: string)
    ensures StageAndApp(clean)[0] == "" || |StageAndApp(clean)[0]| < |clean|
    ensures ' ' !in clean ==> StageAndApp(clean)[0] == ""
  {
    SplitAtFirstSpaceShorter(clean);
    if ' ' !in clean {
      SplitAtFirstSpaceNone(clean);
    }
  }

  lemma {:induction false} SplitAtFirstSpaceShorter(s: string)
    ensures SplitAtFirstSpace(s).Some? ==> |SplitAtFirstSpace(s).value.0| < |s|
  {
    if |s| > 0 && s[0] != ' ' {
      SplitAtFirstSpaceShorter(s[1..]);
    }
  }

  /** The `indexOf`/`substr` chain cuts a cleaned segment exactly as the reference definition does. */
  lemma SubstrCutIsFirstSpaceCut(clean: string)
    ensures [Substr(clean, 0, IndexOf(clean, " ")), SubstrFrom(clean, IndexOf(clean, " ") + 1)] == StageAndApp(clean)
  {
    var k := IndexOf(clean, " ");
    if k < 0 {
      OccursChar(clean, ' ');
      SplitAtFirstSpaceNone(clean);
    } else {
      OccursAtChar(clean, ' ', k);
      forall j | 0 <= j < k
        ensures clean[j] != ' '
      {
        OccursAtChar(clean, ' ', j);
      }
      SplitAtFirstSpaceAt(clean, k);
    }
  }

  /** The first two pieces of `split("~")` on `id + "~" + segment + tail`. */
  lemma SplitTildeFirstTwo(id: string, segment: string, tail: string)
    requires '~' !in id && '~' !in segment
    requires tail == [] || tail[0] == '~'
    ensures |Split(id + "~" + segment + tail, "~")| >= 2
    ensures Split(id + "~" + segment + tail, "~")[0] == id
    ensures Split(id + "~" + segment + tail, "~")[1] == segment
  {
    var full := id + "~" + segment + tail;
    var after := Split(segment + tail, "~");
    assert Split(full, "~") == [id] + after by {
      assert full == id + ['~'] + (segment + tail);
      SplitAtFirstChar(id, '~', segment + tail);
    }
    assert after[0] == segment by {
      if tail == [] {
        assert segment + tail == segment;
        SplitWithoutChar(segment, '~');
      } else {
        assert segment + tail == segment + ['~'] + tail[1..];
        SplitAtFirstChar(segment, '~', tail[1..]);
      }
    }
  }

  /**
   * What `splitFullName` reads: the first field is the text before the first
   * `~`; stage and application name come only from the segment between the
   * first and the second `~`, after its first ".json" is dropped; whatever
   * follows a second `~` is discarded; the fourth field is the input.
   */
  lemma SplitFullNameFields(id: string, segment: string, tail: string)
    requires '~' !in id && '~' !in segment
    requires tail == [] || tail[0] == '~'
    ensures SplitFullName(id + "~" + segment + tail)
         == Success([id] + StageAndApp(ReplaceFirst(segment, ".json", "")) + [id + "~" + segment + tail])
  {
    SplitTildeFirstTwo(id, segment, tail);
  }

  /** `SplitFullNameFields` for a name with a single `~`. */
  lemma SplitFullNameOneTilde(id: string, segment: string)
    requires '~' !in id && '~' !in segment
    ensures SplitFullName(id + "~" + segment)
         == Success([id] + StageAndApp(ReplaceFirst(segment, ".json", "")) + [id + "~" + segment])
  {
    SplitFullNameFields(id, segment, []);
    assert id + "~" + segment + [] == id + "~" + segment;
  }

  /** An occurrence inside a window of `s` that equals `sub` is an occurrence in `sub`. */
  lemma OccursInside(s: string, sub: string, off: nat, pat: string, j: int)
    requires off + |sub| <= |s| && s[off..off + |sub|] == sub
    requires OccursAt(s, pat, j) && off <= j && j + |pat| <= off + |sub|
    ensures Occurs(sub, pat)
  {
    assert forall k :: 0 <= k < |sub| ==> sub[k] == s[off + k];
    assert sub[j - off..j - off + |pat|] == s[j..j + |pat|];
    assert OccursAt(sub, pat, j - off);
  }

  /** ".json" cannot straddle a space: it has none. */
  lemma {:induction false} NoJsonAcrossSpace(a: string, b: string)
    requires !Occurs(a, ".json") && !Occurs(b, ".json")
    ensures !Occurs(a + " " + b, ".json")
  {
    var s := a + " " + b;
    forall j | OccursAt(s, ".json", j)
      ensures false
    {
      if j + 5 <= |a| {
        OccursInside(s, a, 0, ".json", j);
      } else if j > |a| {
        assert s[|a| + 1..] == b;
        OccursInside(s, b, |a| + 1, ".json", j);
      } else {
        CharOfOccurrence(s, ".json", j, |a|);
        assert false;
      }
    }
  }

  /** In `x + ".json"` the first ".json" is the appended one when `x` has none. */
  lemma {:induction false} FirstJsonIsSuffix(x: string)
    requires !Occurs(x, ".json")
    ensures IndexOf(x + ".json", ".json") == |x|
  {
    var s := x + ".json";
    assert s[|x|..|x| + 5] == ".json";
    assert OccursAt(s, ".json", |x|);
    forall j | 0 <= j < |x|
      ensures !OccursAt(s, ".json", j)
    {
      if OccursAt(s, ".json", j) {
        if j + 5 <= |x| {
          OccursInside(s, x, 0, ".json", j);
        } else {
          CharOfOccurrence(s, ".json", j, |x|);
          assert false;
        }
      }
    }
  }

  /** Dropping the first ".json" of `named + ".json"` leaves `named` when it has none of its own. */
  lemma DropJsonSuffix(named: string)
    requires !Occurs(named, ".json")
    ensures ReplaceFirst(named + ".json", ".json", "") == named
  {
    FirstJsonIsSuffix(named);
    var s := named + ".json";
    assert s[..|named|] == named;
    assert s[|named| + 5..] == [];
  }

  /** A stage without a space is cut off at the space that follows it. */
  lemma StageAndAppAtSpace(stage: string, app: string)
    requires ' ' !in stage
    ensures StageAndApp(stage + " " + app) == [stage, app]
  {
    var named := stage + " " + app;
    assert named[|stage|] == ' ';
    assert forall j :: 0 <= j < |stage| ==> named[j] == stage[j];
    SplitAtFirstSpaceAt(named, |stage|);
    assert named[..|stage|] == stage;
    assert named[|stage| + 1..] == app;
  }

  /**
   * Round trip of the format the doc comment shows: for an id without `~`, a
   * stage without space, `~` or ".json", and an application name without `~`
   * or ".json", "id~STAGE APP.json" parses back into its parts.
   */
  lemma RoundTrip(id: string, stage: string, app: string)
    requires '~' !in id && '~' !in stage && '~' !in app
    requires ' ' !in stage
    requires !Occurs(stage, ".json") && !Occurs(app, ".json")
    ensures SplitFullName(id + "~" + stage + " " + app + ".json")
         == Success([id, stage, app, id + "~" + stage + " " + app + ".json"])
  {
    var named := stage + " " + app;
    var segment := named + ".json";
    var full := id + "~" + segment;
    var fields := StageAndApp(ReplaceFirst(segment, ".json", ""));
    assert fields == [stage, app] by {
      NoJsonAcrossSpace(stage, app);
      DropJsonSuffix(named);
      StageAndAppAtSpace(stage, app);
    }
    assert SplitFullName(full) == Success([id] + fields + [full]) by {
      assert '~' !in segment;
      SplitFullNameOneTilde(id, segment);
    }
    Regroup(id, fields, full);
    RegroupName(id, stage, app);
  }

  /** `[a] + pair + [d]` is the four-element list. */
  lemma Regroup<T>(a: T, pair: seq<T>, d: T)
    requires |pair| == 2
    ensures [a] + pair + [d] == [a, pair[0], pair[1], d]
  {
  }

  lemma RegroupName(id: string, stage: string, app: string)
    ensures id + "~" + (stage + " " + app + ".json") == id + "~" + stage + " " + app + ".json"
  {
  }

  /** The case in src/util.spec.ts. */
  lemma TestFileCase()
    ensures SplitFullName("{8fbe1e67-8a41-4719-8d33-cced6d1860ec}~PRODUCTION Client Portal.json")
         == Success(["{8fbe1e67-8a41-4719-8d33-cced6d1860ec}", "PRODUCTION", "Client Portal",
                     "{8fbe1e67-8a41-4719-8d33-cced6d1860ec}~PRODUCTION Client Portal.json"])
  {
    var id := "{8fbe1e67-8a41-4719-8d33-cced6d1860ec}";
    TestFileCaseParts(id, "PRODUCTION", "Client Portal");
    RoundTrip(id, "PRODUCTION", "Client Portal");
    TestFileCaseName();
  }

  /** The parts of the case in src/util.spec.ts meet the conditions of `RoundTrip`. */
  lemma TestFileCaseParts(id: string, stage: string, app: string)
    requires id == "{8fbe1e67-8a41-4719-8d33-cced6d1860ec}" && stage == "PRODUCTION" && app == "Client Portal"
    ensures '~' !in id && '~' !in stage && '~' !in app && ' ' !in stage
    ensures !Occurs(stage, ".json") && !Occurs(app, ".json")
  {
    forall j | OccursAt(stage, ".json", j) ensures false {
      CharOfOccurrence(stage, ".json", j, j);
    }
    forall j | OccursAt(app, ".json", j) ensures false {
      CharOfOccurrence(app, ".json", j, j);
    }
  }

  lemma TestFileCaseName()
    ensures "{8fbe1e67-8a41-4719-8d33-cced6d1860ec}" + "~" + "PRODUCTION" + " " + "Client Portal" + ".json"
         == "{8fbe1e67-8a41-4719-8d33-cced6d1860ec}~PRODUCTION Client Portal.json"
  {
  }
}
