/**
 * `App.getAllRepositories` and `App.filterRepositories` (src/app.ts): scan
 * pages of the workspace's repositories for the names of a worklist. The
 * scan appends every repository whose name is still wanted to `found` and
 * splices `projects` at the repository's index on the page, then asks for
 * the next page while names remain and the page has a `next` link.
 */
module App {
  import opened Wrappers

  /** The fields of a listed repository that the model uses. */
  datatype Repository = Repository(name: string, uuid: string, slug: string)

  /** A response of `getRepositories`: its `values` (`None` when absent) and whether it has a `next` link. */
  datatype Page = Page(values: Option<seq<Repository>>, hasNext: bool)

  /** The two arrays `filterRepositories` mutates: the names still wanted and the repositories found. */
  datatype Worklist = Worklist(projects: seq<string>, found: seq<Repository>)

  /**
   * How the promise of `filterRepositories` settles: with `found`, with
   * `undefined` (names remain), or rejected (a page without `values`).
   */
  datatype Outcome = Returned(repos: seq<Repository>) | Undefined | Threw

  /** `projects.splice(i, 1)` on the array: removes index `i` when there is one. */
  function Splice(projects: seq<string>, i: nat): (r: seq<string>)
    ensures i < |projects| ==> |r| == |projects| - 1 && multiset(r) == multiset(projects) - multiset{projects[i]}
    ensures i < |projects| ==> r[..i] == projects[..i] && r[i..] == projects[i + 1..]
    ensures i >= |projects| ==> r == projects
  {
    if i < |projects| then
      assert projects == projects[..i] + [projects[i]] + projects[i + 1..];
      projects[..i] + projects[i + 1..]
    else projects
  }

  /** One iteration of the `for` loop at :55-63, on the repository at page index `i`. */
  function ScanStep(ws: Worklist, repo: Repository, i: nat): Worklist
  {
    if repo.name in ws.projects then Worklist(Splice(ws.projects, i), ws.found + [repo]) else ws
  }

  /** The loop after its first `n` iterations over `page`. */
  function ScanPrefix(page: seq<Repository>, n: nat, ws: Worklist): Worklist
    requires n <= |page|
  {
    if n == 0 then ws else ScanStep(ScanPrefix(page, n - 1, ws), page[n - 1], n - 1)
  }

  /**
   * `filterRepositories(result, projects, found)`: `later` lists the
   * responses to the successive next-page requests; asking beyond them gets
   * `undefined`. Returns how the call settles and the final worklist.
   */
  function FilterPages(result: Page, later: seq<Page>, ws: Worklist): (Outcome, Worklist)
    decreases |later|
  {
    match result.values
    case None => (Threw, ws)
    case Some(values) =>
      var after := ScanPrefix(values, |values|, ws);
      if |after.projects| > 0 && result.hasNext && |later| > 0 then FilterPages(later[0], later[1..], after)
      else (if |after.projects| == 0 then Returned(after.found) else Undefined, after)
  }

  /**
   * Over a scan, `found` only grows by appending, by at most one repository
   * per iteration; `projects` loses at most one name per repository appended
   * and never gains one.
   */
  lemma {:induction false} ScanGrows(page: seq<Repository>, n: nat, m: nat, ws: Worklist)
    requires n <= m <= |page|
    ensures var a, b := ScanPrefix(page, n, ws), ScanPrefix(page, m, ws);
      |a.found| <= |b.found| <= |a.found| + (m - n) && b.found[..|a.found|] == a.found &&
      multiset(b.projects) <= multiset(a.projects) &&
      |a.projects| - |b.projects| <= |b.found| - |a.found|
    decreases m - n
  {
    if n < m {
      ScanGrows(page, n, m - 1, ws);
      var a, c := ScanPrefix(page, n, ws), ScanPrefix(page, m - 1, ws);
      var b := ScanPrefix(page, m, ws);
      assert b == ScanStep(c, page[m - 1], m - 1);
      if page[m - 1].name in c.projects {
        assert b.found[..|c.found|] == c.found;
        assert b.found[..|a.found|] == c.found[..|a.found|];
      }
    }
  }

  /** Every repository a scan appends carries a name the worklist held when the scan began. */
  lemma {:induction false} ScanFindsOnlyWanted(page: seq<Repository>, n: nat, ws: Worklist)
    requires n <= |page|
    ensures var b := ScanPrefix(page, n, ws);
      |ws.found| <= |b.found| && multiset(b.projects) <= multiset(ws.projects) &&
      forall k :: |ws.found| <= k < |b.found| ==> b.found[k].name in ws.projects
  {
    if n > 0 {
      ScanFindsOnlyWanted(page, n - 1, ws);
      var c := ScanPrefix(page, n - 1, ws);
      var repo := page[n - 1];
      assert ScanStep(c, repo, n - 1) == ScanPrefix(page, n, ws);
      if repo.name in c.projects {
        WantedStaysWanted(c.projects, ws.projects, repo.name);
        var b := ScanStep(c, repo, n - 1);
        ScanStepMatch(c, repo, n - 1);
        forall k | |ws.found| <= k < |b.found|
          ensures b.found[k].name in ws.projects
        {
          if k < |c.found| {
            assert b.found[k] == c.found[k];
          }
        }
      }
    }
  }

  /** An iteration on a wanted name appends the repository and never adds a wanted name. */
  lemma ScanStepMatch(c: Worklist, repo: Repository, i: nat)
    requires repo.name in c.projects
    ensures var b := ScanStep(c, repo, i);
      b.found == c.found + [repo] && multiset(b.projects) <= multiset(c.projects)
  {
  }

  /** A name of a sub-multiset is a name of the larger one. */
  lemma WantedStaysWanted(now: seq<string>, start: seq<string>, x: string)
    requires multiset(now) <= multiset(start) && x in now
    ensures x in start
  {
    assert multiset(now)[x] > 0;
  }

  /** A page none of whose repositories is wanted changes neither list. */
  lemma {:induction false} ScanWithoutMatches(page: seq<Repository>, n: nat, ws: Worklist)
    requires n <= |page|
    requires forall j :: 0 <= j < n ==> page[j].name !in ws.projects
    ensures ScanPrefix(page, n, ws) == ws
  {
    if n > 0 {
      ScanWithoutMatches(page, n - 1, ws);
    }
  }

  /**
   * How `filterRepositories` settles: with `found` only when `projects` ended
   * empty, with `undefined` when names remain (the partial matches are
   * dropped); `found` keeps its earlier entries, `projects` never grows, and
   * every repository added has a name the worklist held.
   */
  lemma {:induction false} FilterSettles(result: Page, later: seq<Page>, ws: Worklist)
    ensures var (o, after) := FilterPages(result, later, ws);
      (o.Returned? ==> after.projects == [] && o.repos == after.found) &&
      (o.Undefined? ==> |after.projects| > 0) &&
      |ws.found| <= |after.found| && after.found[..|ws.found|] == ws.found &&
      multiset(after.projects) <= multiset(ws.projects) &&
      forall k :: |ws.found| <= k < |after.found| ==> after.found[k].name in ws.projects
    decreases |later|
  {
    if result.values.Some? {
      var values := result.values.value;
      var mid := ScanPrefix(values, |values|, ws);
      ScanGrows(values, 0, |values|, ws);
      ScanFindsOnlyWanted(values, |values|, ws);
      if |mid.projects| > 0 && result.hasNext && |later| > 0 {
        FilterSettles(later[0], later[1..], mid);
        var after := FilterPages(later[0], later[1..], mid).1;
        assert FilterPages(result, later, ws) == FilterPages(later[0], later[1..], mid);
        assert after.found[..|ws.found|] == after.found[..|mid.found|][..|ws.found|];
        forall k | |ws.found| <= k < |after.found|
          ensures after.found[k].name in ws.projects
        {
          if k < |mid.found| {
            assert after.found[k] == mid.found[k];
          } else {
            assert multiset(mid.projects)[after.found[k].name] > 0;
          }
        }
      }
    }
  }

  /**
   * Another page is requested only when names remain after the scan and the
   * page has a `next` link: otherwise the later responses do not matter.
   */
  lemma NoRequestWhenDone(result: Page, later: seq<Page>, ws: Worklist)
    requires result.values.Some?
    requires ScanPrefix(result.values.value, |result.values.value|, ws).projects == [] || !result.hasNext
    ensures FilterPages(result, later, ws) == FilterPages(result, [], ws)
  {
  }

  /** The repositories of a sequence of responses, page after page; a response without `values` lists none. */
  function Listed(pages: seq<Page>): seq<Repository>
  {
    if |pages| == 0 then []
    else (if pages[0].values.Some? then pages[0].values.value else []) + Listed(pages[1..])
  }

  /** From index `from` on, no two repositories share a name. */
  ghost predicate DistinctFrom(repos: seq<Repository>, from: nat)
  {
    forall i, j :: from <= i < j < |repos| ==> repos[i].name != repos[j].name
  }

  /**
   * When the names on a page are distinct and none of them is among the
   * names found since `from`, the scan keeps the names found since `from`
   * distinct and drawn from `wanted`; what it appends comes from the page.
   */
  lemma {:induction false} ScanFindsDistinct(page: seq<Repository>, n: nat, ws: Worklist, from: nat, wanted: set<string>)
    requires n <= |page| && from <= |ws.found|
    requires DistinctFrom(page, 0) && DistinctFrom(ws.found, from)
    requires forall k :: from <= k < |ws.found| ==> ws.found[k].name in wanted
    requires forall k, j :: from <= k < |ws.found| && 0 <= j < |page| ==> ws.found[k].name != page[j].name
    requires forall x :: x in ws.projects ==> x in wanted
    ensures var b := ScanPrefix(page, n, ws);
      DistinctFrom(b.found, from) && forall k :: from <= k < |b.found| ==> b.found[k].name in wanted
    ensures var b := ScanPrefix(page, n, ws);
      |ws.found| <= |b.found| && forall k :: |ws.found| <= k < |b.found| ==> b.found[k] in page[..n]
  {
    ScanAppendsFromPage(page, n, ws);
    if n > 0 {
      ScanFindsDistinct(page, n - 1, ws, from, wanted);
      StepPremises(page, n, ws, from, wanted);
      var c := ScanPrefix(page, n - 1, ws);
      assert ScanStep(c, page[n - 1], n - 1) == ScanPrefix(page, n, ws);
      DistinctStep(c, page[n - 1], n - 1, from, wanted);
    }
  }

  /**
   * Before the iteration on page index `n - 1`, that repository's name is
   * not among the names found since `from`, and it is wanted if it is still
   * searched for.
   */
  lemma StepPremises(page: seq<Repository>, n: nat, ws: Worklist, from: nat, wanted: set<string>)
    requires 0 < n <= |page| && from <= |ws.found|
    requires DistinctFrom(page, 0)
    requires forall k, j :: from <= k < |ws.found| && 0 <= j < |page| ==> ws.found[k].name != page[j].name
    requires forall x :: x in ws.projects ==> x in wanted
    ensures var c := ScanPrefix(page, n - 1, ws);
      from <= |c.found| &&
      (forall k :: from <= k < |c.found| ==> c.found[k].name != page[n - 1].name) &&
      (page[n - 1].name in c.projects ==> page[n - 1].name in wanted)
  {
    var c := ScanPrefix(page, n - 1, ws);
    ScanGrows(page, 0, n - 1, ws);
    ScanAppendsFromPage(page, n - 1, ws);
    NewNameDiffers(page, n, ws, c, from);
    if page[n - 1].name in c.projects {
      WantedStaysWanted(c.projects, ws.projects, page[n - 1].name);
    }
  }

  /** What a scan appends are repositories of the part of the page it has gone through. */
  lemma {:induction false} ScanAppendsFromPage(page: seq<Repository>, n: nat, ws: Worklist)
    requires n <= |page|
    ensures var b := ScanPrefix(page, n, ws);
      |ws.found| <= |b.found| && forall k :: |ws.found| <= k < |b.found| ==> b.found[k] in page[..n]
  {
    if n > 0 {
      ScanAppendsFromPage(page, n - 1, ws);
      AppendedFromPage(page, n, ws, ScanPrefix(page, n - 1, ws));
    }
  }

  /** The repository at page index `n - 1` has a name none of the repositories found since `from` has. */
  lemma NewNameDiffers(page: seq<Repository>, n: nat, ws: Worklist, c: Worklist, from: nat)
    requires 0 < n <= |page| && from <= |ws.found| <= |c.found| && c.found[..|ws.found|] == ws.found
    requires DistinctFrom(page, 0)
    requires forall k, j :: from <= k < |ws.found| && 0 <= j < |page| ==> ws.found[k].name != page[j].name
    requires forall k :: |ws.found| <= k < |c.found| ==> c.found[k] in page[..n - 1]
    ensures forall k :: from <= k < |c.found| ==> c.found[k].name != page[n - 1].name
  {
    forall k | from <= k < |c.found|
      ensures c.found[k].name != page[n - 1].name
    {
      if k < |ws.found| {
        assert c.found[k] == c.found[..|ws.found|][k];
      } else {
        var j :| 0 <= j < n - 1 && page[..n - 1][j] == c.found[k];
        assert page[j] == c.found[k];
      }
    }
  }

  /** An iteration keeps the names found since `from` distinct and wanted when the repository's name is new. */
  lemma DistinctStep(c: Worklist, repo: Repository, i: nat, from: nat, wanted: set<string>)
    requires from <= |c.found| && DistinctFrom(c.found, from)
    requires forall k :: from <= k < |c.found| ==> c.found[k].name in wanted && c.found[k].name != repo.name
    requires repo.name in c.projects ==> repo.name in wanted
    ensures var b := ScanStep(c, repo, i);
      DistinctFrom(b.found, from) && forall k :: from <= k < |b.found| ==> b.found[k].name in wanted
  {
  }

  /** What an iteration on page index `n - 1` appends is a repository of `page[..n]`. */
  lemma AppendedFromPage(page: seq<Repository>, n: nat, ws: Worklist, c: Worklist)
    requires 0 < n <= |page| && |ws.found| <= |c.found|
    requires forall k :: |ws.found| <= k < |c.found| ==> c.found[k] in page[..n - 1]
    ensures var b := ScanStep(c, page[n - 1], n - 1);
      |c.found| <= |b.found| && forall k :: |ws.found| <= k < |b.found| ==> b.found[k] in page[..n]
  {
    assert page[..n] == page[..n - 1] + [page[n - 1]];
  }

  /** The repositories of the responses from the second on follow those of the first. */
  lemma ListedUnfold(result: Page, later: seq<Page>)
    requires result.values.Some?
    ensures Listed([result] + later) == result.values.value + Listed(later)
  {
    assert ([result] + later)[1..] == later;
  }

  /**
   * When no repository name is listed twice over all the responses and no
   * name found since `from` is listed, the search keeps the names found
   * since `from` distinct and drawn from `wanted`.
   */
  lemma {:induction false} FilterFindsDistinct(result: Page, later: seq<Page>, ws: Worklist, from: nat, wanted: set<string>)
    requires from <= |ws.found|
    requires DistinctFrom(Listed([result] + later), 0) && DistinctFrom(ws.found, from)
    requires forall k :: from <= k < |ws.found| ==> ws.found[k].name in wanted
    requires forall k, j :: from <= k < |ws.found| && 0 <= j < |Listed([result] + later)| ==>
      ws.found[k].name != Listed([result] + later)[j].name
    requires forall x :: x in ws.projects ==> x in wanted
    ensures var after := FilterPages(result, later, ws).1;
      from <= |after.found| && DistinctFrom(after.found, from) && forall k :: from <= k < |after.found| ==> after.found[k].name in wanted
    decreases |later|
  {
    if result.values.Some? {
      var values := result.values.value;
      var all := Listed([result] + later);
      ListedUnfold(result, later);
      assert forall j :: 0 <= j < |values| ==> values[j] == all[j];
      ScanFindsDistinct(values, |values|, ws, from, wanted);
      ScanAppendsFromPage(values, |values|, ws);
      ScanGrows(values, 0, |values|, ws);
      var mid := ScanPrefix(values, |values|, ws);
      if |mid.projects| > 0 && result.hasNext && |later| > 0 {
        var rest := Listed(later);
        assert [later[0]] + later[1..] == later;
        assert forall j :: 0 <= j < |rest| ==> rest[j] == all[|values| + j];
        ScanGrows(values, 0, |values|, ws);
        forall x | x in mid.projects
          ensures x in wanted
        {
          WantedStaysWanted(mid.projects, ws.projects, x);
        }
        forall k, j | from <= k < |mid.found| && 0 <= j < |rest|
          ensures mid.found[k].name != rest[j].name
        {
          if k < |ws.found| {
            assert mid.found[k] == mid.found[..|ws.found|][k];
          } else {
            var i :| 0 <= i < |values| && values[..|values|][i] == mid.found[k];
            assert all[i] == mid.found[k];
          }
        }
        FilterFindsDistinct(later[0], later[1..], mid, from, wanted);
      }
    }
  }

  /** A list of repositories with distinct names drawn from `wanted` is no longer than `wanted` is large. */
  lemma {:induction false} DistinctWithin(repos: seq<Repository>, from: nat, wanted: set<string>)
    requires from <= |repos| && DistinctFrom(repos, from)
    requires forall k :: from <= k < |repos| ==> repos[k].name in wanted
    ensures |repos| - from <= |wanted|
    decreases |repos| - from
  {
    if from < |repos| {
      var x := repos[from].name;
      DistinctWithin(repos, from + 1, wanted - {x});
    }
  }

  /** A list has at most as many distinct elements as entries. */
  lemma {:induction false} ElementsAtMost(names: seq<string>)
    ensures |set x | x in names| <= |names|
  {
    if names != [] {
      ElementsAtMost(names[1..]);
      assert (set x | x in names) == {names[0]} + (set x | x in names[1..]);
    }
  }

  /**
   * When no repository name is listed twice over the responses, the search
   * adds at most as many repositories as names are wanted: a call from
   * `getAllRepositories` settles with at most `|projects|` repositories.
   */
  lemma SearchFindsAtMostWanted(result: Page, later: seq<Page>, ws: Worklist)
    requires DistinctFrom(Listed([result] + later), 0)
    ensures var (o, after) := FilterPages(result, later, ws);
      |after.found| <= |ws.found| + |ws.projects| &&
      (o.Returned? ==> |o.repos| <= |ws.found| + |ws.projects|)
  {
    var wanted := set x | x in ws.projects;
    FilterFindsDistinct(result, later, ws, |ws.found|, wanted);
    FilterSettles(result, later, ws);
    DistinctWithin(FilterPages(result, later, ws).1.found, |ws.found|, wanted);
    ElementsAtMost(ws.projects);
  }

  /**
   * The method form of `filterRepositories`: the `for` loop over the page,
   * then the tail call on the next page, as a loop over the responses.
   */
  method FilterRepositories(result: Page, later: seq<Page>, projects: seq<string>, found: seq<Repository>)
    returns (outcome: Outcome, projectsAfter: seq<string>, foundAfter: seq<Repository>)
    ensures (outcome, Worklist(projectsAfter, foundAfter)) == FilterPages(result, later, Worklist(projects, found))
    ensures outcome.Returned? ==> projectsAfter == [] && outcome.repos == foundAfter
    ensures outcome.Undefined? ==> |projectsAfter| > 0
    ensures |found| <= |foundAfter| && foundAfter[..|found|] == found
    ensures multiset(projectsAfter) <= multiset(projects)
    ensures forall k :: |found| <= k < |foundAfter| ==> foundAfter[k].name in projects
  {
    FilterSettles(result, later, Worklist(projects, found));
    var current := result;
    var next := 0;
    projectsAfter, foundAfter := projects, found;
    while true
      invariant 0 <= next <= |later|
      invariant FilterPages(current, later[next..], Worklist(projectsAfter, foundAfter))
             == FilterPages(result, later, Worklist(projects, found))
      decreases |later| - next
    {
      if current.values.None? {
        outcome := Threw;
        return;
      }
      var values := current.values.value;
      ghost var start := Worklist(projectsAfter, foundAfter);
      var i := 0;
      while i < |values|
        invariant 0 <= i <= |values|
        invariant Worklist(projectsAfter, foundAfter) == ScanPrefix(values, i, start)
      {
        var repo := values[i];
        if repo.name in projectsAfter {
          foundAfter := foundAfter + [repo];
          projectsAfter := Splice(projectsAfter, i);
        }
        i := i + 1;
      }
      if |projectsAfter| > 0 && current.hasNext && next < |later| {
        assert later[next..][0] == later[next] && later[next..][1..] == later[next + 1..];
        current := later[next];
        next := next + 1;
      } else {
        outcome := if |projectsAfter| == 0 then Returned(foundAfter) else Undefined;
        return;
      }
    }
  }

  /**
   * `getAllRepositories`: `first` is the response for the first page (`None`
   * when undefined). Without `values` the result is `[]`; otherwise the
   * outcome of `filterRepositories` with `found` starting empty.
   */
  method GetAllRepositories(first: Option<Page>, later: seq<Page>, projects: seq<string>)
    returns (outcome: Outcome, projectsAfter: seq<string>)
    ensures first.None? || first.value.values.None? ==> outcome == Returned([]) && projectsAfter == projects
    ensures first.Some? && first.value.values.Some? ==>
      (outcome, projectsAfter) == (FilterPages(first.value, later, Worklist(projects, [])).0,
                                   FilterPages(first.value, later, Worklist(projects, [])).1.projects)
    ensures outcome.Returned? ==> forall r :: r in outcome.repos ==> r.name in projects
    ensures first.Some? && DistinctFrom(Listed([first.value] + later), 0) && outcome.Returned? ==>
      |outcome.repos| <= |projects|
  {
    if first.Some? && first.value.values.Some? {
      if DistinctFrom(Listed([first.value] + later), 0) {
        SearchFindsAtMostWanted(first.value, later, Worklist(projects, []));
      }
      var foundAfter;
      outcome, projectsAfter, foundAfter := FilterRepositories(first.value, later, projects, []);
    } else {
      outcome, projectsAfter := Returned([]), projects;
    }
  }

  /** Two repositories listed in the opposite order to the worklist's names. */
  const RepoA := Repository("A", "{a}", "a")
  const RepoB := Repository("B", "{b}", "b")
  const RepoX := Repository("X", "{x}", "x")

  /**
   * As written, the scan splices `projects` at the repository's index on the
   * page, not at the index of its name: with `projects` = ["A", "B"] and one
   * page [B, A], B is found but "A" is removed, A is then no longer wanted,
   * and the call settles with `undefined` although both were listed.
   */
  lemma SpliceByPageIndex()
    ensures FilterPages(Page(Some([RepoB, RepoA]), false), [], Worklist(["A", "B"], []))
         == (Undefined, Worklist(["B"], [RepoB]))
  {
    var ws := Worklist(["A", "B"], []);
    var page := [RepoB, RepoA];
    assert ScanPrefix(page, 1, ws) == Worklist(["B"], [RepoB]) by {
      assert ScanPrefix(page, 0, ws) == ws;
      assert "B" in ws.projects by { assert ws.projects[1] == "B"; }
      assert ws.projects[..0] + ws.projects[1..] == ["B"];
    }
    assert "A" !in ["B"];
    assert ScanPrefix(page, 2, ws) == ScanStep(Worklist(["B"], [RepoB]), RepoA, 1);
  }

  /**
   * As written, a repository listed again at a page index past the end of
   * `projects` is appended again, since that `splice` removes nothing: with
   * `projects` = ["A"], the page [X, A, A] with a `next` link and then the
   * page [A], the search settles with A three times for one wanted name.
   */
  lemma RepeatedNameFoundAgain()
    ensures FilterPages(Page(Some([RepoX, RepoA, RepoA]), true), [Page(Some([RepoA]), false)], Worklist(["A"], [])).0
         == Returned([RepoA, RepoA, RepoA])
  {
    var ws := Worklist(["A"], []);
    var page := [RepoX, RepoA, RepoA];
    assert "A" in ws.projects by { assert ws.projects[0] == "A"; }
    assert ScanPrefix(page, 1, ws) == ws;
    assert ScanPrefix(page, 2, ws) == Worklist(["A"], [RepoA]);
    assert ScanPrefix(page, 3, ws) == Worklist(["A"], [RepoA, RepoA]);
    var mid := Worklist(["A"], [RepoA, RepoA]);
    assert ScanPrefix([RepoA], 1, mid) == Worklist([], [RepoA, RepoA, RepoA]) by {
      assert ["A"][..0] + ["A"][1..] == [];
    }
  }

  /** `projects` without the first occurrence of `name`: what splicing at `projects.indexOf(name)` does. */
  function RemoveName(projects: seq<string>, name: string): (r: seq<string>)
    requires name in projects
    ensures multiset(r) == multiset(projects) - multiset{name}
    ensures |r| == |projects| - 1
  {
    assert projects == [projects[0]] + projects[1..];
    if projects[0] == name then projects[1..] else [projects[0]] + RemoveName(projects[1..], name)
  }

  /** The names of a list of repositories, in order. */
  function Names(repos: seq<Repository>): (r: seq<string>)
    ensures |r| == |repos| && forall k :: 0 <= k < |repos| ==> r[k] == repos[k].name
  {
    seq(|repos|, k requires 0 <= k < |repos| => repos[k].name)
  }

  /** The loop iteration as intended: a matched name leaves the worklist. */
  function ScanStepIntended(ws: Worklist, repo: Repository): Worklist
  {
    if repo.name in ws.projects then Worklist(RemoveName(ws.projects, repo.name), ws.found + [repo]) else ws
  }

  /** The intended loop after its first `n` iterations over `page`. */
  function ScanIntended(page: seq<Repository>, n: nat, ws: Worklist): Worklist
    requires n <= |page|
  {
    if n == 0 then ws else ScanStepIntended(ScanIntended(page, n - 1, ws), page[n - 1])
  }

  /**
   * The intended scan moves names, it never loses one: the names still
   * wanted and the names of the repositories appended together are the
   * names wanted at the start.
   */
  lemma {:induction false} IntendedScanConserves(page: seq<Repository>, n: nat, ws: Worklist)
    requires n <= |page|
    ensures var b := ScanIntended(page, n, ws);
      |ws.found| <= |b.found| && b.found[..|ws.found|] == ws.found &&
      multiset(b.projects) + multiset(Names(b.found[|ws.found|..])) == multiset(ws.projects)
  {
    if n == 0 {
      assert Names(ws.found[|ws.found|..]) == [];
    } else {
      IntendedScanConserves(page, n - 1, ws);
      var c := ScanIntended(page, n - 1, ws);
      var repo := page[n - 1];
      assert ScanStepIntended(c, repo) == ScanIntended(page, n, ws);
      IntendedStepConserves(c, repo, |ws.found|);
    }
  }

  /** One intended iteration moves at most one name from the wanted names to the found names. */
  lemma IntendedStepConserves(c: Worklist, repo: Repository, from: nat)
    requires from <= |c.found|
    ensures var b := ScanStepIntended(c, repo);
      from <= |b.found| && b.found[..from] == c.found[..from] &&
      multiset(b.projects) + multiset(Names(b.found[from..])) == multiset(c.projects) + multiset(Names(c.found[from..]))
  {
    if repo.name in c.projects {
      AppendedNames(c.found, c.found[..from], repo);
      var b := ScanStepIntended(c, repo);
      assert b.found[..from] == c.found[..from];
    }
  }

  /** Appending a repository after `prefix` appends its name to the names past `prefix`. */
  lemma AppendedNames(found: seq<Repository>, prefix: seq<Repository>, repo: Repository)
    requires |prefix| <= |found|
    ensures Names((found + [repo])[|prefix|..]) == Names(found[|prefix|..]) + [repo.name]
    ensures multiset(Names((found + [repo])[|prefix|..])) == multiset(Names(found[|prefix|..])) + multiset{repo.name}
  {
    assert (found + [repo])[|prefix|..] == found[|prefix|..] + [repo];
  }

  /** Every repository on the page whose name was wanted has its name matched by the intended scan. */
  lemma {:induction false} IntendedScanFindsEveryWanted(page: seq<Repository>, n: nat, ws: Worklist)
    requires n <= |page|
    ensures var b := ScanIntended(page, n, ws);
      |ws.found| <= |b.found| &&
      forall j :: 0 <= j < n && page[j].name in ws.projects ==> page[j].name in Names(b.found[|ws.found|..])
  {
    IntendedScanConserves(page, n, ws);
    if n > 0 {
      IntendedScanFindsEveryWanted(page, n - 1, ws);
      IntendedScanConserves(page, n - 1, ws);
      var c := ScanIntended(page, n - 1, ws);
      var repo := page[n - 1];
      var b := ScanStepIntended(c, repo);
      assert b == ScanIntended(page, n, ws);
      var cNames, bNames := Names(c.found[|ws.found|..]), Names(b.found[|ws.found|..]);
      IntendedStepKeepsNames(c, repo, |ws.found|);
      forall j | 0 <= j < n && page[j].name in ws.projects
        ensures page[j].name in bNames
      {
        if j < n - 1 {
          assert page[j].name in cNames;
        } else if repo.name !in c.projects {
          NameMovedOut(c.projects, cNames, ws.projects, repo.name);
        }
      }
    }
  }

  /** One intended iteration keeps the names found so far and adds the repository's name when it was wanted. */
  lemma IntendedStepKeepsNames(c: Worklist, repo: Repository, from: nat)
    requires from <= |c.found|
    ensures var b := ScanStepIntended(c, repo);
      from <= |b.found| &&
      (forall y :: y in Names(c.found[from..]) ==> y in Names(b.found[from..])) &&
      (repo.name in c.projects ==> repo.name in Names(b.found[from..]))
  {
    if repo.name in c.projects {
      AppendedNames(c.found, c.found[..from], repo);
    }
  }

  /**
   * With distinct names in the worklist (repository names are unique in a
   * workspace), no name the intended scan leaves behind is on the page.
   */
  lemma IntendedScanLeavesOnlyUnlisted(page: seq<Repository>, n: nat, ws: Worklist)
    requires n <= |page|
    requires forall i, j :: 0 <= i < j < |ws.projects| ==> ws.projects[i] != ws.projects[j]
    ensures forall x, j :: x in ScanIntended(page, n, ws).projects && 0 <= j < n ==> page[j].name != x
  {
    var b := ScanIntended(page, n, ws);
    IntendedScanConserves(page, n, ws);
    IntendedScanFindsEveryWanted(page, n, ws);
    forall x, j | x in b.projects && 0 <= j < n
      ensures page[j].name != x
    {
      if page[j].name == x {
        StillWantedWasWanted(b.projects, Names(b.found[|ws.found|..]), ws.projects, x);
        NameInBoth(b.projects, Names(b.found[|ws.found|..]), ws.projects, x);
        DistinctCountsOne(ws.projects, x);
        assert false;
      }
    }
  }

  /** A wanted name that no longer is wanted has been moved to the found names. */
  lemma NameMovedOut(rest: seq<string>, moved: seq<string>, start: seq<string>, x: string)
    requires multiset(rest) + multiset(moved) == multiset(start)
    requires x in start && x !in rest
    ensures x in moved
  {
    assert multiset(start)[x] > 0;
  }

  /** A name still wanted was wanted at the start. */
  lemma StillWantedWasWanted(rest: seq<string>, moved: seq<string>, start: seq<string>, x: string)
    requires multiset(rest) + multiset(moved) == multiset(start)
    requires x in rest
    ensures x in start
  {
    assert multiset(rest)[x] >= 1;
    assert multiset(start)[x] >= 1;
  }

  /** A name both still wanted and found occurs twice among the names wanted at the start. */
  lemma NameInBoth(rest: seq<string>, moved: seq<string>, start: seq<string>, x: string)
    requires multiset(rest) + multiset(moved) == multiset(start)
    requires x in rest && x in moved
    ensures multiset(start)[x] >= 2
  {
    assert multiset(rest)[x] >= 1 && multiset(moved)[x] >= 1;
  }

  /** A name occurs at most once in a list of distinct names. */
  lemma {:induction false} DistinctCountsOne(names: seq<string>, x: string)
    requires forall i, j :: 0 <= i < j < |names| ==> names[i] != names[j]
    ensures multiset(names)[x] <= 1
  {
    if names != [] {
      DistinctCountsOne(names[1..], x);
      assert names == [names[0]] + names[1..];
      if names[0] == x {
        assert x !in names[1..];
      }
    }
  }

  /**
   * The intended scan appends at most as many repositories as names were
   * wanted, however often a name is listed: each one appended takes its
   * name out of `projects`.
   */
  lemma IntendedScanFoundBound(page: seq<Repository>, n: nat, ws: Worklist)
    requires n <= |page|
    ensures |ws.found| <= |ScanIntended(page, n, ws).found| <= |ws.found| + |ws.projects|
  {
    var b := ScanIntended(page, n, ws);
    IntendedScanConserves(page, n, ws);
    assert |multiset(b.projects)| + |multiset(Names(b.found[|ws.found|..]))| == |multiset(ws.projects)|;
  }

  /** On the listing of `RepeatedNameFoundAgain`, the intended scan finds A once and empties the worklist. */
  lemma IntendedScanRepeatedExample()
    ensures ScanIntended([RepoX, RepoA, RepoA], 3, Worklist(["A"], [])) == Worklist([], [RepoA])
  {
    var ws := Worklist(["A"], []);
    var page := [RepoX, RepoA, RepoA];
    assert "A" in ws.projects by { assert ws.projects[0] == "A"; }
    assert ScanIntended(page, 1, ws) == ws;
    assert RemoveName(["A"], "A") == [];
    assert ScanIntended(page, 2, ws) == Worklist([], [RepoA]);
  }

  /** On the pair of the first lemma, the intended scan finds both repositories and empties the worklist. */
  lemma IntendedScanExample()
    ensures ScanIntended([RepoB, RepoA], 2, Worklist(["A", "B"], [])) == Worklist([], [RepoB, RepoA])
  {
    var ws := Worklist(["A", "B"], []);
    assert ScanIntended([RepoB, RepoA], 1, ws) == Worklist(["A"], [RepoB]) by {
      assert "B" in ws.projects by { assert ws.projects[1] == "B"; }
      assert RemoveName(["A", "B"], "B") == ["A"] by {
        assert ["A", "B"][1..] == ["B"];
      }
    }
  }
}
