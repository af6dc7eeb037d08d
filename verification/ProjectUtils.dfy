/**
 * The logic of `org.eclipse.m2e.wtp.ProjectUtils`, separated from the
 * workspace API it calls: relative-path arithmetic, the m2e-wtp folder
 * location, nature removal, the refresh walk up a directory hierarchy,
 * parent-first folder creation and the web resource lookup. Workspace state
 * the platform owns (projects, folders, files) is passed in as values or held
 * in a `Workspace` object; calls such as `refreshLocal` and `IFolder.create`
 * are recorded in ghost logs.
 */
module ProjectUtils {
  import opened Wrappers
  import opened Paths

  // ---------------------------------------------------------------------------
  // getRelativePath
  // ---------------------------------------------------------------------------

  /** `s.replace('\\', '/')`: every backslash becomes a slash, nothing else changes. */
  function ReplaceBackslashes(s: string): (r: string)
    ensures |r| == |s|
    ensures forall i :: 0 <= i < |s| ==> r[i] == (if s[i] == '\\' then '/' else s[i])
    ensures '\\' !in r
  {
    if s == [] then []
    else [if s[0] == '\\' then '/' else s[0]] + ReplaceBackslashes(s[1..])
  }

  /**
   * `getRelativePath(project, absolutePath)`, with the project's base
   * directory (`project.getLocation().toFile().getAbsolutePath()`) passed in
   * as `basedir`. The containment test is a plain string prefix test, not a
   * segment-wise one.
   */
  function GetRelativePath(basedir: string, absolutePath: string): (r: string)
    ensures '\\' !in r
    ensures absolutePath == basedir ==> r == "."
    ensures absolutePath != basedir && basedir <= absolutePath ==>
              |r| == |absolutePath| - |basedir| - 1 &&
              forall i :: 0 <= i < |r| ==>
                r[i] == (if absolutePath[|basedir| + 1 + i] == '\\' then '/' else absolutePath[|basedir| + 1 + i])
    ensures !(basedir <= absolutePath) ==>
              |r| == |absolutePath| &&
              forall i :: 0 <= i < |r| ==>
                r[i] == (if absolutePath[i] == '\\' then '/' else absolutePath[i])
  {
    var relative :=
      if absolutePath == basedir then "."
      else if basedir <= absolutePath then absolutePath[|basedir| + 1..]
      else absolutePath;
    ReplaceBackslashes(relative)
  }

  /** A string without backslashes is left as it is by the replacement. */
  lemma ReplaceBackslashesIdentity(s: string)
    requires '\\' !in s
    ensures ReplaceBackslashes(s) == s
  {
    assert forall i :: 0 <= i < |s| ==> s[i] in s;
  }

  /**
   * Resolving the relative path against the base directory gives the absolute
   * path back, when that path lies under `basedir` (with a '/' separator) and
   * is written with forward slashes.
   */
  lemma RelativePathResolves(basedir: string, rel: string)
    requires '\\' !in rel
    ensures GetRelativePath(basedir, basedir + "/" + rel) == rel
    ensures basedir + "/" + GetRelativePath(basedir, basedir + "/" + rel) == basedir + "/" + rel
  {
    var abs := basedir + "/" + rel;
    assert abs[..|basedir|] == basedir;
    assert abs[|basedir| + 1..] == rel;
    ReplaceBackslashesIdentity(rel);
  }

  /** A path outside the base directory, written with forward slashes, is returned unchanged. */
  lemma OutsidePathUnchanged(basedir: string, absolutePath: string)
    requires !(basedir <= absolutePath)
    requires '\\' !in absolutePath
    ensures GetRelativePath(basedir, absolutePath) == absolutePath
  {
    ReplaceBackslashesIdentity(absolutePath);
  }

  /**
   * The prefix test is not segment-aware: whatever character follows the
   * base directory, separator or not, it is cut off together with the base
   * directory. So a sibling whose name extends the base directory's last
   * segment is cut as if it were inside it.
   */
  lemma SiblingIsCut(basedir: string, c: char, s: string)
    requires '\\' !in s
    ensures GetRelativePath(basedir, basedir + [c] + s) == s
  {
    var abs := basedir + [c] + s;
    assert abs[..|basedir|] == basedir;
    assert abs[|basedir| + 1..] == s;
    ReplaceBackslashesIdentity(s);
  }

  /** Two instances of `SiblingIsCut`: "/a/bc" and "/a/bcd" against "/a/b". */
  lemma SiblingIsCutExamples()
    ensures GetRelativePath("/a/b", "/a/bc") == ""
    ensures GetRelativePath("/a/b", "/a/bcd") == "d"
  {
    SiblingIsCut("/a/b", 'c', "");
    SiblingIsCut("/a/b", 'c', "d");
    assert "/a/b" + ['c'] + "" == "/a/bc";
    assert "/a/b" + ['c'] + "d" == "/a/bcd";
  }

  // ---------------------------------------------------------------------------
  // getM2eclipseWtpFolder, getGeneratedWebResourcesFolder
  // ---------------------------------------------------------------------------

  /**
   * `getM2eclipseWtpFolder`: the build output directory made relative to the
   * project, parsed as a path, with the m2e-wtp folder name appended. The
   * name of that folder is a constant of the plugin, passed in as `wtpFolder`.
   * A relative path of "." parses to no segments here, so the result is the
   * normalised path the workspace resolves, not the literal `./m2e-wtp`.
   */
  function GetM2eclipseWtpFolder(basedir: string, buildOutputDir: string, wtpFolder: string): (r: Path)
    requires IsSegment(wtpFolder)
    ensures |r| >= 1 && r[|r| - 1] == wtpFolder
    ensures forall i :: 0 <= i < |r| ==> IsSegment(r[i])
    ensures buildOutputDir == basedir ==> r == [wtpFolder]
  {
    assert Segments(".") == [] by {
      assert NameLength(".") == 1;
      assert "."[..1] == ".";
    }
    Segments(GetRelativePath(basedir, buildOutputDir)) + [wtpFolder]
  }

  /** A build output directory inside the project gives the folder below its relative path. */
  lemma M2eclipseWtpFolderBelowBasedir(basedir: string, rel: string, wtpFolder: string)
    requires IsSegment(wtpFolder)
    requires '\\' !in rel
    ensures GetM2eclipseWtpFolder(basedir, basedir + "/" + rel, wtpFolder) == Segments(rel) + [wtpFolder]
  {
    RelativePathResolves(basedir, rel);
  }

  /**
   * For a build output directory printed from well-formed segments below the
   * base directory, the m2e-wtp folder is exactly those segments followed by
   * the folder name.
   */
  lemma M2eclipseWtpFolderOfSegments(basedir: string, segs: Path, wtpFolder: string)
    requires IsSegment(wtpFolder)
    requires forall i :: 0 <= i < |segs| ==> IsSegment(segs[i]) && '\\' !in segs[i]
    ensures GetM2eclipseWtpFolder(basedir, basedir + "/" + Join(segs), wtpFolder) == segs + [wtpFolder]
  {
    JoinAvoids(segs, '\\');
    M2eclipseWtpFolderBelowBasedir(basedir, Join(segs), wtpFolder);
    SegmentsOfJoin(segs);
  }

  /**
   * `getGeneratedWebResourcesFolder`: the project-relative path of the
   * web-resources folder inside the m2e-wtp folder.
   */
  function GetGeneratedWebResourcesFolder(basedir: string, buildOutputDir: string,
                                          wtpFolder: string, webResourcesFolder: string): (r: Path)
    requires IsSegment(wtpFolder) && IsSegment(webResourcesFolder)
    ensures |r| >= 2 && r[|r| - 2] == wtpFolder && r[|r| - 1] == webResourcesFolder
    ensures RemoveLastSegment(r) == GetM2eclipseWtpFolder(basedir, buildOutputDir, wtpFolder)
    ensures buildOutputDir == basedir ==> r == [wtpFolder, webResourcesFolder]
  {
    GetM2eclipseWtpFolder(basedir, buildOutputDir, wtpFolder) + [webResourcesFolder]
  }

  // ---------------------------------------------------------------------------
  // removeNature
  // ---------------------------------------------------------------------------

  /** The nature ids other than `natureId`, in their original order. */
  function Without(ids: seq<string>, natureId: string): (r: seq<string>)
    ensures |r| <= |ids|
    ensures natureId !in r
    ensures forall x :: x in r ==> x in ids
  {
    if ids == [] then []
    else (if ids[0] == natureId then [] else [ids[0]]) + Without(ids[1..], natureId)
  }

  /** Filtering distributes over appending one more id. */
  lemma {:induction false} WithoutSnoc(ids: seq<string>, id: string, natureId: string)
    ensures Without(ids + [id], natureId) == Without(ids, natureId) + (if id == natureId then [] else [id])
  {
    if ids != [] {
      assert (ids + [id])[1..] == ids[1..] + [id];
      WithoutSnoc(ids[1..], id, natureId);
    } else {
      assert Without([id][1..], natureId) == [];
    }
  }

  /** Exactly the occurrences of `natureId` are dropped. */
  lemma {:induction false} WithoutMultiset(ids: seq<string>, natureId: string)
    ensures multiset(Without(ids, natureId)) == multiset(ids)[natureId := 0]
    ensures |Without(ids, natureId)| == |ids| - multiset(ids)[natureId]
  {
    if ids != [] {
      assert ids == [ids[0]] + ids[1..];
      WithoutMultiset(ids[1..], natureId);
    }
  }

  /** Removing an id that is not there changes nothing. */
  lemma {:induction false} WithoutAbsent(ids: seq<string>, natureId: string)
    requires natureId !in ids
    ensures Without(ids, natureId) == ids
  {
    if ids != [] {
      assert forall x :: x in ids[1..] ==> x in ids;
      WithoutAbsent(ids[1..], natureId);
      assert ids == [ids[0]] + ids[1..];
    }
  }

  /**
   * Removing an id that occurs exactly once, at index `k`, leaves the other
   * ids in their original order.
   */
  lemma WithoutSingle(ids: seq<string>, natureId: string, k: nat)
    requires k < |ids| && ids[k] == natureId
    requires natureId !in ids[..k] && natureId !in ids[k + 1..]
    ensures Without(ids, natureId) == ids[..k] + ids[k + 1..]
  {
    var left, right := ids[..k], ids[k + 1..];
    assert ids == (left + [natureId]) + right;
    WithoutAppend(left + [natureId], right, natureId);
    WithoutSnoc(left, natureId, natureId);
    WithoutAbsent(left, natureId);
    WithoutAbsent(right, natureId);
  }

  lemma {:induction false} WithoutAppend(xs: seq<string>, ys: seq<string>, natureId: string)
    ensures Without(xs + ys, natureId) == Without(xs, natureId) + Without(ys, natureId)
  {
    if xs != [] {
      assert (xs + ys)[1..] == xs[1..] + ys;
      WithoutAppend(xs[1..], ys, natureId);
    } else {
      assert xs + ys == ys;
    }
  }

  /** An id present in the list but not at index `i` occurs before or after it. */
  lemma ElsewhereIfNotHere(ids: seq<string>, natureId: string, i: nat)
    requires natureId in ids && i < |ids| && ids[i] != natureId
    ensures natureId in ids[..i] || natureId in ids[i + 1..]
  {
    assert ids == ids[..i] + [ids[i]] + ids[i + 1..];
  }

  /** `slots` holds the ids of `kept`, in order, followed only by nulls. */
  predicate PaddedCopy(slots: seq<Option<string>>, kept: seq<string>)
  {
    |kept| <= |slots| &&
    (forall k :: 0 <= k < |kept| ==> slots[k] == Some(kept[k])) &&
    (forall k :: |kept| <= k < |slots| ==> slots[k] == None)
  }

  /** Writing the next id into the first null slot keeps the copy padded. */
  lemma PaddedCopyStep(slots: seq<Option<string>>, kept: seq<string>, id: string)
    requires PaddedCopy(slots, kept) && |kept| < |slots|
    ensures PaddedCopy(slots[|kept| := Some(id)], kept + [id])
  {
  }

  /**
   * A copy of the other ids padded with nulls to one slot fewer than the
   * original holds a null exactly when the nature occurred more than once.
   */
  lemma NullSlotIffRepeated(ids: seq<string>, natureId: string, slots: seq<Option<string>>)
    requires natureId in ids
    requires |slots| == |ids| - 1
    requires PaddedCopy(slots, Without(ids, natureId))
    ensures None in slots <==> multiset(ids)[natureId] > 1
  {
    WithoutMultiset(ids, natureId);
    var kept := Without(ids, natureId);
    if multiset(ids)[natureId] > 1 {
      assert slots[|kept|] == None;
    } else {
      assert forall k :: 0 <= k < |slots| ==> slots[k] != None;
    }
  }

  /**
   * `removeNature(project, natureId, monitor)` on the project's nature ids.
   * The result is `None` when the project does not have the nature (the
   * description is left alone), otherwise the array passed to
   * `setNatureIds`: one slot shorter than before, the other ids in order, and
   * a null (`None`) in every slot the copy loop never wrote, which happens
   * exactly when `natureId` occurred more than once.
   */
  method RemoveNature(natureIds: seq<string>, natureId: string) returns (r: Option<seq<Option<string>>>)
    ensures r.None? <==> natureId !in natureIds
    ensures r.Some? ==> |r.value| == |natureIds| - 1 && PaddedCopy(r.value, Without(natureIds, natureId))
    ensures r.Some? ==> (None in r.value <==> multiset(natureIds)[natureId] > 1)
    ensures Some(natureId) !in (if r.Some? then r.value else [])
  {
    if natureId !in natureIds {
      return None;
    }
    var prevNatures := natureIds;
    var newNatures := new Option<string>[|prevNatures| - 1](_ => None);
    ghost var kept: seq<string> := [];
    var i, j := 0, 0;
    while i < |prevNatures|
      invariant 0 <= i <= |prevNatures|
      invariant kept == Without(prevNatures[..i], natureId)
      invariant j == |kept| <= i
      invariant natureId in prevNatures[..i] ==> j < i
      invariant PaddedCopy(newNatures[..], kept)
    {
      assert prevNatures[..i + 1] == prevNatures[..i] + [prevNatures[i]];
      WithoutSnoc(prevNatures[..i], prevNatures[i], natureId);
      if prevNatures[i] != natureId {
        ElsewhereIfNotHere(prevNatures, natureId, i);
        PaddedCopyStep(newNatures[..], kept, prevNatures[i]);
        newNatures[j] := Some(prevNatures[i]);
        j := j + 1;
        kept := kept + [prevNatures[i]];
      }
      i := i + 1;
    }
    assert prevNatures[..i] == natureIds;
    r := Some(newNatures[..]);
    NullSlotIffRepeated(natureIds, natureId, r.value);
  }


  // ---------------------------------------------------------------------------
  // refreshHierarchy
  // ---------------------------------------------------------------------------

  /** A workspace project as `refreshHierarchy` sees it: `getLocation()` (null when unknown) and `isAccessible()`. */
  datatype ProjectInfo = ProjectInfo(location: Option<Path>, accessible: bool)

  /** The inner loop's test: a non-null location equal to the current path, on an accessible project. */
  predicate IsRefreshTarget(project: ProjectInfo, path: Path)
  {
    project.location == Some(path) && project.accessible
  }

  /** The outer loop's guard: `path` lies strictly below the workspace root location. */
  predicate StrictlyBelow(root: Path, path: Path)
    ensures StrictlyBelow(root, path) ==> |root| < |path|
  {
    path != root && IsPrefix(root, path)
  }

  /** Every candidate is an index into the workspace's projects. */
  predicate ValidCandidates(projects: seq<ProjectInfo>, candidates: seq<nat>)
  {
    forall m :: 0 <= m < |candidates| ==> candidates[m] < |projects|
  }

  /** No project appears twice. */
  predicate Distinct(xs: seq<nat>)
  {
    forall m, n :: 0 <= m < n < |xs| ==> xs[m] != xs[n]
  }

  /** The indices of all projects of the workspace, in order (`root.getProjects()`). */
  function AllProjects(n: nat): (r: seq<nat>)
    ensures |r| == n && Distinct(r)
    ensures forall m :: 0 <= m < n ==> r[m] == m
  {
    seq(n, m => m)
  }

  /** Position, among the candidates, of the first project the inner loop stops at. */
  function FirstTarget(projects: seq<ProjectInfo>, candidates: seq<nat>, path: Path): (r: Option<nat>)
    requires ValidCandidates(projects, candidates)
    ensures r.Some? ==> r.value < |candidates| && IsRefreshTarget(projects[candidates[r.value]], path)
    ensures r.Some? ==> forall m :: 0 <= m < r.value ==> !IsRefreshTarget(projects[candidates[m]], path)
    ensures r.None? ==> forall m :: 0 <= m < |candidates| ==> !IsRefreshTarget(projects[candidates[m]], path)
  {
    if candidates == [] then None
    else if IsRefreshTarget(projects[candidates[0]], path) then Some(0)
    else match FirstTarget(projects, candidates[1..], path)
      case None => None
      case Some(k) => Some(k + 1)
  }

  /** The candidates without the one at position `k` (`ite.remove()`). */
  function RemoveAt(candidates: seq<nat>, k: nat): (r: seq<nat>)
    requires k < |candidates|
    ensures |r| == |candidates| - 1
    ensures forall m :: 0 <= m < |r| ==> r[m] == (if m < k then candidates[m] else candidates[m + 1])
    ensures forall x :: x in r ==> x in candidates
    ensures Distinct(candidates) ==> Distinct(r) && candidates[k] !in r
  {
    candidates[..k] + candidates[k + 1..]
  }

  /** Number of iterations of the outer loop from `path` up to the root. */
  function Levels(root: Path, path: Path): nat
  {
    if StrictlyBelow(root, path) then |path| - |root| else 0
  }

  /**
   * The projects `refreshHierarchy` refreshes, in order, starting at `path`
   * with the remaining `candidates`: at each level strictly below the root,
   * the first remaining accessible project located exactly there, which then
   * leaves the candidates; then one segment up.
   */
  function Walk(root: Path, path: Path, projects: seq<ProjectInfo>, candidates: seq<nat>): seq<nat>
    requires ValidCandidates(projects, candidates)
    decreases |path|
  {
    if !StrictlyBelow(root, path) then []
    else
      match FirstTarget(projects, candidates, path)
      case None => Walk(root, RemoveLastSegment(path), projects, candidates)
      case Some(k) =>
        [candidates[k]] + Walk(root, RemoveLastSegment(path), projects, RemoveAt(candidates, k))
  }

  /**
   * The inner loop of `refreshHierarchy`: scans the remaining candidates in
   * order and stops at the first refresh target, returning its position, or
   * runs off the end and returns `|candidates|`.
   */
  method ScanForTarget(projects: seq<ProjectInfo>, candidates: seq<nat>, path: Path) returns (k: nat)
    requires ValidCandidates(projects, candidates)
    ensures k <= |candidates|
    ensures forall m :: 0 <= m < k ==> !IsRefreshTarget(projects[candidates[m]], path)
    ensures k < |candidates| ==> IsRefreshTarget(projects[candidates[k]], path)
    ensures FirstTarget(projects, candidates, path) == if k < |candidates| then Some(k) else None
  {
    k := 0;
    while k < |candidates|
      invariant 0 <= k <= |candidates|
      invariant forall m :: 0 <= m < k ==> !IsRefreshTarget(projects[candidates[m]], path)
    {
      if IsRefreshTarget(projects[candidates[k]], path) {
        break;
      }
      k := k + 1;
    }
  }

  /**
   * `refreshHierarchy(basedir, refreshDepth, monitor)`. `root` is the
   * workspace root location, `basedir` the segments of the base directory
   * and `projects` the workspace's projects. Returns the count, together with
   * the ghost log of the projects refreshed (indices into `projects`) and the
   * number of outer iterations.
   */
  method RefreshHierarchy(root: Path, basedir: Path, projects: seq<ProjectInfo>)
    returns (count: int, ghost refreshed: seq<nat>, ghost iterations: nat)
    ensures refreshed == Walk(root, basedir, projects, AllProjects(|projects|))
    ensures count == |refreshed|
    ensures iterations == Levels(root, basedir)
    ensures 0 <= count <= iterations && count <= |projects|
    ensures Distinct(refreshed)
    ensures TargetsBetween(root, basedir, projects, refreshed)
    ensures ChildrenFirst(projects, refreshed)
  {
    count := 0;
    refreshed := [];
    iterations := 0;
    var candidates := AllProjects(|projects|);
    var basedirPath := basedir;
    while basedirPath != root && IsPrefix(root, basedirPath)
      invariant ValidCandidates(projects, candidates)
      invariant Walk(root, basedir, projects, AllProjects(|projects|)) == refreshed + Walk(root, basedirPath, projects, candidates)
      invariant count == |refreshed|
      invariant iterations + Levels(root, basedirPath) == Levels(root, basedir)
      decreases |basedirPath|
    {
      var k := ScanForTarget(projects, candidates, basedirPath);
      WalkStep(root, basedirPath, projects, candidates, k);
      if k < |candidates| {
        refreshed := refreshed + [candidates[k]];  // project.refreshLocal(refreshDepth, monitor)
        count := count + 1;
        candidates := RemoveAt(candidates, k);     // ite.remove()
      }
      LevelsStep(root, basedirPath);
      basedirPath := RemoveLastSegment(basedirPath);
      iterations := iterations + 1;
    }
    assert refreshed == Walk(root, basedir, projects, AllProjects(|projects|)) by {
      assert Walk(root, basedirPath, projects, candidates) == [];
      assert refreshed + [] == refreshed;
    }
    WalkBounds(root, basedir, projects, AllProjects(|projects|));
    WalkDistinct(root, basedir, projects, AllProjects(|projects|));
    WalkTargets(root, basedir, projects, AllProjects(|projects|));
  }

  /** One step up from a path strictly below the root leaves one level fewer. */
  lemma LevelsStep(root: Path, path: Path)
    requires StrictlyBelow(root, path)
    ensures Levels(root, RemoveLastSegment(path)) == Levels(root, path) - 1
  {
    var up := RemoveLastSegment(path);
    assert up[..|root|] == path[..|root|];
  }

  /** One iteration of the outer loop, stopping the inner scan at position `k` (or running off its end). */
  lemma WalkStep(root: Path, path: Path, projects: seq<ProjectInfo>, candidates: seq<nat>, k: nat)
    requires ValidCandidates(projects, candidates) && StrictlyBelow(root, path)
    requires k <= |candidates|
    requires forall m :: 0 <= m < k ==> !IsRefreshTarget(projects[candidates[m]], path)
    requires k < |candidates| ==> IsRefreshTarget(projects[candidates[k]], path)
    ensures k < |candidates| ==>
              Walk(root, path, projects, candidates) ==
              [candidates[k]] + Walk(root, RemoveLastSegment(path), projects, RemoveAt(candidates, k))
    ensures k == |candidates| ==>
              Walk(root, path, projects, candidates) == Walk(root, RemoveLastSegment(path), projects, candidates)
  {
    var first := FirstTarget(projects, candidates, path);
    if k < |candidates| {
      assert first == Some(k);
    } else {
      assert first == None;
    }
  }

  /** At most one project per level, and no more than there are candidates. */
  lemma {:induction false} WalkBounds(root: Path, path: Path, projects: seq<ProjectInfo>, candidates: seq<nat>)
    requires ValidCandidates(projects, candidates)
    ensures |Walk(root, path, projects, candidates)| <= Levels(root, path)
    ensures |Walk(root, path, projects, candidates)| <= |candidates|
    decreases |path|
  {
    if StrictlyBelow(root, path) {
      var up := RemoveLastSegment(path);
      LevelsStep(root, path);
      match FirstTarget(projects, candidates, path)
      case None => WalkBounds(root, up, projects, candidates);
      case Some(k) => WalkBounds(root, up, projects, RemoveAt(candidates, k));
    }
  }

  /** Each project is refreshed at most once, and only if it was a candidate. */
  lemma {:induction false} WalkDistinct(root: Path, path: Path, projects: seq<ProjectInfo>, candidates: seq<nat>)
    requires ValidCandidates(projects, candidates)
    requires Distinct(candidates)
    ensures Distinct(Walk(root, path, projects, candidates))
    ensures forall x :: x in Walk(root, path, projects, candidates) ==> x in candidates
    decreases |path|
  {
    if StrictlyBelow(root, path) {
      var up := RemoveLastSegment(path);
      match FirstTarget(projects, candidates, path)
      case None => WalkDistinct(root, up, projects, candidates);
      case Some(k) =>
        var rest := RemoveAt(candidates, k);
        WalkDistinct(root, up, projects, rest);
        var w := Walk(root, up, projects, rest);
        assert Walk(root, path, projects, candidates) == [candidates[k]] + w;
        assert candidates[k] !in w;
    }
  }

  /**
   * Every project in `w` is accessible and located strictly below the root
   * and at or above `path`.
   */
  predicate TargetsBetween(root: Path, path: Path, projects: seq<ProjectInfo>, w: seq<nat>)
  {
    forall i :: 0 <= i < |w| ==>
      w[i] < |projects| && projects[w[i]].accessible && projects[w[i]].location.Some? &&
      StrictlyBelow(root, projects[w[i]].location.value) &&
      IsPrefix(projects[w[i]].location.value, path)
  }

  /** The projects in `w` sit at strictly decreasing depths: children before parents, one per level. */
  predicate ChildrenFirst(projects: seq<ProjectInfo>, w: seq<nat>)
  {
    forall i, j :: 0 <= i < j < |w| && w[i] < |projects| && w[j] < |projects| &&
                   projects[w[i]].location.Some? && projects[w[j]].location.Some? ==>
      |projects[w[i]].location.value| > |projects[w[j]].location.value|
  }

  /**
   * Only accessible projects located strictly below the root and at or above
   * the starting path are refreshed, children before parents, so that no two
   * share a level.
   */
  lemma {:induction false} WalkTargets(root: Path, path: Path, projects: seq<ProjectInfo>, candidates: seq<nat>)
    requires ValidCandidates(projects, candidates)
    ensures TargetsBetween(root, path, projects, Walk(root, path, projects, candidates))
    ensures ChildrenFirst(projects, Walk(root, path, projects, candidates))
    decreases |path|
  {
    if StrictlyBelow(root, path) {
      var up := RemoveLastSegment(path);
      var first := FirstTarget(projects, candidates, path);
      if first.None? {
        WalkStep(root, path, projects, candidates, |candidates|);
        WalkTargets(root, up, projects, candidates);
        AboveParentIsAbove(root, path, projects, Walk(root, up, projects, candidates));
      } else {
        var k := first.value;
        WalkStep(root, path, projects, candidates, k);
        var rest := RemoveAt(candidates, k);
        WalkTargets(root, up, projects, rest);
        AboveParentIsAbove(root, path, projects, Walk(root, up, projects, rest));
        assert IsPrefix(path, path) by { assert path[..|path|] == path; }
      }
    }
  }

  /** Projects at or above the parent of `path` are at or above `path`, and strictly shorter. */
  lemma AboveParentIsAbove(root: Path, path: Path, projects: seq<ProjectInfo>, w: seq<nat>)
    requires StrictlyBelow(root, path)
    requires TargetsBetween(root, RemoveLastSegment(path), projects, w)
    ensures TargetsBetween(root, path, projects, w)
    ensures forall i :: 0 <= i < |w| ==> |projects[w[i]].location.value| < |path|
  {
    var up := RemoveLastSegment(path);
    assert IsPrefix(up, path);
    forall i | 0 <= i < |w|
      ensures IsPrefix(projects[w[i]].location.value, path)
    {
      PrefixTransitive(projects[w[i]].location.value, up, path);
    }
  }

  /**
   * Every level strictly below the root, at or above the starting path, that
   * holds an accessible candidate project gets a project located there
   * refreshed: the one at position `i` of the walk.
   */
  lemma {:induction false} WalkComplete(root: Path, path: Path, projects: seq<ProjectInfo>, candidates: seq<nat>,
                                        c: nat, level: Path)
    returns (i: nat)
    requires ValidCandidates(projects, candidates)
    requires c in candidates && IsRefreshTarget(projects[c], level)
    requires StrictlyBelow(root, level) && IsPrefix(level, path)
    ensures i < |Walk(root, path, projects, candidates)|
    ensures Walk(root, path, projects, candidates)[i] < |projects|
    ensures projects[Walk(root, path, projects, candidates)[i]].location == Some(level)
    decreases |path|
  {
    PrefixTransitive(root, level, path);
    var up := RemoveLastSegment(path);
    var first := FirstTarget(projects, candidates, path);
    if level == path {
      TargetIsFound(projects, candidates, path, c);
      WalkStep(root, path, projects, candidates, first.value);
      i := 0;
    } else {
      PrefixOfParent(level, path);
      if first.None? {
        WalkStep(root, path, projects, candidates, |candidates|);
        i := WalkComplete(root, up, projects, candidates, c, level);
      } else {
        var k := first.value;
        WalkStep(root, path, projects, candidates, k);
        StaysCandidate(candidates, k, c);
        var j := WalkComplete(root, up, projects, RemoveAt(candidates, k), c, level);
        i := j + 1;
      }
    }
  }

  /** A listed refresh target for `path` means the inner loop finds one. */
  lemma TargetIsFound(projects: seq<ProjectInfo>, candidates: seq<nat>, path: Path, c: nat)
    requires ValidCandidates(projects, candidates)
    requires c in candidates && IsRefreshTarget(projects[c], path)
    ensures FirstTarget(projects, candidates, path).Some?
  {
    var m :| 0 <= m < |candidates| && candidates[m] == c;
  }

  /** A candidate other than the removed one stays listed. */
  lemma StaysCandidate(candidates: seq<nat>, k: nat, c: nat)
    requires k < |candidates| && c in candidates && c != candidates[k]
    ensures c in RemoveAt(candidates, k)
  {
    assert candidates == candidates[..k] + [candidates[k]] + candidates[k + 1..];
  }

  // ---------------------------------------------------------------------------
  // createFolder
  // ---------------------------------------------------------------------------

  /**
   * Folders are named by their project-relative paths; the project itself
   * (the empty path) is not a folder, and a folder's parent folder exists
   * whenever the folder does.
   */
  ghost predicate ParentClosed(folders: set<Path>)
  {
    [] !in folders && forall f :: f in folders && |f| > 1 ==> RemoveLastSegment(f) in folders
  }

  /**
   * The folders `createFolder` creates for `folder`, in creation order: the
   * missing ancestors up to the first existing one (or the project), outermost
   * first, then the folder itself.
   */
  function MissingFolders(folder: Path, folders: set<Path>): seq<Path>
    decreases |folder|
  {
    if folder == [] || folder in folders then []
    else MissingFolders(RemoveLastSegment(folder), folders) + [folder]
  }

  /**
   * Only folders that do not exist yet are created, each is an ancestor of
   * (or is) `folder`, each parent comes right before its child, and the first
   * one created sits directly in the project or in an existing folder.
   */
  lemma {:induction false} MissingFoldersOrder(folder: Path, folders: set<Path>)
    ensures var m := MissingFolders(folder, folders);
            forall i :: 0 <= i < |m| ==> m[i] !in folders && m[i] != [] && IsPrefix(m[i], folder)
    ensures var m := MissingFolders(folder, folders);
            forall i :: 0 < i < |m| ==> m[i - 1] == RemoveLastSegment(m[i])
    ensures var m := MissingFolders(folder, folders);
            m != [] ==> m[|m| - 1] == folder && (|m[0]| == 1 || RemoveLastSegment(m[0]) in folders)
    decreases |folder|
  {
    if folder != [] && folder !in folders {
      var parent := RemoveLastSegment(folder);
      MissingFoldersOrder(parent, folders);
      var m := MissingFolders(parent, folders);
      forall i | 0 <= i < |m|
        ensures IsPrefix(m[i], folder)
      {
        assert folder[..|m[i]|] == parent[..|m[i]|];
      }
      if m == [] {
        assert parent == [] || parent in folders;
      }
    }
  }

  /** In a parent-closed set, every non-empty prefix of an existing folder exists. */
  lemma {:induction false} AncestorsExist(folder: Path, folders: set<Path>)
    requires ParentClosed(folders) && folder in folders
    ensures forall k :: 1 <= k <= |folder| ==> folder[..k] in folders
    decreases |folder|
  {
    if |folder| > 1 {
      var parent := RemoveLastSegment(folder);
      AncestorsExist(parent, folders);
      forall k | 1 <= k <= |folder|
        ensures folder[..k] in folders
      {
        if k < |folder| {
          assert folder[..k] == parent[..k];
        } else {
          assert folder[..k] == folder;
        }
      }
    } else {
      assert forall k :: 1 <= k <= |folder| ==> folder[..k] == folder;
    }
  }

  /**
   * Over a parent-closed set of folders, the folders created are exactly the
   * ancestors-or-self of `folder` that did not exist.
   */
  lemma {:induction false} MissingFoldersExact(folder: Path, folders: set<Path>)
    requires ParentClosed(folders)
    ensures forall k :: 1 <= k <= |folder| ==>
              (folder[..k] in MissingFolders(folder, folders) <==> folder[..k] !in folders)
    decreases |folder|
  {
    MissingFoldersOrder(folder, folders);
    if folder != [] {
      if folder in folders {
        AncestorsExist(folder, folders);
      } else {
        var parent := RemoveLastSegment(folder);
        MissingFoldersExact(parent, folders);
        forall k | 1 <= k <= |folder|
          ensures folder[..k] in MissingFolders(folder, folders) <==> folder[..k] !in folders
        {
          if k < |folder| {
            assert folder[..k] == parent[..k];
            assert folder[..k] != folder;
          } else {
            assert folder[..k] == folder;
          }
        }
      }
    }
  }

  /** The paths listed in `m`. */
  function Elements(m: seq<Path>): set<Path>
  {
    set g | g in m
  }

  lemma ElementsSnoc(m: seq<Path>, f: Path)
    ensures Elements(m + [f]) == Elements(m) + {f}
  {
  }

  /**
   * Creating `folder` once its missing ancestors exist completes the
   * parent-first creation and keeps every folder's parent in place.
   */
  lemma CreateStep(folder: Path, before: set<Path>, after: set<Path>)
    requires folder != [] && folder !in before
    requires ParentClosed(after)
    requires after == before + Elements(MissingFolders(RemoveLastSegment(folder), before))
    requires |folder| == 1 || RemoveLastSegment(folder) in after
    ensures MissingFolders(folder, before) == MissingFolders(RemoveLastSegment(folder), before) + [folder]
    ensures after + {folder} == before + Elements(MissingFolders(folder, before))
    ensures ParentClosed(after + {folder})
  {
    ElementsSnoc(MissingFolders(RemoveLastSegment(folder), before), folder);
  }

  lemma SnocAssoc<T>(a: seq<T>, b: seq<T>, x: T)
    ensures (a + b) + [x] == a + (b + [x])
  {
  }

  /** The folders of the workspace, and the log of `IFolder.create` calls. */
  class Workspace {
    var folders: set<Path>
    ghost var created: seq<Path>

    ghost predicate Valid()
      reads this
    {
      ParentClosed(folders)
    }

    constructor (folders: set<Path>)
      requires ParentClosed(folders)
      ensures Valid() && this.folders == folders && created == []
    {
      this.folders := folders;
      created := [];
    }

    /**
     * `createFolder(folder, monitor)`: `None` stands for a null folder.
     * Creates the missing ancestors first, then the folder; existing folders
     * are not touched.
     */
    method CreateFolder(folder: Option<Path>)
      requires Valid()
      requires folder != Some([])
      modifies this
      ensures Valid()
      ensures var missing := if folder.Some? then MissingFolders(folder.value, old(folders)) else [];
              created == old(created) + missing &&
              folders == old(folders) + Elements(missing)
      ensures folder.Some? ==> folder.value in folders
      decreases if folder.Some? then |folder.value| else 0
    {
      if folder.None? || folder.value in folders {
        assert created + [] == created;
        return;
      }
      var f := folder.value;
      var parent := RemoveLastSegment(f);
      ghost var before, log := folders, created;
      if parent != [] {  // the parent is a folder, not the project
        CreateFolder(Some(parent));
      }
      ghost var ancestors := MissingFolders(parent, before);
      assert created == log + ancestors;
      CreateStep(f, before, folders);
      folders := folders + {f};  // folder.create(true, true, monitor)
      created := created + [f];
      SnocAssoc(log, ancestors, f);
    }
  }

  // ---------------------------------------------------------------------------
  // getWebResourceFile
  // ---------------------------------------------------------------------------

  /** Position of the first underlying folder under which `filePath` names an existing file, or `|underlying|`. */
  function FirstExisting(underlying: seq<Path>, filePath: Path, files: set<Path>): (r: nat)
    ensures r <= |underlying|
    ensures forall j :: 0 <= j < r ==> underlying[j] + filePath !in files
    ensures r < |underlying| ==> underlying[r] + filePath in files
  {
    if underlying == [] then 0
    else if underlying[0] + filePath in files then 0
    else 1 + FirstExisting(underlying[1..], filePath, files)
  }

  /**
   * `getWebResourceFile(project, path)`. `component` is `None` when no
   * virtual component exists for the project, otherwise the project-relative
   * paths of its root folder's underlying folders, in order; `files` holds
   * the project-relative paths of the files that exist.
   */
  method GetWebResourceFile(component: Option<seq<Path>>, path: string, files: set<Path>) returns (r: Option<Path>)
    ensures component.None? ==> r.None?
    ensures component.Some? ==>
              var underlying := component.value;
              var i := FirstExisting(underlying, Segments(path), files);
              r == if i < |underlying| then Some(underlying[i] + Segments(path)) else None
    ensures r.Some? ==> r.value in files
  {
    if component.None? {
      return None;
    }
    var filePath := Segments(path);
    var underlyingFolders := component.value;
    for i := 0 to |underlyingFolders|
      invariant forall j :: 0 <= j < i ==> underlyingFolders[j] + filePath !in files
    {
      var p := underlyingFolders[i] + filePath;
      if p in files {
        return Some(p);
      }
    }
    return None;
  }
}
