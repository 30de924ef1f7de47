/** The loops that climb and descend the folder forest; the forest invariant makes each of them end. */
module LibraryWalks {
  import opened Common
  import opened LibraryTree
  import opened FileLibrary
  import opened FileLibraryInvariant

  /** The part of the subtree within `k` levels. */
  ghost function Within(es: Entries, e: nat, k: nat): set<nat> {
    set x | x in es && exists j: nat :: j <= k && Up(es, Some(x), j) == Some(e)
  }

  lemma WithinStep(es: Entries, e: nat, k: nat)
    ensures Within(es, e, k + 1) == Within(es, e, k) + Level(es, e, k + 1)
  {
  }

  /** Once a level is empty, so is everything beyond it. */
  lemma EmptyLevelEndsSubtree(es: Entries, e: nat, k: nat)
    requires Closed(es) && Level(es, e, k) == {}
    ensures Within(es, e, k) == Subtree(es, e)
  {
    forall x, j: nat | x in es && Up(es, Some(x), j) == Some(e)
      ensures j <= k
    {
      if j > k { LevelAbove(es, e, x, j, k); }
    }
  }

  /** Whatever lies far below an entry has an ancestor at every smaller distance. */
  lemma LevelAbove(es: Entries, e: nat, x: nat, j: nat, k: nat)
    requires Closed(es) && x in es && Up(es, Some(x), j) == Some(e) && k <= j
    ensures Level(es, e, k) != {}
    ensures es[x].IsFolder() ==> FolderLevel(es, e, k) != {}
  {
    UpAdd(es, Some(x), j - k, k);
    UpInside(es, x, j - k);
    var y := Up(es, Some(x), j - k).value;
    assert y in Level(es, e, k);
    assert es[x].IsFolder() ==> y in FolderLevel(es, e, k);
  }

  /** The height counted by the frontier loop decides whether the subtree fits below `depth` folders. */
  lemma HeightDecidesFit(es: Entries, e: nat, height: nat, depth: nat)
    requires Closed(es) && height > 0
    requires FolderLevel(es, e, height) == {} && FolderLevel(es, e, height - 1) != {}
    ensures SubtreeFits(es, e, depth) <==> depth + height <= MAX_FOLDER_DEPTH
  {
    var deepest :| deepest in FolderLevel(es, e, height - 1);
    forall x, k: nat | x in es && es[x].IsFolder() && Up(es, Some(x), k) == Some(e)
      ensures k < height
    {
      if k >= height { LevelAbove(es, e, x, k, height); }
    }
  }

  /** Root-to-folder navigation: it succeeds for every folder of the library and lists its ancestors in order. */
  method FolderAncestry(es: Entries, lib: nat, folder: Option<nat>) returns (r: Result<seq<nat>, LibraryError>)
    requires Forest(es)
    ensures PlaceError(es, lib, folder).None? ==>
              r.Ok? && Up(es, folder, |r.value|) == None
              && forall i :: 0 <= i < |r.value| ==> Some(r.value[|r.value| - 1 - i]) == Up(es, folder, i)
    ensures PlaceError(es, lib, folder).Some? ==> r == Err(Unavailable)
  {
    var path: seq<nat> := [];
    var cursor := folder;
    while cursor.Some?
      invariant cursor == Up(es, folder, |path|)
      invariant path == [] || PlaceError(es, lib, folder).None?
      invariant forall i :: 0 <= i < |path| ==> Some(path[|path| - 1 - i]) == Up(es, folder, i)
      invariant |path| <= MAX_FOLDER_DEPTH
      decreases MAX_FOLDER_DEPTH + 1 - |path|
    {
      if cursor.value !in es || es[cursor.value].lib != lib || !es[cursor.value].IsFolder() {
        if path != [] { UpInside(es, folder.value, |path|); }
        return Err(Unavailable);
      }
      if |path| >= MAX_FOLDER_DEPTH || cursor.value in path {
        ClimbNeverRepeats(es, folder, path);
        return Err(FolderCycle);
      }
      UpAdd(es, folder, |path|, 1);
      path := [cursor.value] + path;
      cursor := es[cursor.value].parent;
    }
    r := Ok(path);
  }

  /** The defensive cycle and depth test of the climb never fires on a forest. */
  lemma ClimbNeverRepeats(es: Entries, folder: Option<nat>, path: seq<nat>)
    requires Forest(es) && folder.Some? && folder.value in es && es[folder.value].IsFolder()
    requires Up(es, folder, |path|).Some?
    requires forall i :: 0 <= i < |path| ==> Some(path[|path| - 1 - i]) == Up(es, folder, i)
    ensures |path| < MAX_FOLDER_DEPTH && Up(es, folder, |path|).value !in path
  {
    assert Shallow(es, folder.value);
    if |path| >= MAX_FOLDER_DEPTH { UpPastRoot(es, folder, MAX_FOLDER_DEPTH, |path|); }
    forall j | 0 <= j < |path| ensures path[j] != Up(es, folder, |path|).value {
      var i := |path| - 1 - j;
      UpAdd(es, folder, i, |path| - i);
      UpInside(es, folder.value, i);
      Acyclic(es, path[j], |path| - i);
    }
  }

  /** Number of folder levels in a folder's subtree, itself included. */
  method SubtreeHeight(es: Entries, e: nat) returns (height: nat)
    requires Forest(es) && e in es && es[e].IsFolder()
    ensures height > 0 && FolderLevel(es, e, height) == {} && FolderLevel(es, e, height - 1) != {}
  {
    height := 0;
    var frontier := {e};
    RootLevels(es, e);
    while frontier != {}
      invariant frontier == FolderLevel(es, e, height)
      invariant height > 0 ==> FolderLevel(es, e, height - 1) != {}
      invariant height == 0 ==> frontier != {}
      decreases MAX_FOLDER_DEPTH - height
    {
      LevelsEnd(es, e, height);
      LevelStep(es, e, height);
      frontier := set x | x in es && es[x].IsFolder() && es[x].parent.Some? && es[x].parent.value in frontier;
      height := height + 1;
    }
  }

  lemma RootLevels(es: Entries, e: nat)
    requires e in es
    ensures Level(es, e, 0) == {e} && Within(es, e, 0) == {e}
    ensures es[e].IsFolder() ==> FolderLevel(es, e, 0) == {e}
  {
    assert Up(es, Some(e), 0) == Some(e);
  }

  /** The breadth-first collection of `delete_entry` gathers exactly what the cascade removes. */
  method CollectSubtree(es: Entries, e: nat) returns (ids: set<nat>)
    requires Forest(es) && e in es
    ensures ids == Subtree(es, e)
  {
    var frontier := {e};
    ids := {e};
    ghost var k := 0;
    RootLevels(es, e);
    while frontier != {}
      invariant frontier == Level(es, e, k) && ids == Within(es, e, k)
      decreases MAX_FOLDER_DEPTH + 1 - k
    {
      LevelsEnd(es, e, k);
      LevelStep(es, e, k);
      WithinStep(es, e, k);
      frontier := set x | x in es && es[x].parent.Some? && es[x].parent.value in frontier;
      ids := ids + frontier;
      k := k + 1;
    }
    EmptyLevelEndsSubtree(es, e, k);
  }

  method SumSizes(es: Entries, cs: map<nat, Content>, ids: set<nat>) returns (bytes: nat)
    ensures bytes == TotalSize(es, cs, ids)
  {
    bytes := 0;
    var todo := ids;
    while todo != {}
      invariant bytes + TotalSize(es, cs, todo) == TotalSize(es, cs, ids)
      decreases |todo|
    {
      var x :| x in todo;
      TotalRemove(es, cs, todo, x);
      bytes := bytes + SizeOf(es, cs, x);
      todo := todo - {x};
    }
  }

  /** Folders above a place, unless the climb meets the entry being placed. */
  method ClimbToRoot(es: Entries, lib: nat, parent: Option<nat>, entry: Option<nat>) returns (depth: Option<nat>)
    requires Forest(es) && PlaceError(es, lib, parent).None?
    ensures depth.None? <==> entry.Some? && Below(es, parent, entry.value)
    ensures depth.Some? ==> depth.value == Depth(es, parent, MAX_FOLDER_DEPTH)
  {
    PlaceDepth(es, lib, parent);
    DepthReachesRoot(es, parent, MAX_FOLDER_DEPTH);
    ghost var d := Depth(es, parent, MAX_FOLDER_DEPTH);
    var steps: nat := 0;
    var cursor := parent;
    while cursor.Some?
      invariant cursor == Up(es, parent, steps) && steps <= d
      invariant entry.Some? ==> forall j: nat :: j < steps ==> Up(es, parent, j) != entry
      decreases d - steps
    {
      assert steps < d;
      UpInside(es, parent.value, steps);
      UpAdd(es, parent, steps, 1);
      if cursor == entry { return None; }
      cursor := es[cursor.value].parent;
      steps := steps + 1;
    }
    forall j: nat | entry.Some? ensures Up(es, parent, j) != entry {
      if j >= steps { UpPastRoot(es, parent, steps, j); }
    }
    depth := Some(steps);
  }

  /** `validate_location`: the duplicate query, the climb and the level-by-level descent decide the location. */
  method ValidateLocation(
      es: Entries, cfg: Settings, lib: nat, name: string, parent: Option<nat>, entry: Option<nat>, folder: bool)
    returns (bad: Option<LibraryError>)
    requires Forest(es) && PlaceError(es, lib, parent).None?
    requires entry.Some? ==> entry.value in es && es[entry.value].IsFolder() == folder
    ensures bad == LocationError(es, cfg, lib, name, parent, entry, folder)
  {
    if SiblingClash(es, cfg.upper, lib, parent, name, entry) { return Some(NameTaken); }
    var depth := ClimbToRoot(es, lib, parent, entry);
    if depth.None? { return Some(FolderCycle); }
    var height := if folder then 1 else 0;
    if entry.Some? && folder {
      height := SubtreeHeight(es, entry.value);
      HeightDecidesFit(es, entry.value, height, depth.value);
    }
    bad := if depth.value + height > MAX_FOLDER_DEPTH then Some(TooDeep) else None;
  }
}
