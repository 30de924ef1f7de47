/** The folder forest of the file libraries and the loops that walk it. */
module LibraryTree {
  import opened Common

  const MAX_FOLDER_DEPTH := 5

  /** A folder has no content; a document has one (check constraint `file_entry_content_kind`). */
  datatype Entry = Entry(lib: nat, parent: Option<nat>, name: string, content: Option<nat>) {
    predicate IsFolder() { content.None? }
  }

  type Entries = map<nat, Entry>

  /** The position reached from `at` after following `k` parent links. */
  function Up(es: Entries, at: Option<nat>, k: nat): Option<nat>
    decreases k
  {
    if k == 0 || at.None? then at
    else if at.value in es then Up(es, es[at.value].parent, k - 1)
    else None
  }

  /** The parent, if any, is a folder of the same library. */
  predicate ParentOk(es: Entries, x: nat)
    requires x in es
  {
    es[x].parent.Some? ==>
      var p := es[x].parent.value;
      p in es && es[p].IsFolder() && es[p].lib == es[x].lib
  }

  /** A folder lies at most five levels deep, a document under at most five folders. */
  predicate Shallow(es: Entries, x: nat)
    requires x in es
  {
    Up(es, Some(x), Reach(es[x])) == None
  }

  function Reach(e: Entry): nat {
    if e.IsFolder() then MAX_FOLDER_DEPTH else MAX_FOLDER_DEPTH + 1
  }

  // The triggers keep the solver from chasing parent links on its own.
  ghost predicate Closed(es: Entries) {
    forall x {:trigger ParentOk(es, x)} :: x in es ==> ParentOk(es, x)
  }

  ghost predicate Bounded(es: Entries) {
    forall x {:trigger Shallow(es, x)} :: x in es ==> Shallow(es, x)
  }

  ghost predicate Forest(es: Entries) {
    Closed(es) && Bounded(es)
  }

  /** Entries of one folder carry different names under the given case folding. */
  ghost predicate NamesDistinct(es: Entries, fold: string -> string) {
    forall x, y :: x in es && y in es && x != y && es[x].lib == es[y].lib && es[x].parent == es[y].parent
      ==> fold(es[x].name) != fold(es[y].name)
  }

  /** The entry and everything below it, at any distance. */
  ghost function Subtree(es: Entries, e: nat): set<nat> {
    set x | x in es && exists k: nat :: Up(es, Some(x), k) == Some(e)
  }

  ghost function Level(es: Entries, e: nat, k: nat): set<nat> {
    set x | x in es && Up(es, Some(x), k) == Some(e)
  }

  ghost function FolderLevel(es: Entries, e: nat, k: nat): set<nat> {
    set x | x in es && es[x].IsFolder() && Up(es, Some(x), k) == Some(e)
  }

  // ---- walking up -----------------------------------------------------------------------------

  lemma {:induction false} UpAdd(es: Entries, at: Option<nat>, j: nat, k: nat)
    ensures Up(es, Up(es, at, j), k) == Up(es, at, j + k)
    decreases j
  {
    if j > 0 && at.Some? && at.value in es { UpAdd(es, es[at.value].parent, j - 1, k); }
  }

  /** Above the root there is nothing. */
  lemma UpPastRoot(es: Entries, at: Option<nat>, j: nat, k: nat)
    requires Up(es, at, j) == None && j <= k
    ensures Up(es, at, k) == None
  {
    UpAdd(es, at, j, k - j);
  }

  /** A walk only looks at the entries it visits. */
  lemma {:induction false} UpFrame(es: Entries, es': Entries, at: Option<nat>, k: nat)
    requires forall j: nat :: j < k && Up(es, at, j).Some? ==>
               var v := Up(es, at, j).value; v in es && v in es' && es'[v].parent == es[v].parent
    ensures Up(es', at, k) == Up(es, at, k)
    decreases k
  {
    if k > 0 && at.Some? {
      assert Up(es, at, 0) == at;
      var next := es[at.value].parent;
      forall j: nat | j < k - 1 && Up(es, next, j).Some?
        ensures var v := Up(es, next, j).value; v in es && v in es' && es'[v].parent == es[v].parent
      {
        assert Up(es, at, j + 1) == Up(es, next, j);
      }
      UpFrame(es, es', next, k - 1);
    }
  }

  /** Walking up from an entry of a closed forest visits entries of its own library, folders after the start. */
  lemma {:induction false} UpInside(es: Entries, x: nat, k: nat)
    requires Closed(es) && x in es && Up(es, Some(x), k).Some?
    ensures var v := Up(es, Some(x), k).value;
            v in es && es[v].lib == es[x].lib && (k > 0 ==> es[v].IsFolder())
    decreases k
  {
    assert ParentOk(es, x);
    if k > 1 { UpInside(es, es[x].parent.value, k - 1); }
  }

  /** Nothing is its own proper ancestor. */
  lemma Acyclic(es: Entries, x: nat, k: nat)
    requires Forest(es) && x in es && k > 0
    ensures Up(es, Some(x), k) != Some(x)
  {
    if Up(es, Some(x), k) == Some(x) {
      assert Shallow(es, x);
      Unroll(es, x, k, Reach(es[x]));
      UpPastRoot(es, Some(x), Reach(es[x]), k * Reach(es[x]));
    }
  }

  lemma {:induction false} Unroll(es: Entries, x: nat, k: nat, n: nat)
    requires Up(es, Some(x), k) == Some(x) && k > 0
    ensures Up(es, Some(x), k * n) == Some(x)
    ensures n <= k * n
    decreases n
  {
    if n > 0 {
      Unroll(es, x, k, n - 1);
      UpAdd(es, Some(x), k, k * (n - 1));
      assert k * n == k + k * (n - 1);
    }
  }

  // ---- subtrees -------------------------------------------------------------------------------

  /** A step down in a level is a step of parent links. */
  lemma LevelStep(es: Entries, e: nat, k: nat)
    requires Closed(es)
    ensures Level(es, e, k + 1) == set x | x in es && es[x].parent.Some? && es[x].parent.value in Level(es, e, k)
    ensures FolderLevel(es, e, k + 1) ==
            set x | x in es && es[x].IsFolder() && es[x].parent.Some? && es[x].parent.value in FolderLevel(es, e, k)
  {
    forall x | x in es
      ensures Up(es, Some(x), k + 1) == Up(es, es[x].parent, k)
      ensures es[x].parent.Some? ==> es[x].parent.value in es && es[es[x].parent.value].IsFolder()
    {
      assert ParentOk(es, x);
    }
  }

  lemma LevelsEnd(es: Entries, e: nat, k: nat)
    requires Forest(es)
    ensures k >= MAX_FOLDER_DEPTH ==> FolderLevel(es, e, k) == {}
    ensures k > MAX_FOLDER_DEPTH ==> Level(es, e, k) == {}
  {
    forall x | x in es && Reach(es[x]) <= k
      ensures Up(es, Some(x), k) == None
    {
      assert Shallow(es, x);
      UpPastRoot(es, Some(x), Reach(es[x]), k);
    }
  }

  /** The subtree is what a cascading delete removes: the least set with the entry that is closed under children. */
  lemma SubtreeIsCascade(es: Entries, e: nat, any: set<nat>)
    requires e in es
    ensures e in Subtree(es, e)
    ensures forall x :: x in es && es[x].parent.Some? && es[x].parent.value in Subtree(es, e) ==> x in Subtree(es, e)
    ensures e in any && (forall x :: x in es && es[x].parent.Some? && es[x].parent.value in any ==> x in any)
            ==> Subtree(es, e) <= any
  {
    assert Up(es, Some(e), 0) == Some(e);
    forall x | x in es && es[x].parent.Some? && es[x].parent.value in Subtree(es, e)
      ensures x in Subtree(es, e)
    {
      var k: nat :| Up(es, Some(es[x].parent.value), k) == Some(e);
      assert Up(es, Some(x), k + 1) == Some(e);
    }
    if e in any && forall x :: x in es && es[x].parent.Some? && es[x].parent.value in any ==> x in any {
      forall x, k: nat | x in es && Up(es, Some(x), k) == Some(e) ensures x in any {
        CascadeCovers(es, e, any, x, k);
      }
    }
  }

  lemma {:induction false} CascadeCovers(es: Entries, e: nat, any: set<nat>, x: nat, k: nat)
    requires e in es && e in any && forall x :: x in es && es[x].parent.Some? && es[x].parent.value in any ==> x in any
    requires x in es && Up(es, Some(x), k) == Some(e)
    ensures x in any
    decreases k
  {
    if k > 0 {
      var p := es[x].parent;
      if p.value in es { CascadeCovers(es, e, any, p.value, k - 1); }
    }
  }

  // ---- the three mutations keep the forest ------------------------------------------------------

  /** Adding a leaf below an existing place. */
  lemma AddKeepsForest(es: Entries, id: nat, e: Entry)
    requires Forest(es) && id !in es
    requires e.parent.Some? ==> e.parent.value in es && es[e.parent.value].IsFolder() && es[e.parent.value].lib == e.lib
    requires Up(es, e.parent, Reach(e) - 1) == None
    ensures Forest(es[id := e])
  {
    var es' := es[id := e];
    forall x | x in es ensures ParentOk(es', x) && Shallow(es', x) {
      assert ParentOk(es, x) && Shallow(es, x);
      OldWalksKept(es, id, e, x, Reach(es[x]));
    }
    if e.parent.Some? { OldWalksKept(es, id, e, e.parent.value, Reach(e) - 1); }
    assert Shallow(es', id) && ParentOk(es', id);
  }

  lemma OldWalksKept(es: Entries, id: nat, e: Entry, x: nat, k: nat)
    requires Closed(es) && id !in es && x in es
    ensures Up(es[id := e], Some(x), k) == Up(es, Some(x), k)
  {
    forall j: nat | j < k && Up(es, Some(x), j).Some?
      ensures var v := Up(es, Some(x), j).value; v in es && v != id
    {
      UpInside(es, x, j);
    }
    UpFrame(es, es[id := e], Some(x), k);
  }

  /** Removing a whole subtree. */
  lemma RemoveKeepsForest(es: Entries, e: nat)
    requires Forest(es) && e in es
    ensures Forest(es - Subtree(es, e))
  {
    var es' := es - Subtree(es, e);
    SubtreeIsCascade(es, e, {});
    forall x | x in es' ensures ParentOk(es', x) && Shallow(es', x) {
      assert ParentOk(es, x) && Shallow(es, x);
      forall j: nat | j < Reach(es[x]) && Up(es, Some(x), j).Some?
        ensures var v := Up(es, Some(x), j).value; v in es && v in es'
      {
        UpInside(es, x, j);
        var v := Up(es, Some(x), j).value;
        if v in Subtree(es, e) {
          var k: nat :| Up(es, Some(v), k) == Some(e);
          UpAdd(es, Some(x), j, k);
          assert false;
        }
      }
      UpFrame(es, es', Some(x), Reach(es[x]));
    }
  }

  /** The place `at` lies at or below the entry `e`. */
  ghost predicate Below(es: Entries, at: Option<nat>, e: nat) {
    exists j: nat :: Up(es, at, j) == Some(e)
  }

  /** With `depth` folders above it, no folder of the subtree of `e` would lie deeper than five levels. */
  ghost predicate SubtreeFits(es: Entries, e: nat, depth: nat) {
    forall x, k: nat :: x in es && es[x].IsFolder() && Up(es, Some(x), k) == Some(e)
      ==> depth + k + 1 <= MAX_FOLDER_DEPTH
  }

  /** Hanging a subtree elsewhere. */
  lemma MoveKeepsForest(es: Entries, e: nat, moved: Entry, depth: nat)
    requires Forest(es) && e in es && moved.lib == es[e].lib && moved.content == es[e].content
    requires moved.parent.Some? ==>
               var p := moved.parent.value; p in es && es[p].IsFolder() && es[p].lib == moved.lib
    requires !Below(es, moved.parent, e)
    requires Up(es, moved.parent, depth) == None
    requires if moved.IsFolder() then SubtreeFits(es, e, depth) else depth <= MAX_FOLDER_DEPTH
    ensures Forest(es[e := moved])
  {
    var es' := es[e := moved];
    forall x | x in es ensures ParentOk(es', x) && Shallow(es', x) {
      assert ParentOk(es, x) && Shallow(es, x);
      if k: nat :| Up(es, Some(x), k) == Some(e) {
        WalkThroughMoved(es, e, moved, depth, x, k);
      } else {
        forall j: nat | j < Reach(es[x]) && Up(es, Some(x), j).Some?
          ensures Up(es, Some(x), j).value in es && Up(es, Some(x), j).value != e
        {
          UpInside(es, x, j);
        }
        UpFrame(es, es', Some(x), Reach(es[x]));
      }
    }
  }

  lemma WalkThroughMoved(es: Entries, e: nat, moved: Entry, depth: nat, x: nat, k: nat)
    requires Forest(es) && e in es && moved.content == es[e].content
    requires moved.parent.Some? ==> moved.parent.value in es
    requires !Below(es, moved.parent, e)
    requires Up(es, moved.parent, depth) == None
    requires if moved.IsFolder() then SubtreeFits(es, e, depth) else depth <= MAX_FOLDER_DEPTH
    requires x in es && Up(es, Some(x), k) == Some(e)
    ensures Up(es[e := moved], Some(x), Reach(es[x])) == None
  {
    var es' := es[e := moved];
    forall j: nat | j < k && Up(es, Some(x), j).Some?
      ensures Up(es, Some(x), j).value in es && Up(es, Some(x), j).value != e
    {
      UpInside(es, x, j);
      if Up(es, Some(x), j) == Some(e) {
        UpAdd(es, Some(x), j, k - j);
        Acyclic(es, e, k - j);
      }
    }
    UpFrame(es, es', Some(x), k);
    forall j: nat | j < depth && Up(es, moved.parent, j).Some?
      ensures Up(es, moved.parent, j).value in es && Up(es, moved.parent, j).value != e
    {
      UpInside(es, moved.parent.value, j);
    }
    UpFrame(es, es', moved.parent, depth);
    UpAdd(es', Some(x), k, depth + 1);
    DistanceWithin(es, e, moved, depth, x, k);
    UpPastRoot(es', Some(x), k + depth + 1, Reach(es[x]));
  }

  lemma DistanceWithin(es: Entries, e: nat, moved: Entry, depth: nat, x: nat, k: nat)
    requires Forest(es) && e in es && moved.content == es[e].content
    requires if moved.IsFolder() then SubtreeFits(es, e, depth) else depth <= MAX_FOLDER_DEPTH
    requires x in es && Up(es, Some(x), k) == Some(e)
    ensures k + depth + 1 <= Reach(es[x])
  {
    if k > 0 {
      UpInside(es, x, k);
      if !es[x].IsFolder() {
        assert ParentOk(es, x);
        assert Up(es, Some(es[x].parent.value), k - 1) == Some(e);
      }
    }
  }
}
