/**
 Which changes to a file library are accepted, and what they leave behind, told from the tables: a name and a place are
 refused exactly when the tree would no longer be one.
 */
module LibraryMeaning {
  import opened Common
  import opened LibraryTree
  import opened FileLibrary
  import opened FileLibraryInvariant
  import opened LibraryPublication
  import opened LibraryRuns

  // ---- places -------------------------------------------------------------------------------------

  /** A new entry may go where validation and the name constraint let it. */
  ghost predicate AddAllowed(es: Entries, cfg: Settings, e: Entry) {
    PlaceError(es, e.lib, e.parent).None?
    && LocationError(es, cfg, e.lib, e.name, e.parent, None, e.IsFolder()).None?
    && !SiblingClash(es, cfg.lower, e.lib, e.parent, e.name, None)
  }

  ghost predicate EditAllowed(es: Entries, cfg: Settings, id: nat, e: Entry) {
    PlaceError(es, e.lib, e.parent).None?
    && LocationError(es, cfg, e.lib, e.name, e.parent, Some(id), e.IsFolder()).None?
    && !SiblingClash(es, cfg.lower, e.lib, e.parent, e.name, Some(id))
  }

  lemma DistinctMeansNoClash(es: Entries, fold: string -> string, id: nat, e: Entry)
    requires NamesDistinct(es[id := e], fold)
    ensures !SiblingClash(es, fold, e.lib, e.parent, e.name, Some(id))
    ensures id !in es ==> !SiblingClash(es, fold, e.lib, e.parent, e.name, None)
  {
    var es' := es[id := e];
    forall x | x in es && x != id && es[x].lib == e.lib && es[x].parent == e.parent
      ensures fold(es[x].name) != fold(e.name)
    {
      assert es'[x] == es[x] && es'[id] == e;
    }
  }

  lemma AddedFits(es: Entries, cfg: Settings, id: nat, e: Entry)
    requires TreeOk(es, cfg) && id !in es && PlaceError(es, e.lib, e.parent).None? && Shallow(es[id := e], id)
    ensures Fits(es, None, e.IsFolder(), Depth(es, e.parent, MAX_FOLDER_DEPTH))
  {
    PlaceDepth(es, e.lib, e.parent);
    DepthReachesRoot(es, e.parent, MAX_FOLDER_DEPTH);
    if e.IsFolder() {
      assert Up(es[id := e], e.parent, MAX_FOLDER_DEPTH - 1) == None;
      if e.parent.Some? { OldWalksKept(es, id, e, e.parent.value, MAX_FOLDER_DEPTH - 1); }
    }
  }

  /** A new entry is let in exactly when the entries with it are still a forest with distinct names. */
  lemma AddAllowedIff(es: Entries, cfg: Settings, id: nat, e: Entry)
    requires TreeOk(es, cfg) && id !in es
    ensures AddAllowed(es, cfg, e) <==> TreeOk(es[id := e], cfg)
  {
    var es' := es[id := e];
    if AddAllowed(es, cfg, e) { AddKeepsTree(es, cfg, id, e); }
    if TreeOk(es', cfg) {
      assert ParentOk(es', id) && Shallow(es', id);
      Acyclic(es', id, 1);
      assert Up(es', Some(id), 1) == e.parent;
      assert PlaceError(es, e.lib, e.parent).None?;
      AddedFits(es, cfg, id, e);
      DistinctMeansNoClash(es, cfg.upper, id, e);
      DistinctMeansNoClash(es, cfg.lower, id, e);
    }
  }

  lemma {:induction false} FirstMeeting(es: Entries, at: Option<nat>, e: nat, j: nat) returns (k: nat)
    requires Up(es, at, j) == Some(e)
    ensures Up(es, at, k) == Some(e) && forall i: nat :: i < k ==> Up(es, at, i) != Some(e)
    decreases j
  {
    if i: nat :| i < j && Up(es, at, i) == Some(e) { k := FirstMeeting(es, at, e, i); } else { k := j; }
  }

  /** Hanging an entry below itself makes it its own ancestor. */
  lemma MovedIntoItself(es: Entries, id: nat, e: Entry, j: nat)
    requires Closed(es) && id in es && (e.parent.Some? ==> e.parent.value in es)
    requires Up(es, e.parent, j) == Some(id) && forall i: nat :: i < j ==> Up(es, e.parent, i) != Some(id)
    ensures Up(es[id := e], Some(id), j + 1) == Some(id)
  {
    forall i: nat | i < j && Up(es, e.parent, i).Some?
      ensures Up(es, e.parent, i).value in es && Up(es, e.parent, i).value != id
    {
      UpInside(es, e.parent.value, i);
    }
    UpFrame(es, es[id := e], e.parent, j);
  }

  /** Below an entry that hangs under `depth` folders now, every folder of its subtree lies that much deeper. */
  lemma MovedWalk(es: Entries, id: nat, e: Entry, x: nat, k: nat, j: nat)
    requires Forest(es) && id in es && (e.parent.Some? ==> e.parent.value in es) && !Below(es, e.parent, id)
    requires x in es && Up(es, Some(x), k) == Some(id)
    ensures Up(es[id := e], Some(x), k + 1 + j) == Up(es, e.parent, j)
  {
    var es' := es[id := e];
    forall i: nat | i < k && Up(es, Some(x), i).Some?
      ensures Up(es, Some(x), i).value in es && Up(es, Some(x), i).value != id
    {
      UpInside(es, x, i);
      if Up(es, Some(x), i) == Some(id) {
        UpAdd(es, Some(x), i, k - i);
        Acyclic(es, id, k - i);
      }
    }
    UpFrame(es, es', Some(x), k);
    forall i: nat | i < j && Up(es, e.parent, i).Some?
      ensures Up(es, e.parent, i).value in es && Up(es, e.parent, i).value != id
    {
      UpInside(es, e.parent.value, i);
    }
    UpFrame(es, es', e.parent, j);
    UpAdd(es', Some(x), k, j + 1);
  }

  lemma MovedFits(es: Entries, cfg: Settings, id: nat, e: Entry)
    requires TreeOk(es, cfg) && id in es && e.lib == es[id].lib && e.content == es[id].content
    requires PlaceError(es, e.lib, e.parent).None? && !Below(es, e.parent, id) && Forest(es[id := e])
    ensures Fits(es, Some(id), e.IsFolder(), Depth(es, e.parent, MAX_FOLDER_DEPTH))
  {
    var d := Depth(es, e.parent, MAX_FOLDER_DEPTH);
    PlaceDepth(es, e.lib, e.parent);
    DepthReachesRoot(es, e.parent, MAX_FOLDER_DEPTH);
    forall x, k: nat | x in es && es[x].IsFolder() && Up(es, Some(x), k) == Some(id)
      ensures d + k + 1 <= MAX_FOLDER_DEPTH
    {
      assert Shallow(es, x) && Shallow(es[id := e], x);
      if k >= MAX_FOLDER_DEPTH { UpPastRoot(es, Some(x), MAX_FOLDER_DEPTH, k); }
      if d + k + 1 > MAX_FOLDER_DEPTH { MovedWalk(es, id, e, x, k, MAX_FOLDER_DEPTH - k - 1); }
    }
  }

  /** A renamed or moved entry is let through exactly when the entries are still a forest with distinct names. */
  lemma EditAllowedIff(es: Entries, cfg: Settings, id: nat, e: Entry)
    requires TreeOk(es, cfg) && id in es && e.lib == es[id].lib && e.content == es[id].content
    ensures EditAllowed(es, cfg, id, e) <==> TreeOk(es[id := e], cfg)
  {
    var es' := es[id := e];
    if EditAllowed(es, cfg, id, e) { EditKeepsTree(es, cfg, id, e); }
    if TreeOk(es', cfg) {
      assert ParentOk(es', id) && PlaceError(es, e.lib, e.parent).None?;
      if j: nat :| Up(es, e.parent, j) == Some(id) {
        var k := FirstMeeting(es, e.parent, id, j);
        MovedIntoItself(es, id, e, k);
        Acyclic(es', id, k + 1);
      }
      MovedFits(es, cfg, id, e);
      DistinctMeansNoClash(es, cfg.upper, id, e);
      DistinctMeansNoClash(es, cfg.lower, id, e);
    }
  }

  /** A tree told from its entries: parents, depths, and names under both case foldings. */
  ghost predicate IsTree(es: Entries, cfg: Settings) {
    && (forall x {:trigger es[x].parent} :: x in es && es[x].parent.Some? ==>
          var p := es[x].parent.value; p in es && es[p].content.None? && es[p].lib == es[x].lib)
    && (forall x {:trigger Up(es, Some(x), 5)} :: x in es && es[x].content.None? ==> Up(es, Some(x), 5) == None)
    && (forall x {:trigger Up(es, Some(x), 6)} :: x in es && es[x].content.Some? ==> Up(es, Some(x), 6) == None)
    && (forall x, y :: x in es && y in es && x != y && Siblings(es, x, y) ==>
          cfg.upper(es[x].name) != cfg.upper(es[y].name) && cfg.lower(es[x].name) != cfg.lower(es[y].name))
  }

  predicate Siblings(es: Entries, x: nat, y: nat)
    requires x in es && y in es
  {
    es[x].lib == es[y].lib && es[x].parent == es[y].parent
  }

  lemma IsTreeIff(es: Entries, cfg: Settings)
    ensures IsTree(es, cfg) <==> TreeOk(es, cfg)
  {
    if TreeOk(es, cfg) {
      forall x | x in es
        ensures Up(es, Some(x), if es[x].content.None? then 5 else 6) == None
        ensures es[x].parent.Some? ==>
                  var p := es[x].parent.value; p in es && es[p].content.None? && es[p].lib == es[x].lib
      {
        assert ParentOk(es, x) && Shallow(es, x);
      }
    }
    if IsTree(es, cfg) {
      forall x | x in es ensures ParentOk(es, x) && Shallow(es, x) {
        assert es[x].parent == es[x].parent && Reach(es[x]) == if es[x].content.None? then 5 else 6;
        assert Up(es, Some(x), 5) == Up(es, Some(x), 5) && Up(es, Some(x), 6) == Up(es, Some(x), 6);
      }
      assert NamesDistinct(es, cfg.upper) && NamesDistinct(es, cfg.lower) by {
        forall x, y | x in es && y in es && x != y && es[x].lib == es[y].lib && es[x].parent == es[y].parent
          ensures cfg.upper(es[x].name) != cfg.upper(es[y].name) && cfg.lower(es[x].name) != cfg.lower(es[y].name)
        {
          assert Siblings(es, x, y);
        }
      }
    }
  }

  lemma TreeIffAllowed(es: Entries, cfg: Settings, id: nat, e: Entry)
    requires TreeOk(es, cfg)
    ensures id !in es ==> (IsTree(es[id := e], cfg) <==> AddAllowed(es, cfg, e))
    ensures id in es && e.lib == es[id].lib && e.content == es[id].content ==>
            (IsTree(es[id := e], cfg) <==> EditAllowed(es, cfg, id, e))
  {
    IsTreeIff(es[id := e], cfg);
    if id !in es {
      AddAllowedIff(es, cfg, id, e);
    } else if e.lib == es[id].lib && e.content == es[id].content {
      EditAllowedIff(es, cfg, id, e);
    }
  }

  lemma StayingIsAllowed(es: Entries, cfg: Settings, id: nat)
    requires TreeOk(es, cfg) && id in es
    ensures LocationError(es, cfg, es[id].lib, es[id].name, es[id].parent, Some(id), es[id].IsFolder()).None?
  {
    assert es[id := es[id]] == es;
    EditAllowedIff(es, cfg, id, es[id]);
  }

  // ---- names --------------------------------------------------------------------------------------

  /** A name that may be given, once trimmed; a document's ends in `.pdf`, in whatever case. */
  predicate GoodName(raw: string, document: bool) {
    var name := Strip(raw);
    && 1 <= |name| <= 255 && name != "." && name != ".."
    && (forall i :: 0 <= i < |name| ==> name[i] as int >= 32 && name[i] != '/' && name[i] != '\\')
    && (document ==>
          && |name| >= 4 && name[|name| - 4] == '.' && (name[|name| - 3] == 'p' || name[|name| - 3] == 'P')
          && (name[|name| - 2] == 'd' || name[|name| - 2] == 'D')
          && (name[|name| - 1] == 'f' || name[|name| - 1] == 'F'))
  }

  lemma NameIff(raw: string, document: bool)
    ensures NameValue(raw, document) == if GoodName(raw, document) then Some(Strip(raw)) else None
  {
    var name := Strip(raw);
    if forall i :: 0 <= i < |name| ==> name[i] as int >= 32 && name[i] != '/' && name[i] != '\\' {
      forall c | c in name ensures !(c as int < 32 || c == '/' || c == '\\') {
        var i :| 0 <= i < |name| && name[i] == c;
      }
    } else {
      var i :| 0 <= i < |name| && !(name[i] as int >= 32 && name[i] != '/' && name[i] != '\\');
      assert name[i] in name;
    }
  }

  // ---- operations: accepted exactly when, and then exactly so ---------------------------------------

  /** The library's row with the next revision and the given usage. */
  function NextRow(s: Store, lib: nat, usage: int): Library
    requires lib in s.libs
  {
    s.libs[lib].(revision := s.libs[lib].revision + 1, usage := usage)
  }

  /** A folder is created exactly if the library is there, the name is good, and the entries stay a tree. */
  lemma CreateFolderExactly(s: Store, cfg: Settings, lib: nat, id: nat, raw: string, parent: Option<nat>)
    requires Valid(s, cfg)
    ensures var r := CreateFolder(s, cfg, lib, id, raw, parent);
            var e := Entry(lib, parent, Strip(raw), None);
            && (r.Ok? <==> lib in s.libs && GoodName(raw, false) && id !in s.entries && IsTree(s.entries[id := e], cfg))
            && (r.Ok? ==> r.value == s.(entries := s.entries[id := e],
                                        libs := s.libs[lib := NextRow(s, lib, s.libs[lib].usage)]))
  {
    NameIff(raw, false);
    TreeIffAllowed(s.entries, cfg, id, Entry(lib, parent, Strip(raw), None));
  }

  /** What an accepted upload changes. */
  lemma UploadEffect(
      s: Store, cfg: Settings, lib: nat, id: nat, content: nat, raw: string, parent: Option<nat>, size: nat,
      sha: string, now: int)
    requires Upload(s, cfg, lib, id, content, raw, parent, size, sha, now).Ok?
    ensures lib in s.libs && GoodName(raw, true)
    ensures Upload(s, cfg, lib, id, content, raw, parent, size, sha, now).value ==
            s.(entries := s.entries[id := Entry(lib, parent, Strip(raw), Some(content))],
               libs := s.libs[lib := NextRow(s, lib, s.libs[lib].usage + size)],
               contents := s.contents[content := Content(lib, size, sha)],
               files := s.files[StorageKey(lib, content) := now], issued := s.issued + {content})
  {
    NameIff(raw, true);
  }

  /**
   A document is uploaded exactly if also its bytes are not too many, its identities are new, and the policy permits the
   usage it leads to, which an empty upload need not ask for.
   */
  lemma UploadExactly(
      s: Store, cfg: Settings, lib: nat, id: nat, content: nat, raw: string, parent: Option<nat>, size: nat,
      sha: string, now: int)
    requires Valid(s, cfg)
    ensures var r := Upload(s, cfg, lib, id, content, raw, parent, size, sha, now);
            var e := Entry(lib, parent, Strip(raw), Some(content));
            && (r.Ok? <==>
                  && lib in s.libs && GoodName(raw, true) && id !in s.entries && IsTree(s.entries[id := e], cfg)
                  && size <= cfg.maxFileBytes && content !in s.issued
                  && (size == 0 || Permits(s, cfg, lib, s.libs[lib].usage + size)))
            && (r.Ok? ==>
                  r.value == s.(entries := s.entries[id := e],
                                libs := s.libs[lib := NextRow(s, lib, s.libs[lib].usage + size)],
                                contents := s.contents[content := Content(lib, size, sha)],
                                files := s.files[StorageKey(lib, content) := now],
                                issued := s.issued + {content}))
  {
    var e := Entry(lib, parent, Strip(raw), Some(content));
    if Upload(s, cfg, lib, id, content, raw, parent, size, sha, now).Ok? {
      UploadEffect(s, cfg, lib, id, content, raw, parent, size, sha, now);
    }
    NameIff(raw, true);
    TreeIffAllowed(s.entries, cfg, id, e);
    if lib in s.libs { QuotaIsPermitted(s, cfg, lib, s.libs[lib].usage + size); }
  }

  /** The entry renamed, if a name is given, and moved, if a move is asked for. */
  function Moved(e: Entry, raw: Option<string>, move: bool, target: Option<nat>): Entry {
    Entry(e.lib, if move then target else e.parent, if raw.Some? then Strip(raw.value) else e.name, e.content)
  }

  /** What an accepted edit changes. */
  lemma EditEffect(
      s: Store, cfg: Settings, lib: nat, id: nat, raw: Option<string>, move: bool, target: Option<nat>)
    requires Edit(s, cfg, lib, id, raw, move, target).Ok?
    ensures lib in s.libs && id in s.entries && s.entries[id].lib == lib
    ensures var e := Moved(s.entries[id], raw, move, target);
            Edit(s, cfg, lib, id, raw, move, target).value ==
            if e == s.entries[id] then s
            else s.(entries := s.entries[id := e], libs := s.libs[lib := NextRow(s, lib, s.libs[lib].usage)])
  {
    if raw.Some? { NameIff(raw.value, s.entries[id].content.Some?); }
  }

  /** The checks of an edit are those of the place it leads to; an entry that stays as it is passes them. */
  lemma EditChecks(
      s: Store, cfg: Settings, lib: nat, id: nat, raw: Option<string>, move: bool, target: Option<nat>)
    requires lib in s.libs && id in s.entries && s.entries[id].lib == lib && ParentOk(s.entries, id)
    requires raw.Some? ==> GoodName(raw.value, s.entries[id].content.Some?)
    ensures var e := Moved(s.entries[id], raw, move, target);
            && (EditAllowed(s.entries, cfg, id, e) ==> Edit(s, cfg, lib, id, raw, move, target).Ok?)
            && (Edit(s, cfg, lib, id, raw, move, target).Ok? ==>
                  e == s.entries[id] || EditAllowed(s.entries, cfg, id, e))
  {
    if raw.Some? { NameIff(raw.value, s.entries[id].content.Some?); }
  }

  lemma EditNeeds(
      s: Store, cfg: Settings, lib: nat, id: nat, raw: Option<string>, move: bool, target: Option<nat>)
    requires Edit(s, cfg, lib, id, raw, move, target).Ok?
    ensures lib in s.libs && id in s.entries && s.entries[id].lib == lib
    ensures raw.Some? ==> GoodName(raw.value, s.entries[id].content.Some?)
  {
    if raw.Some? { NameIff(raw.value, s.entries[id].content.Some?); }
  }

  lemma EditIsAllowedIff(
      s: Store, cfg: Settings, lib: nat, id: nat, raw: Option<string>, move: bool, target: Option<nat>)
    requires TreeOk(s.entries, cfg)
    ensures Edit(s, cfg, lib, id, raw, move, target).Ok? <==>
            && lib in s.libs && id in s.entries && s.entries[id].lib == lib
            && (raw.Some? ==> GoodName(raw.value, s.entries[id].content.Some?))
            && IsTree(s.entries[id := Moved(s.entries[id], raw, move, target)], cfg)
  {
    if Edit(s, cfg, lib, id, raw, move, target).Ok? { EditNeeds(s, cfg, lib, id, raw, move, target); }
    if lib in s.libs && id in s.entries && s.entries[id].lib == lib {
      var e := Moved(s.entries[id], raw, move, target);
      assert ParentOk(s.entries, id);
      TreeIffAllowed(s.entries, cfg, id, e);
      if e == s.entries[id] { assert s.entries[id := e] == s.entries; }
      if raw.Some? ==> GoodName(raw.value, s.entries[id].content.Some?) {
        EditChecks(s, cfg, lib, id, raw, move, target);
      }
    }
  }

  /**
   An entry is renamed or moved exactly if it is in the library, the new name is good for its kind, and the entries
   stay a tree; an edit that changes nothing leaves the revision alone.
   */
  lemma EditExactly(
      s: Store, cfg: Settings, lib: nat, id: nat, raw: Option<string>, move: bool, target: Option<nat>)
    requires Valid(s, cfg)
    ensures var r := Edit(s, cfg, lib, id, raw, move, target);
            && (r.Ok? <==>
                  && lib in s.libs && id in s.entries && s.entries[id].lib == lib
                  && (raw.Some? ==> GoodName(raw.value, s.entries[id].content.Some?))
                  && IsTree(s.entries[id := Moved(s.entries[id], raw, move, target)], cfg))
            && (r.Ok? ==>
                  var e := Moved(s.entries[id], raw, move, target);
                  r.value == if e == s.entries[id] then s
                      else s.(entries := s.entries[id := e],
                              libs := s.libs[lib := NextRow(s, lib, s.libs[lib].usage)]))
  {
    EditIsAllowedIff(s, cfg, lib, id, raw, move, target);
    if Edit(s, cfg, lib, id, raw, move, target).Ok? { EditEffect(s, cfg, lib, id, raw, move, target); }
  }

  /**
   A document's bytes are replaced exactly if they are not too many, are new, and do not push usage past the policy.
   */
  lemma ReplaceExactly(s: Store, cfg: Settings, lib: nat, id: nat, content: nat, size: nat, sha: string, now: int)
    requires Valid(s, cfg)
    ensures var r := Replace(s, cfg, lib, id, content, size, sha, now);
            && (r.Ok? <==>
                  && lib in s.libs && id in s.entries && s.entries[id].lib == lib && s.entries[id].content.Some?
                  && size <= cfg.maxFileBytes && content !in s.issued
                  && var before := s.contents[s.entries[id].content.value].size;
                  && (size <= before || Permits(s, cfg, lib, s.libs[lib].usage - before + size)))
            && (r.Ok? ==>
                  && s.entries[id].content.value in s.contents
                  && var before := s.contents[s.entries[id].content.value].size;
                  r.value == s.(entries := s.entries[id := s.entries[id].(content := Some(content))],
                                libs := s.libs[lib := NextRow(s, lib, s.libs[lib].usage - before + size)],
                                contents := s.contents[content := Content(lib, size, sha)],
                                files := s.files[StorageKey(lib, content) := now],
                                issued := s.issued + {content}))
  {
    if lib in s.libs && id in s.entries && s.entries[id].lib == lib && s.entries[id].content.Some? {
      StayingIsAllowed(s.entries, cfg, id);
      QuotaIsPermitted(s, cfg, lib,
          s.libs[lib].usage - s.contents[s.entries[id].content.value].size + size);
    }
  }

  /** Following parents from `x` leads to `id`, if need be in no step at all. */
  ghost predicate LiesBelow(es: Entries, x: nat, id: nat) {
    exists k: nat :: Up(es, Some(x), k) == Some(id)
  }

  /**
   Deleting takes the entry and everything at any distance below it, and nothing else, off the tree and their sizes off
   the usage; content rows and files are left to the collection.
   */
  lemma DeleteExactly(s: Store, cfg: Settings, lib: nat, id: nat)
    requires Valid(s, cfg)
    ensures var r := Delete(s, lib, id);
            && (r.Ok? <==> lib in s.libs && id in s.entries && s.entries[id].lib == lib)
            && (r.Ok? ==>
                  && (forall x :: x in r.value.entries <==> x in s.entries && !LiesBelow(s.entries, x, id))
                  && (forall x :: x in r.value.entries ==> r.value.entries[x] == s.entries[x])
                  && lib in r.value.libs
                  && r.value.libs == s.libs[lib := NextRow(s, lib, r.value.libs[lib].usage)]
                  && r.value.libs[lib].usage == TotalSize(r.value.entries, s.contents, Members(r.value.entries, lib))
                  && r.value == s.(entries := r.value.entries, libs := r.value.libs))
  {
    var r := Delete(s, lib, id);
    if r.Ok? {
      DeleteKeepsValid(s, cfg, lib, id);
      forall x | x in s.entries ensures x in Subtree(s.entries, id) <==> LiesBelow(s.entries, x, id) { }
      assert r.value.contents == s.contents && UsageOk(r.value) && lib in r.value.libs;
    }
  }

  /** A library is renamed exactly if the name is good; giving it the name it has leaves the revision alone. */
  lemma RenameExactly(s: Store, lib: nat, raw: string)
    ensures var r := RenameLibrary(s, lib, raw);
            && (r.Ok? <==> lib in s.libs && GoodName(raw, false))
            && (r.Ok? ==>
                  r.value == if s.libs[lib].name == Strip(raw) then s
                      else s.(libs := s.libs[lib := NextRow(s, lib, s.libs[lib].usage).(name := Strip(raw))]))
  {
    NameIff(raw, false);
  }

  /**
   Quotas are set exactly if the values given are within bounds. From then on the policy permits the department's own
   library, and the libraries of its stations, exactly the values given; a value not given, and every other department,
   is permitted what it was.
   */
  lemma QuotasExactly(
      s: Store, cfg: Settings, dept: nat, departmentBytes: Option<int>, stationBytes: Option<int>, lib: nat, usage: int)
    requires lib in s.libs
    ensures var r := SetQuotas(s, cfg, dept, departmentBytes, stationBytes);
            && (r.Ok? <==>
                  && (departmentBytes.Some? ==> 0 <= departmentBytes.value <= cfg.maxQuotaBytes)
                  && (stationBytes.Some? ==> 0 <= stationBytes.value <= cfg.maxQuotaBytes))
            && (r.Ok? ==>
                  && r.value == s.(policies := r.value.policies)
                  && var given := if s.libs[lib].station.Some? then stationBytes else departmentBytes;
                  && (s.libs[lib].dept == dept && given.Some? ==>
                        (Permits(r.value, cfg, lib, usage) <==> usage <= given.value))
                  && (s.libs[lib].dept != dept || given.None? ==>
                        (Permits(r.value, cfg, lib, usage) <==> Permits(s, cfg, lib, usage))))
  {
  }

  /** Some entry or some pin still names the content row. */
  ghost predicate InUse(s: Store, content: nat) {
    (exists x :: x in s.entries && s.entries[x].content == Some(content))
    || (exists k :: k in s.pins && s.pins[k] == content)
  }

  /**
   Collecting takes away exactly a row that is there and not in use, and puts its file up for removal; a finished
   removal takes exactly that file.
   */
  lemma CollectExactly(s: Store, content: nat, removed: bool)
    ensures var r := Collect(s, content);
            && (r.Ok? <==> content in s.contents)
            && (r.Ok? && InUse(s, content) ==> r.value == s)
            && (r.Ok? && !InUse(s, content) ==>
                  && var key := StorageKey(s.contents[content].lib, content);
                  && r.value == s.(contents := s.contents - {content}, unlinking := s.unlinking + {key})
                  && FinishUnlink(r.value, key, removed) ==
                     r.value.(unlinking := r.value.unlinking - {key},
                              files := if removed then s.files - {key} else s.files))
  {
  }

  /** Reconciling keeps a file exactly if a content row of its library owns it or it is not older than the cut-off. */
  lemma ReconcileExactly(s: Store, cutoff: int, key: StorageKey)
    ensures var s' := Reconcile(s, cutoff);
            && s' == s.(files := s'.files)
            && (key in s'.files <==>
                  && key in s.files
                  && ((key.content in s.contents && s.contents[key.content].lib == key.lib) || s.files[key] >= cutoff))
            && (key in s'.files ==> s'.files[key] == s.files[key])
  {
  }

  // ---- revisions ----------------------------------------------------------------------------------

  /** The library reads the same in both stores: its row, its entries and their content. */
  ghost predicate SameLibrary(s: Store, s': Store, lib: nat) {
    && lib in s.libs && lib in s'.libs && s'.libs[lib].(usage := s.libs[lib].usage) == s.libs[lib]
    && (forall x {:trigger x in s.entries} {:trigger x in s'.entries} ::
          (x in s.entries && s.entries[x].lib == lib <==> x in s'.entries && s'.entries[x].lib == lib))
    && (forall x {:trigger s.entries[x]} :: x in s.entries && s.entries[x].lib == lib ==>
          && x in s'.entries && s'.entries[x] == s.entries[x]
          && (s.entries[x].content.Some? ==>
                var c := s.entries[x].content.value;
                c in s.contents && c in s'.contents && s'.contents[c] == s.contents[c]))
  }

  lemma SameIds(s: Store, s': Store, lib: nat)
    requires SameLibrary(s, s', lib)
    ensures FolderIds(s', lib) == FolderIds(s, lib) && DocumentIds(s', lib) == DocumentIds(s, lib)
  {
    forall x
      ensures x in FolderIds(s', lib) <==> x in FolderIds(s, lib)
      ensures x in DocumentIds(s', lib) <==> x in DocumentIds(s, lib)
    {
      assert x in s.entries && s.entries[x].lib == lib <==> x in s'.entries && s'.entries[x].lib == lib;
      assert x in s.entries && s.entries[x].lib == lib ==> s'.entries[x] == s.entries[x];
    }
  }

  lemma SameFolderRecords(es: Entries, es': Entries, ids: seq<nat>)
    requires forall x :: x in ids ==> x in es && x in es' && es'[x] == es[x]
    ensures FolderRecords(es', ids) == FolderRecords(es, ids)
  {
  }

  lemma SameDocumentRecords(s: Store, s': Store, ids: seq<nat>)
    requires forall x :: x in ids ==> IsDocument(s, x) && IsDocument(s', x) && RecordOf(s', x) == RecordOf(s, x)
    ensures DocumentRecords(s', ids) == DocumentRecords(s, ids)
  {
  }

  lemma SameLibrarySnapshot(s: Store, s': Store, lib: nat)
    requires ReferencesOk(s) && ReferencesOk(s') && SameLibrary(s, s', lib)
    ensures SnapshotOf(s', lib) == SnapshotOf(s, lib)
  {
    SameIds(s, s', lib);
    forall x | x in Ordered(FolderIds(s, lib))
      ensures x in s.entries && x in s'.entries && s'.entries[x] == s.entries[x]
    {
      assert x in FolderIds(s, lib);
    }
    forall x | x in Ordered(DocumentIds(s, lib))
      ensures IsDocument(s, x) && IsDocument(s', x) && RecordOf(s', x) == RecordOf(s, x)
    {
      assert x in DocumentIds(s, lib) && x in DocumentIds(s', lib);
    }
    SameFolderRecords(s.entries, s'.entries, Ordered(FolderIds(s, lib)));
    SameDocumentRecords(s, s', Ordered(DocumentIds(s, lib)));
  }

  /** Another library's entries, a fresh content row: this library reads the same. */
  lemma ElsewhereIsSame(s: Store, s': Store, other: nat, lib: nat)
    requires ReferencesOk(s) && lib in s.libs && lib in s'.libs && lib != other && s'.libs[lib] == s.libs[lib]
    requires forall x :: x in s.entries && s.entries[x].lib != other ==>
             x in s'.entries && s'.entries[x] == s.entries[x]
    requires forall x :: x in s'.entries && s'.entries[x].lib != other ==>
             x in s.entries && s'.entries[x] == s.entries[x]
    requires ContentsGrow(s, s')
    ensures SameLibrary(s, s', lib)
  {
  }

  /** Either the revision moves on by one, or the library reads the same. */
  ghost predicate Tracked(s: Store, s': Store, lib: nat) {
    && lib in s.libs && lib in s'.libs
    && s'.libs[lib].dept == s.libs[lib].dept && s'.libs[lib].station == s.libs[lib].station
    && (s'.libs[lib].revision == s.libs[lib].revision + 1 || SameLibrary(s, s', lib))
  }

  lemma UntouchedIsSame(s: Store, s': Store, lib: nat)
    requires ReferencesOk(s) && lib in s.libs && lib in s'.libs && s'.libs[lib] == s.libs[lib]
    requires s'.entries == s.entries && s'.contents == s.contents
    ensures SameLibrary(s, s', lib)
  {
  }

  lemma CreateFolderTracked(s: Store, cfg: Settings, c: Command, lib: nat)
    requires Valid(s, cfg) && lib in s.libs && c.CreateFolderCmd?
    ensures Tracked(s, Step(s, cfg, c), lib)
  {
    CreateFolderExactly(s, cfg, c.lib, c.id, c.name, c.parent);
    if c.lib != lib { ElsewhereIsSame(s, Step(s, cfg, c), c.lib, lib); }
  }

  lemma EditElsewhere(s: Store, lib: nat, id: nat, e: Entry, row: Library, other: nat)
    requires ReferencesOk(s) && lib in s.libs && other in s.libs && other != lib
    requires id in s.entries && s.entries[id].lib == lib && e.lib == lib
    ensures SameLibrary(s, s.(entries := s.entries[id := e], libs := s.libs[lib := row]), other)
  {
    ElsewhereIsSame(s, s.(entries := s.entries[id := e], libs := s.libs[lib := row]), lib, other);
  }

  lemma EditedIsTracked(s: Store, cfg: Settings, c: Command, lib: nat)
    requires Valid(s, cfg) && lib in s.libs && c.EditCmd?
    ensures var r := Edit(s, cfg, c.lib, c.id, c.rename, c.move, c.target); r.Ok? ==> Tracked(s, r.value, lib)
  {
    var r := Edit(s, cfg, c.lib, c.id, c.rename, c.move, c.target);
    if r.Ok? {
      EditEffect(s, cfg, c.lib, c.id, c.rename, c.move, c.target);
      if r.value == s {
        UntouchedIsSame(s, s, lib);
      } else if c.lib != lib {
        var e := Moved(s.entries[c.id], c.rename, c.move, c.target);
        EditElsewhere(s, c.lib, c.id, e, NextRow(s, c.lib, s.libs[c.lib].usage), lib);
      }
    }
  }

  lemma EditTracked(s: Store, cfg: Settings, c: Command, lib: nat)
    requires Valid(s, cfg) && lib in s.libs && c.EditCmd?
    ensures Tracked(s, Step(s, cfg, c), lib)
  {
    EditedIsTracked(s, cfg, c, lib);
    if Edit(s, cfg, c.lib, c.id, c.rename, c.move, c.target).Err? { UntouchedIsSame(s, s, lib); }
  }

  lemma UploadTracked(s: Store, cfg: Settings, c: Command, lib: nat)
    requires Valid(s, cfg) && lib in s.libs && c.UploadCmd?
    ensures Tracked(s, Step(s, cfg, c), lib)
  {
    UploadExactly(s, cfg, c.lib, c.id, c.content, c.name, c.parent, c.size, c.sha, c.now);
    if c.lib != lib { ElsewhereIsSame(s, Step(s, cfg, c), c.lib, lib); }
  }

  lemma ReplaceTracked(s: Store, cfg: Settings, c: Command, lib: nat)
    requires Valid(s, cfg) && lib in s.libs && c.ReplaceCmd?
    ensures Tracked(s, Step(s, cfg, c), lib)
  {
    ReplaceExactly(s, cfg, c.lib, c.id, c.content, c.size, c.sha, c.now);
    if c.lib != lib { ElsewhereIsSame(s, Step(s, cfg, c), c.lib, lib); }
  }

  lemma DeleteTracked(s: Store, cfg: Settings, c: Command, lib: nat)
    requires Valid(s, cfg) && lib in s.libs && c.DeleteCmd?
    ensures Tracked(s, Step(s, cfg, c), lib)
  {
    var r := Delete(s, c.lib, c.id);
    if r.Ok? && c.lib != lib {
      DeleteKeepsTree(s.entries, cfg, c.id);
      ElsewhereIsSame(s, r.value, c.lib, lib);
    }
  }

  lemma RenameTracked(s: Store, cfg: Settings, c: Command, lib: nat)
    requires Valid(s, cfg) && lib in s.libs && c.RenameCmd?
    ensures Tracked(s, Step(s, cfg, c), lib)
  {
    var s' := Step(s, cfg, c);
    RenameExactly(s, c.lib, c.name);
    if lib != c.lib || s' == s { UntouchedIsSame(s, s', lib); }
  }

  lemma TreeStepTracked(s: Store, cfg: Settings, c: Command, lib: nat)
    requires Valid(s, cfg) && lib in s.libs && IsTreeCommand(c)
    ensures Tracked(s, Step(s, cfg, c), lib)
  {
    match c
    case CreateFolderCmd(_, _, _, _) => CreateFolderTracked(s, cfg, c, lib);
    case EditCmd(_, _, _, _, _) => EditTracked(s, cfg, c, lib);
    case RenameCmd(_, _) => RenameTracked(s, cfg, c, lib);
    case UploadCmd(_, _, _, _, _, _, _, _) => UploadTracked(s, cfg, c, lib);
    case ReplaceCmd(_, _, _, _, _, _) => ReplaceTracked(s, cfg, c, lib);
    case DeleteCmd(_, _) => DeleteTracked(s, cfg, c, lib);
  }

  lemma CollectTracked(s: Store, cfg: Settings, c: Command, lib: nat)
    requires Valid(s, cfg) && lib in s.libs && c.CollectCmd?
    ensures SameLibrary(s, Step(s, cfg, c), lib)
  {
    CollectExactly(s, c.content, true);
  }

  /** A store with the same library row, entries and contents. */
  predicate TreeAsBefore(s: Store, s': Store, lib: nat) {
    lib in s.libs && lib in s'.libs && s'.libs[lib] == s.libs[lib] && s'.entries == s.entries
    && s'.contents == s.contents
  }

  lemma PinKeepsTree(s: Store, pub: nat, of: nat, lib: nat)
    requires ReferencesOk(s) && lib in s.libs
    ensures TreeAsBefore(s, Pin(s, pub, of), lib)
  {
    if of in s.libs && pub !in s.frozen {
      FrozenKeepsTree(s, s.frozen[pub := SnapshotOf(s, of)], s.pins + PinsOf(pub, SnapshotOf(s, of).documents), lib);
    }
  }

  lemma FrozenKeepsTree(s: Store, frozen: map<nat, Snapshot>, pins: map<(nat, nat), nat>, lib: nat)
    requires lib in s.libs
    ensures TreeAsBefore(s, s.(frozen := frozen, pins := pins), lib)
  {
  }

  lemma ReleaseKeepsTree(s: Store, pub: nat, lib: nat)
    requires lib in s.libs
    ensures TreeAsBefore(s, Release(s, pub), lib)
  {
  }

  lemma OpeningKeepsTree(s: Store, made: nat, dept: nat, station: Option<nat>, lib: nat)
    requires ReferencesOk(s) && lib in s.libs
    ensures TreeAsBefore(s, Open(s, made, dept, station), lib)
  {
  }

  lemma PublishingTouchesNothing(s: Store, cfg: Settings, c: Command, lib: nat)
    requires ReferencesOk(s) && lib in s.libs && (c.PinCmd? || c.ReleaseCmd? || c.OpenCmd?)
    ensures TreeAsBefore(s, Step(s, cfg, c), lib)
  {
    match c
    case PinCmd(pub, of) => PinKeepsTree(s, pub, of, lib);
    case ReleaseCmd(pub) => ReleaseKeepsTree(s, pub, lib);
    case OpenCmd(made, dept, station) => OpeningKeepsTree(s, made, dept, station, lib);
  }

  lemma QuotasKeepTree(
      s: Store, cfg: Settings, dept: nat, departmentBytes: Option<int>, stationBytes: Option<int>, lib: nat)
    requires lib in s.libs
    ensures TreeAsBefore(s, Settle(s, SetQuotas(s, cfg, dept, departmentBytes, stationBytes)), lib)
  {
  }

  lemma UnlinkKeepsTree(s: Store, key: StorageKey, removed: bool, lib: nat)
    requires lib in s.libs
    ensures TreeAsBefore(s, FinishUnlink(s, key, removed), lib)
  {
  }

  lemma ReconcileKeepsTree(s: Store, cutoff: int, lib: nat)
    requires lib in s.libs
    ensures TreeAsBefore(s, Reconcile(s, cutoff), lib)
  {
  }

  lemma StrayKeepsTree(s: Store, of: nat, content: nat, now: int, lib: nat)
    requires lib in s.libs
    ensures TreeAsBefore(s, Stray(s, of, content, now), lib)
  {
  }

  lemma MaintenanceTouchesNothing(s: Store, cfg: Settings, c: Command, lib: nat)
    requires ReferencesOk(s) && lib in s.libs
    requires c.QuotaCmd? || c.UnlinkCmd? || c.ReconcileCmd? || c.StrayCmd?
    ensures TreeAsBefore(s, Step(s, cfg, c), lib)
  {
    match c
    case QuotaCmd(dept, departmentBytes, stationBytes) =>
      QuotasKeepTree(s, cfg, dept, departmentBytes, stationBytes, lib);
    case UnlinkCmd(key, removed) => UnlinkKeepsTree(s, key, removed, lib);
    case ReconcileCmd(cutoff) => ReconcileKeepsTree(s, cutoff, lib);
    case StrayCmd(of, content, now) => StrayKeepsTree(s, of, content, now, lib);
  }

  lemma OtherStepTracked(s: Store, cfg: Settings, c: Command, lib: nat)
    requires Valid(s, cfg) && lib in s.libs && !IsTreeCommand(c)
    ensures SameLibrary(s, Step(s, cfg, c), lib)
  {
    if c.CollectCmd? {
      CollectTracked(s, cfg, c, lib);
    } else {
      if c.PinCmd? || c.ReleaseCmd? || c.OpenCmd? {
        PublishingTouchesNothing(s, cfg, c, lib);
      } else {
        MaintenanceTouchesNothing(s, cfg, c, lib);
      }
      UntouchedIsSame(s, Step(s, cfg, c), lib);
    }
  }

  /** The revision never falls, and as long as it stays the library reads the same. */
  lemma {:induction false} RevisionTracksChange(s: Store, cfg: Settings, cs: seq<Command>, lib: nat)
    requires Valid(s, cfg) && lib in s.libs
    ensures var s' := Run(s, cfg, cs);
            && lib in s'.libs && s'.libs[lib].revision >= s.libs[lib].revision
            && (s'.libs[lib].revision == s.libs[lib].revision ==> SnapshotOf(s', lib) == SnapshotOf(s, lib))
    decreases |cs|
  {
    if cs != [] {
      var t := Step(s, cfg, cs[0]);
      StepKeepsValid(s, cfg, cs[0]);
      if IsTreeCommand(cs[0]) { TreeStepTracked(s, cfg, cs[0], lib); } else { OtherStepTracked(s, cfg, cs[0], lib); }
      if SameLibrary(s, t, lib) { SameLibrarySnapshot(s, t, lib); }
      RevisionTracksChange(t, cfg, cs[1..], lib);
    }
  }

  // ---- scopes -------------------------------------------------------------------------------------

  /** A library belongs to one station, or to no station and one department. */
  predicate OfScope(row: Library, dept: nat, station: Option<nat>) {
    row.station == station && (station.None? ==> row.dept == dept)
  }

  ghost predicate OnePerScope(s: Store) {
    forall l, m :: l in s.libs && m in s.libs && OfScope(s.libs[l], s.libs[m].dept, s.libs[m].station) ==> l == m
  }

  /** The libraries stay where they belong, and at most one is new. */
  ghost predicate ScopesKept(s: Store, s': Store) {
    forall l :: l in s.libs ==>
      l in s'.libs && s'.libs[l].dept == s.libs[l].dept && s'.libs[l].station == s.libs[l].station
  }

  lemma StepKeepsScopes(s: Store, cfg: Settings, c: Command)
    requires Valid(s, cfg) && OnePerScope(s)
    ensures OnePerScope(Step(s, cfg, c))
  {
    var s' := Step(s, cfg, c);
    if !c.OpenCmd? {
      LibrariesKept(s, cfg, c);
      forall l, m | l in s'.libs && m in s'.libs && OfScope(s'.libs[l], s'.libs[m].dept, s'.libs[m].station)
        ensures l == m
      {
        assert OfScope(s.libs[l], s.libs[m].dept, s.libs[m].station);
      }
    }
  }

  lemma LibrariesKept(s: Store, cfg: Settings, c: Command)
    requires Valid(s, cfg) && !c.OpenCmd?
    ensures Step(s, cfg, c).libs.Keys == s.libs.Keys && ScopesKept(s, Step(s, cfg, c))
  {
    if IsTreeCommand(c) { TreeCommandFrame(s, cfg, c); }
    forall l | l in s.libs
      ensures l in Step(s, cfg, c).libs && Step(s, cfg, c).libs[l].dept == s.libs[l].dept
      ensures Step(s, cfg, c).libs[l].station == s.libs[l].station
    {
      if IsTreeCommand(c) { TreeStepTracked(s, cfg, c, l); } else { OtherStepTracked(s, cfg, c, l); }
    }
  }

  lemma {:induction false} RunKeepsScopes(s: Store, cfg: Settings, cs: seq<Command>)
    requires Valid(s, cfg) && OnePerScope(s)
    ensures OnePerScope(Run(s, cfg, cs))
    decreases |cs|
  {
    if cs != [] {
      StepKeepsValid(s, cfg, cs[0]);
      StepKeepsScopes(s, cfg, cs[0]);
      RunKeepsScopes(Step(s, cfg, cs[0]), cfg, cs[1..]);
    }
  }

  /** However it is reached, a store has at most one library per scope; opening a scope makes it exactly one. */
  lemma OneLibraryPerScope(cfg: Settings, cs: seq<Command>, lib: nat, dept: nat, station: Option<nat>)
    ensures Valid(Empty, cfg)
    ensures OnePerScope(Run(Empty, cfg, cs))
    ensures var s := Run(Empty, cfg, cs);
            lib !in s.libs ==>
            var s' := Open(s, lib, dept, station);
            && (exists l :: l in s'.libs && OfScope(s'.libs[l], dept, station))
            && (forall l :: l in s.libs ==> l in s'.libs && s'.libs[l] == s.libs[l])
            && (forall l :: l in s'.libs && l !in s.libs ==>
                  l == lib && s'.libs[l] == Library(dept, station, "Documents", 0, 0))
  {
    EmptyIsValid(cfg);
    RunKeepsScopes(Empty, cfg, cs);
    var s := Run(Empty, cfg, cs);
    var s' := Open(s, lib, dept, station);
    if lib !in s.libs && s' != s { assert OfScope(s'.libs[lib], dept, station); }
  }

  // ---- pinned documents -----------------------------------------------------------------------------

  /** The document read back is what the store held of it: its name, folder and bytes, and where they are stored. */
  ghost predicate ReadsBack(s: Store, lib: nat, d: FrozenDocument) {
    && d.id in s.entries && s.entries[d.id].lib == lib && s.entries[d.id].content.Some?
    && s.entries[d.id].content.value in s.contents
    && d.name == s.entries[d.id].name && d.folder == s.entries[d.id].parent
    && d.size == s.contents[s.entries[d.id].content.value].size
    && d.sha == s.contents[s.entries[d.id].content.value].sha
    && d.key == StorageKey(lib, s.entries[d.id].content.value)
  }

  /** These are the documents of the library, each once and in order of identity. */
  ghost predicate ReadBack(s: Store, lib: nat, docs: seq<FrozenDocument>) {
    && (forall i :: 0 <= i < |docs| ==> ReadsBack(s, lib, docs[i]))
    && (forall i, j :: 0 <= i < j < |docs| ==> docs[i].id < docs[j].id)
    && (forall x :: x in s.entries && s.entries[x].lib == lib && s.entries[x].content.Some? ==>
          exists i :: 0 <= i < |docs| && docs[i].id == x)
  }

  lemma ExpectedAt(s: Store, lib: nat, i: nat)
    requires ReferencesOk(s) && lib in s.libs && i < |Ordered(DocumentIds(s, lib))|
    ensures var docs, ids := Expected(SnapshotOf(s, lib)), Ordered(DocumentIds(s, lib));
            |docs| == |ids| && docs[i].id == ids[i] && ReadsBack(s, lib, docs[i])
  {
    var ids := Ordered(DocumentIds(s, lib));
    assert ids[i] in DocumentIds(s, lib);
  }

  lemma ExpectedReadsBack(s: Store, lib: nat)
    requires ReferencesOk(s) && lib in s.libs
    ensures ReadBack(s, lib, Expected(SnapshotOf(s, lib)))
  {
    var docs, ids := Expected(SnapshotOf(s, lib)), Ordered(DocumentIds(s, lib));
    assert |docs| == |ids|;
    forall i | 0 <= i < |docs| ensures docs[i].id == ids[i] && ReadsBack(s, lib, docs[i]) { ExpectedAt(s, lib, i); }
    forall x | x in s.entries && s.entries[x].lib == lib && s.entries[x].content.Some?
      ensures exists i :: 0 <= i < |docs| && docs[i].id == x
    {
      assert x in ids;
      var i :| 0 <= i < |ids| && ids[i] == x;
      assert docs[i].id == x;
    }
  }

  /**
   What a pinned publication reads, told from the store at the time of the pin: every document of the library then,
   once, and nothing else, as it was then, whatever has been done to the library since; and its file is still there.
   */
  lemma PinnedDocumentsReadBack(s: Store, cfg: Settings, pub: nat, lib: nat, cs: seq<Command>)
    requires Valid(s, cfg) && lib in s.libs && pub !in s.frozen && ReleaseCmd(pub) !in cs
    ensures Valid(Pin(s, pub, lib), cfg)
    ensures var s' := Run(Pin(s, pub, lib), cfg, cs);
            && FrozenDocuments(s', pub).Ok? && ReadBack(s, lib, FrozenDocuments(s', pub).value)
            && forall d :: d in FrozenDocuments(s', pub).value ==> d.key in s'.files
  {
    PinnedSourceSurvives(s, cfg, pub, lib, cs);
    ExpectedReadsBack(s, lib);
  }

  /** The document's content row is there, in its library. */
  predicate Backed(s: Store, lib: nat, d: DocumentRecord) {
    d.content in s.contents && s.contents[d.content].lib == lib
  }

  /**
   A snapshot is pinned exactly if all its documents have their content rows in its library. It is then frozen as given,
   and the publication pins exactly its documents, each to its content; nobody else's pins change.
   */
  lemma PinExactly(s: Store, pub: nat, snap: Snapshot)
    requires (forall i, j :: 0 <= i < j < |snap.documents| ==> snap.documents[i].id != snap.documents[j].id)
    requires forall x :: (pub, x) !in s.pins
    ensures var r := PinSnapshot(s, pub, snap);
            && (r.Ok? <==> forall d :: d in snap.documents ==> Backed(s, snap.lib, d))
            && (r.Ok? ==>
                  && r.value == s.(frozen := s.frozen[pub := snap], pins := r.value.pins)
                  && (forall d :: d in snap.documents ==>
                        (pub, d.id) in r.value.pins && r.value.pins[(pub, d.id)] == d.content)
                  && (forall x :: (pub, x) in r.value.pins ==> exists d :: d in snap.documents && d.id == x)
                  && (forall k: (nat, nat) :: k.0 != pub ==> (k in r.value.pins <==> k in s.pins))
                  && (forall k :: k in s.pins ==> r.value.pins[k] == s.pins[k]))
  {
    var docs := snap.documents;
    PinsOfContents(pub, docs);
    forall d | d in docs ensures (pub, d.id) in PinsOf(pub, docs) && PinsOf(pub, docs)[(pub, d.id)] == d.content {
      var i :| 0 <= i < |docs| && docs[i] == d;
    }
    forall x | (pub, x) in PinsOf(pub, docs) ensures exists d :: d in docs && d.id == x {
      var i :| 0 <= i < |docs| && docs[i].id == x;
      assert docs[i] in docs;
    }
  }

  /** The document is pinned to its content, whose row still has the recorded size and digest. */
  predicate StillPinned(s: Store, pub: nat, lib: nat, d: DocumentRecord) {
    && (pub, d.id) in s.pins && s.pins[(pub, d.id)] == d.content && d.content in s.contents
    && s.contents[d.content].lib == lib && s.contents[d.content].size == d.size && s.contents[d.content].sha == d.sha
  }

  /**
   A frozen source can be read exactly if its snapshot lists no document twice, the publication pins exactly the listed
   ones, and each is still as recorded.
   */
  lemma ReadsExactly(s: Store, pub: nat)
    ensures FrozenDocuments(s, pub).Ok? <==>
            && pub in s.frozen
            && var snap := s.frozen[pub];
            && (forall i, j :: 0 <= i < j < |snap.documents| ==> snap.documents[i].id != snap.documents[j].id)
            && (forall x :: (pub, x) in s.pins ==> exists d :: d in snap.documents && d.id == x)
            && (forall d :: d in snap.documents ==> StillPinned(s, pub, snap.lib, d))
  {
    if pub in s.frozen {
      var snap := s.frozen[pub];
      forall d ensures Matches(s, pub, snap.lib, d) <==> StillPinned(s, pub, snap.lib, d) { }
      if FrozenDocuments(s, pub).Ok? {
        ThawedAreDistinct(s, pub);
        var read := FrozenDocuments(s, pub).value;
        forall i, j | 0 <= i < j < |snap.documents| ensures snap.documents[i].id != snap.documents[j].id {
          assert read[i].id == snap.documents[i].id && read[j].id == snap.documents[j].id;
        }
        forall x | (pub, x) in s.pins ensures exists d :: d in snap.documents && d.id == x {
          PinnedIsListed(s, pub, x);
        }
      }
      if DistinctIds(snap.documents) { DistinctCount(snap.documents); }
      PinsMatchIds(s, pub);
    }
  }

  lemma PinnedIsListed(s: Store, pub: nat, x: nat)
    requires pub in s.frozen && PinnedIds(s, pub) == IdsOf(s.frozen[pub].documents) && (pub, x) in s.pins
    ensures exists d :: d in s.frozen[pub].documents && d.id == x
  {
    var docs, k: (nat, nat) := s.frozen[pub].documents, (pub, x);
    assert k.1 in PinnedIds(s, pub);
    var i :| 0 <= i < |docs| && docs[i].id == x;
    assert docs[i] in docs;
  }

  lemma PinsMatchIds(s: Store, pub: nat)
    requires pub in s.frozen
    ensures (forall x :: (pub, x) in s.pins ==> exists d :: d in s.frozen[pub].documents && d.id == x)
            && (forall d :: d in s.frozen[pub].documents ==> (pub, d.id) in s.pins) ==>
            PinnedIds(s, pub) == IdsOf(s.frozen[pub].documents)
  {
    var docs := s.frozen[pub].documents;
    if (forall x :: (pub, x) in s.pins ==> exists d :: d in docs && d.id == x)
        && forall d :: d in docs ==> (pub, d.id) in s.pins {
      forall x | x in PinnedIds(s, pub) ensures x in IdsOf(docs) {
        assert (pub, x) in s.pins;
        var d :| d in docs && d.id == x;
        var i :| 0 <= i < |docs| && docs[i] == d;
        assert docs[i].id == x;
      }
      forall x | x in IdsOf(docs) ensures x in PinnedIds(s, pub) {
        var i :| 0 <= i < |docs| && docs[i].id == x;
        var k: (nat, nat) := (pub, docs[i].id);
        assert docs[i] in docs && k in s.pins && k.0 == pub;
      }
    }
  }

  /** The release of a publication drops its pins and its snapshot, and nobody else's. */
  lemma ReleaseExactly(s: Store, pub: nat)
    ensures var s' := Release(s, pub);
            && s' == s.(frozen := s'.frozen, pins := s'.pins)
            && (forall p :: p in s'.frozen <==> p in s.frozen && p != pub)
            && (forall p :: p in s'.frozen ==> s'.frozen[p] == s.frozen[p])
            && (forall k :: k in s'.pins <==> k in s.pins && k.0 != pub)
            && (forall k :: k in s'.pins ==> s'.pins[k] == s.pins[k])
  {
  }
}
