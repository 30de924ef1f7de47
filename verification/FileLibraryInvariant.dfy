/** Every mutation of the file libraries keeps the invariant. */
module FileLibraryInvariant {
  import opened Common
  import opened LibraryTree
  import opened FileLibrary

  // ---- the tree -----------------------------------------------------------------------------------

  /** An entry that clashes with no sibling keeps names distinct. */
  lemma PutKeepsNames(es: Entries, fold: string -> string, id: nat, e: Entry)
    requires NamesDistinct(es, fold)
    requires !SiblingClash(es, fold, e.lib, e.parent, e.name, Some(id))
    ensures NamesDistinct(es[id := e], fold)
  {
  }

  /** A place below a folder of the library lies under at most five folders. */
  lemma PlaceDepth(es: Entries, lib: nat, parent: Option<nat>)
    requires Forest(es) && PlaceError(es, lib, parent).None?
    ensures var d := Depth(es, parent, MAX_FOLDER_DEPTH); d <= MAX_FOLDER_DEPTH && Up(es, parent, d) == None
    ensures Up(es, parent, MAX_FOLDER_DEPTH) == None
  {
    if parent.Some? { assert Shallow(es, parent.value); }
    DepthReachesRoot(es, parent, MAX_FOLDER_DEPTH);
  }

  /** A new entry at an accepted location keeps the tree. */
  lemma AddKeepsTree(es: Entries, cfg: Settings, id: nat, e: Entry)
    requires TreeOk(es, cfg) && id !in es && PlaceError(es, e.lib, e.parent).None?
    requires LocationError(es, cfg, e.lib, e.name, e.parent, None, e.IsFolder()).None?
    requires !SiblingClash(es, cfg.lower, e.lib, e.parent, e.name, None)
    ensures TreeOk(es[id := e], cfg)
  {
    assert Forest(es[id := e]) by {
      PlaceDepth(es, e.lib, e.parent);
      UpPastRoot(es, e.parent, Depth(es, e.parent, MAX_FOLDER_DEPTH), Reach(e) - 1);
      AddKeepsForest(es, id, e);
    }
    PutKeepsNames(es, cfg.upper, id, e);
    PutKeepsNames(es, cfg.lower, id, e);
  }

  /** An entry renamed or moved to an accepted location keeps the tree. */
  lemma EditKeepsTree(es: Entries, cfg: Settings, id: nat, e: Entry)
    requires TreeOk(es, cfg) && id in es && e.lib == es[id].lib && e.content == es[id].content
    requires PlaceError(es, e.lib, e.parent).None?
    requires LocationError(es, cfg, e.lib, e.name, e.parent, Some(id), e.IsFolder()).None?
    requires !SiblingClash(es, cfg.lower, e.lib, e.parent, e.name, Some(id))
    ensures TreeOk(es[id := e], cfg)
  {
    assert Forest(es[id := e]) by {
      PlaceDepth(es, e.lib, e.parent);
      MoveKeepsForest(es, id, e, Depth(es, e.parent, MAX_FOLDER_DEPTH));
    }
    PutKeepsNames(es, cfg.upper, id, e);
    PutKeepsNames(es, cfg.lower, id, e);
  }

  /** Swapping one document's content for another keeps the tree. */
  lemma ReplaceKeepsTree(es: Entries, cfg: Settings, id: nat, content: nat)
    requires TreeOk(es, cfg) && id in es && es[id].content.Some?
    ensures TreeOk(es[id := es[id].(content := Some(content))], cfg)
  {
    var es' := es[id := es[id].(content := Some(content))];
    forall x | x in es ensures ParentOk(es', x) && Shallow(es', x) {
      assert ParentOk(es, x) && Shallow(es, x);
      forall j: nat | j < Reach(es[x]) && Up(es, Some(x), j).Some?
        ensures Up(es, Some(x), j).value in es
      {
        UpInside(es, x, j);
      }
      UpFrame(es, es', Some(x), Reach(es[x]));
    }
  }

  lemma DeleteKeepsTree(es: Entries, cfg: Settings, id: nat)
    requires TreeOk(es, cfg) && id in es
    ensures TreeOk(es - Subtree(es, id), cfg)
    ensures forall x :: x in Subtree(es, id) ==> es[x].lib == es[id].lib
  {
    RemoveKeepsForest(es, id);
    forall x, k: nat | x in es && Up(es, Some(x), k) == Some(id) ensures es[x].lib == es[id].lib {
      UpInside(es, x, k);
    }
  }

  // ---- the counters -------------------------------------------------------------------------------

  ghost predicate ContentsGrow(s: Store, s': Store) {
    forall c :: c in s.contents ==> c in s'.contents && s'.contents[c] == s.contents[c]
  }

  /** A library whose entries did not change keeps its total. */
  lemma UntouchedUsage(s: Store, s': Store, l: nat)
    requires ReferencesOk(s) && ContentsGrow(s, s')
    requires Members(s'.entries, l) == Members(s.entries, l)
    requires forall x :: x in Members(s.entries, l) ==> s'.entries[x] == s.entries[x]
    ensures TotalSize(s'.entries, s'.contents, Members(s'.entries, l)) ==
            TotalSize(s.entries, s.contents, Members(s.entries, l))
  {
    TotalFrame(s.entries, s.contents, s'.entries, s'.contents, Members(s.entries, l));
  }

  /** Putting one entry changes its library's total by the change of that entry's size, and no other total. */
  lemma PutUsage(s: Store, s': Store, lib: nat, id: nat, e: Entry)
    requires ReferencesOk(s) && UsageOk(s) && lib in s.libs && ContentsGrow(s, s')
    requires id in s.entries ==> s.entries[id].lib == lib
    requires e.lib == lib && s'.entries == s.entries[id := e]
    requires lib in s'.libs && s'.libs == s.libs[lib := s'.libs[lib]]
    requires s'.libs[lib].usage ==
             s.libs[lib].usage - SizeOf(s.entries, s.contents, id) + SizeOf(s'.entries, s'.contents, id)
    ensures UsageOk(s')
  {
    forall l | l in s'.libs
      ensures s'.libs[l].usage == TotalSize(s'.entries, s'.contents, Members(s'.entries, l))
    {
      if l == lib {
        PutUsageHere(s, s', lib, id, e);
      } else {
        assert Members(s'.entries, l) == Members(s.entries, l);
        UntouchedUsage(s, s', l);
      }
    }
  }

  lemma PutUsageHere(s: Store, s': Store, lib: nat, id: nat, e: Entry)
    requires ReferencesOk(s) && ContentsGrow(s, s')
    requires id in s.entries ==> s.entries[id].lib == lib
    requires e.lib == lib && s'.entries == s.entries[id := e]
    ensures TotalSize(s'.entries, s'.contents, Members(s'.entries, lib)) ==
            TotalSize(s.entries, s.contents, Members(s.entries, lib))
            - SizeOf(s.entries, s.contents, id) + SizeOf(s'.entries, s'.contents, id)
  {
    var rest := Members(s.entries, lib) - {id};
    assert Members(s'.entries, lib) - {id} == rest;
    TotalRemove(s'.entries, s'.contents, Members(s'.entries, lib), id);
    TotalFrame(s.entries, s.contents, s'.entries, s'.contents, rest);
    if id in s.entries {
      TotalRemove(s.entries, s.contents, Members(s.entries, lib), id);
    } else {
      assert rest == Members(s.entries, lib);
    }
  }

  lemma DeleteUsage(s: Store, s': Store, lib: nat, gone: set<nat>)
    requires ReferencesOk(s) && UsageOk(s) && lib in s.libs && s'.contents == s.contents
    requires gone <= Members(s.entries, lib) && s'.entries == s.entries - gone
    requires lib in s'.libs && s'.libs == s.libs[lib := s'.libs[lib]]
    requires s'.libs[lib].usage == s.libs[lib].usage - TotalSize(s.entries, s.contents, gone)
    ensures UsageOk(s')
  {
    forall l | l in s'.libs
      ensures s'.libs[l].usage == TotalSize(s'.entries, s'.contents, Members(s'.entries, l))
    {
      if l == lib {
        var rest := Members(s.entries, lib) - gone;
        assert Members(s.entries, lib) == gone + rest;
        assert Members(s'.entries, lib) == rest;
        TotalSplit(s.entries, s.contents, gone, rest);
        TotalFrame(s.entries, s.contents, s'.entries, s'.contents, rest);
      } else {
        assert Members(s'.entries, l) == Members(s.entries, l);
        UntouchedUsage(s, s', l);
      }
    }
  }

  // ---- operation by operation -------------------------------------------------------------------

  /** Putting an entry without touching content keeps the invariant once the tree is kept. */
  lemma PutKeepsValid(s: Store, cfg: Settings, lib: nat, id: nat, e: Entry)
    requires Valid(s, cfg) && lib in s.libs && e.lib == lib
    requires if id in s.entries then s.entries[id].lib == lib && e.content == s.entries[id].content else e.IsFolder()
    requires TreeOk(s.entries[id := e], cfg) && Trimmed(e.name)
    ensures Valid(s.(entries := s.entries[id := e], libs := Bumped(s, lib, s.libs[lib].usage)), cfg)
  {
    PutUsage(s, s.(entries := s.entries[id := e], libs := Bumped(s, lib, s.libs[lib].usage)), lib, id, e);
  }

  /** Putting a document with fresh content keeps the invariant once the tree is kept. */
  lemma PutContentKeepsValid(
      s: Store, cfg: Settings, lib: nat, id: nat, e: Entry, content: nat, size: nat, sha: string, now: int)
    requires Valid(s, cfg) && lib in s.libs && e.lib == lib && e.content == Some(content) && content !in s.issued
    requires id in s.entries ==> s.entries[id].lib == lib
    requires TreeOk(s.entries[id := e], cfg) && Trimmed(e.name)
    ensures Valid(WithContent(s, lib, content, size, sha, now).(
                    entries := s.entries[id := e],
                    libs := Bumped(s, lib, s.libs[lib].usage - SizeOf(s.entries, s.contents, id) + size)), cfg)
  {
    var s' := WithContent(s, lib, content, size, sha, now).(
                entries := s.entries[id := e],
                libs := Bumped(s, lib, s.libs[lib].usage - SizeOf(s.entries, s.contents, id) + size));
    assert content !in s.contents;
    assert ReferencesOk(s') && StorageOk(s') by { PutContentReferences(s, s', lib, id, e, content); }
    assert UsageOk(s') by { PutUsage(s, s', lib, id, e); }
  }

  lemma PutContentReferences(s: Store, s': Store, lib: nat, id: nat, e: Entry, content: nat)
    requires ReferencesOk(s) && StorageOk(s) && lib in s.libs && e.lib == lib && e.content == Some(content)
    requires content !in s.issued && content in s'.contents && s'.contents[content].lib == lib
    requires s'.contents == s.contents[content := s'.contents[content]]
    requires s'.files.Keys == s.files.Keys + {StorageKey(lib, content)} && s'.issued == s.issued + {content}
    requires s'.entries == s.entries[id := e] && s'.libs.Keys == s.libs.Keys
    requires s'.unlinking == s.unlinking && s'.pins == s.pins && s'.frozen == s.frozen
    ensures ReferencesOk(s') && StorageOk(s')
  {
    assert content !in s.contents;
  }

  lemma CreateFolderKeepsValid(s: Store, cfg: Settings, lib: nat, id: nat, raw: string, parent: Option<nat>)
    requires Valid(s, cfg)
    ensures var r := CreateFolder(s, cfg, lib, id, raw, parent); r.Ok? ==> Valid(r.value, cfg)
  {
    if CreateFolder(s, cfg, lib, id, raw, parent).Ok? {
      var e := Entry(lib, parent, NameValue(raw, false).value, None);
      StripTrims(raw);
      AddKeepsTree(s.entries, cfg, id, e);
      PutKeepsValid(s, cfg, lib, id, e);
    }
  }

  lemma EditKeepsValid(s: Store, cfg: Settings, lib: nat, id: nat, raw: Option<string>, move: bool, target: Option<nat>)
    requires Valid(s, cfg)
    ensures var r := Edit(s, cfg, lib, id, raw, move, target); r.Ok? ==> Valid(r.value, cfg)
  {
    var r := Edit(s, cfg, lib, id, raw, move, target);
    if r.Ok? && r.value != s {
      var e := r.value.entries[id];
      assert ParentOk(s.entries, id);
      if raw.Some? { StripTrims(raw.value); }
      assert Trimmed(s.entries[id].name);
      EditKeepsTree(s.entries, cfg, id, e);
      PutKeepsValid(s, cfg, lib, id, e);
    }
  }

  lemma DeleteKeepsValid(s: Store, cfg: Settings, lib: nat, id: nat)
    requires Valid(s, cfg)
    ensures var r := Delete(s, lib, id); r.Ok? ==> Valid(r.value, cfg)
  {
    var r := Delete(s, lib, id);
    if r.Ok? {
      assert TreeOk(r.value.entries, cfg) by { DeleteKeepsTree(s.entries, cfg, id); }
      assert UsageOk(r.value) by {
        DeleteKeepsTree(s.entries, cfg, id);
        DeleteUsage(s, r.value, lib, Subtree(s.entries, id));
      }
    }
  }

  lemma UploadKeepsValid(s: Store, cfg: Settings, lib: nat, id: nat, content: nat, raw: string, parent: Option<nat>,
                         size: nat, sha: string, now: int)
    requires Valid(s, cfg)
    ensures var r := Upload(s, cfg, lib, id, content, raw, parent, size, sha, now); r.Ok? ==> Valid(r.value, cfg)
  {
    if Upload(s, cfg, lib, id, content, raw, parent, size, sha, now).Ok? {
      var e := Entry(lib, parent, NameValue(raw, true).value, Some(content));
      StripTrims(raw);
      AddKeepsTree(s.entries, cfg, id, e);
      PutContentKeepsValid(s, cfg, lib, id, e, content, size, sha, now);
    }
  }

  lemma ReplaceKeepsValid(s: Store, cfg: Settings, lib: nat, id: nat, content: nat, size: nat, sha: string, now: int)
    requires Valid(s, cfg)
    ensures var r := Replace(s, cfg, lib, id, content, size, sha, now); r.Ok? ==> Valid(r.value, cfg)
  {
    if Replace(s, cfg, lib, id, content, size, sha, now).Ok? {
      ReplaceShape(s, cfg, lib, id, content, size, sha, now);
      ReplaceKeepsTree(s.entries, cfg, id, content);
      assert Trimmed(s.entries[id].name);
      PutContentKeepsValid(s, cfg, lib, id, s.entries[id].(content := Some(content)), content, size, sha, now);
    }
  }

  lemma ReplaceShape(s: Store, cfg: Settings, lib: nat, id: nat, content: nat, size: nat, sha: string, now: int)
    requires Replace(s, cfg, lib, id, content, size, sha, now).Ok?
    ensures lib in s.libs && id in s.entries && s.entries[id].lib == lib && s.entries[id].content.Some?
    ensures content !in s.issued
    ensures Replace(s, cfg, lib, id, content, size, sha, now).value ==
            WithContent(s, lib, content, size, sha, now).(
              entries := s.entries[id := s.entries[id].(content := Some(content))],
              libs := Bumped(s, lib, s.libs[lib].usage - SizeOf(s.entries, s.contents, id) + size))
  {
  }

  lemma CollectKeepsValid(s: Store, cfg: Settings, content: nat)
    requires Valid(s, cfg)
    ensures var r := Collect(s, content); r.Ok? ==> Valid(r.value, cfg)
  {
    var r := Collect(s, content);
    if r.Ok? && !Referenced(s, content) {
      forall l | l in s.libs
        ensures s.libs[l].usage == TotalSize(s.entries, r.value.contents, Members(s.entries, l))
      {
        TotalFrame(s.entries, s.contents, s.entries, r.value.contents, Members(s.entries, l));
      }
    }
  }

  lemma OpenKeepsValid(s: Store, cfg: Settings, lib: nat, dept: nat, station: Option<nat>)
    requires Valid(s, cfg)
    ensures Valid(Open(s, lib, dept, station), cfg)
  {
    if Open(s, lib, dept, station) != s {
      assert Members(s.entries, lib) == {};
    }
  }
}
