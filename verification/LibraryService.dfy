/** The file-library service: the loops and in-place updates, proved against the operations on the store. */
module LibraryService {
  import opened Common
  import opened LibraryTree
  import opened FileLibrary
  import opened FileLibraryInvariant
  import opened LibraryPublication
  import opened LibraryRuns
  import opened LibraryWalks

  /** What a mutation leaves behind: the operation's outcome, or nothing changed. */
  ghost predicate Performed(before: Store, after: Store, spec: Result<Store, LibraryError>, bad: Option<LibraryError>) {
    match spec
    case Ok(s) => bad == None && after == s
    case Err(e) => bad == Some(e) && after == before
  }

  class LibraryDatabase {
    const cfg: Settings
    var libs: map<nat, Library>
    var entries: Entries
    var contents: map<nat, Content>
    var policies: map<nat, Policy>
    var files: map<StorageKey, int>
    var unlinking: set<StorageKey>
    var issued: set<nat>
    var frozen: map<nat, Snapshot>
    var pins: map<(nat, nat), nat>

    ghost function Db(): Store
      reads this
    {
      Store(libs, entries, contents, policies, files, unlinking, issued, frozen, pins)
    }

    constructor (cfg: Settings)
      ensures this.cfg == cfg && Db() == Empty
    {
      this.cfg := cfg;
      libs, entries, contents, policies := map[], map[], map[], map[];
      files, unlinking, issued, frozen, pins := map[], {}, {}, map[], map[];
    }

    method CreateFolderEntry(lib: nat, id: nat, raw: string, parent: Option<nat>) returns (bad: Option<LibraryError>)
      requires Forest(entries)
      modifies this
      ensures Performed(old(Db()), Db(), CreateFolder(old(Db()), cfg, lib, id, raw, parent), bad)
    {
      var name := NameValue(raw, false);
      if lib !in libs { return Some(Unavailable); }
      if name.None? { return Some(BadName); }
      bad := PlaceError(entries, lib, parent);
      if bad.Some? { return; }
      bad := ValidateLocation(entries, cfg, lib, name.value, parent, None, true);
      if bad.Some? { return; }
      if id in entries { return Some(IdentityTaken); }
      if SiblingClash(entries, cfg.lower, lib, parent, name.value, None) { return Some(NameTaken); }
      entries := entries[id := Entry(lib, parent, name.value, None)];
      libs := libs[lib := libs[lib].(revision := libs[lib].revision + 1)];
    }

    method EditEntry(
        lib: nat, id: nat, raw: Option<string>, move: bool, target: Option<nat>) returns (bad: Option<LibraryError>)
      requires Forest(entries)
      modifies this
      ensures Performed(old(Db()), Db(), Edit(old(Db()), cfg, lib, id, raw, move, target), bad)
    {
      if lib !in libs || id !in entries || entries[id].lib != lib { return Some(Unavailable); }
      var e := entries[id];
      assert ParentOk(entries, id);
      var name := if raw.Some? then NameValue(raw.value, !e.IsFolder()) else Some(e.name);
      if name.None? { return Some(BadName); }
      var parent := e.parent;
      if move {
        bad := PlaceError(entries, lib, target);
        if bad.Some? { return; }
        parent := target;
      }
      bad := ValidateLocation(entries, cfg, lib, name.value, parent, Some(id), e.IsFolder());
      if bad.Some? { return; }
      if name.value == e.name && parent == e.parent { return None; }
      if SiblingClash(entries, cfg.lower, lib, parent, name.value, Some(id)) { return Some(NameTaken); }
      entries := entries[id := e.(name := name.value, parent := parent)];
      libs := libs[lib := libs[lib].(revision := libs[lib].revision + 1)];
    }

    /** Breadth-first collection of the entry and its descendants, subtraction of their sizes, cascading delete. */
    method DeleteEntry(lib: nat, id: nat) returns (bad: Option<LibraryError>, removed: set<nat>)
      requires Forest(entries)
      modifies this
      ensures Performed(old(Db()), Db(), Delete(old(Db()), lib, id), bad)
      ensures bad.None? ==> removed == Subtree(old(entries), id)
    {
      removed := {};
      if lib !in libs || id !in entries || entries[id].lib != lib { return Some(Unavailable), {}; }
      removed := CollectSubtree(entries, id);
      var bytes := SumSizes(entries, contents, removed);
      entries := entries - removed;
      libs := libs[lib := libs[lib].(revision := libs[lib].revision + 1, usage := libs[lib].usage - bytes)];
      bad := None;
    }

    /** `upload_pdf` after sanitising: a new document, or the replacement of an existing one's bytes. */
    method UploadPdf(
        lib: nat, id: nat, content: nat, raw: string, parent: Option<nat>, size: nat, sha: string, now: int)
      returns (bad: Option<LibraryError>)
      requires Forest(entries)
      modifies this
      ensures Performed(old(Db()), Db(), Upload(old(Db()), cfg, lib, id, content, raw, parent, size, sha, now), bad)
    {
      var name := NameValue(raw, true);
      if lib !in libs { return Some(Unavailable); }
      if name.None? { return Some(BadName); }
      if size > cfg.maxFileBytes { return Some(FileTooLarge); }
      bad := PlaceError(entries, lib, parent);
      if bad.Some? { return; }
      bad := ValidateLocation(entries, cfg, lib, name.value, parent, None, false);
      if bad.Some? { return; }
      var usage := libs[lib].usage + size;
      var fits := FitsQuota(lib, usage);
      if !fits { return Some(QuotaExceeded); }
      if content in issued || id in entries { return Some(IdentityTaken); }
      if SiblingClash(entries, cfg.lower, lib, parent, name.value, None) { return Some(NameTaken); }
      StoreContent(lib, content, size, sha, now);
      entries := entries[id := Entry(lib, parent, name.value, Some(content))];
      libs := libs[lib := libs[lib].(revision := libs[lib].revision + 1, usage := usage)];
      bad := None;
    }

    method ReplacePdf(lib: nat, id: nat, content: nat, size: nat, sha: string, now: int)
      returns (bad: Option<LibraryError>)
      requires Forest(entries) && ReferencesOk(Db())
      modifies this
      ensures Performed(old(Db()), Db(), Replace(old(Db()), cfg, lib, id, content, size, sha, now), bad)
    {
      if lib !in libs { return Some(Unavailable); }
      if size > cfg.maxFileBytes { return Some(FileTooLarge); }
      if id !in entries || entries[id].lib != lib { return Some(Unavailable); }
      var e := entries[id];
      if e.IsFolder() { return Some(NotADocument); }
      assert ParentOk(entries, id);
      bad := ValidateLocation(entries, cfg, lib, e.name, e.parent, Some(id), false);
      if bad.Some? { return; }
      var usage := libs[lib].usage - contents[e.content.value].size + size;
      var fits := FitsQuota(lib, usage);
      if !fits { return Some(QuotaExceeded); }
      if content in issued { return Some(IdentityTaken); }
      StoreContent(lib, content, size, sha, now);
      entries := entries[id := e.(content := Some(content))];
      libs := libs[lib := libs[lib].(revision := libs[lib].revision + 1, usage := usage)];
      bad := None;
    }

    method QuotaBytes(lib: nat) returns (quota: nat)
      requires lib in libs
      ensures quota == Quota(Db(), cfg, lib)
    {
      var policy := Policy(cfg.defaultDepartmentBytes, cfg.defaultStationBytes);
      if libs[lib].dept in policies { policy := policies[libs[lib].dept]; }
      quota := if libs[lib].station.None? then policy.departmentBytes else policy.stationBytes;
    }

    /** The quota check of uploads and replacements: usage must not rise beyond the quota. */
    method FitsQuota(lib: nat, usage: int) returns (fits: bool)
      requires lib in libs
      ensures fits <==> QuotaAllows(Db(), cfg, lib, usage)
      ensures fits <==> usage <= libs[lib].usage || Permits(Db(), cfg, lib, usage)
    {
      var quota := QuotaBytes(lib);
      QuotaIsPermitted(Db(), cfg, lib, usage);
      fits := !(usage > quota && usage > libs[lib].usage);
    }

    method StoreContent(lib: nat, content: nat, size: nat, sha: string, now: int)
      modifies this`files, this`contents, this`issued
      ensures Db() == WithContent(old(Db()), lib, content, size, sha, now)
    {
      files := files[StorageKey(lib, content) := now];
      contents := contents[content := Content(lib, size, sha)];
      issued := issued + {content};
    }

    /** Reference-aware collection: `true` exactly when nothing referenced the row. */
    method CollectContent(content: nat) returns (r: Result<bool, LibraryError>)
      modifies this
      ensures match r
              case Ok(done) => Collect(old(Db()), content) == Ok(Db()) && done == !Referenced(old(Db()), content)
              case Err(e) => Collect(old(Db()), content) == Err(e) && Db() == old(Db())
    {
      if content !in contents { return Err(Unavailable); }
      if (exists x :: x in entries && entries[x].content == Some(content))
          || (exists k :: k in pins && pins[k] == content) {
        return Ok(false);
      }
      unlinking := unlinking + {StorageKey(contents[content].lib, content)};
      contents := contents - {content};
      r := Ok(true);
    }

    /** Orphan reconciliation; a dry run only counts. */
    method ReconcileOrphans(cutoff: int, dryRun: bool) returns (removed: nat)
      modifies this`files
      ensures removed == |Orphans(old(Db()), cutoff)|
      ensures Db() == if dryRun then old(Db()) else Reconcile(old(Db()), cutoff)
    {
      removed := 0;
      ghost var gone: set<StorageKey> := {};
      var todo := files.Keys;
      while todo != {}
        invariant todo <= old(files).Keys && removed == |gone|
        invariant gone == (set k | k in Orphans(old(Db()), cutoff) && k !in todo)
        invariant files == if dryRun then old(files) else old(files) - gone
        decreases |todo|
      {
        var key :| key in todo;
        todo := todo - {key};
        if !(key.content in contents && contents[key.content].lib == key.lib) && files[key] < cutoff {
          if !dryRun { files := files - {key}; }
          gone := gone + {key};
          removed := removed + 1;
        }
      }
      assert gone == Orphans(old(Db()), cutoff);
    }

    /** Freeze a snapshot and insert one pin per document; a missing content row undoes the whole step. */
    method PinSource(pub: nat, snap: Snapshot) returns (bad: Option<BuildError>)
      modifies this`frozen, this`pins
      ensures match PinSnapshot(old(Db()), pub, snap)
              case Ok(s) => bad == None && Db() == s
              case Err(e) => bad == Some(e) && Db() == old(Db())
    {
      var added := pins;
      var i := 0;
      while i < |snap.documents|
        invariant 0 <= i <= |snap.documents|
        invariant added == pins + PinsOf(pub, snap.documents[..i])
        invariant forall j :: 0 <= j < i ==> HasContent(Db(), snap.lib, snap.documents[j])
      {
        var d := snap.documents[i];
        if d.content !in contents || contents[d.content].lib != snap.lib {
          assert d in snap.documents && !HasContent(Db(), snap.lib, d);
          return Some(SourceUnavailable);
        }
        assert snap.documents[..i + 1][..i] == snap.documents[..i];
        added := added[(pub, d.id) := d.content];
        i := i + 1;
      }
      assert snap.documents[..i] == snap.documents;
      forall d | d in snap.documents ensures HasContent(Db(), snap.lib, d) {
        var j :| 0 <= j < |snap.documents| && d == snap.documents[j];
      }
      frozen := frozen[pub := snap];
      pins := added;
      bad := None;
    }

    /** The frozen documents of a publication, checked pin by pin. */
    method ReadFrozen(pub: nat) returns (r: Result<seq<FrozenDocument>, BuildError>)
      requires ReferencesOk(Db())
      ensures r == FrozenDocuments(Db(), pub)
    {
      if pub !in frozen { return Err(SourceUnavailable); }
      var snap := frozen[pub];
      var refs := set k | k in pins && k.0 == pub :: k.1;
      assert refs == PinnedIds(Db(), pub);
      if refs != (set i | 0 <= i < |snap.documents| :: snap.documents[i].id) || |refs| != |snap.documents| {
        return Err(MembershipIncomplete);
      }
      var result: seq<FrozenDocument> := [];
      var i := 0;
      while i < |snap.documents|
        invariant 0 <= i <= |snap.documents|
        invariant result == Expected(snap)[..i]
        invariant forall j :: 0 <= j < i ==> Matches(Db(), pub, snap.lib, snap.documents[j])
      {
        var d := snap.documents[i];
        assert d.id in refs;
        var content := pins[(pub, d.id)];
        if content != d.content || contents[content] != Content(snap.lib, d.size, d.sha) {
          assert d in snap.documents && !Matches(Db(), pub, snap.lib, d);
          return Err(ContentInvalid);
        }
        result := result + [Thaw(snap.lib, d)];
        i := i + 1;
      }
      assert Expected(snap)[..i] == Expected(snap);
      forall d | d in snap.documents ensures Matches(Db(), pub, snap.lib, d) {
        var j :| 0 <= j < |snap.documents| && d == snap.documents[j];
      }
      r := Ok(result);
    }
  }
}
