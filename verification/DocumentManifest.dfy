/** The generation key, the signed manifest of a document generation, and its validation before publication. */
module DocumentManifest {
  import opened Common
  import opened Base64
  import opened DocumentGeneration

  /** `manifest_metadata_key` of the dataset's adapter. */
  function MetadataKey(dataset: string): string {
    if dataset == "department_files" || dataset == "station_files" then "file"
    else if dataset == "department_fire_plans" then "fire_plan" else "klgv_plan"
  }

  function DownloadPath(env: Env, pub: Publication, id: nat): string {
    "/api/v1/tablet/document-generations/" + env.uuid(pub.id) + "/artifacts/" + env.uuid(id) + "/download"
  }

  // ---- building -------------------------------------------------------------------------------------

  /** `ensure_generation_key`, `random` being the 32 bytes it would draw. */
  function EnsuredKey(env: Env, st: Store, pub: Publication, random: Bytes): Result<GenerationKey, Error> {
    if st.key.Some? then Ok(st.key.value)
    else if !pub.building then Err(NotBuilding)
    else if |env.kek| != 32 then Err(BadCredentials)
    else Ok(GenerationKey(env.wrap(env.kek, random), "AES-KW-RFC3394", env.kekVersion))
  }

  function DocumentOf(env: Env, pub: Publication, id: nat, a: Artifact, metadata: string, wrapped: Bytes): Document {
    map[
      Metadata(MetadataKey(pub.dataset)) := Nested(metadata),
      ArtifactId := Text(env.uuid(id)),
      SanitizedSha := Text(a.sha),
      CipherSha := Text(a.cipherSha),
      CipherSize := Number(a.size),
      Nonce := Text(Encode(a.nonce)),
      Encryption := Text(a.encryption),
      Wrapping := Text(a.wrapping),
      KekVersion := Text(a.kekVersion),
      Signature := Text(Encode(a.signature)),
      SignatureAlgorithm := Text(a.signatureAlgorithm),
      SigningVersion := Text(a.signingVersion),
      GenerationWrapped := Text(Encode(wrapped)),
      GenerationWrapping := Text("AES-KW-RFC3394"),
      Download := Text(DownloadPath(env, pub, id))
    ]
  }

  /** The manifest entry for document `d`, its content key rewrapped under the generation key. */
  function Rewrapped(
      env: Env, st: Store, pub: Publication, entries: map<nat, Frozen>, key: Bytes, d: nat): Result<Document, Error>
    requires d in st.refs
  {
    if !RefMatches(st, pub.dataset, entries, d) then Err(ContentMismatch)
    else
      var a := st.artifacts[st.refs[d]];
      var cek := env.unwrap(env.kek, a.wrappedCek);
      if cek.None? then Err(UnwrapFailed)
      else Ok(DocumentOf(env, pub, st.refs[d], a, entries[d].metadata, env.wrap(key, cek.value)))
  }

  ghost predicate Listed(st: Store, ds: seq<nat>) {
    forall j :: 0 <= j < |ds| ==> ds[j] in st.refs
  }

  /** The entries for the first `n` documents listed, in order. */
  function Documents(env: Env, st: Store, pub: Publication, entries: map<nat, Frozen>, key: Bytes, ds: seq<nat>, n: nat)
    : Result<seq<Document>, Error>
    requires n <= |ds| && Listed(st, ds)
  {
    if n == 0 then Ok([])
    else
      var prior := Documents(env, st, pub, entries, key, ds, n - 1);
      if prior.Err? then prior
      else
        var next := Rewrapped(env, st, pub, entries, key, ds[n - 1]);
        if next.Err? then Err(next.error) else Ok(prior.value + [next.value])
  }

  /** The entries for all references, ordered by document. */
  function AllDocuments(
      env: Env, st: Store, pub: Publication, entries: map<nat, Frozen>, key: Bytes): Result<seq<Document>, Error> {
    var ds := Ordered(st.refs.Keys);
    assert Listed(st, ds) by { forall j | 0 <= j < |ds| ensures ds[j] in st.refs { assert ds[j] in ds; } }
    Documents(env, st, pub, entries, key, ds, |ds|)
  }

  function PayloadOf(env: Env, pub: Publication, documents: seq<Document>): Payload {
    Payload(Text("document-generation-v2"), Text(pub.dataset), Text(env.uuid(pub.id)), Number(pub.version), Number(2),
        documents,
            if pub.dataset == "department_files" || pub.dataset == "station_files" then Some(pub.snapshot) else None)
  }

  /** What the manifest must say, given the generation key to be used. */
  function Signed(
      env: Env, st: Store, pub: Publication, frozen: seq<Frozen>, key: GenerationKey): Result<(Payload, Bytes), Error> {
    if |env.kek| != 32 then Err(BadCredentials)
    else if env.unwrap(env.kek, key.wrapped).None? then Err(UnwrapFailed)
    else
      var documents := AllDocuments(env, st, pub, ByDocument(frozen), env.unwrap(env.kek, key.wrapped).value);
      if documents.Err? then Err(documents.error)
      else
        var payload := PayloadOf(env, pub, documents.value);
        if !env.signingKeyOk || !env.signingKeyActive then Err(SigningFailed) else Ok((payload, env.sign(payload)))
  }

  /** `build_document_v2_manifest`: the manifest and the tables afterwards. */
  function ManifestBuilt(
      env: Env, st: Store, pub: Publication, frozen: seq<Frozen>, random: Bytes): Result<Store, Error> {
    if st.refs.Keys != ByDocument(frozen).Keys then Err(MembershipIncomplete)
    else
      var key := EnsuredKey(env, st, pub, random);
      if key.Err? then Err(key.error)
      else
        var signed := Signed(env, st, pub, frozen, key.value);
        if signed.Err? then Err(signed.error)
        else if st.manifest.None? then
          Ok(st.(key := Some(key.value),
              manifest := Some(Manifest(signed.value.0, signed.value.1, "Ed25519", env.signingVersion))))
        else if st.manifest.value.payload != signed.value.0 || st.manifest.value.signature != signed.value.1
            then Err(Immutable)
        else Ok(st.(key := Some(key.value)))
  }

  // ---- rebuilding -----------------------------------------------------------------------------------

  /** The same references, to the same artifacts; other artifacts may have come and gone. */
  ghost predicate SameReferences(st: Store, st': Store) {
    && st'.refs == st.refs
    && forall d :: d in st.refs && st.refs[d] in st.artifacts ==>
         st.refs[d] in st'.artifacts && st'.artifacts[st.refs[d]] == st.artifacts[st.refs[d]]
  }

  /** The same keys and primitives; version labels and size limits may differ. */
  ghost predicate SameCrypto(env: Env, env': Env) {
    && env'.kek == env.kek && env'.signingKeyOk == env.signingKeyOk && env'.signingKeyActive == env.signingKeyActive
    && env'.wrap == env.wrap && env'.unwrap == env.unwrap && env'.sign == env.sign && env'.uuid == env.uuid
  }

  lemma {:induction false} DocumentsAgree(
    env: Env, env': Env, st: Store, st': Store, pub: Publication, entries: map<nat, Frozen>, key: Bytes, ds: seq<nat>,
    n: nat)
    requires SameReferences(st, st') && SameCrypto(env, env') && n <= |ds| && Listed(st, ds)
    requires Documents(env, st, pub, entries, key, ds, n).Ok?
    ensures Documents(env', st', pub, entries, key, ds, n) == Documents(env, st, pub, entries, key, ds, n)
  {
    if n > 0 {
      DocumentsAgree(env, env', st, st', pub, entries, key, ds, n - 1);
    }
  }

  lemma SignedAgrees(
      env: Env, env': Env, st: Store, st': Store, pub: Publication, frozen: seq<Frozen>, key: GenerationKey)
    requires SameReferences(st, st') && SameCrypto(env, env') && Signed(env, st, pub, frozen, key).Ok?
    ensures Signed(env', st', pub, frozen, key) == Signed(env, st, pub, frozen, key)
  {
    var ds, bytes := Ordered(st.refs.Keys), env.unwrap(env.kek, key.wrapped).value;
    forall j | 0 <= j < |ds| ensures ds[j] in st.refs { assert ds[j] in ds; }
    DocumentsAgree(env, env', st, st', pub, ByDocument(frozen), bytes, ds, |ds|);
    assert AllDocuments(env', st', pub, ByDocument(frozen), bytes) ==
        AllDocuments(env, st, pub, ByDocument(frozen), bytes);
  }

  predicate Unwraps(env: Env, st: Store, d: nat)
    requires d in st.refs
  {
    st.refs[d] in st.artifacts && env.unwrap(env.kek, st.artifacts[st.refs[d]].wrappedCek).Some?
  }

  lemma {:induction false} DocumentsSucceed(
    env: Env, st: Store, pub: Publication, entries: map<nat, Frozen>, key: Bytes, ds: seq<nat>, n: nat)
    requires n <= |ds| && Listed(st, ds) && forall j :: 0 <= j < |ds| ==> RefMatches(st, pub.dataset, entries, ds[j])
    ensures Documents(env, st, pub, entries, key, ds, n).Ok? <==> forall j :: 0 <= j < n ==> Unwraps(env, st, ds[j])
  {
    if n > 0 {
      DocumentsSucceed(env, st, pub, entries, key, ds, n - 1);
      assert Rewrapped(env, st, pub, entries, key, ds[n - 1]).Ok? <==> Unwraps(env, st, ds[n - 1]);
    }
  }

  lemma AllDocumentsSucceed(env: Env, st: Store, pub: Publication, frozen: seq<Frozen>, key: Bytes)
    requires Complete(st, pub, frozen)
    ensures AllDocuments(env, st, pub, ByDocument(frozen), key).Ok? <==> forall d :: d in st.refs ==>
            Unwraps(env, st, d)
  {
    var ds := Ordered(st.refs.Keys);
    forall j | 0 <= j < |ds|
      ensures ds[j] in st.refs && RefMatches(st, pub.dataset, ByDocument(frozen), ds[j])
    {
      assert ds[j] in ds;
    }
    DocumentsSucceed(env, st, pub, ByDocument(frozen), key, ds, |ds|);
    if forall j :: 0 <= j < |ds| ==> Unwraps(env, st, ds[j]) {
      forall d | d in st.refs ensures Unwraps(env, st, d) { assert d in ds; }
    }
  }

  /**
   Over a complete generation a first manifest is built exactly when the credentials are in order, a generation key
   can be had, and it and every content key unwrap under the key-encryption key.
   */
  lemma ManifestSucceeds(env: Env, st: Store, pub: Publication, frozen: seq<Frozen>, random: Bytes)
    requires Laws(env) && |random| == 32 && Complete(st, pub, frozen) && st.manifest.None?
    ensures ManifestBuilt(env, st, pub, frozen, random).Ok? <==>
            && |env.kek| == 32 && env.signingKeyOk && env.signingKeyActive && (st.key.Some? || pub.building)
            && (st.key.Some? ==> env.unwrap(env.kek, st.key.value.wrapped).Some?)
            && forall d :: d in st.refs ==> Unwraps(env, st, d)
  {
    var key := EnsuredKey(env, st, pub, random);
    if key.Ok? && |env.kek| == 32 {
      assert WrapLaw(env, env.kek, random);
      if env.unwrap(env.kek, key.value.wrapped).Some? {
        AllDocumentsSucceed(env, st, pub, frozen, env.unwrap(env.kek, key.value.wrapped).value);
      }
    }
  }

  /** What a successful manifest build leaves behind. */
  lemma BuiltManifest(env: Env, st: Store, pub: Publication, frozen: seq<Frozen>, random: Bytes)
    requires ManifestBuilt(env, st, pub, frozen, random).Ok?
    ensures var done := ManifestBuilt(env, st, pub, frozen, random).value;
            && done == st.(key := done.key, manifest := done.manifest) && done.key.Some? && done.manifest.Some?
            && EnsuredKey(env, st, pub, random) == Ok(done.key.value)
            && Signed(env, st, pub, frozen, done.key.value) ==
                Ok((done.manifest.value.payload, done.manifest.value.signature))
            && st.refs.Keys == ByDocument(frozen).Keys
            && (st.manifest.None? ==>
                done.manifest.value.signatureAlgorithm == "Ed25519"
                && done.manifest.value.signingVersion == env.signingVersion)
            && (st.manifest.Some? ==> done.manifest == st.manifest)
  {
  }

  /**
   Rebuilding returns the identical stored manifest and changes nothing, whatever is drawn at random this time, whatever
   happened to other artifacts, and whatever version labels are now configured.
   */
  lemma RebuildReturnsStored(
    env: Env, env': Env, st: Store, later: Store, pub: Publication, frozen: seq<Frozen>, random: Bytes, random': Bytes)
    requires ManifestBuilt(env, st, pub, frozen, random).Ok? && SameCrypto(env, env')
    requires var done := ManifestBuilt(env, st, pub, frozen, random).value;
             SameReferences(done, later) && later.key == done.key && later.manifest == done.manifest
    ensures ManifestBuilt(env', later, pub, frozen, random') == Ok(later)
  {
    BuiltManifest(env, st, pub, frozen, random);
    SignedAgrees(env, env', st, later, pub, frozen, later.key.value);
  }

  // ---- validation -----------------------------------------------------------------------------------

  function Get(document: Document, field: Field): Option<Json> {
    if field in document then Some(document[field]) else None
  }

  predicate HasText(document: Document, field: Field, text: string) {
    Get(document, field) == Some(Text(text))
  }

  /** Manifest and key are there and are well formed. */
  predicate HeadOk(st: Store, pub: Publication) {
    && st.manifest.Some? && st.key.Some? && pub.artifactPath == ""
    && |st.key.value.wrapped| == 40 && st.key.value.wrapping == "AES-KW-RFC3394" && st.key.value.kekVersion != ""
    && st.manifest.value.signatureAlgorithm == "Ed25519" && |st.manifest.value.signature| == 64
    && st.manifest.value.signingVersion != ""
  }

  predicate PayloadOk(env: Env, pub: Publication, p: Payload) {
    && p.format == Text("document-generation-v2") && p.dataset == Text(pub.dataset)
    && p.publication == Text(env.uuid(pub.id))
    && p.schema == Number(2) && p.version == Number(pub.version)
  }

  /** Version labels are present. */
  predicate Labelled(a: Artifact) {
    a.kekVersion != "" && a.signingVersion != ""
  }

  /** The entry repeats where the ciphertext is and what protects it. */
  predicate ContentOk(env: Env, pub: Publication, id: nat, a: Artifact, metadata: string, document: Document) {
    && Get(document, Metadata(MetadataKey(pub.dataset))) == Some(Nested(metadata))
    && HasText(document, CipherSha, a.cipherSha) && Get(document, CipherSize) == Some(Number(a.size))
    && HasText(document, SanitizedSha, a.sha) && HasText(document, Nonce, Encode(a.nonce))
    && HasText(document, Download, DownloadPath(env, pub, id))
    && HasText(document, GenerationWrapping, "AES-KW-RFC3394")
    && Get(document, GenerationWrapped).Some? && Get(document, GenerationWrapped).value.Text?
    && IsWrappedKeyText(Get(document, GenerationWrapped).value.text)
  }

  /** The entry repeats how the artifact was encrypted, wrapped and signed. */
  predicate LabelsOk(a: Artifact, document: Document) {
    && HasText(document, Encryption, a.encryption) && HasText(document, Wrapping, a.wrapping)
    && HasText(document, KekVersion, a.kekVersion) && HasText(document, SignatureAlgorithm, a.signatureAlgorithm)
    && HasText(document, SigningVersion, a.signingVersion) && HasText(document, Signature, Encode(a.signature))
  }

  /** The manifest entry repeats the artifact row and the frozen metadata, field by field. */
  predicate EntryOk(env: Env, pub: Publication, id: nat, a: Artifact, metadata: string, document: Document) {
    ContentOk(env, pub, id, a, metadata, document) && LabelsOk(a, document)
  }

  /** Manifest entries by artifact identity, or nothing if one has no identity or repeats another's. */
  function ByArtifact(documents: seq<Document>, n: nat): Option<map<string, Document>>
    requires n <= |documents|
  {
    if n == 0 then Some(map[])
    else
      var prior := ByArtifact(documents, n - 1);
      var identity := Get(documents[n - 1], ArtifactId);
      if prior.None? || identity.None? || !identity.value.Text? || identity.value.text in prior.value then None
      else Some(prior.value[identity.value.text := documents[n - 1]])
  }

  function ArtifactNames(env: Env, st: Store): set<string> {
    set d | d in st.refs :: env.uuid(st.refs[d])
  }

  /** The check of one reference against its artifact, its frozen document and its manifest entry. */
  predicate ReferenceOk(
    env: Env, st: Store, pub: Publication, entries: map<nat, Frozen>, found: map<string, Document>, d: nat)
    requires d in st.refs
  {
    var id := st.refs[d];
    && RefMatches(st, pub.dataset, entries, d) && WellMade(st.artifacts[id]) && Labelled(st.artifacts[id])
    && env.uuid(id) in found && EntryOk(env, pub, id, st.artifacts[id], entries[d].metadata, found[env.uuid(id)])
  }

  predicate ReferencesOk(
      env: Env, st: Store, pub: Publication, entries: map<nat, Frozen>, found: map<string, Document>) {
    forall d {:trigger ReferenceOk(env, st, pub, entries, found, d)} :: d in st.refs ==>
        ReferenceOk(env, st, pub, entries, found, d)
  }

  /** What `validate_ready_document_generation` accepts. */
  predicate Acceptable(env: Env, st: Store, pub: Publication, frozen: seq<Frozen>) {
    && HeadOk(st, pub) && PayloadOk(env, pub, st.manifest.value.payload)
    && var documents, entries := st.manifest.value.payload.documents, ByDocument(frozen);
    && |st.refs| == |entries| && |documents| == |entries|
    && var found := ByArtifact(documents, |documents|);
    && found.Some? && found.value.Keys == ArtifactNames(env, st) && ReferencesOk(env, st, pub, entries, found.value)
  }

  /** The dictionary loop. */
  method IndexDocuments(documents: seq<Document>) returns (r: Option<map<string, Document>>)
    ensures r == ByArtifact(documents, |documents|)
  {
    var found: map<string, Document> := map[];
    for i := 0 to |documents|
      invariant ByArtifact(documents, i) == Some(found)
    {
      var identity := Get(documents[i], ArtifactId);
      if identity.None? || !identity.value.Text? || identity.value.text in found {
        NoneSticks(documents, i + 1, |documents|);
        return None;
      }
      found := found[identity.value.text := documents[i]];
    }
    r := Some(found);
  }

  /** The loop over the references: it stops at the first one that does not pass. */
  method CheckEach(ds: seq<nat>, passes: nat -> bool) returns (r: bool)
    ensures r <==> forall d :: d in ds ==> passes(d)
  {
    for i := 0 to |ds|
      invariant forall j :: 0 <= j < i ==> passes(ds[j])
    {
      if !passes(ds[i]) { return false; }
    }
    r := true;
  }

  method CheckReferences(env: Env, st: Store, pub: Publication, entries: map<nat, Frozen>, found: map<string, Document>)
    returns (r: bool)
    ensures r <==> ReferencesOk(env, st, pub, entries, found)
  {
    var passes := (d: nat) => d in st.refs && ReferenceOk(env, st, pub, entries, found, d);
    r := CheckEach(Ordered(st.refs.Keys), passes);
    PassesIff(env, st, pub, entries, found, passes);
  }

  lemma PassesIff(
    env: Env, st: Store, pub: Publication, entries: map<nat, Frozen>, found: map<string, Document>, passes: nat -> bool)
    requires forall d :: passes(d) <==> d in st.refs && ReferenceOk(env, st, pub, entries, found, d)
    ensures (forall d :: d in Ordered(st.refs.Keys) ==> passes(d)) <==> ReferencesOk(env, st, pub, entries, found)
  {
    if ReferencesOk(env, st, pub, entries, found) {
      forall d | d in Ordered(st.refs.Keys) ensures passes(d) {
        assert d in st.refs && ReferenceOk(env, st, pub, entries, found, d);
      }
    }
    if forall d :: d in Ordered(st.refs.Keys) ==> passes(d) {
      forall d | d in st.refs ensures ReferenceOk(env, st, pub, entries, found, d) {
        assert d in Ordered(st.refs.Keys) && passes(d);
      }
    }
  }

  /** `validate_ready_document_generation`. */
  method Validate(env: Env, st: Store, pub: Publication, frozen: seq<Frozen>) returns (accepted: bool)
    ensures accepted <==> Acceptable(env, st, pub, frozen)
  {
    var entries := ByDocument(frozen);
    if !HeadOk(st, pub) || !PayloadOk(env, pub, st.manifest.value.payload) { return false; }
    var documents := st.manifest.value.payload.documents;
    if |st.refs| != |entries| || |documents| != |entries| { return false; }
    var found := IndexDocuments(documents);
    if found.None? || found.value.Keys != ArtifactNames(env, st) { return false; }
    accepted := CheckReferences(env, st, pub, entries, found.value);
  }

  lemma {:induction false} NoneSticks(documents: seq<Document>, m: nat, n: nat)
    requires m <= n <= |documents| && ByArtifact(documents, m).None?
    ensures ByArtifact(documents, n).None?
    decreases n
  {
    if m < n { NoneSticks(documents, m, n - 1); }
  }

  // ---- what was built is accepted -------------------------------------------------------------------

  lemma {:induction false} DocumentAt(
    env: Env, st: Store, pub: Publication, entries: map<nat, Frozen>, key: Bytes, ds: seq<nat>, n: nat, j: nat)
    requires n <= |ds| && Listed(st, ds) && Documents(env, st, pub, entries, key, ds, n).Ok?
    ensures var documents := Documents(env, st, pub, entries, key, ds, n).value;
            |documents| == n && (j < n ==> Rewrapped(env, st, pub, entries, key, ds[j]) == Ok(documents[j]))
  {
    if n > 0 { DocumentAt(env, st, pub, entries, key, ds, n - 1, j); }
  }

  /** `names` are the entries' identities, no two alike. */
  ghost predicate Named(documents: seq<Document>, names: seq<string>) {
    && |documents| == |names|
    && (forall j {:trigger documents[j]} :: 0 <= j < |names| ==> HasText(documents[j], ArtifactId, names[j]))
    && (forall i, j :: 0 <= i < j < |names| ==> names[i] != names[j])
  }

  /** Entries with pairwise different identities are all indexed. */
  lemma {:induction false} ByArtifactSome(documents: seq<Document>, names: seq<string>, n: nat)
    requires Named(documents, names) && n <= |documents|
    ensures ByArtifact(documents, n).Some?
  {
    if n > 0 {
      ByArtifactSome(documents, names, n - 1);
      assert HasText(documents[n - 1], ArtifactId, names[n - 1]);
      if names[n - 1] in ByArtifact(documents, n - 1).value {
        var j := ByArtifactHas(documents, names, n - 1, names[n - 1]);
      }
    }
  }

  lemma {:induction false} ByArtifactHas(
      documents: seq<Document>, names: seq<string>, n: nat, t: string) returns (j: nat)
    requires Named(documents, names) && n <= |documents| && ByArtifact(documents, n).Some?
    requires t in ByArtifact(documents, n).value
    ensures j < n && names[j] == t
  {
    assert HasText(documents[n - 1], ArtifactId, names[n - 1]);
    if names[n - 1] == t { j := n - 1; } else { j := ByArtifactHas(documents, names, n - 1, t); }
  }

  lemma {:induction false} ByArtifactAt(documents: seq<Document>, names: seq<string>, n: nat, j: nat)
    requires Named(documents, names) && j < n <= |documents| && ByArtifact(documents, n).Some?
    ensures names[j] in ByArtifact(documents, n).value && ByArtifact(documents, n).value[names[j]] == documents[j]
  {
    assert HasText(documents[n - 1], ArtifactId, names[n - 1]);
    if j < n - 1 { ByArtifactAt(documents, names, n - 1, j); }
  }

  lemma DocumentHasContent(env: Env, pub: Publication, id: nat, a: Artifact, metadata: string, wrapped: Bytes)
    requires IsWrappedKeyText(Encode(wrapped))
    ensures ContentOk(env, pub, id, a, metadata, DocumentOf(env, pub, id, a, metadata, wrapped))
  {
  }

  lemma DocumentHasLabels(env: Env, pub: Publication, id: nat, a: Artifact, metadata: string, wrapped: Bytes)
    ensures LabelsOk(a, DocumentOf(env, pub, id, a, metadata, wrapped))
    ensures HasText(DocumentOf(env, pub, id, a, metadata, wrapped), ArtifactId, env.uuid(id))
  {
  }

  lemma DocumentHasFields(env: Env, pub: Publication, id: nat, a: Artifact, metadata: string, wrapped: Bytes)
    requires IsWrappedKeyText(Encode(wrapped))
    ensures EntryOk(env, pub, id, a, metadata, DocumentOf(env, pub, id, a, metadata, wrapped))
    ensures HasText(DocumentOf(env, pub, id, a, metadata, wrapped), ArtifactId, env.uuid(id))
  {
    DocumentHasContent(env, pub, id, a, metadata, wrapped);
    DocumentHasLabels(env, pub, id, a, metadata, wrapped);
  }

  /** A rewrapped entry passes the check of its reference. */
  lemma RewrappedIsOk(env: Env, st: Store, pub: Publication, entries: map<nat, Frozen>, key: Bytes, d: nat)
    requires Laws(env) && |key| == 32 && d in st.refs && Rewrapped(env, st, pub, entries, key, d).Ok?
    requires WellMade(st.artifacts[st.refs[d]])
    ensures var document := Rewrapped(env, st, pub, entries, key, d).value;
            HasText(document, ArtifactId, env.uuid(st.refs[d]))
            && EntryOk(env, pub, st.refs[d], st.artifacts[st.refs[d]], entries[d].metadata, document)
  {
    var a := st.artifacts[st.refs[d]];
    var cek := env.unwrap(env.kek, a.wrappedCek).value;
    assert UnwrapLaw(env, env.kek, a.wrappedCek);
    assert WrapLaw(env, key, cek);
    WrappedKeyText(env.wrap(key, cek));
    DocumentHasFields(env, pub, st.refs[d], a, entries[d].metadata, env.wrap(key, cek));
  }

  /** The artifacts' names in manifest order. */
  function Names(env: Env, st: Store): seq<string> {
    var ds := Ordered(st.refs.Keys);
    seq(|ds|, j requires 0 <= j < |ds| => assert ds[j] in ds; env.uuid(st.refs[ds[j]]))
  }

  lemma NamesDiffer(env: Env, st: Store, pub: Publication, frozen: seq<Frozen>)
    requires Laws(env) && Complete(st, pub, frozen)
    ensures forall i, j :: 0 <= i < j < |Names(env, st)| ==> Names(env, st)[i] != Names(env, st)[j]
  {
    var ds, names := Ordered(st.refs.Keys), Names(env, st);
    CompleteIsInjective(st, pub, frozen);
    forall i, j | 0 <= i < j < |names| ensures names[i] != names[j] {
      assert ds[i] in ds && ds[j] in ds && ds[i] < ds[j];
      assert UuidLaw(env, st.refs[ds[i]], st.refs[ds[j]]);
    }
  }

  lemma NamesAreArtifactNames(env: Env, st: Store, t: string)
    ensures t in Names(env, st) <==> t in ArtifactNames(env, st)
  {
    var ds := Ordered(st.refs.Keys);
    if t in ArtifactNames(env, st) {
      var d :| d in st.refs && env.uuid(st.refs[d]) == t;
      assert d in ds;
      var j :| 0 <= j < |ds| && ds[j] == d;
      assert Names(env, st)[j] == t;
    }
    if t in Names(env, st) {
      var j :| 0 <= j < |ds| && Names(env, st)[j] == t;
      assert ds[j] in ds;
    }
  }

  lemma BuiltCount(env: Env, st: Store, pub: Publication, frozen: seq<Frozen>, key: Bytes, documents: seq<Document>)
    requires AllDocuments(env, st, pub, ByDocument(frozen), key) == Ok(documents)
    ensures var ds := Ordered(st.refs.Keys);
            && |documents| == |ds| && Listed(st, ds)
            && forall j :: 0 <= j < |ds| ==> Rewrapped(env, st, pub, ByDocument(frozen), key, ds[j]) == Ok(documents[j])
  {
    var ds := Ordered(st.refs.Keys);
    forall j | 0 <= j < |ds| ensures ds[j] in st.refs { assert ds[j] in ds; }
    DocumentAt(env, st, pub, ByDocument(frozen), key, ds, |ds|, 0);
    forall j | 0 <= j < |ds| ensures Rewrapped(env, st, pub, ByDocument(frozen), key, ds[j]) == Ok(documents[j]) {
      DocumentAt(env, st, pub, ByDocument(frozen), key, ds, |ds|, j);
    }
  }

  /** The `j`-th entry of the manifest repeats the artifact of the `j`-th document. */
  lemma BuiltEntry(
      env: Env, st: Store, pub: Publication, frozen: seq<Frozen>, key: Bytes, documents: seq<Document>, j: nat)
    requires Laws(env) && |key| == 32 && Complete(st, pub, frozen) && AllWellMade(st.artifacts)
    requires AllDocuments(env, st, pub, ByDocument(frozen), key) == Ok(documents)
    requires j < |Ordered(st.refs.Keys)|
    ensures j < |documents| && HasText(documents[j], ArtifactId, Names(env, st)[j])
    ensures var d := Ordered(st.refs.Keys)[j];
            && d in st.refs && RefMatches(st, pub.dataset, ByDocument(frozen), d)
            && EntryOk(env, pub, st.refs[d], st.artifacts[st.refs[d]], ByDocument(frozen)[d].metadata, documents[j])
  {
    var ds := Ordered(st.refs.Keys);
    BuiltCount(env, st, pub, frozen, key, documents);
    assert ds[j] in ds;
    assert RefMatches(st, pub.dataset, ByDocument(frozen), ds[j]);
    RewrappedIsOk(env, st, pub, ByDocument(frozen), key, ds[j]);
  }

  /** Documents built for a complete generation are indexed without loss, and each passes. */
  lemma BuiltDocumentsPass(
      env: Env, st: Store, pub: Publication, frozen: seq<Frozen>, key: Bytes, documents: seq<Document>)
    requires Laws(env) && |key| == 32 && Complete(st, pub, frozen) && AllWellMade(st.artifacts)
    requires AllDocuments(env, st, pub, ByDocument(frozen), key) == Ok(documents)
    ensures |documents| == |st.refs| && ByArtifact(documents, |documents|).Some?
    ensures ByArtifact(documents, |documents|).value.Keys == ArtifactNames(env, st)
    ensures forall d {:trigger EntryFor(env, st, pub, frozen, documents, d)} :: d in st.refs ==>
            EntryFor(env, st, pub, frozen, documents, d)
  {
    var ds, names := Ordered(st.refs.Keys), Names(env, st);
    BuiltNamed(env, st, pub, frozen, key, documents);
    ByArtifactSome(documents, names, |ds|);
    forall d | d in st.refs ensures EntryFor(env, st, pub, frozen, documents, d) {
      BuiltEntryFor(env, st, pub, frozen, key, documents, d);
    }
    IndexKeys(env, st, documents);
  }

  lemma BuiltEntryFor(
      env: Env, st: Store, pub: Publication, frozen: seq<Frozen>, key: Bytes, documents: seq<Document>, d: nat)
    requires Laws(env) && |key| == 32 && Complete(st, pub, frozen) && AllWellMade(st.artifacts)
    requires AllDocuments(env, st, pub, ByDocument(frozen), key) == Ok(documents)
    requires d in st.refs && Named(documents, Names(env, st)) && ByArtifact(documents, |documents|).Some?
    ensures EntryFor(env, st, pub, frozen, documents, d)
  {
    var ds := Ordered(st.refs.Keys);
    assert d in ds;
    var j :| 0 <= j < |ds| && ds[j] == d;
    BuiltEntry(env, st, pub, frozen, key, documents, j);
    ByArtifactAt(documents, Names(env, st), |ds|, j);
  }

  lemma BuiltNamed(env: Env, st: Store, pub: Publication, frozen: seq<Frozen>, key: Bytes, documents: seq<Document>)
    requires Laws(env) && |key| == 32 && Complete(st, pub, frozen) && AllWellMade(st.artifacts)
    requires AllDocuments(env, st, pub, ByDocument(frozen), key) == Ok(documents)
    ensures Named(documents, Names(env, st))
  {
    BuiltCount(env, st, pub, frozen, key, documents);
    forall j | 0 <= j < |documents| ensures HasText(documents[j], ArtifactId, Names(env, st)[j]) {
      BuiltEntry(env, st, pub, frozen, key, documents, j);
    }
    NamesDiffer(env, st, pub, frozen);
  }

  lemma IndexKeys(env: Env, st: Store, documents: seq<Document>)
    requires Named(documents, Names(env, st)) && ByArtifact(documents, |documents|).Some?
    ensures ByArtifact(documents, |documents|).value.Keys == ArtifactNames(env, st)
  {
    var found, names := ByArtifact(documents, |documents|).value, Names(env, st);
    forall t ensures t in found <==> t in ArtifactNames(env, st) {
      NamesAreArtifactNames(env, st, t);
      if t in found { var j := ByArtifactHas(documents, names, |documents|, t); }
      if t in names {
        var j :| 0 <= j < |names| && names[j] == t;
        ByArtifactAt(documents, names, |documents|, j);
      }
    }
  }

  /** The index holds, under the name of the artifact of `d`, an entry that repeats it. */
  ghost predicate EntryFor(env: Env, st: Store, pub: Publication, frozen: seq<Frozen>, documents: seq<Document>, d: nat)
    requires d in st.refs && ByArtifact(documents, |documents|).Some?
  {
    var found, name := ByArtifact(documents, |documents|).value, env.uuid(st.refs[d]);
    && name in found && RefMatches(st, pub.dataset, ByDocument(frozen), d)
    && EntryOk(env, pub, st.refs[d], st.artifacts[st.refs[d]], ByDocument(frozen)[d].metadata, found[name])
  }

  /** Every referenced artifact carries its version labels. */
  ghost predicate AllLabelled(st: Store) {
    forall d :: d in st.refs ==> st.refs[d] in st.artifacts && Labelled(st.artifacts[st.refs[d]])
  }

  /** A generation key, if there is one already, is an RFC 3394 wrapping of 32 bytes. */
  ghost predicate KeySound(st: Store) {
    st.key.Some? ==> |st.key.value.wrapped| == 40 && st.key.value.wrapping == "AES-KW-RFC3394"
  }

  /**
   A first manifest built over a complete generation is accepted by validation, exactly when the publication has no
   companion artifact and no version label is empty: neither the key's, nor the configured signing version, nor those
   of the artifacts.
   */
  lemma BuiltGenerationIsAccepted(env: Env, st: Store, pub: Publication, frozen: seq<Frozen>, random: Bytes)
    requires Laws(env) && |random| == 32 && Distinct(frozen) && st.manifest.None? && KeySound(st)
    requires Complete(st, pub, frozen) && AllWellMade(st.artifacts)
    requires ManifestBuilt(env, st, pub, frozen, random).Ok?
    ensures var done := ManifestBuilt(env, st, pub, frozen, random).value;
            Acceptable(env, done, pub, frozen) <==>
            pub.artifactPath == "" && done.key.value.kekVersion != "" && env.signingVersion != "" && AllLabelled(st)
  {
    BuiltManifest(env, st, pub, frozen, random);
    var done := ManifestBuilt(env, st, pub, frozen, random).value;
    var payload := done.manifest.value.payload;
    var key := env.unwrap(env.kek, done.key.value.wrapped).value;
    assert |done.key.value.wrapped| == 40 by { if st.key.None? { assert WrapLaw(env, env.kek, random); } }
    assert |key| == 32 by { assert UnwrapLaw(env, env.kek, done.key.value.wrapped); }
    assert ManifestSignatureLaw(env, payload);
    BuiltDocumentsPass(env, st, pub, frozen, key, payload.documents);
    ReferencesIff(env, st, done, pub, frozen, payload.documents);
    assert ArtifactNames(env, done) == ArtifactNames(env, st);
    assert |st.refs| == |st.refs.Keys| && |ByDocument(frozen)| == |ByDocument(frozen).Keys|;
    AcceptedIff(env, done, pub, frozen, payload.documents);
  }

  /** With everything else in order, only the labels and the references are left to decide. */
  lemma AcceptedIff(env: Env, done: Store, pub: Publication, frozen: seq<Frozen>, documents: seq<Document>)
    requires done.key.Some? && done.manifest.Some? && done.manifest.value.payload == PayloadOf(env, pub, documents)
    requires |done.key.value.wrapped| == 40 && done.key.value.wrapping == "AES-KW-RFC3394"
    requires done.manifest.value.signatureAlgorithm == "Ed25519" && |done.manifest.value.signature| == 64
    requires |documents| == |done.refs| == |ByDocument(frozen)| && ByArtifact(documents, |documents|).Some?
    requires ByArtifact(documents, |documents|).value.Keys == ArtifactNames(env, done)
    ensures Acceptable(env, done, pub, frozen) <==>
            pub.artifactPath == "" && done.key.value.kekVersion != "" && done.manifest.value.signingVersion != ""
            && ReferencesOk(env, done, pub, ByDocument(frozen), ByArtifact(documents, |documents|).value)
  {
  }

  lemma ReferenceIff(
      env: Env, st: Store, done: Store, pub: Publication, frozen: seq<Frozen>, documents: seq<Document>, d: nat)
    requires d in st.refs && done.refs == st.refs && done.artifacts == st.artifacts && AllWellMade(st.artifacts)
    requires ByArtifact(documents, |documents|).Some? && EntryFor(env, st, pub, frozen, documents, d)
    ensures ReferenceOk(env, done, pub, ByDocument(frozen), ByArtifact(documents, |documents|).value, d) <==>
            Labelled(st.artifacts[st.refs[d]])
  {
  }

  lemma ReferencesIff(env: Env, st: Store, done: Store, pub: Publication, frozen: seq<Frozen>, documents: seq<Document>)
    requires done.refs == st.refs && done.artifacts == st.artifacts && AllWellMade(st.artifacts)
    requires ByArtifact(documents, |documents|).Some?
    requires forall d {:trigger EntryFor(env, st, pub, frozen, documents, d)} :: d in st.refs ==>
             EntryFor(env, st, pub, frozen, documents, d)
    ensures ReferencesOk(env, done, pub, ByDocument(frozen), ByArtifact(documents, |documents|).value) <==>
            AllLabelled(st)
  {
    var found := ByArtifact(documents, |documents|).value;
    if ReferencesOk(env, done, pub, ByDocument(frozen), found) {
      forall d | d in st.refs ensures st.refs[d] in st.artifacts && Labelled(st.artifacts[st.refs[d]]) {
        assert ReferenceOk(env, done, pub, ByDocument(frozen), found, d);
      }
    }
    if AllLabelled(st) {
      forall d | d in st.refs ensures ReferenceOk(env, done, pub, ByDocument(frozen), found, d) {
        assert EntryFor(env, st, pub, frozen, documents, d);
        ReferenceIff(env, st, done, pub, frozen, documents, d);
      }
    }
  }

  /**
   The whole way: a fresh publication, built and given its manifest without error, is accepted exactly when it has no
   companion artifact and the key-encryption and signing versions are labelled, in the configuration and on every
   artifact that was reused.
   */
  lemma BuildManifestValidate(
    env: Env, st: Store, pub: Publication, frozen: seq<Frozen>, accepted: Accepted, draws: seq<Draw>, random: Bytes)
    requires Laws(env) && |random| == 32 && |frozen| == |draws| && Distinct(frozen) && FreshDraws(st, draws)
    requires AllWellMade(st.artifacts) && st.key.None? && st.manifest.None?
    requires Built(env, st, pub, frozen, accepted, draws).Ok?
    requires ManifestBuilt(env, Built(env, st, pub, frozen, accepted, draws).value, pub, frozen, random).Ok?
    ensures var built := Built(env, st, pub, frozen, accepted, draws).value;
            var done := ManifestBuilt(env, built, pub, frozen, random).value;
            Acceptable(env, done, pub, frozen) <==>
            pub.artifactPath == "" && env.kekVersion != "" && env.signingVersion != "" && AllLabelled(built)
  {
    BuiltIsComplete(env, st, pub, frozen, accepted, draws);
    var built := Built(env, st, pub, frozen, accepted, draws).value;
    BuiltManifest(env, built, pub, frozen, random);
    BuiltGenerationIsAccepted(env, built, pub, frozen, random);
  }

  /**
   And it does go that way: with the publication building, its sources in order, the credentials configured and
   labelled, and every document addable, all three succeed, provided the artifacts already stored unwrap and are
   labelled.
   */
  lemma FreshPublicationGoesThrough(
    env: Env, st: Store, pub: Publication, frozen: seq<Frozen>, accepted: Accepted, draws: seq<Draw>, random: Bytes)
    requires Laws(env) && |random| == 32 && |frozen| == |draws| && Distinct(frozen) && FreshDraws(st, draws)
    requires AllWellMade(st.artifacts) && st.refs == map[] && st.key.None? && st.manifest.None?
    requires pub.schema == 2 && pub.building && pub.artifactPath == "" && SourcesOk(env, accepted, frozen)
    requires |env.kek| == 32 && env.signingKeyOk && env.signingKeyActive && env.kekVersion != ""
    requires env.signingVersion != ""
    requires forall i {:trigger AddableAt(env, st, pub.dataset, frozen[i], accepted)} :: 0 <= i < |frozen| ==>
             AddableAt(env, st, pub.dataset, frozen[i], accepted)
    requires forall id :: id in st.artifacts ==> Deliverable(env, st.artifacts[id])
    ensures var built := Built(env, st, pub, frozen, accepted, draws);
            && built.Ok?
            && var done := ManifestBuilt(env, built.value, pub, frozen, random);
               done.Ok? && Acceptable(env, done.value, pub, frozen)
  {
    AddDocumentsSucceed(env, st, pub.dataset, frozen, accepted, draws, |frozen|);
    var built := Built(env, st, pub, frozen, accepted, draws).value;
    AddDocumentsAdd(env, st, pub.dataset, frozen, accepted, draws, |frozen|);
    BuiltIsComplete(env, st, pub, frozen, accepted, draws);
    forall d | d in built.refs ensures Unwraps(env, built, d) && Labelled(built.artifacts[built.refs[d]]) {
      assert RefMatches(built, pub.dataset, ByDocument(frozen), d);
      OldOrMade(env, st, built, pub.dataset, frozen, draws, |frozen|, built.refs[d]);
    }
    ManifestSucceeds(env, built, pub, frozen, random);
    BuildManifestValidate(env, st, pub, frozen, accepted, draws, random);
  }

  /** An artifact whose content key unwraps and whose labels are present. */
  predicate Deliverable(env: Env, a: Artifact) {
    env.unwrap(env.kek, a.wrappedCek).Some? && Labelled(a)
  }

  // ---- what a tablet can do with the manifest -------------------------------------------------------

  /** The generation key behind the stored one. */
  function GenerationKeyOf(env: Env, st: Store): Option<Bytes> {
    if st.key.None? then None else env.unwrap(env.kek, st.key.value.wrapped)
  }

  /**
   One of the entries names the artifact of document `d` and carries, as base64 text, a wrapping that `generation`
   unwraps to the very content key that the key-encryption key protects in the artifact row.
   */
  ghost predicate KeyDelivered(env: Env, st: Store, generation: Bytes, documents: seq<Document>, d: nat)
    requires d in st.refs && st.refs[d] in st.artifacts
  {
    exists j, w :: 0 <= j < |documents| && KeyEntry(env, st, generation, documents[j], d, w)
  }

  ghost predicate KeyEntry(env: Env, st: Store, generation: Bytes, document: Document, d: nat, w: Bytes)
    requires d in st.refs && st.refs[d] in st.artifacts
  {
    && HasText(document, ArtifactId, env.uuid(st.refs[d])) && HasText(document, GenerationWrapped, Encode(w))
    && env.unwrap(generation, w).Some?
    && env.unwrap(generation, w) == env.unwrap(env.kek, st.artifacts[st.refs[d]].wrappedCek)
  }

  lemma DocumentCarries(env: Env, pub: Publication, id: nat, a: Artifact, metadata: string, wrapped: Bytes)
    ensures HasText(DocumentOf(env, pub, id, a, metadata, wrapped), GenerationWrapped, Encode(wrapped))
  {
  }

  lemma RewrappedDelivers(env: Env, st: Store, pub: Publication, entries: map<nat, Frozen>, key: Bytes, d: nat)
    returns (w: Bytes)
    requires Laws(env) && |key| == 32 && d in st.refs && Rewrapped(env, st, pub, entries, key, d).Ok?
    requires WellMade(st.artifacts[st.refs[d]])
    ensures KeyEntry(env, st, key, Rewrapped(env, st, pub, entries, key, d).value, d, w)
  {
    var a := st.artifacts[st.refs[d]];
    var cek := env.unwrap(env.kek, a.wrappedCek).value;
    assert UnwrapLaw(env, env.kek, a.wrappedCek) && WrapLaw(env, key, cek);
    w := env.wrap(key, cek);
    RewrappedIsOk(env, st, pub, entries, key, d);
    DocumentCarries(env, pub, st.refs[d], a, entries[d].metadata, w);
  }

  /** The entry of document `d` and the wrapping it carries. */
  lemma EntryDeliversKey(
      env: Env, st: Store, pub: Publication, frozen: seq<Frozen>, key: Bytes, documents: seq<Document>, d: nat)
    returns (j: nat, w: Bytes)
    requires Laws(env) && |key| == 32 && Complete(st, pub, frozen) && AllWellMade(st.artifacts) && d in st.refs
    requires AllDocuments(env, st, pub, ByDocument(frozen), key) == Ok(documents)
    ensures st.refs[d] in st.artifacts && j < |documents| && KeyEntry(env, st, key, documents[j], d, w)
    ensures RefMatches(st, pub.dataset, ByDocument(frozen), d)
            && EntryOk(env, pub, st.refs[d], st.artifacts[st.refs[d]], ByDocument(frozen)[d].metadata, documents[j])
  {
    var ds := Ordered(st.refs.Keys);
    assert d in ds;
    j :| 0 <= j < |ds| && ds[j] == d;
    BuiltCount(env, st, pub, frozen, key, documents);
    BuiltEntry(env, st, pub, frozen, key, documents, j);
    w := RewrappedDelivers(env, st, pub, ByDocument(frozen), key, d);
  }

  /** The stored generation key has 32 bytes; a new one is the random bytes drawn, an existing one is kept. */
  lemma KeyIsSound(env: Env, st: Store, pub: Publication, frozen: seq<Frozen>, random: Bytes)
    requires Laws(env) && |random| == 32 && KeySound(st) && ManifestBuilt(env, st, pub, frozen, random).Ok?
    ensures var done := ManifestBuilt(env, st, pub, frozen, random).value;
            && done.key.Some? && GenerationKeyOf(env, done).Some? && |GenerationKeyOf(env, done).value| == 32
            && (st.key.Some? ==> done.key == st.key)
            && (st.key.None? ==>
                  && pub.building && GenerationKeyOf(env, done) == Some(random)
                  && done.key.value.wrapping == "AES-KW-RFC3394" && done.key.value.kekVersion == env.kekVersion)
  {
    BuiltManifest(env, st, pub, frozen, random);
    var done := ManifestBuilt(env, st, pub, frozen, random).value;
    assert WrapLaw(env, env.kek, random) && UnwrapLaw(env, env.kek, done.key.value.wrapped);
  }

  /**
   A manifest over a complete generation delivers the content key of every referenced artifact under the stored
   generation key, in as many entries as there are references, no two of them for the same artifact.
   */
  lemma ManifestDeliversKeys(env: Env, st: Store, pub: Publication, frozen: seq<Frozen>, random: Bytes)
    requires Laws(env) && |random| == 32 && KeySound(st)
    requires Complete(st, pub, frozen) && AllWellMade(st.artifacts)
    requires ManifestBuilt(env, st, pub, frozen, random).Ok?
    ensures var done := ManifestBuilt(env, st, pub, frozen, random).value;
            && GenerationKeyOf(env, done).Some? && done.manifest.Some?
            && (st.key.None? ==> GenerationKeyOf(env, done) == Some(random))
            && var documents := done.manifest.value.payload.documents;
            && |documents| == |st.refs|
            && (forall i, j :: 0 <= i < j < |documents| ==>
                  Get(documents[i], ArtifactId) != Get(documents[j], ArtifactId))
            && forall d :: d in st.refs ==>
                 st.refs[d] in st.artifacts && KeyDelivered(env, st, GenerationKeyOf(env, done).value, documents, d)
  {
    BuiltManifest(env, st, pub, frozen, random);
    KeyIsSound(env, st, pub, frozen, random);
    var done := ManifestBuilt(env, st, pub, frozen, random).value;
    var key, documents := GenerationKeyOf(env, done).value, done.manifest.value.payload.documents;
    forall d | d in st.refs
      ensures st.refs[d] in st.artifacts && KeyDelivered(env, st, key, documents, d)
    {
      var j, w := EntryDeliversKey(env, st, pub, frozen, key, documents, d);
    }
    EntriesDiffer(env, st, pub, frozen, key, documents);
  }

  lemma EntriesDiffer(env: Env, st: Store, pub: Publication, frozen: seq<Frozen>, key: Bytes, documents: seq<Document>)
    requires Laws(env) && |key| == 32 && Complete(st, pub, frozen) && AllWellMade(st.artifacts)
    requires AllDocuments(env, st, pub, ByDocument(frozen), key) == Ok(documents)
    ensures |documents| == |st.refs|
    ensures forall i, j :: 0 <= i < j < |documents| ==>
            Get(documents[i], ArtifactId) != Get(documents[j], ArtifactId)
  {
    var names := Names(env, st);
    BuiltNamed(env, st, pub, frozen, key, documents);
    assert |st.refs| == |st.refs.Keys|;
    forall i, j | 0 <= i < j < |documents| ensures Get(documents[i], ArtifactId) != Get(documents[j], ArtifactId) {
      assert HasText(documents[i], ArtifactId, names[i]) && HasText(documents[j], ArtifactId, names[j]);
    }
  }

  /**
   Everything a tablet needs for one document: an entry that says where the ciphertext is, what it must hash to and
   with which nonce it was sealed, and whose wrapped key the generation key turns into one that opens the stored
   ciphertext to bytes of the frozen digest.
   */
  ghost predicate Readable(
      env: Env, st: Store, pub: Publication, generation: Bytes, documents: seq<Document>, e: Frozen) {
    && e.id in st.refs && st.refs[e.id] in st.files
    && exists j, w, n :: 0 <= j < |documents| && ReadableEntry(env, st, pub, generation, documents[j], e, w, n)
  }

  ghost predicate ReadableEntry(
      env: Env, st: Store, pub: Publication, generation: Bytes, document: Document, e: Frozen, w: Bytes, n: Bytes)
    requires e.id in st.refs && st.refs[e.id] in st.files
  {
    var cipher := st.files[st.refs[e.id]];
    && HasText(document, Download,
         "/api/v1/tablet/document-generations/" + env.uuid(pub.id) + "/artifacts/" + env.uuid(st.refs[e.id])
           + "/download")
    && HasText(document, SanitizedSha, e.sha) && HasText(document, CipherSha, env.digest(cipher))
    && Get(document, CipherSize) == Some(Number(|cipher|))
    && HasText(document, Nonce, Encode(n)) && HasText(document, GenerationWrapped, Encode(w))
    && env.unwrap(generation, w).Some?
    && var pdf := env.open(env.unwrap(generation, w).value, n, cipher);
    && pdf.Some? && env.digest(pdf.value) == e.sha
  }

  lemma EntryIsReadable(
      env: Env, st: Store, pub: Publication, frozen: seq<Frozen>, key: Bytes, documents: seq<Document>,
      accepted: Accepted, i: nat)
    requires Laws(env) && |key| == 32 && Complete(st, pub, frozen) && AllWellMade(st.artifacts) && i < |frozen|
    requires AllDocuments(env, st, pub, ByDocument(frozen), key) == Ok(documents)
    requires Delivered(env, st, pub.dataset, frozen[i], accepted)
    ensures Readable(env, st, pub, key, documents, frozen[i])
  {
    var e := frozen[i];
    var j, w := EntryDeliversKey(env, st, pub, frozen, key, documents, e.id);
    EntryReads(env, st, pub, key, documents[j], e, w, ByDocument(frozen)[e.id].metadata);
  }

  lemma EntryReads(
      env: Env, st: Store, pub: Publication, key: Bytes, document: Document, e: Frozen, w: Bytes, metadata: string)
    requires e.id in st.refs && Kept(env, st, pub.dataset, e.id, e.sha, st.refs[e.id])
    requires KeyEntry(env, st, key, document, e.id, w)
    requires Opens(env, st.artifacts[st.refs[e.id]], st.files[st.refs[e.id]])
    requires EntryOk(env, pub, st.refs[e.id], st.artifacts[st.refs[e.id]], metadata, document)
    ensures ReadableEntry(env, st, pub, key, document, e, w, st.artifacts[st.refs[e.id]].nonce)
  {
  }

  lemma ReadableElsewhere(
      env: Env, st: Store, done: Store, pub: Publication, key: Bytes, documents: seq<Document>, e: Frozen)
    requires done.refs == st.refs && done.files == st.files && Readable(env, st, pub, key, documents, e)
    ensures Readable(env, done, pub, key, documents, e)
  {
    var j, w, n :| 0 <= j < |documents| && ReadableEntry(env, st, pub, key, documents[j], e, w, n);
    assert ReadableEntry(env, done, pub, key, documents[j], e, w, n);
  }

  lemma ManifestIsReadable(
      env: Env, st: Store, pub: Publication, frozen: seq<Frozen>, accepted: Accepted, random: Bytes, i: nat)
    requires Laws(env) && |random| == 32 && KeySound(st) && i < |frozen|
    requires Complete(st, pub, frozen) && AllWellMade(st.artifacts)
    requires Delivered(env, st, pub.dataset, frozen[i], accepted)
    requires ManifestBuilt(env, st, pub, frozen, random).Ok?
    ensures var done := ManifestBuilt(env, st, pub, frozen, random).value;
            && GenerationKeyOf(env, done).Some? && done.manifest.Some?
            && Readable(env, done, pub, GenerationKeyOf(env, done).value, done.manifest.value.payload.documents,
                 frozen[i])
  {
    BuiltManifest(env, st, pub, frozen, random);
    KeyIsSound(env, st, pub, frozen, random);
    var done := ManifestBuilt(env, st, pub, frozen, random).value;
    var key, documents := GenerationKeyOf(env, done).value, done.manifest.value.payload.documents;
    EntryIsReadable(env, st, pub, frozen, key, documents, accepted, i);
    ReadableElsewhere(env, st, done, pub, key, documents, frozen[i]);
  }

  /**
   From accepted file to tablet: once a generation has been built and given its manifest, whoever holds the
   generation key can read every frozen document out of the manifest and the stored ciphertexts, and gets bytes of
   exactly the frozen digest.
   */
  lemma TabletReadsEveryDocument(
      env: Env, st: Store, pub: Publication, frozen: seq<Frozen>, accepted: Accepted, draws: seq<Draw>, random: Bytes,
      i: nat)
    requires Laws(env) && |random| == 32 && |frozen| == |draws| && Distinct(frozen) && FreshDraws(st, draws)
    requires AllWellMade(st.artifacts) && AllOpen(env, st) && KeySound(st) && i < |frozen|
    requires Built(env, st, pub, frozen, accepted, draws).Ok?
    requires ManifestBuilt(env, Built(env, st, pub, frozen, accepted, draws).value, pub, frozen, random).Ok?
    ensures var built := Built(env, st, pub, frozen, accepted, draws).value;
            var done := ManifestBuilt(env, built, pub, frozen, random).value;
            && GenerationKeyOf(env, done).Some? && done.manifest.Some?
            && Readable(env, done, pub, GenerationKeyOf(env, done).value, done.manifest.value.payload.documents,
                 frozen[i])
  {
    var built := Built(env, st, pub, frozen, accepted, draws).value;
    BuiltIsComplete(env, st, pub, frozen, accepted, draws);
    BuiltIsDelivered(env, st, pub, frozen, accepted, draws, i);
    ManifestIsReadable(env, built, pub, frozen, accepted, random, i);
  }

  // ---- what acceptance means ------------------------------------------------------------------------

  /** The artifact row is whole, and is the one of that frozen document. */
  predicate RowVouches(pub: Publication, e: Frozen, a: Artifact) {
    && a.dataset == pub.dataset && a.document == e.id && a.sha == e.sha
    && a.path != "" && a.size > 0 && |a.nonce| == 12 && |a.wrappedCek| == 40 && |a.signature| == 64
    && |a.cipherSha| == 64 && (forall c :: c in a.cipherSha ==> '0' <= c <= '9' || 'a' <= c <= 'f')
    && a.encryption == "AES-256-GCM" && a.wrapping == "AES-KW-RFC3394" && a.signatureAlgorithm == "Ed25519"
    && a.kekVersion != "" && a.signingVersion != ""
  }

  /** The entry says of the artifact what its row says. */
  predicate EntryVouches(env: Env, pub: Publication, e: Frozen, id: nat, a: Artifact, document: Document) {
    && document.Keys >= {ArtifactId, SanitizedSha, CipherSha, CipherSize, Nonce, Encryption, Wrapping, KekVersion,
         Signature, SignatureAlgorithm, SigningVersion, GenerationWrapped, GenerationWrapping, Download}
    && document[ArtifactId] == Text(env.uuid(id)) && document[SanitizedSha] == Text(e.sha)
    && document[CipherSha] == Text(a.cipherSha) && document[CipherSize] == Number(a.size)
    && document[Nonce] == Text(Encode(a.nonce)) && document[Signature] == Text(Encode(a.signature))
    && document[Encryption] == Text("AES-256-GCM") && document[Wrapping] == Text("AES-KW-RFC3394")
    && document[KekVersion] == Text(a.kekVersion) && document[SigningVersion] == Text(a.signingVersion)
    && document[SignatureAlgorithm] == Text("Ed25519") && document[GenerationWrapping] == Text("AES-KW-RFC3394")
    && document[Download] == Text("/api/v1/tablet/document-generations/" + env.uuid(pub.id) + "/artifacts/"
         + env.uuid(id) + "/download")
    && document[GenerationWrapped].Text?
    && var t := document[GenerationWrapped].text;
    && |t| == 56 && t[54] == '=' && t[55] == '='
    && forall i :: 0 <= i < 54 ==>
         'A' <= t[i] <= 'Z' || 'a' <= t[i] <= 'z' || '0' <= t[i] <= '9' || t[i] == '+' || t[i] == '/'
  }

  /** The metadata stands under the key of the dataset. */
  predicate MetadataVouches(pub: Publication, e: Frozen, document: Document) {
    var field := Metadata(
      if pub.dataset == "department_fire_plans" then "fire_plan"
      else if pub.dataset == "department_files" || pub.dataset == "station_files" then "file" else "klgv_plan");
    field in document && document[field] == Nested(e.metadata)
  }

  ghost predicate Vouched(env: Env, st: Store, pub: Publication, documents: seq<Document>, e: Frozen) {
    && e.id in st.refs && st.refs[e.id] in st.artifacts && RowVouches(pub, e, st.artifacts[st.refs[e.id]])
    && exists j :: 0 <= j < |documents|
         && EntryVouches(env, pub, e, st.refs[e.id], st.artifacts[st.refs[e.id]], documents[j])
         && MetadataVouches(pub, e, documents[j])
  }

  lemma {:induction false} FoundIsListed(documents: seq<Document>, n: nat, t: string) returns (j: nat)
    requires n <= |documents| && ByArtifact(documents, n).Some? && t in ByArtifact(documents, n).value
    ensures j < n && documents[j] == ByArtifact(documents, n).value[t] && HasText(documents[j], ArtifactId, t)
  {
    if HasText(documents[n - 1], ArtifactId, t) { j := n - 1; } else { j := FoundIsListed(documents, n - 1, t); }
  }

  lemma OkEntryVouches(env: Env, pub: Publication, e: Frozen, id: nat, a: Artifact, document: Document)
    requires WellMade(a) && HasKey(a, pub.dataset, e.id, e.sha) && HasText(document, ArtifactId, env.uuid(id))
    requires EntryOk(env, pub, id, a, e.metadata, document)
    ensures EntryVouches(env, pub, e, id, a, document) && MetadataVouches(pub, e, document)
  {
  }

  lemma ReferenceVouches(
      env: Env, st: Store, pub: Publication, frozen: seq<Frozen>, documents: seq<Document>, i: nat)
    requires Distinct(frozen) && i < |frozen| && ByArtifact(documents, |documents|).Some? && frozen[i].id in st.refs
    requires ReferenceOk(env, st, pub, ByDocument(frozen), ByArtifact(documents, |documents|).value, frozen[i].id)
    ensures Vouched(env, st, pub, documents, frozen[i])
  {
    var e := frozen[i];
    UptoAt(frozen, |frozen|, i);
    var id := st.refs[e.id];
    var j := FoundIsListed(documents, |documents|, env.uuid(id));
    OkEntryVouches(env, pub, e, id, st.artifacts[id], documents[j]);
  }

  /**
   What validation guarantees of a generation it accepts, whoever built it: nothing but the frozen documents is
   referenced, every one of them leads to a whole artifact row of its content, and the manifest has one entry for
   each, which repeats the row and the frozen metadata. Dropping any single check would break one of these.
   */
  lemma AcceptedIsVouched(env: Env, st: Store, pub: Publication, frozen: seq<Frozen>)
    requires Distinct(frozen) && Acceptable(env, st, pub, frozen)
    ensures pub.artifactPath == "" && st.manifest.Some? && st.key.Some?
    ensures var m, k := st.manifest.value, st.key.value;
            && |k.wrapped| == 40 && k.wrapping == "AES-KW-RFC3394" && k.kekVersion != ""
            && m.signatureAlgorithm == "Ed25519" && |m.signature| == 64 && m.signingVersion != ""
            && m.payload.format == Text("document-generation-v2") && m.payload.dataset == Text(pub.dataset)
            && m.payload.publication == Text(env.uuid(pub.id)) && m.payload.version == Number(pub.version)
            && m.payload.schema == Number(2)
            && |m.payload.documents| == |frozen| == |st.refs|
            && (forall i, j :: 0 <= i < j < |frozen| ==>
                  Get(m.payload.documents[i], ArtifactId) != Get(m.payload.documents[j], ArtifactId))
            && forall i {:trigger Vouched(env, st, pub, m.payload.documents, frozen[i])} :: 0 <= i < |frozen| ==>
                 Vouched(env, st, pub, m.payload.documents, frozen[i])
  {
    var documents, entries := st.manifest.value.payload.documents, ByDocument(frozen);
    UptoCount(frozen, |frozen|);
    forall i | 0 <= i < |frozen| ensures Vouched(env, st, pub, documents, frozen[i]) {
      ReferencesCoverFrozen(env, st, pub, frozen, i);
      ReferenceVouches(env, st, pub, frozen, documents, i);
    }
    forall i, j | 0 <= i < j < |frozen| ensures Get(documents[i], ArtifactId) != Get(documents[j], ArtifactId) {
      IdentitiesDiffer(documents, |documents|, i, j);
    }
  }

  lemma ReferencesCoverFrozen(env: Env, st: Store, pub: Publication, frozen: seq<Frozen>, i: nat)
    requires Distinct(frozen) && Acceptable(env, st, pub, frozen) && i < |frozen|
    ensures frozen[i].id in st.refs
    ensures ReferenceOk(env, st, pub, ByDocument(frozen),
                ByArtifact(st.manifest.value.payload.documents, |st.manifest.value.payload.documents|).value,
                frozen[i].id)
  {
    var documents, entries := st.manifest.value.payload.documents, ByDocument(frozen);
    var found := ByArtifact(documents, |documents|).value;
    forall d | d in st.refs ensures d in entries { assert ReferenceOk(env, st, pub, entries, found, d); }
    assert |st.refs| == |st.refs.Keys| && |entries| == |entries.Keys|;
    SameSizeSubset(st.refs.Keys, entries.Keys);
    UptoAt(frozen, |frozen|, i);
    assert frozen[i].id in st.refs.Keys;
    assert ReferenceOk(env, st, pub, entries, found, frozen[i].id);
  }

  lemma {:induction false} IdentitiesDiffer(documents: seq<Document>, n: nat, i: nat, j: nat)
    requires i < j < n <= |documents| && ByArtifact(documents, n).Some?
    ensures Get(documents[i], ArtifactId) != Get(documents[j], ArtifactId)
  {
    if j < n - 1 {
      IdentitiesDiffer(documents, n - 1, i, j);
    } else {
      IdentityIsFound(documents, n - 1, i);
    }
  }

  lemma {:induction false} IdentityIsFound(documents: seq<Document>, n: nat, i: nat)
    requires i < n <= |documents| && ByArtifact(documents, n).Some?
    ensures Get(documents[i], ArtifactId).Some? && Get(documents[i], ArtifactId).value.Text?
    ensures Get(documents[i], ArtifactId).value.text in ByArtifact(documents, n).value
  {
    if i < n - 1 { IdentityIsFound(documents, n - 1, i); }
  }

  /**
   The payload that is stored after a successful build, its signature, and the order of its entries; a manifest that is
   there already is accepted only as that, and stays.
   */
  lemma StoredManifestStates(env: Env, st: Store, pub: Publication, frozen: seq<Frozen>, random: Bytes)
    requires Laws(env) && |random| == 32 && KeySound(st)
    requires Complete(st, pub, frozen) && AllWellMade(st.artifacts)
    requires ManifestBuilt(env, st, pub, frozen, random).Ok?
    ensures var done := ManifestBuilt(env, st, pub, frozen, random).value;
            && done.artifacts == st.artifacts && done.files == st.files && done.refs == st.refs && done.manifest.Some?
            && var m := done.manifest.value;
            && m.signature == env.sign(m.payload)
            && (st.manifest.Some? ==> m == st.manifest.value)
            && (st.manifest.None? ==> m.signingVersion == env.signingVersion && m.signatureAlgorithm == "Ed25519")
            && m.payload.format == Text("document-generation-v2") && m.payload.dataset == Text(pub.dataset)
            && m.payload.publication == Text(env.uuid(pub.id)) && m.payload.version == Number(pub.version)
            && m.payload.schema == Number(2)
            && (m.payload.library.Some? <==> pub.dataset == "department_files" || pub.dataset == "station_files")
            && (m.payload.library.Some? ==> m.payload.library.value == pub.snapshot)
            && var ds := Ordered(st.refs.Keys);
            && |m.payload.documents| == |ds|
            && forall j :: 0 <= j < |ds| ==>
                 && ds[j] in st.refs
                 && Get(m.payload.documents[j], ArtifactId) == Some(Text(env.uuid(st.refs[ds[j]])))
  {
    BuiltManifest(env, st, pub, frozen, random);
    KeyIsSound(env, st, pub, frozen, random);
    var done := ManifestBuilt(env, st, pub, frozen, random).value;
    var key, documents := GenerationKeyOf(env, done).value, done.manifest.value.payload.documents;
    EntriesInOrder(env, st, pub, frozen, key, documents);
  }

  lemma EntriesInOrder(env: Env, st: Store, pub: Publication, frozen: seq<Frozen>, key: Bytes, documents: seq<Document>)
    requires Laws(env) && |key| == 32 && Complete(st, pub, frozen) && AllWellMade(st.artifacts)
    requires AllDocuments(env, st, pub, ByDocument(frozen), key) == Ok(documents)
    ensures var ds := Ordered(st.refs.Keys);
            && |documents| == |ds|
            && forall j :: 0 <= j < |ds| ==>
                 ds[j] in st.refs && Get(documents[j], ArtifactId) == Some(Text(env.uuid(st.refs[ds[j]])))
  {
    var ds := Ordered(st.refs.Keys);
    BuiltNamed(env, st, pub, frozen, key, documents);
    forall j | 0 <= j < |ds|
      ensures ds[j] in st.refs && Get(documents[j], ArtifactId) == Some(Text(env.uuid(st.refs[ds[j]])))
    {
      assert ds[j] in ds;
      assert HasText(documents[j], ArtifactId, Names(env, st)[j]);
    }
  }

  class ManifestWorker {
    var st: Store

    constructor (st: Store)
      ensures this.st == st
    {
      this.st := st;
    }

    /** `build_document_v2_manifest`, inside the transaction of the build job. */
    method BuildManifest(
        env: Env, pub: Publication, frozen: seq<Frozen>, random: Bytes) returns (r: Result<Manifest, Error>)
      modifies this
      ensures r.Ok? ==> ManifestBuilt(env, old(st), pub, frozen, random) == Ok(st) && st.manifest == Some(r.value)
      ensures r.Err? ==> ManifestBuilt(env, old(st), pub, frozen, random) == Err(r.error) && st == old(st)
    {
      var entries := ByDocument(frozen);
      if st.refs.Keys != entries.Keys { return Err(MembershipIncomplete); }
      var key := EnsuredKey(env, st, pub, random);
      if key.Err? { return Err(key.error); }
      if |env.kek| != 32 { return Err(BadCredentials); }
      var bytes := env.unwrap(env.kek, key.value.wrapped);
      if bytes.None? { return Err(UnwrapFailed); }
      var documents := RewrapAll(env, st, pub, entries, bytes.value);
      if documents.Err? { return Err(documents.error); }
      if !env.signingKeyOk || !env.signingKeyActive { return Err(SigningFailed); }
      var payload := PayloadOf(env, pub, documents.value);
      var signature := env.sign(payload);
      if st.manifest.Some? && (st.manifest.value.payload != payload || st.manifest.value.signature != signature) {
        return Err(Immutable);
      }
      st := st.(key := Some(key.value));
      if st.manifest.None? {
        st := st.(manifest := Some(Manifest(payload, signature, "Ed25519", env.signingVersion)));
      }
      r := Ok(st.manifest.value);
    }
  }

  method RewrapAll(
      env: Env, st: Store, pub: Publication, entries: map<nat, Frozen>, key: Bytes)
          returns (r: Result<seq<Document>, Error>)
    ensures r == AllDocuments(env, st, pub, entries, key)
  {
    var ds := Ordered(st.refs.Keys);
    forall j | 0 <= j < |ds| ensures ds[j] in st.refs { assert ds[j] in ds; }
    r := RewrapListed(env, st, pub, entries, key, ds);
  }

  /** The loop over the references, in document order. */
  method RewrapListed(env: Env, st: Store, pub: Publication, entries: map<nat, Frozen>, key: Bytes, ds: seq<nat>)
    returns (r: Result<seq<Document>, Error>)
    requires Listed(st, ds)
    ensures r == Documents(env, st, pub, entries, key, ds, |ds|)
  {
    r := Ok([]);
    for i := 0 to |ds|
      invariant r.Ok? && Documents(env, st, pub, entries, key, ds, i) == r
    {
      var next := Rewrapped(env, st, pub, entries, key, ds[i]);
      if next.Err? {
        r := Err(next.error);
        FailureSticks(env, st, pub, entries, key, ds, i + 1, |ds|);
        return;
      }
      r := Ok(r.value + [next.value]);
    }
  }

  lemma {:induction false} FailureSticks(
    env: Env, st: Store, pub: Publication, entries: map<nat, Frozen>, key: Bytes, ds: seq<nat>, m: nat, n: nat)
    requires m <= n <= |ds| && Listed(st, ds) && Documents(env, st, pub, entries, key, ds, m).Err?
    ensures Documents(env, st, pub, entries, key, ds, n) == Documents(env, st, pub, entries, key, ds, m)
    decreases n
  {
    if m < n { FailureSticks(env, st, pub, entries, key, ds, m, n - 1); }
  }
}
