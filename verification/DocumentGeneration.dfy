/**
 The encrypted artifacts and references of one document generation: what is stored, the primitives it rests on, and the
 build that makes a publication's generation complete.
 */
module DocumentGeneration {
  import opened Common
  import opened Base64

  datatype Frozen = Frozen(id: nat, sha: string, metadata: string, accepted: string)

  datatype Publication = Publication(
    id: nat, dataset: string, version: nat, schema: nat, building: bool, artifactPath: string, snapshot: string)

  datatype Artifact = Artifact(
    dataset: string, document: nat, sha: string, path: string, size: int, cipherSha: string, nonce: Bytes,
    wrappedCek: Bytes, encryption: string, wrapping: string, kekVersion: string, signature: Bytes,
    signatureAlgorithm: string, signingVersion: string)

  datatype GenerationKey = GenerationKey(wrapped: Bytes, wrapping: string, kekVersion: string)

  datatype Json = Text(text: string) | Number(number: int) | Nested(object: string)

  /** The keys of a manifest document. */
  datatype Field =
    | Metadata(key: string) | ArtifactId | SanitizedSha | CipherSha | CipherSize | Nonce | Encryption | Wrapping
    | KekVersion | Signature | SignatureAlgorithm | SigningVersion | GenerationWrapped | GenerationWrapping | Download

  type Document = map<Field, Json>

  datatype Payload = Payload(
    format: Json, dataset: Json, publication: Json, version: Json, schema: Json, documents: seq<Document>,
    library: Option<string>)

  datatype Manifest = Manifest(payload: Payload, signature: Bytes, signatureAlgorithm: string, signingVersion: string)

  /** The tables as far as they concern one publication; files are found by artifact identity. */
  datatype Store = Store(
    artifacts: map<nat, Artifact>, files: map<nat, Bytes>, refs: map<nat, nat>, key: Option<GenerationKey>,
    manifest: Option<Manifest>)

  datatype Error =
    | WrongSchema | NotBuilding | AcceptedUnavailable | MembershipIncomplete | StorageInvalid | TooLarge
    | BadCredentials
    | ContentMismatch | UnwrapFailed | SigningFailed | Immutable

  /**
   Configuration and the cryptographic primitives. The signing key may be usable (of the right length) without being the
   one that is configured as active.
   */
  datatype Env = Env(
    kek: Bytes, signingKeyOk: bool, signingKeyActive: bool, kekVersion: string, signingVersion: string, maxBytes: nat,
    wrap: (Bytes, Bytes) -> Bytes, unwrap: (Bytes, Bytes) -> Option<Bytes>, seal: (Bytes, Bytes, Bytes) -> Bytes,
    open: (Bytes, Bytes, Bytes) -> Option<Bytes>, digest: Bytes -> string, signArtifact: Artifact -> Bytes,
        sign: Payload -> Bytes, uuid: nat -> string)

  predicate IsHex64(s: string) {
    |s| == 64 && forall c :: c in s ==> '0' <= c <= '9' || 'a' <= c <= 'f'
  }

  /** Section 2.2 of RFC 3394: a wrapped key is eight bytes longer, and unwrapping undoes wrapping. */
  ghost predicate WrapLaw(env: Env, k: Bytes, x: Bytes) {
    |k| == 32 && |x| == 32 ==> |env.wrap(k, x)| == 40 && env.unwrap(k, env.wrap(k, x)) == Some(x)
  }

  ghost predicate UnwrapLaw(env: Env, k: Bytes, w: Bytes) {
    env.unwrap(k, w).Some? ==> |env.unwrap(k, w).value| + 8 == |w|
  }

  /** AES-GCM appends a 16-byte tag, and opening undoes sealing. */
  ghost predicate SealLaw(env: Env, k: Bytes, n: Bytes, p: Bytes) {
    |k| == 32 && |n| == 12 ==>
      |env.seal(k, n, p)| == |p| + 16 && env.open(k, n, env.seal(k, n, p)) == Some(p)
  }

  ghost predicate DigestLaw(env: Env, b: Bytes) {
    IsHex64(env.digest(b))
  }

  /** Ed25519 signatures have 64 bytes. */
  ghost predicate ArtifactSignatureLaw(env: Env, a: Artifact) {
    |env.signArtifact(a)| == 64
  }

  ghost predicate ManifestSignatureLaw(env: Env, p: Payload) {
    |env.sign(p)| == 64
  }

  ghost predicate UuidLaw(env: Env, a: nat, b: nat) {
    env.uuid(a) == env.uuid(b) ==> a == b
  }

  ghost predicate Laws(env: Env) {
    && (forall k, x {:trigger WrapLaw(env, k, x)} :: WrapLaw(env, k, x))
    && (forall k, w {:trigger UnwrapLaw(env, k, w)} :: UnwrapLaw(env, k, w))
    && (forall k, n, p {:trigger SealLaw(env, k, n, p)} :: SealLaw(env, k, n, p))
    && (forall b {:trigger DigestLaw(env, b)} :: DigestLaw(env, b))
    && (forall a {:trigger ArtifactSignatureLaw(env, a)} :: ArtifactSignatureLaw(env, a))
    && (forall p {:trigger ManifestSignatureLaw(env, p)} :: ManifestSignatureLaw(env, p))
    && (forall a, b {:trigger UuidLaw(env, a, b)} :: UuidLaw(env, a, b))
  }

  /** The laws can be met; this is no cryptography, only an instance. */
  lemma LawsCanHold() returns (env: Env)
    ensures Laws(env) && |env.kek| == 32 && env.signingKeyOk && env.signingKeyActive
  {
    var zeros := (n: nat) => seq(n, i requires 0 <= i < n => 0 as Byte);
    var kek: Bytes := zeros(32);
    var pad8: Bytes, pad16: Bytes, signature: Bytes := zeros(8), zeros(16), zeros(64);
    var name := seq(64, i requires 0 <= i < 64 => '0');
    env := Env(kek, true, true, "1", "1", 0,
               (k, x) => x + pad8, (k, w) => if |w| >= 8 then Some(w[..|w| - 8]) else None, (k, n, p) => p + pad16,
               (k, n, c) => if |c| >= 16 then Some(c[..|c| - 16]) else None,
               b => name, a => signature, p => signature, (n: nat) => seq(n, i requires 0 <= i < n => '0'));
    forall k, x ensures WrapLaw(env, k, x) {
      assert (x + pad8)[..|x + pad8| - 8] == x;
    }
    forall k, n, p ensures SealLaw(env, k, n, p) {
      assert (p + pad16)[..|p + pad16| - 16] == p;
    }
    forall b ensures DigestLaw(env, b) {
      assert env.digest(b) == name;
    }
    forall a, b ensures UuidLaw(env, a, b) {
      assert |env.uuid(a)| == a && |env.uuid(b)| == b;
    }
  }

  // ---- frozen documents -----------------------------------------------------------------------------

  ghost predicate Distinct(frozen: seq<Frozen>) {
    forall i, j :: 0 <= i < j < |frozen| ==> frozen[i].id != frozen[j].id
  }

  /** The dictionary of the first `n` documents by identity; a later entry would replace an earlier one. */
  function Upto(frozen: seq<Frozen>, n: nat): map<nat, Frozen>
    requires n <= |frozen|
  {
    if n == 0 then map[] else Upto(frozen, n - 1)[frozen[n - 1].id := frozen[n - 1]]
  }

  function ByDocument(frozen: seq<Frozen>): map<nat, Frozen> {
    Upto(frozen, |frozen|)
  }

  lemma {:induction false} UptoAt(frozen: seq<Frozen>, n: nat, i: nat)
    requires Distinct(frozen) && i < n <= |frozen|
    ensures frozen[i].id in Upto(frozen, n) && Upto(frozen, n)[frozen[i].id] == frozen[i]
  {
    if i < n - 1 { UptoAt(frozen, n - 1, i); }
  }

  lemma {:induction false} UptoHas(frozen: seq<Frozen>, n: nat, d: nat) returns (i: nat)
    requires n <= |frozen| && d in Upto(frozen, n)
    ensures i < n && frozen[i].id == d
  {
    if frozen[n - 1].id == d { i := n - 1; } else { i := UptoHas(frozen, n - 1, d); }
  }

  lemma {:induction false} UptoCount(frozen: seq<Frozen>, n: nat)
    requires Distinct(frozen) && n <= |frozen|
    ensures |Upto(frozen, n)| == n
  {
    if n > 0 {
      UptoCount(frozen, n - 1);
      if frozen[n - 1].id in Upto(frozen, n - 1) { var i := UptoHas(frozen, n - 1, frozen[n - 1].id); }
      assert Upto(frozen, n).Keys == Upto(frozen, n - 1).Keys + {frozen[n - 1].id};
      assert |Upto(frozen, n)| == |Upto(frozen, n).Keys| && |Upto(frozen, n - 1)| == |Upto(frozen, n - 1).Keys|;
    }
  }

  // ---- artifacts ------------------------------------------------------------------------------------

  /** Fresh random values for one artifact. */
  datatype Draw = Draw(id: nat, cek: Bytes, nonce: Bytes)

  function Path(env: Env, id: nat): string {
    "documents/" + env.uuid(id) + "/artifact.bin"
  }

  /** `build_encrypted_generic_document_artifact`: the stored row and the promoted ciphertext. */
  function Encrypted(
      env: Env, dataset: string, document: nat, pdf: Bytes, draw: Draw): Result<(Artifact, Bytes), Error> {
    if |pdf| > env.maxBytes then Err(TooLarge)
    else if |env.kek| != 32 || !env.signingKeyOk then Err(BadCredentials)
    else
      var cipher := env.seal(draw.cek, draw.nonce, pdf);
      var unsigned := Artifact(
        dataset, document, env.digest(pdf), Path(env, draw.id), |cipher|, env.digest(cipher), draw.nonce,
        env.wrap(env.kek, draw.cek), "AES-256-GCM", "AES-KW-RFC3394", env.kekVersion, [], "Ed25519",
            env.signingVersion);
      Ok((unsigned.(signature := env.signArtifact(unsigned)), cipher))
  }

  /** `validate_document_artifact_storage`. */
  predicate StorageOk(env: Env, st: Store, id: nat)
    requires id in st.artifacts
  {
    var a := st.artifacts[id];
    a.path == Path(env, id) && id in st.files && |st.files[id]| == a.size && env.digest(st.files[id]) == a.cipherSha
  }

  predicate HasKey(a: Artifact, dataset: string, document: nat, sha: string) {
    a.dataset == dataset && a.document == document && a.sha == sha
  }

  function Matches(artifacts: map<nat, Artifact>, dataset: string, document: nat, sha: string): set<nat> {
    set id | id in artifacts && HasKey(artifacts[id], dataset, document, sha)
  }

  /** `get_or_create_document_artifact` without competitors, then the reference. */
  function AddDocument(
      env: Env, st: Store, dataset: string, document: nat, pdf: Bytes, draw: Draw): Result<Store, Error> {
    var found := Matches(st.artifacts, dataset, document, env.digest(pdf));
    if found != {} then
      var id := Least(found);
      if StorageOk(env, st, id) then Ok(st.(refs := st.refs[document := id])) else Err(StorageInvalid)
    else
      var made := Encrypted(env, dataset, document, pdf, draw);
      if made.Err? then Err(made.error)
      else
        Ok(WithArtifact(st, document, draw.id, made.value.0, made.value.1))
  }

  function WithArtifact(st: Store, document: nat, id: nat, a: Artifact, cipher: Bytes): Store {
    st.(artifacts := st.artifacts[id := a], files := st.files[id := cipher], refs := st.refs[document := id])
  }

  /** What makes an artifact row deliverable, its version labels aside. */
  predicate WellMade(a: Artifact) {
    && a.path != "" && a.size > 0 && IsHex64(a.cipherSha) && |a.nonce| == 12 && |a.wrappedCek| == 40
    && a.encryption == "AES-256-GCM" && a.wrapping == "AES-KW-RFC3394" && |a.signature| == 64
    && a.signatureAlgorithm == "Ed25519"
  }

  ghost predicate AllWellMade(artifacts: map<nat, Artifact>) {
    forall id :: id in artifacts ==> WellMade(artifacts[id])
  }

  lemma EncryptedIsWellMade(env: Env, dataset: string, document: nat, pdf: Bytes, draw: Draw)
    requires Laws(env) && |draw.cek| == 32 && |draw.nonce| == 12 && Encrypted(env, dataset, document, pdf, draw).Ok?
    ensures var (a, cipher) := Encrypted(env, dataset, document, pdf, draw).value;
            WellMade(a) && HasKey(a, dataset, document, env.digest(pdf))
            && env.unwrap(env.kek, a.wrappedCek) == Some(draw.cek) && env.open(draw.cek, a.nonce, cipher) == Some(pdf)
            && a.signature == env.signArtifact(a.(signature := []))
            && a.path == Path(env, draw.id) && |cipher| == a.size && env.digest(cipher) == a.cipherSha
            && a.kekVersion == env.kekVersion && a.signingVersion == env.signingVersion
  {
    var (a, cipher) := Encrypted(env, dataset, document, pdf, draw).value;
    assert Path(env, draw.id)[0] == 'd';
    assert WrapLaw(env, env.kek, draw.cek) && SealLaw(env, draw.cek, draw.nonce, pdf) && DigestLaw(env, cipher);
    assert ArtifactSignatureLaw(env, a.(signature := []));
  }

  // ---- building -------------------------------------------------------------------------------------

  /** The accepted source files, by key. */
  type Accepted = map<string, Bytes>

  /** Each frozen document's accepted file is there and is what was frozen. */
  predicate SourcesOk(env: Env, accepted: Accepted, frozen: seq<Frozen>) {
    forall i {:trigger SourceOk(env, accepted, frozen[i])} :: 0 <= i < |frozen| ==> SourceOk(env, accepted, frozen[i])
  }

  predicate SourceOk(env: Env, accepted: Accepted, e: Frozen) {
    e.accepted in accepted && env.digest(accepted[e.accepted]) == e.sha
  }

  /** Artifacts and references for the first `n` documents. */
  function AddDocuments(
      env: Env, st: Store, dataset: string, frozen: seq<Frozen>, accepted: Accepted, draws: seq<Draw>, n: nat)
    : Result<Store, Error>
    requires n <= |frozen| == |draws| && SourcesOk(env, accepted, frozen)
  {
    if n == 0 then Ok(st)
    else
      var prior := AddDocuments(env, st, dataset, frozen, accepted, draws, n - 1);
      assert SourceOk(env, accepted, frozen[n - 1]);
      if prior.Err? then prior
      else AddDocument(env, prior.value, dataset, frozen[n - 1].id, accepted[frozen[n - 1].accepted], draws[n - 1])
  }

  /** A reference leads to an artifact of the frozen content. */
  predicate RefMatches(st: Store, dataset: string, entries: map<nat, Frozen>, d: nat)
    requires d in st.refs
  {
    d in entries && st.refs[d] in st.artifacts && HasKey(st.artifacts[st.refs[d]], dataset, d, entries[d].sha)
  }

  /** `build_document_v2_generation`. */
  function Built(
      env: Env, st: Store, pub: Publication, frozen: seq<Frozen>, accepted: Accepted,
      draws: seq<Draw>): Result<Store, Error>
    requires |frozen| == |draws|
  {
    if pub.schema != 2 then Err(WrongSchema)
    else if !pub.building then Err(NotBuilding)
    else if !SourcesOk(env, accepted, frozen) then Err(AcceptedUnavailable)
    else if st.refs != map[] then
      var entries := ByDocument(frozen);
      if st.refs.Keys != entries.Keys || exists d :: d in st.refs && !RefMatches(st, pub.dataset, entries, d)
          then Err(MembershipIncomplete)
      else if exists d :: d in st.refs && !StorageOk(env, st, st.refs[d]) then Err(StorageInvalid)
      else Ok(st)
    else AddDocuments(env, st, pub.dataset, frozen, accepted, draws, |frozen|)
  }

  /** Every frozen document, and no other, has a reference, to a well-made artifact of its content. */
  ghost predicate Complete(st: Store, pub: Publication, frozen: seq<Frozen>) {
    st.refs.Keys == ByDocument(frozen).Keys && forall d :: d in st.refs ==>
        RefMatches(st, pub.dataset, ByDocument(frozen), d)
  }

  /** A fresh draw: an unused identity, with key material of the right length. */
  ghost predicate FreshDraw(st: Store, draw: Draw) {
    draw.id !in st.artifacts && |draw.cek| == 32 && |draw.nonce| == 12
  }

  ghost predicate OtherDraw(draw: Draw, other: Draw) {
    draw.id != other.id
  }

  ghost predicate FreshDraws(st: Store, draws: seq<Draw>) {
    && (forall i {:trigger FreshDraw(st, draws[i])} :: 0 <= i < |draws| ==> FreshDraw(st, draws[i]))
    && (forall i, j {:trigger OtherDraw(draws[i], draws[j])} :: 0 <= i < j < |draws| ==> OtherDraw(draws[i], draws[j]))
  }

  predicate Referred(env: Env, st: Store, dataset: string, e: Frozen) {
    && e.id in st.refs && st.refs[e.id] in st.artifacts
    && HasKey(st.artifacts[st.refs[e.id]], dataset, e.id, e.sha) && StorageOk(env, st, st.refs[e.id])
  }

  /** The content key unwraps, and the artifact carries these version labels. */
  predicate Usable(env: Env, a: Artifact, kekVersion: string, signingVersion: string) {
    env.unwrap(env.kek, a.wrappedCek).Some? && a.kekVersion == kekVersion && a.signingVersion == signingVersion
  }

  /** Under the content key of `a`, the ciphertext opens to bytes whose digest is the one the row records. */
  predicate Opens(env: Env, a: Artifact, cipher: Bytes) {
    var cek := env.unwrap(env.kek, a.wrappedCek);
    && cek.Some?
    && var pdf := env.open(cek.value, a.nonce, cipher);
    && pdf.Some? && env.digest(pdf.value) == a.sha
  }

  /** An artifact made for one of the first `n` documents. */
  ghost predicate MadeFor(env: Env, st: Store, id: nat, frozen: seq<Frozen>, draws: seq<Draw>, n: nat)
    requires n <= |frozen| == |draws| && id in st.artifacts
  {
    var a := st.artifacts[id];
    && WellMade(a) && Usable(env, a, env.kekVersion, env.signingVersion)
    && id in st.files && Opens(env, a, st.files[id])
    && exists i :: 0 <= i < n && draws[i].id == id && a.document == frozen[i].id
  }

  ghost predicate SameArtifact(st: Store, st': Store, id: nat)
    requires id in st.artifacts
  {
    && id in st'.artifacts && st'.artifacts[id] == st.artifacts[id]
    && (id in st.files <==> id in st'.files) && (id in st.files ==> st'.files[id] == st.files[id])
  }

  /** What adding the first `n` documents leads to. */
  ghost predicate Added(env: Env, st: Store, st': Store, dataset: string, frozen: seq<Frozen>, draws: seq<Draw>, n: nat)
    requires n <= |frozen| == |draws|
  {
    && st'.refs.Keys == Upto(frozen, n).Keys && st'.key == st.key && st'.manifest == st.manifest
    && (forall i {:trigger Referred(env, st', dataset, frozen[i])} :: 0 <= i < n ==>
        Referred(env, st', dataset, frozen[i]))
    && (forall id {:trigger SameArtifact(st, st', id)} :: id in st.artifacts ==> SameArtifact(st, st', id))
    && (forall id {:trigger MadeFor(env, st', id, frozen, draws, n)} ::
          id in st'.artifacts && id !in st.artifacts ==> MadeFor(env, st', id, frozen, draws, n))
  }

  /** The document can be added: its stored artifact is intact, or there is none and encryption is possible. */
  predicate Addable(env: Env, st: Store, dataset: string, document: nat, pdf: Bytes) {
    var found := Matches(st.artifacts, dataset, document, env.digest(pdf));
    if found != {} then StorageOk(env, st, Least(found))
    else |pdf| <= env.maxBytes && |env.kek| == 32 && env.signingKeyOk
  }

  /** Earlier documents of the batch make no difference to whether a later one can be added. */
  lemma AddedIrrelevant(
    env: Env, st: Store, st': Store, dataset: string, frozen: seq<Frozen>, draws: seq<Draw>, n: nat, pdf: Bytes)
    requires n < |frozen| == |draws| && Distinct(frozen) && Added(env, st, st', dataset, frozen, draws, n)
    ensures Matches(st'.artifacts, dataset, frozen[n].id, env.digest(pdf)) ==
            Matches(st.artifacts, dataset, frozen[n].id, env.digest(pdf))
    ensures Addable(env, st', dataset, frozen[n].id, pdf) <==> Addable(env, st, dataset, frozen[n].id, pdf)
  {
    var found, found' := Matches(st.artifacts, dataset, frozen[n].id, env.digest(pdf)),
        Matches(st'.artifacts, dataset, frozen[n].id, env.digest(pdf));
    forall id | id in found ensures id in found' { assert SameArtifact(st, st', id); }
    forall id | id in found' ensures id in found {
      OldOrMade(env, st, st', dataset, frozen, draws, n, id);
    }
    assert found == found';
    if found != {} { assert SameArtifact(st, st', Least(found)); }
  }

  lemma AddedReuse(
    env: Env, st: Store, prior: Store, dataset: string, frozen: seq<Frozen>, draws: seq<Draw>, n: nat, found: nat)
    requires n < |frozen| == |draws| && Distinct(frozen) && Added(env, st, prior, dataset, frozen, draws, n)
    requires found in prior.artifacts && HasKey(prior.artifacts[found], dataset, frozen[n].id, frozen[n].sha)
    requires StorageOk(env, prior, found)
    ensures Added(env, st, prior.(refs := prior.refs[frozen[n].id := found]), dataset, frozen, draws, n + 1)
  {
    var st' := prior.(refs := prior.refs[frozen[n].id := found]);
    forall i | 0 <= i < n + 1 ensures Referred(env, st', dataset, frozen[i]) {
      if i < n { assert Referred(env, prior, dataset, frozen[i]); }
    }
    forall id | id in st.artifacts ensures SameArtifact(st, st', id) { assert SameArtifact(st, prior, id); }
    forall id | id in st'.artifacts && id !in st.artifacts
      ensures MadeFor(env, st', id, frozen, draws, n + 1)
    {
      assert MadeFor(env, prior, id, frozen, draws, n);
    }
  }

  lemma AddedNew(
    env: Env, st: Store, prior: Store, dataset: string, frozen: seq<Frozen>, draws: seq<Draw>, n: nat, a: Artifact,
    cipher: Bytes)
    requires n < |frozen| == |draws| && Distinct(frozen) && Added(env, st, prior, dataset, frozen, draws, n)
    requires FreshDraws(st, draws)
    requires WellMade(a) && HasKey(a, dataset, frozen[n].id, frozen[n].sha)
    requires Usable(env, a, env.kekVersion, env.signingVersion) && Opens(env, a, cipher)
    requires a.path == Path(env, draws[n].id) && |cipher| == a.size && env.digest(cipher) == a.cipherSha
    ensures Added(env, st, WithArtifact(prior, frozen[n].id, draws[n].id, a, cipher), dataset, frozen, draws, n + 1)
  {
    var st' := WithArtifact(prior, frozen[n].id, draws[n].id, a, cipher);
    assert FreshDraw(st, draws[n]);
    DrawIsUnused(env, st, prior, dataset, frozen, draws, n);
    forall i | 0 <= i < n + 1 ensures Referred(env, st', dataset, frozen[i]) {
      if i < n { assert Referred(env, prior, dataset, frozen[i]); }
    }
    forall id | id in st.artifacts ensures SameArtifact(st, st', id) { assert SameArtifact(st, prior, id); }
    forall id | id in st'.artifacts && id !in st.artifacts
      ensures MadeFor(env, st', id, frozen, draws, n + 1)
    {
      if id in prior.artifacts {
        assert MadeFor(env, prior, id, frozen, draws, n);
      } else {
        assert draws[n].id == id;
      }
    }
  }

  lemma AddedStep(
    env: Env, st: Store, prior: Store, dataset: string, frozen: seq<Frozen>, draws: seq<Draw>, n: nat, pdf: Bytes)
    requires Laws(env) && n < |frozen| == |draws| && FreshDraws(st, draws) && Distinct(frozen)
    requires Added(env, st, prior, dataset, frozen, draws, n) && env.digest(pdf) == frozen[n].sha
    requires AddDocument(env, prior, dataset, frozen[n].id, pdf, draws[n]).Ok?
    ensures Added(env, st, AddDocument(env, prior, dataset, frozen[n].id, pdf, draws[n]).value, dataset, frozen, draws,
            n + 1)
  {
    var found := Matches(prior.artifacts, dataset, frozen[n].id, frozen[n].sha);
    if found != {} {
      AddedReuse(env, st, prior, dataset, frozen, draws, n, Least(found));
    } else {
      assert FreshDraw(st, draws[n]);
      EncryptedIsWellMade(env, dataset, frozen[n].id, pdf, draws[n]);
      var (a, cipher) := Encrypted(env, dataset, frozen[n].id, pdf, draws[n]).value;
      AddedNew(env, st, prior, dataset, frozen, draws, n, a, cipher);
    }
  }

  lemma DrawIsUnused(env: Env, st: Store, prior: Store, dataset: string, frozen: seq<Frozen>, draws: seq<Draw>, n: nat)
    requires n < |frozen| == |draws| && FreshDraws(st, draws) && Added(env, st, prior, dataset, frozen, draws, n)
    ensures draws[n].id !in prior.artifacts
  {
    assert FreshDraw(st, draws[n]) && forall i :: 0 <= i < n ==> OtherDraw(draws[i], draws[n]);
    if draws[n].id in prior.artifacts { OldOrMade(env, st, prior, dataset, frozen, draws, n, draws[n].id); }
  }

  lemma OldOrMade(
      env: Env, st: Store, st': Store, dataset: string, frozen: seq<Frozen>, draws: seq<Draw>, n: nat, id: nat)
    requires n <= |frozen| == |draws| && Added(env, st, st', dataset, frozen, draws, n) && id in st'.artifacts
    ensures if id in st.artifacts then SameArtifact(st, st', id)
            else MadeFor(env, st', id, frozen, draws, n)
  {
  }

  lemma AddedStart(env: Env, st: Store, dataset: string, frozen: seq<Frozen>, draws: seq<Draw>)
    requires |frozen| == |draws| && st.refs == map[]
    ensures Added(env, st, st, dataset, frozen, draws, 0)
  {
  }

  lemma AddDocumentIff(env: Env, st: Store, dataset: string, document: nat, pdf: Bytes, draw: Draw)
    ensures AddDocument(env, st, dataset, document, pdf, draw).Ok? <==> Addable(env, st, dataset, document, pdf)
  {
  }

  lemma {:induction false} AddDocumentsAdd(
    env: Env, st: Store, dataset: string, frozen: seq<Frozen>, accepted: Accepted, draws: seq<Draw>, n: nat)
    requires Laws(env) && n <= |frozen| == |draws| && SourcesOk(env, accepted, frozen) && FreshDraws(st, draws)
    requires Distinct(frozen)
    requires st.refs == map[] && AddDocuments(env, st, dataset, frozen, accepted, draws, n).Ok?
    ensures Added(env, st, AddDocuments(env, st, dataset, frozen, accepted, draws, n).value, dataset, frozen, draws, n)
  {
    if n == 0 {
      AddedStart(env, st, dataset, frozen, draws);
    } else {
      AddDocumentsAdd(env, st, dataset, frozen, accepted, draws, n - 1);
      var prior := AddDocuments(env, st, dataset, frozen, accepted, draws, n - 1).value;
      assert SourceOk(env, accepted, frozen[n - 1]);
      AddedStep(env, st, prior, dataset, frozen, draws, n - 1, accepted[frozen[n - 1].accepted]);
    }
  }

  predicate AddableAt(env: Env, st: Store, dataset: string, e: Frozen, accepted: Accepted) {
    e.accepted in accepted && Addable(env, st, dataset, e.id, accepted[e.accepted])
  }

  /** The loop succeeds exactly when every document could be added on its own. */
  lemma {:induction false} AddDocumentsSucceed(
    env: Env, st: Store, dataset: string, frozen: seq<Frozen>, accepted: Accepted, draws: seq<Draw>, n: nat)
    requires Laws(env) && n <= |frozen| == |draws| && SourcesOk(env, accepted, frozen) && FreshDraws(st, draws)
    requires Distinct(frozen)
    requires st.refs == map[]
    ensures AddDocuments(env, st, dataset, frozen, accepted, draws, n).Ok? <==>
            forall i {:trigger AddableAt(env, st, dataset, frozen[i], accepted)} :: 0 <= i < n ==>
                AddableAt(env, st, dataset, frozen[i], accepted)
  {
    if n > 0 {
      AddDocumentsSucceed(env, st, dataset, frozen, accepted, draws, n - 1);
      SucceedStep(env, st, dataset, frozen, accepted, draws, n);
    }
  }

  lemma SucceedStep(
      env: Env, st: Store, dataset: string, frozen: seq<Frozen>, accepted: Accepted, draws: seq<Draw>, n: nat)
    requires Laws(env) && 0 < n <= |frozen| == |draws| && SourcesOk(env, accepted, frozen) && FreshDraws(st, draws)
    requires Distinct(frozen)
    requires st.refs == map[]
    ensures AddDocuments(env, st, dataset, frozen, accepted, draws, n).Ok? <==>
            AddDocuments(env, st, dataset, frozen, accepted, draws, n - 1).Ok?
            && AddableAt(env, st, dataset, frozen[n - 1], accepted)
  {
    if AddDocuments(env, st, dataset, frozen, accepted, draws, n - 1).Ok? {
      AddDocumentsAdd(env, st, dataset, frozen, accepted, draws, n - 1);
      assert SourceOk(env, accepted, frozen[n - 1]);
      var prior := AddDocuments(env, st, dataset, frozen, accepted, draws, n - 1).value;
      AddedIrrelevant(env, st, prior, dataset, frozen, draws, n - 1, accepted[frozen[n - 1].accepted]);
      AddDocumentIff(env, prior, dataset, frozen[n - 1].id, accepted[frozen[n - 1].accepted], draws[n - 1]);
    } else {
      ErrorSticks(env, st, dataset, frozen, accepted, draws, n - 1, n);
    }
  }

  /** Every document's reference leads to an intact artifact of its content. */
  ghost predicate AllReferred(env: Env, st: Store, dataset: string, frozen: seq<Frozen>) {
    forall i {:trigger Referred(env, st, dataset, frozen[i])} :: 0 <= i < |frozen| ==>
        Referred(env, st, dataset, frozen[i])
  }

  /** Each stored artifact is well made. */
  lemma AddedIsComplete(env: Env, st: Store, st': Store, pub: Publication, frozen: seq<Frozen>, draws: seq<Draw>)
    requires |frozen| == |draws| && Distinct(frozen) && AllWellMade(st.artifacts)
    requires Added(env, st, st', pub.dataset, frozen, draws, |frozen|)
    ensures Complete(st', pub, frozen) && AllReferred(env, st', pub.dataset, frozen) && AllWellMade(st'.artifacts)
  {
    forall id | id in st'.artifacts ensures WellMade(st'.artifacts[id]) {
      OldOrMade(env, st, st', pub.dataset, frozen, draws, |frozen|, id);
    }
    forall d | d in st'.refs ensures RefMatches(st', pub.dataset, ByDocument(frozen), d) {
      var i := UptoHas(frozen, |frozen|, d);
      UptoAt(frozen, |frozen|, i);
      assert Referred(env, st', pub.dataset, frozen[i]);
    }
  }

  /** A generation that was already built and is found whole again. */
  lemma WholeIsReferred(env: Env, st: Store, pub: Publication, frozen: seq<Frozen>)
    requires Distinct(frozen) && Complete(st, pub, frozen)
    requires forall d :: d in st.refs ==> st.refs[d] in st.artifacts && StorageOk(env, st, st.refs[d])
    ensures AllReferred(env, st, pub.dataset, frozen)
  {
    forall i | 0 <= i < |frozen| ensures Referred(env, st, pub.dataset, frozen[i]) {
      UptoAt(frozen, |frozen|, i);
      assert RefMatches(st, pub.dataset, ByDocument(frozen), frozen[i].id);
    }
  }

  /**
   A successful build leaves a complete generation: a reference for every frozen document and no other, each to a
   well-made, intact artifact of exactly that content, and no two to the same one. Nothing stored before is altered.
   */
  lemma BuiltIsComplete(
      env: Env, st: Store, pub: Publication, frozen: seq<Frozen>, accepted: Accepted, draws: seq<Draw>)
    requires Laws(env) && |frozen| == |draws| && Distinct(frozen) && FreshDraws(st, draws) && AllWellMade(st.artifacts)
    requires Built(env, st, pub, frozen, accepted, draws).Ok?
    ensures var st' := Built(env, st, pub, frozen, accepted, draws).value;
            && Complete(st', pub, frozen) && AllReferred(env, st', pub.dataset, frozen) && AllWellMade(st'.artifacts)
            && (forall d, e :: d in st'.refs && e in st'.refs && d != e ==> st'.refs[d] != st'.refs[e])
            && (forall id {:trigger SameArtifact(st, st', id)} :: id in st.artifacts ==> SameArtifact(st, st', id))
            && st'.key == st.key && st'.manifest == st.manifest
  {
    var st' := Built(env, st, pub, frozen, accepted, draws).value;
    if st.refs == map[] {
      AddDocumentsAdd(env, st, pub.dataset, frozen, accepted, draws, |frozen|);
      AddedIsComplete(env, st, st', pub, frozen, draws);
    } else {
      WholeIsReferred(env, st, pub, frozen);
    }
    CompleteIsInjective(st', pub, frozen);
  }

  lemma CompleteIsInjective(st: Store, pub: Publication, frozen: seq<Frozen>)
    requires Complete(st, pub, frozen)
    ensures forall d, e :: d in st.refs && e in st.refs && d != e ==> st.refs[d] != st.refs[e]
  {
    forall d, e | d in st.refs && e in st.refs && d != e ensures st.refs[d] != st.refs[e] {
      assert RefMatches(st, pub.dataset, ByDocument(frozen), d) && RefMatches(st, pub.dataset, ByDocument(frozen), e);
    }
  }

  /** Stored ciphertext that has the recorded size and digest is readable: what every build starts from and keeps. */
  ghost predicate AllOpen(env: Env, st: Store) {
    forall id :: id in st.artifacts && id in st.files && AsRecorded(env, st.artifacts[id], st.files[id]) ==>
        Opens(env, st.artifacts[id], st.files[id])
  }

  predicate AsRecorded(env: Env, a: Artifact, cipher: Bytes) {
    |cipher| == a.size && env.digest(cipher) == a.cipherSha
  }

  /** Artifact `id` is a stored ciphertext of that document's content, in its own place and as recorded. */
  predicate Kept(env: Env, st: Store, dataset: string, document: nat, sha: string, id: nat) {
    && id in st.artifacts && id in st.files
    && var a, cipher := st.artifacts[id], st.files[id];
    && a.dataset == dataset && a.document == document && a.sha == sha
    && a.path == "documents/" + env.uuid(id) + "/artifact.bin"
    && |cipher| == a.size && env.digest(cipher) == a.cipherSha
  }

  /**
   What a build promises for one document: its accepted bytes are the ones frozen, and its reference leads to a kept
   ciphertext, which the content key opens to bytes of the frozen digest.
   */
  ghost predicate Delivered(env: Env, st: Store, dataset: string, e: Frozen, accepted: Accepted) {
    && e.accepted in accepted && env.digest(accepted[e.accepted]) == e.sha
    && e.id in st.refs && Kept(env, st, dataset, e.id, e.sha, st.refs[e.id])
    && var a, cipher := st.artifacts[st.refs[e.id]], st.files[st.refs[e.id]];
    && var cek := env.unwrap(env.kek, a.wrappedCek);
    && cek.Some?
    && var pdf := env.open(cek.value, a.nonce, cipher);
    && pdf.Some? && env.digest(pdf.value) == e.sha
  }

  lemma ReferredIsDelivered(env: Env, st: Store, dataset: string, e: Frozen, accepted: Accepted)
    requires AllOpen(env, st) && Referred(env, st, dataset, e) && SourceOk(env, accepted, e)
    ensures Delivered(env, st, dataset, e, accepted)
  {
  }

  lemma BuiltStaysOpen(
      env: Env, st: Store, pub: Publication, frozen: seq<Frozen>, accepted: Accepted, draws: seq<Draw>)
    requires Laws(env) && |frozen| == |draws| && Distinct(frozen) && FreshDraws(st, draws) && AllOpen(env, st)
    requires Built(env, st, pub, frozen, accepted, draws).Ok?
    ensures AllOpen(env, Built(env, st, pub, frozen, accepted, draws).value)
  {
    var st' := Built(env, st, pub, frozen, accepted, draws).value;
    if st.refs == map[] {
      AddDocumentsAdd(env, st, pub.dataset, frozen, accepted, draws, |frozen|);
      forall id | id in st'.artifacts && id in st'.files && AsRecorded(env, st'.artifacts[id], st'.files[id])
        ensures Opens(env, st'.artifacts[id], st'.files[id])
      {
        OldOrMade(env, st, st', pub.dataset, frozen, draws, |frozen|, id);
      }
    }
  }

  /**
   After a successful build every frozen document is delivered, whether its artifact was made now or reused; and
   stored ciphertext stays readable, which the next build again relies on.
   */
  lemma BuiltIsDelivered(
      env: Env, st: Store, pub: Publication, frozen: seq<Frozen>, accepted: Accepted, draws: seq<Draw>, i: nat)
    requires Laws(env) && |frozen| == |draws| && Distinct(frozen) && FreshDraws(st, draws) && AllWellMade(st.artifacts)
    requires AllOpen(env, st) && Built(env, st, pub, frozen, accepted, draws).Ok? && i < |frozen|
    ensures var st' := Built(env, st, pub, frozen, accepted, draws).value;
            && AllOpen(env, st') && pub.schema == 2 && pub.building
            && Delivered(env, st', pub.dataset, frozen[i], accepted)
  {
    BuiltStaysOpen(env, st, pub, frozen, accepted, draws);
    BuiltIsComplete(env, st, pub, frozen, accepted, draws);
    var st' := Built(env, st, pub, frozen, accepted, draws).value;
    assert SourceOk(env, accepted, frozen[i]) && Referred(env, st', pub.dataset, frozen[i]);
    ReferredIsDelivered(env, st', pub.dataset, frozen[i], accepted);
  }

  /** An artifact row of that very content. */
  predicate Keyed(st: Store, dataset: string, document: nat, sha: string, id: nat) {
    id in st.artifacts && st.artifacts[id].dataset == dataset && st.artifacts[id].document == document
    && st.artifacts[id].sha == sha
  }

  /**
   A document can be added: if there is an artifact row of its content, the first such row's ciphertext is kept;
   if there is none, its bytes are not too many and both credentials have 32 bytes.
   */
  ghost predicate CanAdd(env: Env, st: Store, dataset: string, e: Frozen, pdf: Bytes) {
    if exists id :: Keyed(st, dataset, e.id, e.sha, id) then
      exists id :: Keyed(st, dataset, e.id, e.sha, id) && Kept(env, st, dataset, e.id, e.sha, id)
        && (forall other :: Keyed(st, dataset, e.id, e.sha, other) ==> id <= other)
    else |pdf| <= env.maxBytes && |env.kek| == 32 && env.signingKeyOk
  }

  predicate KeptFor(env: Env, st: Store, dataset: string, e: Frozen) {
    e.id in st.refs && Kept(env, st, dataset, e.id, e.sha, st.refs[e.id])
  }

  ghost predicate EntryReady(env: Env, st: Store, dataset: string, e: Frozen, accepted: Accepted) {
    && e.accepted in accepted && env.digest(accepted[e.accepted]) == e.sha
    && if st.refs != map[] then KeptFor(env, st, dataset, e)
       else CanAdd(env, st, dataset, e, accepted[e.accepted])
  }

  lemma AddableIsCanAdd(env: Env, st: Store, dataset: string, e: Frozen, accepted: Accepted)
    requires SourceOk(env, accepted, e)
    ensures AddableAt(env, st, dataset, e, accepted) <==> CanAdd(env, st, dataset, e, accepted[e.accepted])
  {
    var found := Matches(st.artifacts, dataset, e.id, e.sha);
    assert forall id :: id in found <==> Keyed(st, dataset, e.id, e.sha, id);
    if found != {} {
      var id := Least(found);
      assert Keyed(st, dataset, e.id, e.sha, id) && IsLeast(found, id);
      assert StorageOk(env, st, id) <==> Kept(env, st, dataset, e.id, e.sha, id);
    }
  }

  lemma ReferencesDecide(env: Env, st: Store, pub: Publication, frozen: seq<Frozen>)
    requires Distinct(frozen)
    ensures && st.refs.Keys == ByDocument(frozen).Keys
            && (forall d :: d in st.refs ==>
                  RefMatches(st, pub.dataset, ByDocument(frozen), d) && StorageOk(env, st, st.refs[d]))
            <==>
            && |st.refs| == |frozen|
            && forall i {:trigger KeptFor(env, st, pub.dataset, frozen[i])} :: 0 <= i < |frozen| ==>
                KeptFor(env, st, pub.dataset, frozen[i])
  {
    var entries := ByDocument(frozen);
    UptoCount(frozen, |frozen|);
    assert |st.refs| == |st.refs.Keys| && |entries| == |entries.Keys|;
    forall i | 0 <= i < |frozen| ensures frozen[i].id in entries && entries[frozen[i].id] == frozen[i] {
      UptoAt(frozen, |frozen|, i);
    }
    forall d | d in entries ensures exists i :: 0 <= i < |frozen| && frozen[i].id == d {
      var i := UptoHas(frozen, |frozen|, d);
    }
    if |st.refs| == |frozen| && forall i :: 0 <= i < |frozen| ==> KeptFor(env, st, pub.dataset, frozen[i]) {
      assert entries.Keys <= st.refs.Keys;
      SameSizeSubset(entries.Keys, st.refs.Keys);
    }
  }

  lemma SameSizeSubset(a: set<nat>, b: set<nat>)
    requires a <= b && |a| == |b|
    ensures a == b
  {
    assert |b - a| == |b| - |a|;
  }

  /**
   Exactly when a build succeeds: the publication is a building one of schema two, every accepted file is there with
   the frozen digest, and either nothing is referenced yet and every document can be added, or the references are
   those of the frozen documents, each to a kept ciphertext.
   */
  lemma BuildDecides(
      env: Env, st: Store, pub: Publication, frozen: seq<Frozen>, accepted: Accepted, draws: seq<Draw>)
    requires Laws(env) && |frozen| == |draws| && Distinct(frozen) && FreshDraws(st, draws)
    ensures Built(env, st, pub, frozen, accepted, draws).Ok? <==>
            && pub.schema == 2 && pub.building && (st.refs != map[] ==> |st.refs| == |frozen|)
            && forall i {:trigger EntryReady(env, st, pub.dataset, frozen[i], accepted)} :: 0 <= i < |frozen| ==>
                EntryReady(env, st, pub.dataset, frozen[i], accepted)
  {
    if SourcesOk(env, accepted, frozen) {
      forall i | 0 <= i < |frozen|
        ensures SourceOk(env, accepted, frozen[i])
        ensures EntryReady(env, st, pub.dataset, frozen[i], accepted) <==>
                if st.refs != map[] then KeptFor(env, st, pub.dataset, frozen[i])
                else AddableAt(env, st, pub.dataset, frozen[i], accepted)
      {
        assert SourceOk(env, accepted, frozen[i]);
        AddableIsCanAdd(env, st, pub.dataset, frozen[i], accepted);
      }
      if st.refs == map[] {
        AddDocumentsSucceed(env, st, pub.dataset, frozen, accepted, draws, |frozen|);
      } else {
        ReferencesDecide(env, st, pub, frozen);
      }
    } else {
      var i :| 0 <= i < |frozen| && !SourceOk(env, accepted, frozen[i]);
      assert !EntryReady(env, st, pub.dataset, frozen[i], accepted);
    }
  }

  /** Building a complete generation again, with whatever fresh values, changes nothing. */
  lemma RebuildIsIdle(
    env: Env, st: Store, pub: Publication, frozen: seq<Frozen>, accepted: Accepted, draws: seq<Draw>, again: seq<Draw>)
    requires Laws(env) && |frozen| == |draws| == |again| && Distinct(frozen) && FreshDraws(st, draws)
    requires AllWellMade(st.artifacts)
    requires frozen != [] && Built(env, st, pub, frozen, accepted, draws).Ok?
    ensures var st' := Built(env, st, pub, frozen, accepted, draws).value;
            Built(env, st', pub, frozen, accepted, again) == Ok(st')
  {
    BuiltIsComplete(env, st, pub, frozen, accepted, draws);
    var st' := Built(env, st, pub, frozen, accepted, draws).value;
    UptoAt(frozen, |frozen|, 0);
    assert frozen[0].id in st'.refs;
    forall d | d in st'.refs ensures StorageOk(env, st', st'.refs[d]) {
      var i := UptoHas(frozen, |frozen|, d);
      assert Referred(env, st', pub.dataset, frozen[i]);
    }
  }

  /** The tables and the artifact directory, as the build worker changes them. */
  class BuildWorker {
    var st: Store

    constructor (st: Store)
      ensures this.st == st
    {
      this.st := st;
    }

    /**
     `build_document_v2_generation`. Failure rolls the tables back, though not the ciphertext files already promoted;
     those of stored artifacts are never touched.
     */
    method Build(env: Env, pub: Publication, frozen: seq<Frozen>, accepted: Accepted, draws: seq<Draw>)
      returns (r: Option<Error>)
      requires Laws(env) && |frozen| == |draws| && Distinct(frozen) && FreshDraws(st, draws)
      modifies this
      ensures r.None? ==> Built(env, old(st), pub, frozen, accepted, draws) == Ok(st)
      ensures r.Some? ==>
              Built(env, old(st), pub, frozen, accepted, draws) == Err(r.value) && st == old(st).(files := st.files)
      ensures forall id {:trigger SameArtifact(old(st), st, id)} :: id in old(st).artifacts ==>
              SameArtifact(old(st), st, id)
    {
      if pub.schema != 2 { return Some(WrongSchema); }
      if !pub.building { return Some(NotBuilding); }
      if !SourcesOk(env, accepted, frozen) { return Some(AcceptedUnavailable); }
      if st.refs != map[] {
        var entries := ByDocument(frozen);
        if st.refs.Keys != entries.Keys || exists d :: d in st.refs && !RefMatches(st, pub.dataset, entries, d) {
          return Some(MembershipIncomplete);
        }
        if exists d :: d in st.refs && !StorageOk(env, st, st.refs[d]) { return Some(StorageInvalid); }
        return None;
      }
      r := AddAll(env, pub.dataset, frozen, accepted, draws);
    }

    /** The transaction that adds the documents one by one. */
    method AddAll(
        env: Env, dataset: string, frozen: seq<Frozen>, accepted: Accepted, draws: seq<Draw>) returns (r: Option<Error>)
      requires Laws(env) && |frozen| == |draws| && Distinct(frozen) && FreshDraws(st, draws)
      requires SourcesOk(env, accepted, frozen)
      requires st.refs == map[]
      modifies this
      ensures r.None? ==> AddDocuments(env, old(st), dataset, frozen, accepted, draws, |frozen|) == Ok(st)
      ensures r.Some? ==>
              AddDocuments(env, old(st), dataset, frozen, accepted, draws, |frozen|) == Err(r.value)
              && st == old(st).(files := st.files)
      ensures forall id {:trigger SameArtifact(old(st), st, id)} :: id in old(st).artifacts ==>
              SameArtifact(old(st), st, id)
    {
      var savepoint := st;
      var at, failure := AddEach(env, dataset, frozen, accepted, draws);
      AddedIsGentle(env, savepoint, dataset, frozen, accepted, draws, at);
      if failure.Some? {
        ErrorSticks(env, savepoint, dataset, frozen, accepted, draws, at + 1, |frozen|);
        st := savepoint.(files := st.files);
      }
      r := failure;
    }

    /** The loop, up to the end or to the document `at` that cannot be added. */
    method AddEach(
        env: Env, dataset: string, frozen: seq<Frozen>, accepted: Accepted, draws: seq<Draw>)
      returns (at: nat, failure: Option<Error>)
      requires |frozen| == |draws| && SourcesOk(env, accepted, frozen)
      modifies this
      ensures at <= |frozen| && AddDocuments(env, old(st), dataset, frozen, accepted, draws, at) == Ok(st)
      ensures failure.None? ==> at == |frozen|
      ensures failure.Some? ==>
                at < |frozen|
                && AddDocuments(env, old(st), dataset, frozen, accepted, draws, at + 1) == Err(failure.value)
    {
      ghost var start := st;
      at, failure := 0, None;
      while at < |frozen|
        invariant at <= |frozen| && AddDocuments(env, start, dataset, frozen, accepted, draws, at) == Ok(st)
      {
        AddDocumentsNext(env, start, st, dataset, frozen, accepted, draws, at);
        var added := AddDocument(env, st, dataset, frozen[at].id, accepted[frozen[at].accepted], draws[at]);
        if added.Err? { return at, Some(added.error); }
        st := added.value;
        at := at + 1;
      }
    }
  }

  lemma AddDocumentsNext(
      env: Env, st: Store, prior: Store, dataset: string, frozen: seq<Frozen>, accepted: Accepted, draws: seq<Draw>,
      n: nat)
    requires n < |frozen| == |draws| && SourcesOk(env, accepted, frozen)
    requires AddDocuments(env, st, dataset, frozen, accepted, draws, n) == Ok(prior)
    ensures frozen[n].accepted in accepted
    ensures AddDocuments(env, st, dataset, frozen, accepted, draws, n + 1) ==
            AddDocument(env, prior, dataset, frozen[n].id, accepted[frozen[n].accepted], draws[n])
  {
    assert SourceOk(env, accepted, frozen[n]);
  }

  lemma AddedIsGentle(
      env: Env, st: Store, dataset: string, frozen: seq<Frozen>, accepted: Accepted, draws: seq<Draw>, n: nat)
    requires Laws(env) && n <= |frozen| == |draws| && SourcesOk(env, accepted, frozen) && FreshDraws(st, draws)
    requires Distinct(frozen)
    requires st.refs == map[] && AddDocuments(env, st, dataset, frozen, accepted, draws, n).Ok?
    ensures var st' := AddDocuments(env, st, dataset, frozen, accepted, draws, n).value;
            && (forall id {:trigger SameArtifact(st, st', id)} :: id in st.artifacts ==> SameArtifact(st, st', id))
            && forall id {:trigger SameArtifact(st, st.(files := st'.files), id)} :: id in st.artifacts ==>
                SameArtifact(st, st.(files := st'.files), id)
  {
    AddDocumentsAdd(env, st, dataset, frozen, accepted, draws, n);
    var st' := AddDocuments(env, st, dataset, frozen, accepted, draws, n).value;
    forall id | id in st.artifacts ensures SameArtifact(st, st.(files := st'.files), id) {
      assert SameArtifact(st, st', id);
    }
  }

  lemma {:induction false} ErrorSticks(
    env: Env, st: Store, dataset: string, frozen: seq<Frozen>, accepted: Accepted, draws: seq<Draw>, m: nat, n: nat)
    requires m <= n <= |frozen| == |draws| && SourcesOk(env, accepted, frozen)
    requires AddDocuments(env, st, dataset, frozen, accepted, draws, m).Err?
    ensures AddDocuments(env, st, dataset, frozen, accepted, draws, n) ==
            AddDocuments(env, st, dataset, frozen, accepted, draws, m)
    decreases n
  {
    if m < n {
      ErrorSticks(env, st, dataset, frozen, accepted, draws, m, n - 1);
      assert SourceOk(env, accepted, frozen[n - 1]);
    }
  }
}
