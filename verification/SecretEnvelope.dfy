/** Versioned application-secret envelopes: printing, parsing, encryption and decryption. */
module SecretEnvelope {
  import opened Common
  import opened Base64

  const NONCE_BYTES := 12
  const KEY_BYTES := 32
  const TAG_BYTES := 16

  datatype SecretError = MalformedEnvelope | InvalidKeyConfiguration | UnknownKeyVersion | DecryptionFailed

  datatype Envelope = Envelope(version: string, nonce: Bytes, ciphertext: Bytes)

  /** Authenticated encryption: key, nonce, text and associated context. */
  datatype Aead = Aead(seal: (Bytes, Bytes, Bytes, Bytes) -> Bytes, open: (Bytes, Bytes, Bytes, Bytes) -> Option<Bytes>)

  /** What is relied on of AES-GCM: opening undoes sealing, and the tag adds sixteen bytes. */
  ghost predicate Laws(aead: Aead) {
    && (forall key, nonce, text, context ::
          aead.open(key, nonce, aead.seal(key, nonce, text, context), context) == Some(text))
    && (forall key, nonce, text, context :: |aead.seal(key, nonce, text, context)| == |text| + TAG_BYTES)
  }

  /** The laws can be met; this is no cryptography, only an instance. */
  lemma LawsCanHold() returns (aead: Aead)
    ensures Laws(aead)
  {
    var tag: Bytes := seq(TAG_BYTES, i requires 0 <= i < TAG_BYTES => 0 as Byte);
    aead := Aead(
      (key, nonce, text, context) => text + tag,
      (key, nonce, sealed, context) => if |sealed| < TAG_BYTES then None else Some(sealed[..|sealed| - TAG_BYTES]));
    forall key, nonce, text, context
      ensures aead.open(key, nonce, aead.seal(key, nonce, text, context), context) == Some(text)
    {
      assert (text + tag)[..|text|] == text;
    }
  }

  // ---- versions and splitting ---------------------------------------------------------------------

  /** `[A-Za-z0-9][A-Za-z0-9._-]{0,63}`. */
  predicate VersionOk(v: string) {
    && 1 <= |v| <= 64
    && IsAlphanumeric(v[0])
    && forall c :: c in v ==> IsAlphanumeric(c) || c in {'.', '_', '-'}
  }

  /** `str.split(":")`. */
  function Split(s: string): (parts: seq<string>)
    ensures parts != []
  {
    if s == "" then [""]
    else
      var rest := Split(s[1..]);
      if s[0] == ':' then [""] + rest else [[s[0]] + rest[0]] + rest[1..]
  }

  function Join(parts: seq<string>): string
    requires parts != []
  {
    if |parts| == 1 then parts[0] else parts[0] + ":" + Join(parts[1..])
  }

  lemma {:induction false} SplitWord(w: string)
    requires ':' !in w
    ensures Split(w) == [w]
  {
    if w != "" {
      SplitWord(w[1..]);
      assert [w[0]] + w[1..] == w;
    }
  }

  lemma {:induction false} SplitAtColon(w: string, rest: string)
    requires ':' !in w
    ensures Split(w + ":" + rest) == [w] + Split(rest)
    decreases |w|
  {
    var s := w + ":" + rest;
    if w == "" {
      assert s[1..] == rest;
    } else {
      assert s[1..] == w[1..] + ":" + rest;
      SplitAtColon(w[1..], rest);
      assert [w[0]] + w[1..] == w;
    }
  }

  lemma {:induction false} SplitUndoesJoin(parts: seq<string>)
    requires parts != [] && forall p :: p in parts ==> ':' !in p
    ensures Split(Join(parts)) == parts
  {
    if |parts| == 1 {
      SplitWord(parts[0]);
    } else {
      SplitUndoesJoin(parts[1..]);
      SplitAtColon(parts[0], Join(parts[1..]));
      assert parts == [parts[0]] + parts[1..];
    }
  }

  // ---- the envelope -------------------------------------------------------------------------------

  function Print(e: Envelope): string {
    "app-secret" + ":" + ("v1" + ":" + (e.version + ":" +
      (EncodeUnpadded(URL_SAFE, e.nonce) + ":" + EncodeUnpadded(URL_SAFE, e.ciphertext))))
  }

  function Parse(s: string): Result<Envelope, SecretError> {
    var parts := Split(s);
    if |parts| != 5 || parts[0] != "app-secret" || parts[1] != "v1" || !VersionOk(parts[2]) then Err(MalformedEnvelope)
    else
      var nonce, ciphertext := DecodeUrl(parts[3]), DecodeUrl(parts[4]);
      if nonce.None? || ciphertext.None? || |nonce.value| != NONCE_BYTES || |ciphertext.value| < TAG_BYTES
      then Err(MalformedEnvelope)
      else Ok(Envelope(parts[2], nonce.value, ciphertext.value))
  }

  predicate EnvelopeOk(e: Envelope) {
    VersionOk(e.version) && |e.nonce| == NONCE_BYTES && |e.ciphertext| >= TAG_BYTES
  }

  lemma PrintSplits(e: Envelope)
    requires VersionOk(e.version)
    ensures Split(Print(e)) ==
            ["app-secret", "v1", e.version, EncodeUnpadded(URL_SAFE, e.nonce), EncodeUnpadded(URL_SAFE, e.ciphertext)]
  {
    var n, c := EncodeUnpadded(URL_SAFE, e.nonce), EncodeUnpadded(URL_SAFE, e.ciphertext);
    EncodedNeverHasColon(e.nonce);
    EncodedNeverHasColon(e.ciphertext);
    SplitWord(c);
    SplitAtColon(n, c);
    SplitAtColon(e.version, n + ":" + c);
    SplitAtColon("v1", e.version + ":" + (n + ":" + c));
    SplitAtColon("app-secret", "v1" + ":" + (e.version + ":" + (n + ":" + c)));
  }

  /** Parsing a printed envelope returns its version, nonce and ciphertext exactly for well-formed envelopes. */
  lemma ParseUndoesPrint(e: Envelope)
    ensures Parse(Print(e)) == Ok(e) <==> EnvelopeOk(e)
  {
    if EnvelopeOk(e) {
      PrintSplits(e);
      DecodeUndoesEncode(e.nonce);
      DecodeUndoesEncode(e.ciphertext);
    }
  }

  // ---- the cipher ---------------------------------------------------------------------------------

  type KeyRing = map<string, Bytes>

  datatype Cipher = Cipher(keys: KeyRing, active: string)

  predicate RingOk(keys: KeyRing, active: string) {
    && VersionOk(active) && active in keys
    && forall v :: v in keys ==> VersionOk(v) && |keys[v]| == KEY_BYTES
  }

  /** `ApplicationSecretCipher.__init__`: every key is checked while the ring is copied. */
  method MakeCipher(keys: KeyRing, active: string) returns (r: Result<Cipher, SecretError>)
    ensures r == if RingOk(keys, active) then Ok(Cipher(keys, active)) else Err(InvalidKeyConfiguration)
  {
    if !VersionOk(active) || active !in keys { return Err(InvalidKeyConfiguration); }
    var normalized: KeyRing := map[];
    var todo := keys.Keys;
    while todo != {}
      invariant todo <= keys.Keys && normalized.Keys == keys.Keys - todo
      invariant forall v :: v in normalized ==> VersionOk(v) && |keys[v]| == KEY_BYTES && normalized[v] == keys[v]
      decreases |todo|
    {
      var v :| v in todo;
      if !VersionOk(v) || |keys[v]| != KEY_BYTES { return Err(InvalidKeyConfiguration); }
      normalized := normalized[v := keys[v]];
      todo := todo - {v};
    }
    assert normalized == keys;
    r := Ok(Cipher(normalized, active));
  }

  function Encrypt(c: Cipher, aead: Aead, nonce: Bytes, text: Bytes, context: Bytes): string
    requires RingOk(c.keys, c.active)
  {
    Print(Envelope(c.active, nonce, aead.seal(c.keys[c.active], nonce, text, context)))
  }

  function Decrypt(c: Cipher, aead: Aead, s: string, context: Bytes): Result<Bytes, SecretError> {
    match Parse(s)
    case Err(e) => Err(e)
    case Ok(e) =>
      if e.version !in c.keys then Err(UnknownKeyVersion)
      else match aead.open(c.keys[e.version], e.nonce, e.ciphertext, context)
           case None => Err(DecryptionFailed)
           case Some(text) => Ok(text)
  }

  /** A fresh envelope carries the active version. */
  lemma EncryptedParses(c: Cipher, aead: Aead, nonce: Bytes, text: Bytes, context: Bytes)
    requires RingOk(c.keys, c.active) && Laws(aead) && |nonce| == NONCE_BYTES
    ensures Parse(Encrypt(c, aead, nonce, text, context)) ==
            Ok(Envelope(c.active, nonce, aead.seal(c.keys[c.active], nonce, text, context)))
  {
    ParseUndoesPrint(Envelope(c.active, nonce, aead.seal(c.keys[c.active], nonce, text, context)));
  }

  /**
   Decryption under the same context undoes encryption, for every valid ring and every plaintext, the empty one
   included; and it keeps doing so under any other ring that still holds the same key for that version.
   */
  lemma DecryptUndoesEncrypt(c: Cipher, later: Cipher, aead: Aead, nonce: Bytes, text: Bytes, context: Bytes)
    requires RingOk(c.keys, c.active) && Laws(aead) && |nonce| == NONCE_BYTES
    requires c.active in later.keys && later.keys[c.active] == c.keys[c.active]
    ensures Decrypt(later, aead, Encrypt(c, aead, nonce, text, context), context) == Ok(text)
  {
    EncryptedParses(c, aead, nonce, text, context);
  }

  // ---- what is accepted ---------------------------------------------------------------------------

  /** A version label: one to sixty-four letters, digits, dots, dashes and underscores, a letter or digit first. */
  predicate IsLabel(v: string) {
    && 1 <= |v| <= 64 && v[0] != '.' && v[0] != '-' && v[0] != '_'
    && forall i :: 0 <= i < |v| ==>
         || 'a' <= v[i] <= 'z' || 'A' <= v[i] <= 'Z' || '0' <= v[i] <= '9'
         || v[i] == '.' || v[i] == '-' || v[i] == '_'
  }

  lemma LabelMeans(v: string)
    ensures VersionOk(v) <==> IsLabel(v)
  {
    if VersionOk(v) {
      forall i | 0 <= i < |v| ensures IsAlphanumeric(v[i]) || v[i] in {'.', '_', '-'} { assert v[i] in v; }
    }
  }

  /**
   A key ring is valid exactly if its labels are labels, its keys have thirty-two bytes, and the active one is in it.
   */
  lemma RingMeans(keys: KeyRing, active: string)
    ensures RingOk(keys, active) <==> active in keys && forall v :: v in keys ==> IsLabel(v) && |keys[v]| == 32
  {
    LabelMeans(active);
    forall v ensures VersionOk(v) <==> IsLabel(v) { LabelMeans(v); }
  }

  lemma {:induction false} JoinUndoesSplit(s: string)
    ensures Join(Split(s)) == s && forall p :: p in Split(s) ==> ':' !in p
  {
    if s != "" {
      var rest := Split(s[1..]);
      JoinUndoesSplit(s[1..]);
      assert s == [s[0]] + s[1..];
      var parts := Split(s);
      if s[0] == ':' {
        assert parts[1..] == rest && Join(parts) == "" + ":" + Join(rest);
      } else {
        assert parts[1..] == rest[1..];
      }
    }
  }

  /** The five parts of an envelope text. */
  ghost predicate Spells(s: string, version: string, nonce: string, ciphertext: string) {
    s == Join(["app-secret", "v1", version, nonce, ciphertext])
    && ':' !in version && ':' !in nonce && ':' !in ciphertext
  }

  /**
   A text parses to an envelope exactly if it spells, after the two fixed words, a version label, twelve bytes of nonce
   and at least sixteen bytes of ciphertext; it then is the envelope of those.
   */
  lemma ParsesExactly(s: string, e: Envelope)
    ensures Parse(s) == Ok(e) <==>
            && IsLabel(e.version) && |e.nonce| == 12 && |e.ciphertext| >= 16
            && exists n, c :: Spells(s, e.version, n, c) && DecodeUrl(n) == Some(e.nonce)
                 && DecodeUrl(c) == Some(e.ciphertext)
  {
    LabelMeans(e.version);
    JoinUndoesSplit(s);
    var parts := Split(s);
    if Parse(s) == Ok(e) {
      assert parts == ["app-secret", "v1", e.version, parts[3], parts[4]];
      assert Spells(s, e.version, parts[3], parts[4]);
    }
    if n, c :| Spells(s, e.version, n, c) && DecodeUrl(n) == Some(e.nonce) && DecodeUrl(c) == Some(e.ciphertext) {
      SplitUndoesJoin(["app-secret", "v1", e.version, n, c]);
    }
  }

  /**
   A text decrypts exactly if it is an envelope of a version in the ring that opens, under that version's key, its own
   nonce and the context given; and each failure has its reason.
   */
  lemma DecryptsExactly(c: Cipher, aead: Aead, s: string, context: Bytes)
    ensures match Decrypt(c, aead, s, context)
            case Ok(text) =>
              && Parse(s).Ok?
              && var e := Parse(s).value;
                 e.version in c.keys && aead.open(c.keys[e.version], e.nonce, e.ciphertext, context) == Some(text)
            case Err(MalformedEnvelope) => Parse(s).Err?
            case Err(UnknownKeyVersion) => Parse(s).Ok? && Parse(s).value.version !in c.keys
            case Err(DecryptionFailed) =>
              && Parse(s).Ok?
              && var e := Parse(s).value;
                 e.version in c.keys && aead.open(c.keys[e.version], e.nonce, e.ciphertext, context).None?
            case Err(InvalidKeyConfiguration) => false
  {
  }
}
