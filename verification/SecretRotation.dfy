/** Interruptible re-encryption of the stored mail secrets, and the test for retiring a key. */
module SecretRotation {
  import opened Common
  import opened Base64
  import opened SecretEnvelope

  /** Each stored field has its own encryption context; an empty text means no secret. */
  type Secrets = map<nat, string>
  type Contexts = nat -> Bytes

  datatype Rotation = Rotation(rotated: nat, skippedActive: nat, skippedEmpty: nat)

  function VersionOf(s: string): Result<string, SecretError> {
    match Parse(s) case Ok(e) => Ok(e.version) case Err(e) => Err(e)
  }

  /** A row that is gone or blank is not a live secret. */
  predicate Live(db: Secrets, ref: nat) {
    ref in db && db[ref] != ""
  }

  predicate AtActive(c: Cipher, s: string) {
    VersionOf(s) == Ok(c.active)
  }

  function Reads(c: Cipher, aead: Aead, ctx: Contexts, db: Secrets, ref: nat): Result<Bytes, SecretError>
    requires Live(db, ref)
  {
    Decrypt(c, aead, db[ref], ctx(ref))
  }

  // ---- one row --------------------------------------------------------------------------------------

  datatype RowOutcome = Empty | AlreadyActive | Rotated(replacement: string) | Failed(error: SecretError)

  /** The body of the rotation loop on the value read under the row lock. */
  function RotateValue(c: Cipher, aead: Aead, ctx: Contexts, db: Secrets, ref: nat, nonce: Bytes): RowOutcome
    requires RingOk(c.keys, c.active)
  {
    if !Live(db, ref) then Empty
    else match VersionOf(db[ref])
         case Err(e) => Failed(e)
         case Ok(v) =>
           if v == c.active then AlreadyActive
           else match Decrypt(c, aead, db[ref], ctx(ref))
                case Err(e) => Failed(e)
                case Ok(text) => Rotated(Encrypt(c, aead, nonce, text, ctx(ref)))
  }

  /** A rotated row holds the same plaintext at the active version. */
  lemma RotationPreservesPlaintext(c: Cipher, aead: Aead, ctx: Contexts, db: Secrets, ref: nat, nonce: Bytes)
    requires RingOk(c.keys, c.active) && Laws(aead) && |nonce| == NONCE_BYTES
    requires RotateValue(c, aead, ctx, db, ref, nonce).Rotated?
    ensures var s := RotateValue(c, aead, ctx, db, ref, nonce).replacement;
            s != "" && AtActive(c, s) && Decrypt(c, aead, s, ctx(ref)) == Decrypt(c, aead, db[ref], ctx(ref))
  {
    var text := Decrypt(c, aead, db[ref], ctx(ref)).value;
    EncryptedParses(c, aead, nonce, text, ctx(ref));
    DecryptUndoesEncrypt(c, c, aead, nonce, text, ctx(ref));
  }

  // ---- interleaved steps ----------------------------------------------------------------------------

  /** Between two rows anyone may store a new secret (encrypted at the active version) or clear one. */
  datatype Action = RotateRow(ref: nat, nonce: Bytes) | Store(ref: nat, text: Bytes, nonce: Bytes) | Clear(ref: nat)

  predicate NonceOk(a: Action) {
    a.Clear? || |a.nonce| == NONCE_BYTES
  }

  function Act(c: Cipher, aead: Aead, ctx: Contexts, db: Secrets, a: Action): Secrets
    requires RingOk(c.keys, c.active)
  {
    match a
    case RotateRow(ref, nonce) =>
      var o := RotateValue(c, aead, ctx, db, ref, nonce); if o.Rotated? then db[ref := o.replacement] else db
    case Store(ref, text, nonce) => db[ref := Encrypt(c, aead, nonce, text, ctx(ref))]
    case Clear(ref) => if ref in db then db[ref := ""] else db
  }

  function Run(c: Cipher, aead: Aead, ctx: Contexts, db: Secrets, actions: seq<Action>): Secrets
    requires RingOk(c.keys, c.active)
    decreases |actions|
  {
    if actions == [] then db else Run(c, aead, ctx, Act(c, aead, ctx, db, actions[0]), actions[1..])
  }

  predicate Touches(a: Action, ref: nat) {
    (a.Store? || a.Clear?) && a.ref == ref
  }

  /**
   However far a rotation gets and whatever else is stored or cleared meanwhile, an untouched secret reads the same.
   */
  lemma {:induction false} UntouchedSecretsReadTheSame(
      c: Cipher, aead: Aead, ctx: Contexts, db: Secrets, actions: seq<Action>, ref: nat)
    requires RingOk(c.keys, c.active) && Laws(aead) && Live(db, ref)
    requires forall a :: a in actions ==> NonceOk(a) && !Touches(a, ref)
    ensures Live(Run(c, aead, ctx, db, actions), ref)
    ensures Reads(c, aead, ctx, Run(c, aead, ctx, db, actions), ref) == Reads(c, aead, ctx, db, ref)
    decreases |actions|
  {
    if actions != [] {
      var a := actions[0];
      assert a in actions;
      if a.RotateRow? && RotateValue(c, aead, ctx, db, a.ref, a.nonce).Rotated? {
        RotationPreservesPlaintext(c, aead, ctx, db, a.ref, a.nonce);
      }
      UntouchedSecretsReadTheSame(c, aead, ctx, Act(c, aead, ctx, db, a), actions[1..], ref);
    }
  }

  /** Once a row is empty or at the active version, it stays so. */
  ghost predicate Settled(c: Cipher, db: Secrets, ref: nat) {
    Live(db, ref) ==> AtActive(c, db[ref])
  }

  lemma ActKeepsSettled(c: Cipher, aead: Aead, ctx: Contexts, db: Secrets, a: Action, ref: nat)
    requires RingOk(c.keys, c.active) && Laws(aead) && NonceOk(a) && Settled(c, db, ref)
    ensures Settled(c, Act(c, aead, ctx, db, a), ref)
  {
    if a.Store? { EncryptedParses(c, aead, a.nonce, a.text, ctx(a.ref)); }
  }

  // ---- the rotation loop ------------------------------------------------------------------------------

  /** What other requests commit before the next row is locked. */
  ghost predicate Interference(actions: seq<Action>) {
    forall a :: a in actions ==> !a.RotateRow? && NonceOk(a)
  }

  lemma {:induction false} RunKeepsSettled(
      c: Cipher, aead: Aead, ctx: Contexts, db: Secrets, actions: seq<Action>, ref: nat)
    requires RingOk(c.keys, c.active) && Laws(aead) && Settled(c, db, ref) && forall a :: a in actions ==> NonceOk(a)
    ensures Settled(c, Run(c, aead, ctx, db, actions), ref)
    decreases |actions|
  {
    if actions != [] {
      assert actions[0] in actions;
      ActKeepsSettled(c, aead, ctx, db, actions[0], ref);
      RunKeepsSettled(c, aead, ctx, Act(c, aead, ctx, db, actions[0]), actions[1..], ref);
    }
  }

  /** The inventory read at the start lists every live secret. */
  ghost predicate Inventory(db: Secrets, refs: seq<nat>) {
    forall ref :: Live(db, ref) ==> ref in refs
  }

  /** Nobody stores or clears the secret meanwhile. */
  ghost predicate Quiet(actions: seq<Action>, ref: nat) {
    forall a :: a in actions ==> !Touches(a, ref)
  }

  ghost predicate QuietThroughout(between: seq<seq<Action>>, ref: nat) {
    forall i :: 0 <= i < |between| ==> Quiet(between[i], ref)
  }

  /** A live secret is still live and decrypts as before. */
  ghost predicate Kept(c: Cipher, aead: Aead, ctx: Contexts, db: Secrets, db': Secrets, ref: nat) {
    Live(db, ref) ==> Live(db', ref) && Reads(c, aead, ctx, db', ref) == Reads(c, aead, ctx, db, ref)
  }

  datatype Progress = Progress(db: Secrets, counts: Rotation, failure: Option<SecretError>)

  function CountRow(counts: Rotation, row: RowOutcome): Rotation {
    match row
    case Empty => counts.(skippedEmpty := counts.skippedEmpty + 1)
    case AlreadyActive => counts.(skippedActive := counts.skippedActive + 1)
    case Rotated(_) => counts.(rotated := counts.rotated + 1)
    case Failed(_) => counts
  }

  /** One row: others commit, then it is read under its lock and rewritten if need be. */
  function NextRow(
      c: Cipher, aead: Aead, ctx: Contexts, p: Progress, ref: nat, nonce: Bytes, before: seq<Action>): Progress
    requires RingOk(c.keys, c.active)
  {
    if p.failure.Some? then p
    else
      var met := Run(c, aead, ctx, p.db, before);
      var row := RotateValue(c, aead, ctx, met, ref, nonce);
      Progress(Act(c, aead, ctx, met, RotateRow(ref, nonce)), CountRow(p.counts, row),
               if row.Failed? then Some(row.error) else None)
  }

  /** How far the rotation has got after the first `n` rows. */
  function RotateRows(
      c: Cipher, aead: Aead, ctx: Contexts, db: Secrets, refs: seq<nat>, nonces: seq<Bytes>, between: seq<seq<Action>>,
      n: nat): Progress
    requires RingOk(c.keys, c.active) && n <= |refs| == |nonces| == |between|
  {
    if n == 0 then Progress(db, Rotation(0, 0, 0), None)
    else
      NextRow(c, aead, ctx, RotateRows(c, aead, ctx, db, refs, nonces, between, n - 1), refs[n - 1], nonces[n - 1],
          between[n - 1])
  }

  lemma {:induction false} FailureSticks(
      c: Cipher, aead: Aead, ctx: Contexts, db: Secrets, refs: seq<nat>, nonces: seq<Bytes>, between: seq<seq<Action>>,
      m: nat, n: nat)
    requires RingOk(c.keys, c.active) && m <= n <= |refs| == |nonces| == |between|
    requires RotateRows(c, aead, ctx, db, refs, nonces, between, m).failure.Some?
    ensures RotateRows(c, aead, ctx, db, refs, nonces, between, n) ==
            RotateRows(c, aead, ctx, db, refs, nonces, between, m)
    decreases n
  {
    if m < n { FailureSticks(c, aead, ctx, db, refs, nonces, between, m, n - 1); }
  }

  /** The nonces have the right length, and what others do is storing and clearing. */
  ghost predicate Lawful(nonces: seq<Bytes>, between: seq<seq<Action>>) {
    && (forall i :: 0 <= i < |nonces| ==> |nonces[i]| == NONCE_BYTES)
    && (forall i {:trigger Interference(between[i])} :: 0 <= i < |between| ==> Interference(between[i]))
  }

  /** One row leaves what is settled settled and settles itself; nothing that others leave alone reads differently. */
  lemma RowKeeps(
      c: Cipher, aead: Aead, ctx: Contexts, p: Progress, ref: nat, nonce: Bytes, before: seq<Action>, other: nat)
    requires RingOk(c.keys, c.active) && Laws(aead) && |nonce| == NONCE_BYTES && Interference(before)
    ensures var q := NextRow(c, aead, ctx, p, ref, nonce, before);
            && (Settled(c, p.db, other) ==> Settled(c, q.db, other))
            && (q.failure.None? ==> Settled(c, q.db, ref))
            && (Settled(c, p.db, ref) && p.failure.None? ==>
                  q.failure.None? && q.counts.rotated == p.counts.rotated)
            && (Quiet(before, other) ==> Kept(c, aead, ctx, p.db, q.db, other))
  {
    if p.failure.None? {
      var met := Run(c, aead, ctx, p.db, before);
      if Settled(c, p.db, other) { RunKeepsSettled(c, aead, ctx, p.db, before, other); }
      if Settled(c, p.db, ref) { RunKeepsSettled(c, aead, ctx, p.db, before, ref); }
      if Quiet(before, other) && Live(p.db, other) {
        UntouchedSecretsReadTheSame(c, aead, ctx, p.db, before, other);
      }
      if RotateValue(c, aead, ctx, met, ref, nonce).Rotated? {
        RotationPreservesPlaintext(c, aead, ctx, met, ref, nonce);
      }
    }
  }

  lemma {:induction false} RowsKeep(
      c: Cipher, aead: Aead, ctx: Contexts, db: Secrets, refs: seq<nat>, nonces: seq<Bytes>, between: seq<seq<Action>>,
      n: nat, ref: nat)
    requires RingOk(c.keys, c.active) && Laws(aead) && Lawful(nonces, between) && n <= |refs| == |nonces| == |between|
    ensures var p := RotateRows(c, aead, ctx, db, refs, nonces, between, n);
            && (QuietThroughout(between, ref) ==> Kept(c, aead, ctx, db, p.db, ref))
            && (p.failure.None? && (ref in refs[..n] || Settled(c, db, ref)) ==> Settled(c, p.db, ref))
  {
    if n > 0 {
      RowsKeep(c, aead, ctx, db, refs, nonces, between, n - 1, ref);
      assert Interference(between[n - 1]);
      assert refs[..n] == refs[..n - 1] + [refs[n - 1]];
      RowKeeps(c, aead, ctx, RotateRows(c, aead, ctx, db, refs, nonces, between, n - 1), refs[n - 1], nonces[n - 1],
          between[n - 1], ref);
    }
  }

  lemma {:induction false} RowsIdle(
      c: Cipher, aead: Aead, ctx: Contexts, db: Secrets, refs: seq<nat>, nonces: seq<Bytes>, between: seq<seq<Action>>,
      n: nat)
    requires RingOk(c.keys, c.active) && Laws(aead) && Lawful(nonces, between) && n <= |refs| == |nonces| == |between|
    requires forall ref :: Settled(c, db, ref)
    ensures var p := RotateRows(c, aead, ctx, db, refs, nonces, between, n);
            p.failure.None? && p.counts.rotated == 0
  {
    if n > 0 {
      RowsIdle(c, aead, ctx, db, refs, nonces, between, n - 1);
      RowsKeep(c, aead, ctx, db, refs, nonces, between, n - 1, refs[n - 1]);
      assert Interference(between[n - 1]) && Settled(c, db, refs[n - 1]);
      RowKeeps(c, aead, ctx, RotateRows(c, aead, ctx, db, refs, nonces, between, n - 1), refs[n - 1], nonces[n - 1],
          between[n - 1], refs[n - 1]);
    }
  }

  lemma {:induction false} RowsAddUp(
      c: Cipher, aead: Aead, ctx: Contexts, db: Secrets, refs: seq<nat>, nonces: seq<Bytes>, between: seq<seq<Action>>,
      n: nat)
    requires RingOk(c.keys, c.active) && n <= |refs| == |nonces| == |between|
    ensures var p := RotateRows(c, aead, ctx, db, refs, nonces, between, n);
            p.failure.None? ==> p.counts.rotated + p.counts.skippedActive + p.counts.skippedEmpty == n
  {
    if n > 0 { RowsAddUp(c, aead, ctx, db, refs, nonces, between, n - 1); }
  }

  // ---- a rotation that nobody interrupts --------------------------------------------------------------

  /** Nothing is committed between the rows, and no row is listed twice. */
  ghost predicate Alone(refs: seq<nat>, between: seq<seq<Action>>) {
    (forall i :: 0 <= i < |between| ==> between[i] == []) && (forall i, j :: 0 <= i < j < |refs| ==> refs[i] != refs[j])
  }

  /** The row needs no new envelope, or its present one opens. */
  predicate Opens(c: Cipher, aead: Aead, ctx: Contexts, db: Secrets, ref: nat) {
    Live(db, ref) && !AtActive(c, db[ref]) ==> Decrypt(c, aead, db[ref], ctx(ref)).Ok?
  }

  datatype Need = Nothing | Current | Outdated

  /** What the row holds: no secret, one at the active version, or one that has to be rewritten. */
  predicate Holds(c: Cipher, db: Secrets, ref: nat, need: Need) {
    match need
    case Nothing => ref !in db || db[ref] == ""
    case Current => ref in db && db[ref] != "" && VersionOf(db[ref]) == Ok(c.active)
    case Outdated => ref in db && db[ref] != "" && VersionOf(db[ref]) != Ok(c.active)
  }

  function Holding(c: Cipher, db: Secrets, refs: seq<nat>, n: nat, need: Need): set<nat>
    requires n <= |refs|
  {
    set i: nat | i < n && Holds(c, db, refs[i], need)
  }

  lemma HoldingNext(c: Cipher, db: Secrets, refs: seq<nat>, n: nat, need: Need)
    requires n < |refs|
    ensures |Holding(c, db, refs, n + 1, need)| ==
            |Holding(c, db, refs, n, need)| + if Holds(c, db, refs[n], need) then 1 else 0
  {
    if Holds(c, db, refs[n], need) {
      assert Holding(c, db, refs, n + 1, need) == Holding(c, db, refs, n, need) + {n};
    } else {
      assert Holding(c, db, refs, n + 1, need) == Holding(c, db, refs, n, need);
    }
  }

  /** The counts after `n` rows, told from the rows as they were. */
  ghost predicate CountedRows(c: Cipher, db: Secrets, refs: seq<nat>, n: nat, counts: Rotation)
    requires n <= |refs|
  {
    && counts.rotated == |Holding(c, db, refs, n, Outdated)|
    && counts.skippedActive == |Holding(c, db, refs, n, Current)|
    && counts.skippedEmpty == |Holding(c, db, refs, n, Nothing)|
  }

  /** The rows not reached yet are as they were. */
  ghost predicate Unread(db: Secrets, db': Secrets, refs: seq<nat>, n: nat) {
    forall j :: n <= j < |refs| ==>
        (refs[j] in db <==> refs[j] in db') && (refs[j] in db ==> db'[refs[j]] == db[refs[j]])
  }

  ghost predicate AllOpen(c: Cipher, aead: Aead, ctx: Contexts, db: Secrets, refs: seq<nat>, n: nat)
    requires n <= |refs|
  {
    forall j {:trigger Opens(c, aead, ctx, db, refs[j])} :: 0 <= j < n ==> Opens(c, aead, ctx, db, refs[j])
  }

  /** After `n` rows that nobody interrupted: all of them opened and are counted, and the others are untouched. */
  ghost predicate AloneSoFar(
      c: Cipher, aead: Aead, ctx: Contexts, start: Secrets, db: Secrets, refs: seq<nat>, n: nat, counts: Rotation)
  {
    n <= |refs| && Unread(start, db, refs, n) && CountedRows(c, start, refs, n, counts)
    && AllOpen(c, aead, ctx, start, refs, n)
  }

  lemma AloneStart(c: Cipher, aead: Aead, ctx: Contexts, start: Secrets, refs: seq<nat>)
    ensures AloneSoFar(c, aead, ctx, start, start, refs, 0, Rotation(0, 0, 0))
  {
    assert Holding(c, start, refs, 0, Nothing) == {} && Holding(c, start, refs, 0, Current) == {};
    assert Holding(c, start, refs, 0, Outdated) == {};
  }

  /** What becomes of a row, told from what it holds. */
  lemma RowMeans(c: Cipher, aead: Aead, ctx: Contexts, start: Secrets, db: Secrets, ref: nat, nonce: Bytes)
    requires RingOk(c.keys, c.active) && (ref in start <==> ref in db) && (ref in start ==> db[ref] == start[ref])
    ensures var row := RotateValue(c, aead, ctx, db, ref, nonce);
            && (row.Failed? <==> !Opens(c, aead, ctx, start, ref))
            && (row.Empty? <==> Holds(c, start, ref, Nothing))
            && (row.AlreadyActive? <==> Holds(c, start, ref, Current))
            && (row.Rotated? ==> Holds(c, start, ref, Outdated))
  {
  }

  lemma RowIsCounted(c: Cipher, start: Secrets, refs: seq<nat>, n: nat, counts: Rotation, row: RowOutcome)
    requires n < |refs| && CountedRows(c, start, refs, n, counts) && !row.Failed?
    requires row.Empty? <==> Holds(c, start, refs[n], Nothing)
    requires row.AlreadyActive? <==> Holds(c, start, refs[n], Current)
    requires row.Rotated? ==> Holds(c, start, refs[n], Outdated)
    ensures CountedRows(c, start, refs, n + 1, CountRow(counts, row))
  {
    HoldingNext(c, start, refs, n, Nothing);
    HoldingNext(c, start, refs, n, Current);
    HoldingNext(c, start, refs, n, Outdated);
  }

  /** One more row of an uninterrupted rotation: it fails exactly if its secret does not open. */
  lemma AloneStep(
      c: Cipher, aead: Aead, ctx: Contexts, start: Secrets, db: Secrets, refs: seq<nat>, nonce: Bytes, n: nat,
      between: seq<seq<Action>>, counts: Rotation)
    requires RingOk(c.keys, c.active) && Alone(refs, between) && n < |refs| == |between|
    requires AloneSoFar(c, aead, ctx, start, db, refs, n, counts)
    ensures Run(c, aead, ctx, db, between[n]) == db
    ensures var row := RotateValue(c, aead, ctx, db, refs[n], nonce);
            && (row.Failed? <==> !Opens(c, aead, ctx, start, refs[n]))
            && (!row.Failed? ==>
                  AloneSoFar(c, aead, ctx, start, Act(c, aead, ctx, db, RotateRow(refs[n], nonce)), refs, n + 1,
                    CountRow(counts, row)))
  {
    RowMeans(c, aead, ctx, start, db, refs[n], nonce);
    var row := RotateValue(c, aead, ctx, db, refs[n], nonce);
    if !row.Failed? { RowIsCounted(c, start, refs, n, counts, row); }
  }

  lemma {:induction false} AloneRows(
      c: Cipher, aead: Aead, ctx: Contexts, db: Secrets, refs: seq<nat>, nonces: seq<Bytes>, between: seq<seq<Action>>,
      n: nat)
    requires RingOk(c.keys, c.active) && Alone(refs, between) && n <= |refs| == |nonces| == |between|
    ensures var p := RotateRows(c, aead, ctx, db, refs, nonces, between, n);
            && (p.failure.None? <==> AllOpen(c, aead, ctx, db, refs, n))
            && (p.failure.None? ==> AloneSoFar(c, aead, ctx, db, p.db, refs, n, p.counts))
  {
    if n == 0 {
      AloneStart(c, aead, ctx, db, refs);
    } else {
      AloneRows(c, aead, ctx, db, refs, nonces, between, n - 1);
      var prior := RotateRows(c, aead, ctx, db, refs, nonces, between, n - 1);
      if prior.failure.None? {
        AloneStep(c, aead, ctx, db, prior.db, refs, nonces[n - 1], n - 1, between, prior.counts);
      }
    }
  }

  /**
   A rotation that nobody interrupts completes exactly if every listed secret that is to be rewritten opens; its counts
   are then those of the rows as they were found: to be rewritten, at the active version already, without a secret.
   */
  lemma AloneCountsExactly(
      c: Cipher, aead: Aead, ctx: Contexts, db: Secrets, refs: seq<nat>, nonces: seq<Bytes>, between: seq<seq<Action>>)
    requires RingOk(c.keys, c.active) && Alone(refs, between) && |refs| == |nonces| == |between|
    ensures var p := RotateRows(c, aead, ctx, db, refs, nonces, between, |refs|);
            && (p.failure.None? <==> forall i {:trigger Opens(c, aead, ctx, db, refs[i])} :: 0 <= i < |refs| ==>
                  Opens(c, aead, ctx, db, refs[i]))
            && (p.failure.None? ==> CountedRows(c, db, refs, |refs|, p.counts))
  {
    AloneRows(c, aead, ctx, db, refs, nonces, between, |refs|);
  }

  class MailSecrets {
    var db: Secrets

    constructor (db: Secrets)
      ensures this.db == db
    {
      this.db := db;
    }

    /** Other requests committing between two rows. */
    method Interfere(c: Cipher, aead: Aead, ctx: Contexts, actions: seq<Action>)
      requires RingOk(c.keys, c.active)
      modifies this
      ensures db == Run(c, aead, ctx, old(db), actions)
    {
      var i := 0;
      while i < |actions|
        invariant 0 <= i <= |actions|
        invariant Run(c, aead, ctx, db, actions[i..]) == Run(c, aead, ctx, old(db), actions)
      {
        assert actions[i..][0] == actions[i] && actions[i..][1..] == actions[i + 1..];
        match actions[i] {
          case Clear(ref) => if ref in db { db := db[ref := ""]; }
          case Store(ref, text, nonce) => db := db[ref := Encrypt(c, aead, nonce, text, ctx(ref))];
          case RotateRow(_, _) => db := Act(c, aead, ctx, db, actions[i]);
        }
        i := i + 1;
      }
    }

    /** One pass of the loop: other requests commit, then the row is read under its lock and rewritten if need be. */
    method RotateOne(
        c: Cipher, aead: Aead, ctx: Contexts, ref: nat, nonce: Bytes, before: seq<Action>) returns (row: RowOutcome)
      requires RingOk(c.keys, c.active)
      modifies this
      ensures row == RotateValue(c, aead, ctx, Run(c, aead, ctx, old(db), before), ref, nonce)
      ensures db == Act(c, aead, ctx, Run(c, aead, ctx, old(db), before), RotateRow(ref, nonce))
    {
      Interfere(c, aead, ctx, before);
      row := RotateValue(c, aead, ctx, db, ref, nonce);
      if row.Rotated? { db := db[ref := row.replacement]; }
    }

    /**
     `rotate_outbound_mail_secrets` over the inventory read at the start, with other requests committing before every
     row. It stops at the first row that cannot be opened. When it completes, every live secret, listed or stored
     since, is at the active version; in either case an untouched secret reads as before. A run that finds every live
     secret at the active version already, as the one after a completed run does, rotates nothing.
     */
    method Rotate(c: Cipher, aead: Aead, ctx: Contexts, refs: seq<nat>, nonces: seq<Bytes>, between: seq<seq<Action>>)
      returns (r: Result<Rotation, SecretError>)
      requires RingOk(c.keys, c.active) && Laws(aead) && Inventory(db, refs)
      requires |nonces| == |refs| == |between| && Lawful(nonces, between)
      modifies this
      ensures var p := RotateRows(c, aead, ctx, old(db), refs, nonces, between, |refs|);
              db == p.db && r == if p.failure.Some? then Err(p.failure.value) else Ok(p.counts)
      ensures r.Ok? ==> forall ref :: Live(db, ref) ==> AtActive(c, db[ref])
      ensures r.Ok? ==> r.value.rotated + r.value.skippedActive + r.value.skippedEmpty == |refs|
      ensures forall ref :: QuietThroughout(between, ref) ==> Kept(c, aead, ctx, old(db), db, ref)
      ensures (forall ref :: Settled(c, old(db), ref)) ==> r.Ok? && r.value.rotated == 0
    {
      ghost var start := db;
      r := Loop(c, aead, ctx, refs, nonces, between);
      RowsAddUp(c, aead, ctx, start, refs, nonces, between, |refs|);
      forall ref: nat
        ensures QuietThroughout(between, ref) ==> Kept(c, aead, ctx, start, db, ref)
        ensures r.Ok? ==> Settled(c, db, ref)
      {
        RowsKeep(c, aead, ctx, start, refs, nonces, between, |refs|, ref);
        assert refs[..|refs|] == refs && (Live(start, ref) ==> ref in refs);
      }
      forall ref: nat | r.Ok? && Live(db, ref) ensures AtActive(c, db[ref]) { assert Settled(c, db, ref); }
      if forall ref :: Settled(c, start, ref) { RowsIdle(c, aead, ctx, start, refs, nonces, between, |refs|); }
    }

    /** The loop over the inventory. */
    method Loop(c: Cipher, aead: Aead, ctx: Contexts, refs: seq<nat>, nonces: seq<Bytes>, between: seq<seq<Action>>)
      returns (r: Result<Rotation, SecretError>)
      requires RingOk(c.keys, c.active) && |nonces| == |refs| == |between|
      modifies this
      ensures var p := RotateRows(c, aead, ctx, old(db), refs, nonces, between, |refs|);
              db == p.db && r == if p.failure.Some? then Err(p.failure.value) else Ok(p.counts)
    {
      ghost var start := db;
      var counts := Rotation(0, 0, 0);
      for i := 0 to |refs|
        invariant RotateRows(c, aead, ctx, start, refs, nonces, between, i) == Progress(db, counts, None)
      {
        var row := RotateOne(c, aead, ctx, refs[i], nonces[i], between[i]);
        match row {
          case Empty => counts := counts.(skippedEmpty := counts.skippedEmpty + 1);
          case AlreadyActive => counts := counts.(skippedActive := counts.skippedActive + 1);
          case Rotated(_) => counts := counts.(rotated := counts.rotated + 1);
          case Failed(e) =>
            FailureSticks(c, aead, ctx, start, refs, nonces, between, i + 1, |refs|);
            return Err(e);
        }
      }
      r := Ok(counts);
    }
  }

  // ---- retiring a key -------------------------------------------------------------------------------

  const MALFORMED := "malformed"

  /** The version under which a live secret is counted. */
  function CountedAs(s: string): string {
    match VersionOf(s) case Ok(v) => v case Err(_) => MALFORMED
  }

  function Counted(db: Secrets, v: string): set<nat> {
    set ref | ref in db && db[ref] != "" && CountedAs(db[ref]) == v
  }

  function CountOf(db: Secrets, v: string): nat {
    |Counted(db, v)|
  }

  /** `outbound_mail_secret_rotation_status`: the counter filled row by row. */
  method Status(db: Secrets) returns (counts: map<string, nat>)
    ensures forall v :: (v in counts <==> CountOf(db, v) > 0) && (v in counts ==> counts[v] == CountOf(db, v))
  {
    counts := map[];
    var todo := db.Keys;
    ghost var done: Secrets := map[];
    while todo != {}
      invariant todo <= db.Keys && done == map ref | ref in db && ref !in todo :: db[ref]
      invariant forall v :: (v in counts <==> CountOf(done, v) > 0) && (v in counts ==> counts[v] == CountOf(done, v))
      decreases |todo|
    {
      var ref :| ref in todo;
      ghost var before := done;
      done := done[ref := db[ref]];
      forall v
        ensures CountOf(done, v) == CountOf(before, v) + if db[ref] != "" && CountedAs(db[ref]) == v then 1 else 0
      {
        CountOneMore(before, ref, db[ref], v);
      }
      if db[ref] != "" {
        var v := CountedAs(db[ref]);
        counts := counts[v := (if v in counts then counts[v] else 0) + 1];
      }
      todo := todo - {ref};
    }
    assert done == db;
  }

  lemma CountOneMore(db: Secrets, ref: nat, s: string, v: string)
    requires ref !in db
    ensures CountOf(db[ref := s], v) == CountOf(db, v) + if s != "" && CountedAs(s) == v then 1 else 0
  {
    var added := s != "" && CountedAs(s) == v;
    assert Counted(db[ref := s], v) == if added then Counted(db, v) + {ref} else Counted(db, v);
  }

  /** `can_retire`. */
  predicate CanRetire(counts: map<string, nat>, v: string) {
    (v !in counts || counts[v] == 0) && (MALFORMED !in counts || counts[MALFORMED] == 0)
  }

  ghost predicate Counts(db: Secrets, counts: map<string, nat>) {
    forall v :: (v in counts <==> CountOf(db, v) > 0) && (v in counts ==> counts[v] == CountOf(db, v))
  }

  /**
   A version may be retired exactly when every live secret parses, none carries that version, and none carries the
   version name that also marks malformed rows.
   */
  lemma CanRetireExactly(db: Secrets, counts: map<string, nat>, v: string)
    requires Counts(db, counts)
    ensures CanRetire(counts, v) <==>
            forall ref :: Live(db, ref) ==> VersionOf(db[ref]).Ok? && VersionOf(db[ref]).value !in {v, MALFORMED}
  {
    Uncounted(db, v);
    Uncounted(db, MALFORMED);
    forall ref | Live(db, ref)
      ensures CountedAs(db[ref]) !in {v, MALFORMED} <==>
              VersionOf(db[ref]).Ok? && VersionOf(db[ref]).value !in {v, MALFORMED}
    {
    }
  }

  lemma Uncounted(db: Secrets, v: string)
    ensures CountOf(db, v) == 0 <==> forall ref :: Live(db, ref) ==> CountedAs(db[ref]) != v
  {
    if ref :| Live(db, ref) && CountedAs(db[ref]) == v { assert ref in Counted(db, v); }
  }

  /** Dropping a retirable version from the ring changes no decryption, successful or failing. */
  lemma RetiringChangesNoDecryption(
      c: Cipher, aead: Aead, ctx: Contexts, db: Secrets, counts: map<string, nat>, v: string, active: string)
    requires Counts(db, counts) && CanRetire(counts, v)
    ensures forall ref :: Live(db, ref) ==>
              Reads(Cipher(c.keys - {v}, active), aead, ctx, db, ref) == Reads(c, aead, ctx, db, ref)
  {
    CanRetireExactly(db, counts, v);
    forall ref | Live(db, ref)
      ensures Reads(Cipher(c.keys - {v}, active), aead, ctx, db, ref) == Reads(c, aead, ctx, db, ref)
    {
      assert Parse(db[ref]).Ok? && Parse(db[ref]).value.version != v;
    }
  }

  /** The shortened ring is accepted exactly when the dropped version is not the active one. */
  lemma ShortenedRing(c: Cipher, v: string)
    requires RingOk(c.keys, c.active)
    ensures RingOk(c.keys - {v}, c.active) <==> v != c.active
  {
  }

  /** With no live secret the status lets even the active version go, and the ring without it is refused. */
  lemma ActiveVersionMayLookRetirable(c: Cipher)
    requires RingOk(c.keys, c.active)
    ensures Counts(map[], map[]) && CanRetire(map[], c.active) && !RingOk(c.keys - {c.active}, c.active)
  {
    forall v ensures CountOf(map[], v) == 0 { Uncounted(map[], v); }
  }
}
