/** Base64 (sections 4 and 5 of RFC 4648) over bytes, with and without padding. */
module Base64 {
  import opened Common

  type Byte = b: int | 0 <= b < 256
  type Sextet = v: int | 0 <= v < 64
  type Bytes = seq<Byte>

  /** The two characters in which the standard and the URL-safe alphabets differ. */
  datatype Alphabet = Alphabet(plus: char, slash: char)

  const STANDARD := Alphabet('+', '/')
  const URL_SAFE := Alphabet('-', '_')

  predicate IsAlphanumeric(c: char) {
    'A' <= c <= 'Z' || 'a' <= c <= 'z' || '0' <= c <= '9'
  }

  predicate IsBase64Char(a: Alphabet, c: char) {
    IsAlphanumeric(c) || c == a.plus || c == a.slash
  }

  ghost predicate WellFormed(a: Alphabet) {
    a.plus != a.slash && !IsAlphanumeric(a.plus) && !IsAlphanumeric(a.slash)
  }

  function CharOf(a: Alphabet, v: Sextet): (c: char)
    ensures IsBase64Char(a, c)
  {
    if v < 26 then ('A' as int + v) as char
    else if v < 52 then ('a' as int + (v - 26)) as char
    else if v < 62 then ('0' as int + (v - 52)) as char
    else if v == 62 then a.plus else a.slash
  }

  function ValueOf(a: Alphabet, c: char): Sextet
    requires IsBase64Char(a, c)
  {
    if 'A' <= c <= 'Z' then c as int - 'A' as int
    else if 'a' <= c <= 'z' then c as int - 'a' as int + 26
    else if '0' <= c <= '9' then c as int - '0' as int + 52
    else if c == a.plus then 62 else 63
  }

  lemma ValueOfChar(a: Alphabet, v: Sextet)
    requires WellFormed(a)
    ensures ValueOf(a, CharOf(a, v)) == v
  {
  }

  lemma CharOfValue(a: Alphabet, c: char)
    requires WellFormed(a) && IsBase64Char(a, c)
    ensures CharOf(a, ValueOf(a, c)) == c
  {
  }

  // ---- bytes and sextets --------------------------------------------------------------------------

  // The four sextets of three bytes; a missing byte counts as zero.
  function Six0(a: Byte): Sextet { var x: int := a; x / 4 }
  function Six1(a: Byte, b: Byte): Sextet { var x: int, y: int := a, b; (x % 4) * 16 + y / 16 }
  function Six2(b: Byte, c: Byte): Sextet { var x: int, y: int := b, c; (x % 16) * 4 + y / 64 }
  function Six3(c: Byte): Sextet { var x: int := c; x % 64 }

  // The three bytes of four sextets.
  function Eight0(w: Sextet, x: Sextet): Byte { var p: int, q: int := w, x; p * 4 + q / 16 }
  function Eight1(x: Sextet, y: Sextet): Byte { var p: int, q: int := x, y; (p % 16) * 16 + q / 4 }
  function Eight2(y: Sextet, z: Sextet): Byte { var p: int, q: int := y, z; (p % 4) * 64 + q }

  lemma Regroup(a: Byte, b: Byte, c: Byte)
    ensures Eight0(Six0(a), Six1(a, b)) == a
    ensures Eight1(Six1(a, b), Six2(b, c)) == b
    ensures Eight2(Six2(b, c), Six3(c)) == c
  {
  }

  lemma RegroupBack(w: Sextet, x: Sextet, y: Sextet, z: Sextet)
    ensures Six0(Eight0(w, x)) == w
    ensures Six1(Eight0(w, x), Eight1(x, y)) == x
    ensures Six2(Eight1(x, y), Eight2(y, z)) == y
    ensures Six3(Eight2(y, z)) == z
    ensures Six1(Eight0(w, x), 0) == x <==> x % 16 == 0
    ensures Six2(Eight1(x, y), 0) == y <==> y % 4 == 0
  {
  }

  function SextetsOf(b: Bytes): seq<Sextet> {
    if |b| == 0 then []
    else if |b| == 1 then [Six0(b[0]), Six1(b[0], 0)]
    else if |b| == 2 then [Six0(b[0]), Six1(b[0], b[1]), Six2(b[1], 0)]
    else [Six0(b[0]), Six1(b[0], b[1]), Six2(b[1], b[2]), Six3(b[2])] + SextetsOf(b[3..])
  }

  /** A lone trailing sextet carries no byte; other unused low bits are ignored, as the decoder does. */
  function BytesOf(s: seq<Sextet>): Option<Bytes> {
    if |s| == 0 then Some([])
    else if |s| == 1 then None
    else if |s| == 2 then Some([Eight0(s[0], s[1])])
    else if |s| == 3 then Some([Eight0(s[0], s[1]), Eight1(s[1], s[2])])
    else
      var rest := BytesOf(s[4..]);
      if rest.None? then None
      else Some([Eight0(s[0], s[1]), Eight1(s[1], s[2]), Eight2(s[2], s[3])] + rest.value)
  }

  lemma {:induction false} BytesOfSextets(b: Bytes)
    ensures BytesOf(SextetsOf(b)) == Some(b)
    decreases |b|
  {
    if |b| == 1 {
      Regroup(b[0], 0, 0);
      assert b == [b[0]];
    } else if |b| == 2 {
      Regroup(b[0], b[1], 0);
      assert b == [b[0], b[1]];
    } else if |b| >= 3 {
      BytesOfSextets(b[3..]);
      Regroup(b[0], b[1], b[2]);
      assert SextetsOf(b)[4..] == SextetsOf(b[3..]);
      assert b == [b[0], b[1], b[2]] + b[3..];
    }
  }

  lemma {:induction false} SextetCount(b: Bytes)
    ensures |SextetsOf(b)| == (4 * |b| + 2) / 3
    decreases |b|
  {
    if |b| >= 3 { SextetCount(b[3..]); }
  }

  /** No bit is lost: the unused low bits of the last sextet are zero. */
  predicate Canonical(s: seq<Sextet>) {
    if |s| >= 4 then Canonical(s[4..])
    else if |s| == 3 then s[2] % 4 == 0
    else if |s| == 2 then s[1] % 16 == 0
    else true
  }

  lemma {:induction false} SextetsOfBytes(s: seq<Sextet>)
    requires BytesOf(s).Some?
    ensures SextetsOf(BytesOf(s).value) == s <==> Canonical(s)
    decreases |s|
  {
    if |s| >= 4 {
      var head, b := [s[0], s[1], s[2], s[3]], BytesOf(s).value;
      SextetsOfBytes(s[4..]);
      FirstQuantum(s);
      assert s == head + s[4..];
      Cancel(head, SextetsOf(b[3..]), s[4..]);
    } else if |s| == 3 {
      LastThree(s[0], s[1], s[2]);
      assert s == [s[0], s[1], s[2]];
    } else if |s| == 2 {
      LastTwo(s[0], s[1]);
      assert s == [s[0], s[1]];
    }
  }

  lemma LastTwo(w: Sextet, x: Sextet)
    ensures SextetsOf([Eight0(w, x)]) == [w, x] <==> x % 16 == 0
  {
    RegroupBack(w, x, 0, 0);
    var t := SextetsOf([Eight0(w, x)]);
    assert t[0] == w && t[1] == Six1(Eight0(w, x), 0);
    assert t == [w, x] <==> t[1] == x;
  }

  lemma LastThree(w: Sextet, x: Sextet, y: Sextet)
    ensures SextetsOf([Eight0(w, x), Eight1(x, y)]) == [w, x, y] <==> y % 4 == 0
  {
    RegroupBack(w, x, y, 0);
    var t := SextetsOf([Eight0(w, x), Eight1(x, y)]);
    assert t[0] == w && t[1] == x && t[2] == Six2(Eight1(x, y), 0);
    assert t == [w, x, y] <==> t[2] == y;
  }

  lemma FirstQuantum(s: seq<Sextet>)
    requires |s| >= 4 && BytesOf(s).Some?
    ensures var b := BytesOf(s).value;
            |b| >= 3 && b[3..] == BytesOf(s[4..]).value && SextetsOf(b) == [s[0], s[1], s[2], s[3]] + SextetsOf(b[3..])
  {
    RegroupBack(s[0], s[1], s[2], s[3]);
  }

  lemma Cancel(head: seq<Sextet>, x: seq<Sextet>, y: seq<Sextet>)
    ensures head + x == head + y <==> x == y
  {
    if head + x == head + y {
      assert x == (head + x)[|head|..] && y == (head + y)[|head|..];
    }
  }

  // ---- text ---------------------------------------------------------------------------------------

  function Text(a: Alphabet, s: seq<Sextet>): string {
    seq(|s|, i requires 0 <= i < |s| => CharOf(a, s[i]))
  }

  function Values(a: Alphabet, t: string): seq<Sextet>
    requires forall c :: c in t ==> IsBase64Char(a, c)
  {
    seq(|t|, i requires 0 <= i < |t| => ValueOf(a, t[i]))
  }

  lemma ValuesOfText(a: Alphabet, s: seq<Sextet>)
    requires WellFormed(a)
    ensures forall c :: c in Text(a, s) ==> IsBase64Char(a, c)
    ensures Values(a, Text(a, s)) == s
  {
    forall i | 0 <= i < |s| ensures ValueOf(a, Text(a, s)[i]) == s[i] { ValueOfChar(a, s[i]); }
  }

  lemma TextOfValues(a: Alphabet, t: string)
    requires WellFormed(a) && forall c :: c in t ==> IsBase64Char(a, c)
    ensures Text(a, Values(a, t)) == t
  {
    forall i | 0 <= i < |t| ensures Text(a, Values(a, t))[i] == t[i] { CharOfValue(a, t[i]); }
  }

  function EncodeUnpadded(a: Alphabet, b: Bytes): string {
    Text(a, SextetsOf(b))
  }

  /** `base64.b64encode`: padded to a multiple of four characters. */
  function Encode(b: Bytes): string {
    var t := EncodeUnpadded(STANDARD, b);
    t + match |t| % 4 case 2 => "==" case 3 => "=" case _ => ""
  }

  /** `_b64decode`: a nonempty text over the URL-safe alphabet, padded before decoding. */
  function DecodeUrl(t: string): Option<Bytes> {
    if t == "" || (exists c :: c in t && !IsBase64Char(URL_SAFE, c)) then None
    else BytesOf(Values(URL_SAFE, t))
  }

  /** Unpadded URL-safe decoding undoes encoding for every byte string but the empty one, which it refuses. */
  lemma DecodeUndoesEncode(b: Bytes)
    ensures DecodeUrl(EncodeUnpadded(URL_SAFE, b)) == Some(b) <==> b != []
  {
    SextetCount(b);
    ValuesOfText(URL_SAFE, SextetsOf(b));
    BytesOfSextets(b);
    assert b == [] ==> EncodeUnpadded(URL_SAFE, b) == "";
  }

  /** Re-encoding a decoded text restores it exactly when its unused low bits are zero. */
  lemma EncodeUndoesDecode(t: string)
    requires DecodeUrl(t).Some?
    ensures EncodeUnpadded(URL_SAFE, DecodeUrl(t).value) == t <==> Canonical(Values(URL_SAFE, t))
  {
    var s := Values(URL_SAFE, t);
    SextetsOfBytes(s);
    TextOfValues(URL_SAFE, t);
    ValuesOfText(URL_SAFE, SextetsOf(BytesOf(s).value));
  }

  lemma {:induction false} BytesOfSome(s: seq<Sextet>)
    ensures BytesOf(s).Some? <==> |s| % 4 != 1
    decreases |s|
  {
    if |s| >= 4 {
      var rest := s[4..];
      assert |s| == |rest| + 4 && |s| % 4 == |rest| % 4;
      BytesOfSome(rest);
    }
  }

  /** A text decodes exactly when it is nonempty, keeps to the URL-safe alphabet, and leaves no lone last character. */
  lemma DecodesIff(t: string)
    ensures DecodeUrl(t).Some? <==>
            && t != "" && |t| % 4 != 1
            && forall c :: c in t ==>
                 'A' <= c <= 'Z' || 'a' <= c <= 'z' || '0' <= c <= '9' || c == '-' || c == '_'
  {
    if t != "" && forall c :: c in t ==> IsBase64Char(URL_SAFE, c) { BytesOfSome(Values(URL_SAFE, t)); }
  }

  lemma PadFollowsText(b: Bytes, i: nat)
    requires i < |Encode(b)|
    ensures Encode(b)[i] == '=' <==> |SextetsOf(b)| <= i
  {
    var t := EncodeUnpadded(STANDARD, b);
    if i < |t| { assert IsBase64Char(STANDARD, t[i]); }
  }

  /** Padded texts determine their bytes. */
  lemma EncodeIsInjective(b: Bytes, c: Bytes)
    ensures Encode(b) == Encode(c) <==> b == c
  {
    if Encode(b) == Encode(c) {
      var t, u := EncodeUnpadded(STANDARD, b), EncodeUnpadded(STANDARD, c);
      if |u| < |Encode(b)| { PadFollowsText(b, |u|); PadFollowsText(c, |u|); }
      if |t| < |Encode(c)| { PadFollowsText(b, |t|); PadFollowsText(c, |t|); }
      assert |t| == |u|;
      assert t == Encode(b)[..|t|] && u == Encode(c)[..|u|];
      ValuesOfText(STANDARD, SextetsOf(b));
      ValuesOfText(STANDARD, SextetsOf(c));
      BytesOfSextets(b);
      BytesOfSextets(c);
    }
  }

  /** Test vectors of section 10 of RFC 4648, and one that uses both characters the alphabets differ in. */
  lemma TestVectors()
    ensures Encode([]) == "" && Encode([102]) == "Zg==" && Encode([102, 111]) == "Zm8="
    ensures Encode([251, 255]) == "+/8=" && EncodeUnpadded(URL_SAFE, [251, 255]) == "-_8"
  {
    assert SextetsOf([102]) == [25, 32] && SextetsOf([102, 111]) == [25, 38, 60];
    assert SextetsOf([251, 255]) == [62, 63, 60];
  }

  lemma LongTestVector()
    ensures Encode([102, 111, 111, 98, 97, 114]) == "Zm9vYmFy"
  {
    var b: Bytes := [102, 111, 111, 98, 97, 114];
    assert b[3..] == [98, 97, 114] && SextetsOf([98, 97, 114]) == [24, 38, 5, 50];
    assert SextetsOf(b) == [25, 38, 61, 47, 24, 38, 5, 50];
  }

  /** The shape demanded of a wrapped key in a manifest: 54 base64 characters and two pad characters. */
  predicate IsWrappedKeyText(t: string) {
    |t| == 56 && t[54..] == "==" && forall i :: 0 <= i < 54 ==> IsBase64Char(STANDARD, t[i])
  }

  lemma WrappedKeyText(b: Bytes)
    requires |b| == 40
    ensures IsWrappedKeyText(Encode(b))
  {
    SextetCount(b);
  }

  lemma EncodedNeverHasColon(b: Bytes)
    ensures ':' !in EncodeUnpadded(URL_SAFE, b)
  {
  }
}
