/** Small shared vocabulary: optional values, results, text trimming, and id-ordered lists. */
module Common {

  datatype Option<+T> = None | Some(value: T)

  datatype Result<+T, +E> = Ok(value: T) | Err(error: E)

  /** Characters that the source's `str.strip()` removes at either end of a text. */
  predicate IsSpace(c: char) {
    var n := c as int;
    || 9 <= n <= 13
    || 28 <= n <= 32
    || n == 0x85 || n == 0xA0 || n == 0x1680
    || 0x2000 <= n <= 0x200A
    || n == 0x2028 || n == 0x2029 || n == 0x202F || n == 0x205F || n == 0x3000
  }

  function StripLeft(s: string): string {
    if s != "" && IsSpace(s[0]) then StripLeft(s[1..]) else s
  }

  function StripRight(s: string): string {
    if s != "" && IsSpace(s[|s| - 1]) then StripRight(s[..|s| - 1]) else s
  }

  function Strip(s: string): string {
    StripRight(StripLeft(s))
  }

  predicate Trimmed(s: string) {
    s == "" || (!IsSpace(s[0]) && !IsSpace(s[|s| - 1]))
  }

  lemma {:induction false} StripLeftShape(s: string)
    ensures var t := StripLeft(s); t == "" || !IsSpace(t[0])
    decreases s
  {
    if s != "" && IsSpace(s[0]) { StripLeftShape(s[1..]); }
  }

  lemma {:induction false} StripRightShape(s: string)
    requires s == "" || !IsSpace(s[0])
    ensures Trimmed(StripRight(s))
    decreases s
  {
    if s != "" && IsSpace(s[|s| - 1]) {
      assert |s| > 1;
      assert s[..|s| - 1][0] == s[0];
      StripRightShape(s[..|s| - 1]);
    }
  }

  /** Stripping yields a trimmed text, and a trimmed text is its own stripping. */
  lemma StripTrims(s: string)
    ensures Trimmed(Strip(s))
    ensures Trimmed(s) ==> Strip(s) == s
  {
    StripLeftShape(s);
    StripRightShape(StripLeft(s));
  }

  predicate Increasing(s: seq<nat>) {
    forall i, j :: 0 <= i < j < |s| ==> s[i] < s[j]
  }

  predicate IsLeast(s: set<nat>, m: nat) {
    m in s && forall x :: x in s ==> m <= x
  }

  function Least(s: set<nat>): (m: nat)
    requires s != {}
    ensures IsLeast(s, m)
  {
    LeastIn(s);
    var m :| IsLeast(s, m);
    m
  }

  lemma LeastIn(s: set<nat>)
    requires s != {}
    ensures exists m :: IsLeast(s, m)
  {
    var m := LeastExists(s);
  }

  lemma {:induction false} LeastExists(s: set<nat>) returns (m: nat)
    requires s != {}
    ensures IsLeast(s, m)
    decreases |s|
  {
    var a :| a in s;
    var rest := s - {a};
    assert s == rest + {a};
    if rest == {} {
      m := a;
    } else {
      var b := LeastExists(rest);
      m := if a < b then a else b;
    }
  }

  /** The members of a set in ascending order: the rows of a table `ORDER BY id`. */
  function Ordered(s: set<nat>): (r: seq<nat>)
    ensures Increasing(r)
    ensures forall x :: x in r <==> x in s
    ensures |r| == |s|
    decreases |s|
  {
    if s == {} then [] else var m := Least(s); [m] + Ordered(s - {m})
  }
}
