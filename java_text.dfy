/**
 * The java.lang.String and java.lang.Long behaviour the address code relies on:
 * `split` on a literal dot, `Long.parseLong`, and the decimal text of a number.
 */
module JavaText {
  import opened Wrappers
  import opened JavaLong

  predicate IsDigit(c: char) {
    '0' <= c <= '9'
  }

  predicate AllDigits(s: string) {
    forall i :: 0 <= i < |s| ==> IsDigit(s[i])
  }

  function DigitValue(c: char): (d: nat)
    requires IsDigit(c)
    ensures d < 10
  {
    (c as int) - ('0' as int)
  }

  function DigitChar(d: nat): (c: char)
    requires d < 10
    ensures IsDigit(c) && DigitValue(c) == d
  {
    (('0' as int) + d) as char
  }

  /** The number a run of decimal digits denotes; leading zeros are allowed. */
  function DecimalValue(s: string): nat
    requires AllDigits(s)
  {
    if s == [] then 0 else 10 * DecimalValue(s[..|s| - 1]) + DigitValue(s[|s| - 1])
  }

  /** The decimal text of `n` without leading zeros, as Java prints an int. */
  function Decimal(n: nat): (s: string)
    ensures s != [] && AllDigits(s)
    ensures '.' !in s
  {
    if n < 10 then [DigitChar(n)] else Decimal(n / 10) + [DigitChar(n % 10)]
  }

  /**
   * Long.parseLong: an optional '-' or '+' and then at least one decimal digit, whose
   * value must fit in a long; anything else is a NumberFormatException (None).
   */
  function ParseLong(s: string): Option<Long>
  {
    if s == [] then None
    else
      var negative := s[0] == '-';
      var digits := if s[0] == '-' || s[0] == '+' then s[1..] else s;
      if digits == [] || !AllDigits(digits) then None
      else
        var magnitude: int := DecimalValue(digits);
        var v := if negative then -magnitude else magnitude;
        if -TWO_63 <= v < TWO_63 then Some(v) else None
  }

  lemma {:induction false} DecimalRoundTrip(n: nat)
    ensures DecimalValue(Decimal(n)) == n
  {
    if n >= 10 {
      var s := Decimal(n);
      assert s[..|s| - 1] == Decimal(n / 10);
      DecimalRoundTrip(n / 10);
    }
  }

  /** The decimal text has no leading zero: only "0" itself starts with '0'. */
  lemma {:induction false} DecimalNoLeadingZero(n: nat)
    ensures n > 0 ==> Decimal(n)[0] != '0'
    ensures |Decimal(n)| > 1 ==> n >= 10 && Decimal(n)[0] != '0'
  {
    if n >= 10 {
      DecimalNoLeadingZero(n / 10);
      assert Decimal(n)[0] == Decimal(n / 10)[0];
    }
  }

  /** Printing a number in decimal and parsing it back with Long.parseLong gives the number. */
  lemma ParseLongOfDecimal(n: nat)
    requires n < TWO_63
    ensures ParseLong(Decimal(n)) == Some(n)
  {
    DecimalRoundTrip(n);
  }

  lemma DecimalInjective(m: nat, n: nat)
    ensures Decimal(m) == Decimal(n) <==> m == n
  {
    DecimalRoundTrip(m);
    DecimalRoundTrip(n);
  }

  /** The index of the first dot. */
  function FirstDot(s: string): (i: nat)
    requires '.' in s
    ensures i < |s| && s[i] == '.' && '.' !in s[..i]
  {
    if s[0] == '.' then 0
    else
      assert '.' in s[1..] by {
        var j :| 0 <= j < |s| && s[j] == '.';
        assert s[1..][j - 1] == '.';
      }
      var j := FirstDot(s[1..]);
      assert s[..j + 1] == [s[0]] + s[1..][..j];
      1 + j
  }

  /** Every piece between two dots (or an end), empty pieces included. */
  function Pieces(s: string): (r: seq<string>)
    ensures r != []
    decreases |s|
  {
    if '.' !in s then [s]
    else
      var i := FirstDot(s);
      [s[..i]] + Pieces(s[i + 1..])
  }

  function DropTrailingEmpty(r: seq<string>): seq<string>
  {
    if r != [] && r[|r| - 1] == [] then DropTrailingEmpty(r[..|r| - 1]) else r
  }

  /**
   * `s.split("\\.")`: the string itself when it holds no dot; otherwise its pieces with
   * the trailing empty ones removed (leading and inner empty pieces are kept).
   */
  function Split(s: string): seq<string>
  {
    if '.' !in s then [s] else DropTrailingEmpty(Pieces(s))
  }

  /** The parts joined with single dots. */
  function Join(parts: seq<string>): string
    requires parts != []
  {
    if |parts| == 1 then parts[0] else parts[0] + "." + Join(parts[1..])
  }

  lemma {:induction false} JoinOfPieces(s: string)
    ensures Join(Pieces(s)) == s
    decreases |s|
  {
    if '.' in s {
      var i := FirstDot(s);
      JoinOfPieces(s[i + 1..]);
      assert s == s[..i] + "." + s[i + 1..];
    }
  }

  lemma {:induction false} PiecesOfJoin(parts: seq<string>)
    requires parts != []
    requires forall k :: 0 <= k < |parts| ==> '.' !in parts[k]
    ensures Pieces(Join(parts)) == parts
  {
    if |parts| > 1 {
      var p := parts[0];
      var s := Join(parts);
      assert s == p + "." + Join(parts[1..]);
      assert s[|p|] == '.';
      var i := FirstDot(s);
      assert i == |p|;
      assert s[..i] == p;
      assert s[i + 1..] == Join(parts[1..]);
      PiecesOfJoin(parts[1..]);
    }
  }

  /** Splitting dot-joined parts gives the parts back, unless the last one is empty. */
  lemma SplitOfJoin(parts: seq<string>)
    requires parts != []
    requires forall k :: 0 <= k < |parts| ==> '.' !in parts[k]
    requires |parts| > 1 ==> parts[|parts| - 1] != []
    ensures Split(Join(parts)) == parts
  {
    PiecesOfJoin(parts);
    if |parts| > 1 {
      assert Join(parts)[|parts[0]|] == '.';
    }
  }

  /**
   * A trailing empty part adds nothing to the split: "1.2.3.4." splits like "1.2.3.4"
   * once there is a dot to split at.
   */
  lemma SplitDropsTrailingEmpty(parts: seq<string>)
    requires |parts| > 1
    requires forall k :: 0 <= k < |parts| ==> '.' !in parts[k]
    ensures Split(Join(parts + [""])) == Split(Join(parts))
  {
    var longer := parts + [""];
    PiecesOfJoin(parts);
    assert forall k :: 0 <= k < |longer| ==> '.' !in longer[k];
    PiecesOfJoin(longer);
    assert Join(parts) == parts[0] + "." + Join(parts[1..]);
    assert Join(parts)[|parts[0]|] == '.';
    assert Join(longer) == longer[0] + "." + Join(longer[1..]);
    assert Join(longer)[|parts[0]|] == '.';
    assert longer[..|parts|] == parts;
  }

  /**
   * Two dot-terminated prefixes: `x.u` starts `y.v` exactly when `x` and `y` are the
   * same dot-free part and `u` starts `v`.
   */
  lemma DotPrefix(x: string, u: string, y: string, v: string)
    requires '.' !in x && '.' !in y
    ensures x + "." + u <= y + "." + v <==> x == y && u <= v
  {
    var l, r := x + "." + u, y + "." + v;
    if l <= r {
      assert l[|x|] == '.' == r[|x|];
      assert r[|y|] == '.';
      assert x == l[..|x|] == r[..|y|] == y;
      assert u == l[|x| + 1..];
      assert v == r[|x| + 1..];
    }
    if x == y && u <= v {
      assert l == r[..|l|];
    }
  }
}
