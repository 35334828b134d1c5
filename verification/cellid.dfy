/**
 The id of a cell's checkbox is "row-col" in decimal; the click handler splits
 it on '-' and converts each part with the double bitwise not `~~`, which
 turns a numeric string into its ToInt32 value and anything else into 0.
 */
module CellId {
  import opened Grid

  const TwoTo31: int := 0x8000_0000
  const TwoTo32: int := 0x1_0000_0000

  predicate IsDigit(ch: char) {
    '0' <= ch <= '9'
  }

  predicate AllDigits(s: string) {
    forall i :: 0 <= i < |s| ==> IsDigit(s[i])
  }

  function DigitChar(d: nat): (ch: char)
    requires d < 10
    ensures IsDigit(ch) && ch as int - '0' as int == d
  {
    ('0' as int + d) as char
  }

  /** The decimal form of `n`, without leading zeros. */
  function NatToString(n: nat): (s: string)
    ensures |s| > 0 && AllDigits(s)
    decreases n
  {
    if n < 10 then [DigitChar(n)] else NatToString(n / 10) + [DigitChar(n % 10)]
  }

  /** The value of a string of decimal digits. */
  function DigitsValue(s: string): nat
    requires AllDigits(s)
  {
    if |s| == 0 then 0 else DigitsValue(s[..|s| - 1]) * 10 + (s[|s| - 1] as int - '0' as int)
  }

  lemma {:induction false} DigitsRoundTrip(n: nat)
    ensures DigitsValue(NatToString(n)) == n
    decreases n
  {
    var s := NatToString(n);
    if n >= 10 {
      DigitsRoundTrip(n / 10);
      assert s[..|s| - 1] == NatToString(n / 10);
    }
  }

  /** ECMAScript's ToInt32 on a non-negative integer: reduce modulo 2^32 and
      read the result as a signed 32-bit value. */
  function ToInt32(n: nat): (r: int)
    ensures -TwoTo31 <= r < TwoTo31
    ensures (r - n) % TwoTo32 == 0
    ensures n < TwoTo31 ==> r == n
  {
    var m := n % TwoTo32;
    if m >= TwoTo31 then m - TwoTo32 else m
  }

  /** `~~s` for a string `s`: a string of digits becomes its ToInt32 value
      (the empty string counts as 0), any other string is NaN and becomes 0. */
  function TruncToInt(s: string): int {
    if AllDigits(s) then ToInt32(DigitsValue(s)) else 0
  }

  /** String.prototype.split with a one-character separator: the pieces
      between separators, always at least one, none holding the separator. */
  function Split(s: string, sep: char): (parts: seq<string>)
    ensures |parts| >= 1
    ensures forall k :: 0 <= k < |parts| ==> sep !in parts[k]
  {
    if |s| == 0 then [""]
    else
      var rest := Split(s[1..], sep);
      if s[0] == sep then [""] + rest else [[s[0]] + rest[0]] + rest[1..]
  }

  /** Gluing the pieces back together with the separator gives the string
      that was split. */
  function Join(parts: seq<string>, sep: char): string
    requires |parts| >= 1
  {
    if |parts| == 1 then parts[0] else parts[0] + [sep] + Join(parts[1..], sep)
  }

  lemma {:induction false} SplitJoin(s: string, sep: char)
    ensures Join(Split(s, sep), sep) == s
  {
    if |s| > 0 {
      SplitJoin(s[1..], sep);
      var rest := Split(s[1..], sep);
      if s[0] != sep && |rest| > 1 {
        assert rest[1..][0] == rest[1];
        assert Join(rest, sep) == rest[0] + [sep] + Join(rest[1..], sep);
      }
    }
  }

  lemma {:induction false} SplitWithoutSep(a: string, sep: char)
    requires sep !in a
    ensures Split(a, sep) == [a]
  {
    if |a| > 0 {
      SplitWithoutSep(a[1..], sep);
      assert [a[0]] + a[1..] == a;
    }
  }

  lemma {:induction false} SplitAfterFirst(a: string, b: string, sep: char)
    requires sep !in a
    ensures Split(a + [sep] + b, sep) == [a] + Split(b, sep)
  {
    if |a| == 0 {
      assert (a + [sep] + b)[1..] == b;
    } else {
      SplitAfterFirst(a[1..], b, sep);
      assert (a + [sep] + b)[1..] == a[1..] + [sep] + b;
      var rest := Split(a[1..] + [sep] + b, sep);
      assert rest[0] == a[1..] && rest[1..] == Split(b, sep);
      assert [a[0]] + a[1..] == a;
    }
  }

  /** The id given to the checkbox of the cell at `loc`. */
  function Id(loc: Loc): string
    requires loc.row >= 0 && loc.col >= 0
  {
    NatToString(loc.row) + "-" + NatToString(loc.col)
  }

  /** The location the click handler reads back from an id. A missing second
      part converts as undefined does, to 0. */
  function ParseId(id: string): Loc {
    var parts := Split(id, '-');
    Loc(TruncToInt(parts[0]), if |parts| > 1 then TruncToInt(parts[1]) else 0)
  }

  /** Parsing the id of a cell gives the cell back, as long as both
      coordinates fit a signed 32-bit integer. */
  lemma IdRoundTrip(loc: Loc)
    requires 0 <= loc.row < TwoTo31 && 0 <= loc.col < TwoTo31
    ensures ParseId(Id(loc)) == loc
  {
    var a, b := NatToString(loc.row), NatToString(loc.col);
    assert '-' !in a && '-' !in b;
    SplitAfterFirst(a, b, '-');
    SplitWithoutSep(b, '-');
    DigitsRoundTrip(loc.row);
    DigitsRoundTrip(loc.col);
  }
}
