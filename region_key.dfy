/**
 * The string form of a grid cell's key in the motion history, "${gx}_${gy}",
 * and the way the detector reads it back: split on '_' and parse both parts
 * with Kotlin's String.toInt() (which throws NumberFormatException on
 * anything but an optional sign followed by decimal digits in Int range).
 */
module RegionKey {
  import opened Wrappers

  const IntMin: int := -0x8000_0000
  const IntMax: int := 0x7fff_ffff

  predicate InIntRange(i: int) { IntMin <= i <= IntMax }

  predicate IsDigit(c: char) { '0' <= c <= '9' }

  function DigitChar(d: int): (c: char)
    requires 0 <= d < 10
    ensures IsDigit(c) && (c as int) - ('0' as int) == d
  {
    (('0' as int) + d) as char
  }

  /** Decimal digits of n, most significant first, no leading zeros. */
  function NatToString(n: nat): (s: string)
    ensures |s| >= 1
    ensures forall i :: 0 <= i < |s| ==> IsDigit(s[i])
    decreases n
  {
    if n < 10 then [DigitChar(n)] else NatToString(n / 10) + [DigitChar(n % 10)]
  }

  /** Kotlin's Int.toString(): a leading '-' for negative numbers. */
  function IntToString(i: int): string
  {
    if i < 0 then "-" + NatToString(-i) else NatToString(i)
  }

  /** The history-map key of the cell (gx, gy): "${gx}_${gy}". */
  function KeyString(gx: int, gy: int): string
  {
    IntToString(gx) + "_" + IntToString(gy)
  }

  /** Kotlin's String.split(sep) for a one-character delimiter: every
      occurrence splits, empty parts are kept, so the result is never empty. */
  function Split(s: string, sep: char): (parts: seq<string>)
    ensures |parts| >= 1
    ensures |parts| == 1 <==> (forall i :: 0 <= i < |s| ==> s[i] != sep)
  {
    if s == [] then [[]]
    else
      var rest := Split(s[1..], sep);
      if s[0] == sep then [[]] + rest
      else [[s[0]] + rest[0]] + rest[1..]
  }

  predicate AllDigits(s: string)
  {
    forall i :: 0 <= i < |s| ==> IsDigit(s[i])
  }

  /** The value of a string of decimal digits. */
  function DigitsValue(s: string): nat
    requires AllDigits(s)
  {
    if s == [] then 0
    else DigitsValue(s[..|s| - 1]) * 10 + ((s[|s| - 1] as int) - ('0' as int))
  }

  /** Kotlin's String.toInt(): None where it throws NumberFormatException. */
  function ParseInt(s: string): Option<int>
  {
    if |s| == 0 then None
    else
      var negative := s[0] == '-';
      var digits := if s[0] == '-' || s[0] == '+' then s[1..] else s;
      if |digits| == 0 || !AllDigits(digits) then None
      else
        var magnitude: int := DigitsValue(digits);
        var v := if negative then -magnitude else magnitude;
        if InIntRange(v) then Some(v) else None
  }

  /** How the detector reads a key back: split on '_', exactly two parts,
      both parts parse as Int; None on every path the source skips. */
  function ParseKey(key: string): Option<(int, int)>
  {
    var parts := Split(key, '_');
    if |parts| != 2 then None
    else
      match (ParseInt(parts[0]), ParseInt(parts[1]))
      case (Some(gx), Some(gy)) => Some((gx, gy))
      case _ => None
  }

  lemma {:induction false} DigitsValueOfNatToString(n: nat)
    ensures AllDigits(NatToString(n)) && DigitsValue(NatToString(n)) == n
    decreases n
  {
    var s := NatToString(n);
    if n >= 10 {
      DigitsValueOfNatToString(n / 10);
      assert s[..|s| - 1] == NatToString(n / 10);
    }
  }

  /** Parsing the decimal form of an Int gives the Int back. */
  lemma ParseIntRoundTrip(i: int)
    requires InIntRange(i)
    ensures ParseInt(IntToString(i)) == Some(i)
  {
    var s := IntToString(i);
    if i < 0 {
      DigitsValueOfNatToString(-i);
      assert s[1..] == NatToString(-i);
    } else {
      DigitsValueOfNatToString(i);
    }
  }

  lemma {:induction false} SplitOnce(a: string, b: string, sep: char)
    requires forall i :: 0 <= i < |a| ==> a[i] != sep
    requires forall i :: 0 <= i < |b| ==> b[i] != sep
    ensures Split(a + [sep] + b, sep) == [a, b]
    decreases |a|
  {
    var s := a + [sep] + b;
    if a == [] {
      assert s[1..] == b;
      assert Split(b, sep) == [b] by {
        SplitNoSeparator(b, sep);
      }
    } else {
      assert s[1..] == a[1..] + [sep] + b;
      SplitOnce(a[1..], b, sep);
      assert [s[0]] + a[1..] == a;
    }
  }

  lemma {:induction false} SplitNoSeparator(s: string, sep: char)
    requires forall i :: 0 <= i < |s| ==> s[i] != sep
    ensures Split(s, sep) == [s]
    decreases |s|
  {
    if s != [] {
      SplitNoSeparator(s[1..], sep);
      assert [s[0]] + s[1..] == s;
    }
  }

  /** The key the detector writes for a cell reads back as that cell. */
  lemma KeyRoundTrip(gx: int, gy: int)
    requires InIntRange(gx) && InIntRange(gy)
    ensures ParseKey(KeyString(gx, gy)) == Some((gx, gy))
  {
    var a, b := IntToString(gx), IntToString(gy);
    assert KeyString(gx, gy) == a + ['_'] + b;
    SplitOnce(a, b, '_');
    ParseIntRoundTrip(gx);
    ParseIntRoundTrip(gy);
  }

  /** Hence distinct cells have distinct key strings: keying the history by
      the cell itself instead of its string loses nothing. */
  lemma KeyStringInjective(gx1: int, gy1: int, gx2: int, gy2: int)
    requires InIntRange(gx1) && InIntRange(gy1) && InIntRange(gx2) && InIntRange(gy2)
    ensures KeyString(gx1, gy1) == KeyString(gx2, gy2) <==> gx1 == gx2 && gy1 == gy2
  {
    KeyRoundTrip(gx1, gy1);
    KeyRoundTrip(gx2, gy2);
  }
}
