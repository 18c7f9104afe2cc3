/**
 * Byte strings and the decimal numerals the serialization format writes
 * (`sprintf('%d', ...)`), together with the reader for those numerals that
 * the decoder in module Wire uses.
 */
module Text {

  /** A PHP string is a sequence of bytes; a byte is shown as the character
      with the same code (a Latin-1 view), so `"N;"` is a byte string. */
  type Byte = c: char | c as int < 256 witness '\0'
  type Bytes = seq<Byte>

  predicate IsDigit(c: Byte) {
    '0' <= c <= '9'
  }

  function DigitChar(d: nat): (c: Byte)
    requires d < 10
    ensures IsDigit(c) && c as int - '0' as int == d
  {
    (d + '0' as int) as char
  }

  function DigitValue(c: Byte): (d: nat)
    requires IsDigit(c)
    ensures d < 10
  {
    c as int - '0' as int
  }

  /** The decimal digits of `n`, most significant first, no leading zero. */
  function NatText(n: nat): (r: Bytes)
    ensures |r| >= 1
    ensures forall i | 0 <= i < |r| :: IsDigit(r[i])
    ensures r[0] == '0' <==> n == 0
  {
    if n < 10 then [DigitChar(n)] else NatText(n / 10) + [DigitChar(n % 10)]
  }

  /** `sprintf('%d', i)`: a minus sign only for negative numbers. */
  function DecimalText(i: int): (r: Bytes)
    ensures |r| >= 1
    ensures r[0] == '-' <==> i < 0
    ensures forall k | 0 < k < |r| :: IsDigit(r[k])
    ensures i >= 0 ==> IsDigit(r[0])
    ensures i < 0 ==> |r| >= 2 && r[1] != '0'
    ensures r[0] == '0' <==> i == 0
    ensures i == 0 ==> r == "0"
  {
    if i < 0 then "-" + NatText(-i) else NatText(i)
  }

  /** `$needle` starts at index `i` of `$hay`. */
  predicate OccursAt(hay: Bytes, needle: Bytes, i: nat) {
    i + |needle| <= |hay| && hay[i..i + |needle|] == needle
  }

  /** `strpos($hay, $needle)`: the first index at which `needle` occurs,
      or None (PHP's `false`). */
  function IndexOf(hay: Bytes, needle: Bytes): (r: Option<nat>)
    ensures r.Some? ==> OccursAt(hay, needle, r.value)
    ensures r.Some? ==> forall i | 0 <= i < r.value :: !OccursAt(hay, needle, i)
    ensures r.None? ==> forall i | 0 <= i <= |hay| :: !OccursAt(hay, needle, i)
  {
    IndexFrom(hay, needle, 0)
  }

  function IndexFrom(hay: Bytes, needle: Bytes, from: nat): (r: Option<nat>)
    requires from <= |hay|
    ensures r.Some? ==> from <= r.value && OccursAt(hay, needle, r.value)
    ensures r.Some? ==> forall i | from <= i < r.value :: !OccursAt(hay, needle, i)
    ensures r.None? ==> forall i | from <= i <= |hay| :: !OccursAt(hay, needle, i)
    decreases |hay| - from
  {
    if OccursAt(hay, needle, from) then Some(from)
    else if from == |hay| then None
    else IndexFrom(hay, needle, from + 1)
  }

  /** `strpos` gives 0 exactly when `hay` starts with `needle`. */
  lemma FoundAtStart(hay: Bytes, needle: Bytes)
    ensures IndexOf(hay, needle) == Some(0) <==>
      |hay| >= |needle| && hay == needle + hay[|needle|..]
  {
    if |hay| >= |needle| && hay == needle + hay[|needle|..] {
      assert hay[..|needle|] == needle;
      assert OccursAt(hay, needle, 0);
    }
    if IndexOf(hay, needle) == Some(0) {
      assert hay[..|needle|] == needle;
      assert hay == hay[..|needle|] + hay[|needle|..];
    }
  }

  /** The number a run of digits denotes. */
  function DigitsValue(d: Bytes): nat
    requires forall i | 0 <= i < |d| :: IsDigit(d[i])
  {
    if d == [] then 0 else DigitsValue(d[..|d| - 1]) * 10 + DigitValue(d[|d| - 1])
  }

  /** The number of leading digits of `s`. */
  function DigitRun(s: Bytes): (n: nat)
    ensures n <= |s|
    ensures forall i | 0 <= i < n :: IsDigit(s[i])
    ensures n < |s| ==> !IsDigit(s[n])
  {
    if s == [] || !IsDigit(s[0]) then 0 else 1 + DigitRun(s[1..])
  }

  /** Reads the longest non-empty run of digits at the start of `s`. */
  function ParseNat(s: Bytes): (r: Option<(nat, Bytes)>)
    ensures r.Some? ==> |r.value.1| < |s|
  {
    var n := DigitRun(s);
    if n == 0 then None else Some((DigitsValue(s[..n]), s[n..]))
  }

  /** Reads an optional minus sign followed by digits. */
  function ParseInt(s: Bytes): (r: Option<(int, Bytes)>)
    ensures r.Some? ==> |r.value.1| < |s|
  {
    var negative := |s| > 0 && s[0] == '-';
    match ParseNat(if negative then s[1..] else s)
    case None => None
    case Some((n, rest)) => Some((if negative then -(n as int) else n as int, rest))
  }

  /** Removes `lit` from the front of `s`, if `s` starts with it. */
  function Expect(s: Bytes, lit: Bytes): (r: Option<Bytes>)
    ensures r.Some? ==> s == lit + r.value
  {
    if |lit| <= |s| && s[..|lit|] == lit then Some(s[|lit|..]) else None
  }

  datatype Option<+T> = None | Some(value: T)

  /** True when `rest` cannot extend a run of digits. */
  predicate EndsDigits(rest: Bytes) {
    rest == [] || !IsDigit(rest[0])
  }

  lemma {:induction false} DigitsValueOfNatText(n: nat)
    ensures DigitsValue(NatText(n)) == n
  {
    if n >= 10 {
      var t := NatText(n);
      assert t[..|t| - 1] == NatText(n / 10);
      DigitsValueOfNatText(n / 10);
    }
  }

  lemma {:induction false} DigitRunOfDigits(d: Bytes, rest: Bytes)
    requires forall i | 0 <= i < |d| :: IsDigit(d[i])
    requires EndsDigits(rest)
    ensures DigitRun(d + rest) == |d|
  {
    if d != [] {
      assert (d + rest)[1..] == d[1..] + rest;
      DigitRunOfDigits(d[1..], rest);
    } else {
      assert d + rest == rest;
    }
  }

  /** The numeral `sprintf('%d', n)` writes reads back as `n`. */
  lemma NatTextRoundTrip(n: nat, rest: Bytes)
    requires EndsDigits(rest)
    ensures ParseNat(NatText(n) + rest) == Some((n, rest))
  {
    var t := NatText(n);
    DigitRunOfDigits(t, rest);
    assert (t + rest)[..|t|] == t;
    assert (t + rest)[|t|..] == rest;
    DigitsValueOfNatText(n);
  }

  lemma NegativeTextRoundTrip(n: nat, rest: Bytes)
    requires EndsDigits(rest)
    ensures ParseInt("-" + NatText(n) + rest) == Some((-(n as int), rest))
  {
    var u := NatText(n) + rest;
    var s := "-" + NatText(n) + rest;
    assert s == ['-'] + u;
    assert s[0] == '-' && s[1..] == u;
    NatTextRoundTrip(n, rest);
  }

  lemma NatTextIntRoundTrip(n: nat, rest: Bytes)
    requires EndsDigits(rest)
    ensures ParseInt(NatText(n) + rest) == Some((n as int, rest))
  {
    var t := NatText(n);
    NatTextRoundTrip(n, rest);
    assert (t + rest)[0] == t[0] && IsDigit(t[0]);
  }

  /** The numeral `sprintf('%d', i)` writes reads back as `i`. */
  lemma DecimalTextRoundTrip(i: int, rest: Bytes)
    requires EndsDigits(rest)
    ensures ParseInt(DecimalText(i) + rest) == Some((i, rest))
  {
    if i < 0 {
      NegativeTextRoundTrip(-i, rest);
    } else {
      NatTextIntRoundTrip(i, rest);
    }
  }

  /** Concatenation regrouped to the right. */
  lemma Regroup3(a: Bytes, b: Bytes, c: Bytes)
    ensures a + b + c == a + (b + c)
  {
  }

  lemma Regroup(a: Bytes, b: Bytes, c: Bytes, d: Bytes)
    ensures a + b + c + d == a + (b + (c + d))
  {
  }

  lemma ExpectLiteral(lit: Bytes, rest: Bytes)
    ensures Expect(lit + rest, lit) == Some(rest)
  {
    assert (lit + rest)[..|lit|] == lit;
    assert (lit + rest)[|lit|..] == rest;
  }
}
