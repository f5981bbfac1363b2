/**
 * The parts of java.lang.String, java.lang.Long and Okio's decimal writer that the cache
 * relies on. Characters are UTF-16 code units; case mapping is modelled on ASCII only.
 */
module JavaText {
  import opened Wrappers

  const IntMax: int := 0x7fff_ffff
  const LongMax: int := 0x7fff_ffff_ffff_ffff
  const LongMin: int := -0x8000_0000_0000_0000

  /** String.trim() removes every leading and trailing character at or below U+0020. */
  predicate IsTrimmable(c: char) {
    c <= ' '
  }

  function TrimStart(s: string): (r: string)
    ensures |r| <= |s| && r == s[|s| - |r|..]
    ensures forall i :: 0 <= i < |s| - |r| ==> IsTrimmable(s[i])
    ensures r == [] || !IsTrimmable(r[0])
  {
    if s != [] && IsTrimmable(s[0]) then TrimStart(s[1..]) else s
  }

  function TrimEnd(s: string): (r: string)
    ensures |r| <= |s| && r == s[..|r|]
    ensures forall i :: |r| <= i < |s| ==> IsTrimmable(s[i])
    ensures r == [] || !IsTrimmable(r[|r| - 1])
  {
    if s != [] && IsTrimmable(s[|s| - 1]) then TrimEnd(s[..|s| - 1]) else s
  }

  /**
   * String.trim(): the result is the run of the input that starts where the leading trimmable
   * characters end; everything after it is trimmable too, and it neither starts nor ends with a
   * trimmable character.
   */
  function Trim(s: string): (r: string)
    ensures |r| <= |s|
    ensures var a := |s| - |TrimStart(s)|;
              && a + |r| <= |s| && r == s[a..a + |r|]
              && (forall i :: 0 <= i < a ==> IsTrimmable(s[i]))
              && (forall i :: a + |r| <= i < |s| ==> IsTrimmable(s[i]))
    ensures r == [] || (!IsTrimmable(r[0]) && !IsTrimmable(r[|r| - 1]))
  {
    TrimmedRun(s, TrimStart(s), TrimEnd(TrimStart(s)));
    TrimEnd(TrimStart(s))
  }

  /**
   * A prefix u of a suffix t of s is the run of s at |s| - |t| and starts as t does; what
   * follows u in t follows it in s.
   */
  lemma TrimmedRun(s: string, t: string, u: string)
    requires |t| <= |s| && t == s[|s| - |t|..]
    requires |u| <= |t| && u == t[..|u|]
    requires forall i :: |u| <= i < |t| ==> IsTrimmable(t[i])
    ensures u != [] ==> u[0] == t[0]
    ensures var a := |s| - |t|;
              && a + |u| <= |s| && u == s[a..a + |u|]
              && (forall i :: a + |u| <= i < |s| ==> IsTrimmable(s[i]))
  {
    var a := |s| - |t|;
    forall i | a + |u| <= i < |s|
      ensures IsTrimmable(s[i])
    {
      assert s[i] == t[i - a];
    }
  }

  /** A string that trim() leaves alone. */
  predicate IsTrimmed(s: string) {
    s == [] || (!IsTrimmable(s[0]) && !IsTrimmable(s[|s| - 1]))
  }

  lemma TrimOfTrimmed(s: string)
    requires IsTrimmed(s)
    ensures Trim(s) == s
  {
    assert TrimStart(s) == s;
  }

  /** Leading blanks do not change what trim() returns. */
  lemma {:induction false} TrimIgnoresBlankPrefix(w: string, s: string)
    requires forall i :: 0 <= i < |w| ==> IsTrimmable(w[i])
    ensures TrimStart(w + s) == TrimStart(s)
    ensures Trim(w + s) == Trim(s)
  {
    if w == [] {
      assert w + s == s;
    } else {
      assert (w + s)[0] == w[0];
      assert (w + s)[1..] == w[1..] + s;
      TrimIgnoresBlankPrefix(w[1..], s);
    }
  }

  function ToLowerAscii(c: char): char {
    if 'A' <= c <= 'Z' then (c as int + 32) as char else c
  }

  function ToUpperAscii(c: char): char {
    if 'a' <= c <= 'z' then (c as int - 32) as char else c
  }

  /** String.toUpperCase(). */
  function ToUpperCase(s: string): (r: string)
    ensures |r| == |s|
    ensures forall i :: 0 <= i < |s| ==> r[i] == ToUpperAscii(s[i])
  {
    seq(|s|, i requires 0 <= i < |s| => ToUpperAscii(s[i]))
  }

  /** String.equalsIgnoreCase(): same length, equal character by character up to case. */
  predicate EqualsIgnoreCase(a: string, b: string) {
    |a| == |b| && forall i :: 0 <= i < |a| ==> ToLowerAscii(a[i]) == ToLowerAscii(b[i])
  }

  /** The index of the first c in s, or |s| when there is none. */
  function IndexOf(s: string, c: char): (r: nat)
    ensures r <= |s|
    ensures r < |s| ==> s[r] == c
    ensures forall i :: 0 <= i < r ==> s[i] != c
  {
    if s == [] || s[0] == c then 0 else 1 + IndexOf(s[1..], c)
  }

  lemma {:induction false} IndexOfAfter(x: string, c: char, rest: string)
    requires forall i :: 0 <= i < |x| ==> x[i] != c
    ensures IndexOf(x + [c] + rest, c) == |x|
  {
    if x == [] {
      assert (x + [c] + rest)[0] == c;
    } else {
      assert (x + [c] + rest)[0] == x[0];
      assert (x + [c] + rest)[1..] == x[1..] + [c] + rest;
      IndexOfAfter(x[1..], c, rest);
    }
  }

  predicate IsDigit(c: char) {
    '0' <= c <= '9'
  }

  predicate AllDigits(s: string) {
    forall i :: 0 <= i < |s| ==> IsDigit(s[i])
  }

  function DigitChar(d: nat): (c: char)
    requires d < 10
    ensures IsDigit(c)
  {
    ('0' as int + d) as char
  }

  /** The value of a run of decimal digits, most significant first. */
  function DigitsValue(s: string): nat
    requires AllDigits(s)
  {
    if s == [] then 0 else DigitsValue(s[..|s| - 1]) * 10 + (s[|s| - 1] as int - '0' as int)
  }

  /** The shortest decimal digits of n. */
  function NatDigits(n: nat): (s: string)
    ensures AllDigits(s) && s != []
  {
    if n < 10 then [DigitChar(n)] else NatDigits(n / 10) + [DigitChar(n % 10)]
  }

  lemma {:induction false} DigitsRoundTrip(n: nat)
    ensures DigitsValue(NatDigits(n)) == n
  {
    if n >= 10 {
      var s := NatDigits(n);
      assert s[..|s| - 1] == NatDigits(n / 10);
      DigitsRoundTrip(n / 10);
    }
  }

  /** Okio's writeDecimalLong: a minus sign for a negative value, then the decimal digits. */
  function DecimalString(v: int): (s: string)
    ensures s != []
    ensures v >= 0 ==> AllDigits(s)
    ensures v < 0 ==> s[0] == '-' && AllDigits(s[1..])
  {
    if v < 0 then "-" + NatDigits(-v) else NatDigits(v)
  }

  /**
   * Long.parseLong(s): an optional sign, at least one digit, and a value in the range of a
   * Java long; anything else is a NumberFormatException, here None.
   */
  function ParseLong(s: string): (r: Option<int>)
    ensures r.Some? ==> LongMin <= r.value <= LongMax
    ensures s == [] ==> r.None?
  {
    if s == [] then None
    else
      var start := if s[0] == '-' || s[0] == '+' then 1 else 0;
      if start == |s| || !AllDigits(s[start..]) then None
      else
        var magnitude: int := DigitsValue(s[start..]);
        var v := if s[0] == '-' then -magnitude else magnitude;
        if LongMin <= v <= LongMax then Some(v) else None
  }

  /** Long.parseLong reads back what writeDecimalLong wrote. */
  lemma ParseLongOfDecimal(v: int)
    requires LongMin <= v <= LongMax
    ensures ParseLong(DecimalString(v)) == Some(v)
  {
    if v < 0 {
      ParseLongOfNegative(-v);
    } else {
      ParseLongOfNatural(v);
    }
  }

  lemma ParseLongOfNegative(n: int)
    requires 0 < n <= -LongMin
    ensures ParseLong("-" + NatDigits(n)) == Some(-n)
  {
    var s := "-" + NatDigits(n);
    assert s[0] == '-' && s[1..] == NatDigits(n);
    DigitsRoundTrip(n);
  }

  lemma ParseLongOfNatural(n: nat)
    requires n <= LongMax
    ensures ParseLong(NatDigits(n)) == Some(n)
  {
    var s := NatDigits(n);
    assert !(s[0] == '-' || s[0] == '+') && s[0..] == s;
    DigitsRoundTrip(n);
  }
}
