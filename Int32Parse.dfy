/**
 * The subset of `int.TryParse(string, out int)` the deletion-key parser relies
 * on, with the default integer number style: optional leading and trailing
 * white space, an optional leading `+` or `-`, then one or more decimal
 * digits whose value must fit a 32-bit signed integer.
 */
module Int32Parse {
  import opened Wrappers

  const Int32Min: int := -0x8000_0000
  const Int32Max: int := 0x7FFF_FFFF

  predicate InInt32(n: int) { Int32Min <= n <= Int32Max }

  predicate IsDigit(c: char) { '0' <= c <= '9' }

  /** White space the integer style skips: tab, line feed, vertical tab, form feed, carriage return, space. */
  predicate IsWhite(c: char) { c == ' ' || '\t' <= c <= '\r' }

  predicate IsSign(c: char) { c == '+' || c == '-' }

  predicate AllDigits(s: string) { forall i :: 0 <= i < |s| ==> IsDigit(s[i]) }

  predicate AllWhite(s: string) { forall i :: 0 <= i < |s| ==> IsWhite(s[i]) }

  /** The sign text the integer style allows in front of the digits. */
  predicate IsSignText(sg: string) { sg == "" || sg == "+" || sg == "-" }

  function DigitValue(c: char): (d: nat)
    requires IsDigit(c)
    ensures d < 10
  {
    c as int - '0' as int
  }

  function DigitChar(d: nat): (c: char)
    requires d < 10
    ensures IsDigit(c) && DigitValue(c) == d
  {
    ('0' as int + d) as char
  }

  /** The value of a string of decimal digits, most significant first. */
  function DigitsValue(s: string): nat
    requires AllDigits(s)
    decreases |s|
  {
    if s == [] then 0 else 10 * DigitsValue(s[..|s| - 1]) + DigitValue(s[|s| - 1])
  }

  function TrimStart(s: string): (r: string)
    ensures |r| <= |s| && r == s[|s| - |r|..]
    ensures r == [] || !IsWhite(r[0])
    ensures forall i :: 0 <= i < |s| - |r| ==> IsWhite(s[i])
    decreases |s|
  {
    if s != [] && IsWhite(s[0]) then TrimStart(s[1..]) else s
  }

  function TrimEnd(s: string): (r: string)
    ensures |r| <= |s| && r == s[..|r|]
    ensures r == [] || !IsWhite(r[|r| - 1])
    ensures forall i :: |r| <= i < |s| ==> IsWhite(s[i])
    decreases |s|
  {
    if s != [] && IsWhite(s[|s| - 1]) then TrimEnd(s[..|s| - 1]) else s
  }

  /** Parses `s`; None where int.TryParse returns false. */
  function TryParseInt32(s: string): (r: Option<int>)
    ensures r.Some? ==> InInt32(r.value)
    ensures (forall i :: 0 <= i < |s| ==> !IsDigit(s[i])) ==> r.None?
  {
    var t := TrimEnd(TrimStart(s));
    TrimmedIsInside(s);
    ParseSigned(t)
  }

  /** Parses text already stripped of white space: an optional sign, then digits. */
  function ParseSigned(t: string): (r: Option<int>)
    ensures r.Some? ==> InInt32(r.value)
    ensures r.Some? ==> exists i :: 0 <= i < |t| && IsDigit(t[i])
  {
    if t == [] then None
    else
      var digits := if IsSign(t[0]) then t[1..] else t;
      if digits == [] || !AllDigits(digits) then None
      else
        assert IsDigit(digits[0]);
        var v: int := if t[0] == '-' then -(DigitsValue(digits) as int) else DigitsValue(digits);
        if InInt32(v) then Some(v) else None
  }

  /** The trimmed text is a slice of the original. */
  lemma {:induction false} TrimmedIsInside(s: string)
    ensures var a := TrimStart(s); var t := TrimEnd(a);
      forall k :: 0 <= k < |t| ==> t[k] == s[|s| - |a| + k]
  {
  }

  /** Decimal text of a natural number, without leading zeros. */
  function FormatNat(n: nat): (s: string)
    ensures s != [] && AllDigits(s)
    decreases n
  {
    if n < 10 then [DigitChar(n)] else FormatNat(n / 10) + [DigitChar(n % 10)]
  }

  /** Decimal text of an integer, with a leading `-` when it is negative. */
  function FormatInt32(n: int): string
  {
    if n < 0 then "-" + FormatNat(-n) else FormatNat(n)
  }

  lemma {:induction false} FormatNatValue(n: nat)
    ensures DigitsValue(FormatNat(n)) == n
    decreases n
  {
    var s := FormatNat(n);
    if n >= 10 {
      FormatNatValue(n / 10);
      assert s[..|s| - 1] == FormatNat(n / 10);
    }
  }

  /** Every 32-bit integer survives formatting and parsing back. */
  lemma {:induction false} ParseFormatRoundTrip(n: int)
    requires InInt32(n)
    ensures TryParseInt32(FormatInt32(n)) == Some(n)
  {
    var m: nat := if n < 0 then -n else n;
    var d := FormatNat(m);
    FormatNatValue(m);
    if n < 0 {
      assert FormatInt32(n) == "-" + d;
      TrimLeavesUnpadded("-" + d);
      SignedNegative(d);
    } else {
      assert FormatInt32(n) == d;
      TrimLeavesUnpadded(d);
      SignedDigits(d);
    }
  }

  lemma {:induction false} TrimLeavesUnpadded(s: string)
    requires s != [] && !IsWhite(s[0]) && !IsWhite(s[|s| - 1])
    ensures TrimEnd(TrimStart(s)) == s
  {
  }

  lemma {:induction false} SignedDigits(d: string)
    requires d != [] && AllDigits(d) && InInt32(DigitsValue(d))
    ensures ParseSigned(d) == Some(DigitsValue(d))
  {
    assert !IsSign(d[0]);
  }

  lemma {:induction false} SignedNegative(d: string)
    requires d != [] && AllDigits(d) && InInt32(-(DigitsValue(d) as int))
    ensures ParseSigned("-" + d) == Some(-(DigitsValue(d) as int))
  {
    assert ("-" + d)[1..] == d;
  }

  /** A character that is no digit, no sign and no white space makes the parse fail. */
  lemma {:induction false} ParseRejectsForeignChar(s: string, i: int)
    requires 0 <= i < |s|
    requires !IsDigit(s[i]) && !IsSign(s[i]) && !IsWhite(s[i])
    ensures TryParseInt32(s) == None
  {
    var a := TrimStart(s);
    var t := TrimEnd(a);
    var k := i - (|s| - |a|);
    assert 0 <= k < |t| && t[k] == s[i] by {
      assert 0 <= k < |a| && a[k] == s[i];
    }
    SignedRejectsForeignChar(t, k);
  }

  lemma {:induction false} SignedRejectsForeignChar(t: string, k: int)
    requires 0 <= k < |t|
    requires !IsDigit(t[k]) && !IsSign(t[k])
    ensures ParseSigned(t) == None
  {
    if IsSign(t[0]) {
      assert t[1..][k - 1] == t[k];
    } else {
      assert !IsDigit(t[k]);
    }
  }

  /** The value digits `d` denote under the sign text `sg`. */
  function SignedValue(sg: string, d: string): int
    requires AllDigits(d)
  {
    if sg == "-" then -(DigitsValue(d) as int) else DigitsValue(d)
  }

  /** The sign text at the front of `t`, if any. */
  function SignPrefix(t: string): (sg: string)
    ensures |sg| <= |t| && sg == t[..|sg|]
  {
    if t != [] && IsSign(t[0]) then t[..1] else []
  }

  /** `s` is white space `a`, sign text `sg`, digits `d` and white space `b`, in that order. */
  predicate IntegerText(s: string, a: string, sg: string, d: string, b: string)
  {
    s == a + sg + d + b && AllWhite(a) && AllWhite(b) && IsSignText(sg) && d != [] && AllDigits(d)
  }

  /**
   * Whatever parses is white space, one optional sign and a non-empty run of
   * digits, then white space again, and the result is the value those digits
   * denote under that sign.
   */
  lemma {:induction false} ParseSound(s: string)
    requires TryParseInt32(s).Some?
    ensures exists a, sg, d, b ::
      IntegerText(s, a, sg, d, b) && TryParseInt32(s).value == SignedValue(sg, d)
  {
    var t := TrimEnd(TrimStart(s));
    ParseIsTrimmedParse(s);
    SignedSound(t);
    TrimmedText(s);
    var a, sg, b := s[..|s| - |TrimStart(s)|], SignPrefix(t), TrimStart(s)[|t|..];
    var d := t[|sg|..];
    assert IntegerText(s, a, sg, d, b) && TryParseInt32(s).value == SignedValue(sg, d);
  }

  /** Text whose trimmed core parses is white space, that core's sign and digits, and white space. */
  lemma {:induction false} TrimmedText(s: string)
    requires ParseSigned(TrimEnd(TrimStart(s))).Some?
    ensures var u := TrimStart(s); var t := TrimEnd(u); var sg := SignPrefix(t);
      IntegerText(s, s[..|s| - |u|], sg, t[|sg|..], u[|t|..])
  {
    var u := TrimStart(s);
    var t := TrimEnd(u);
    var sg := SignPrefix(t);
    SignedSound(t);
    NestedPieces(s, u, t, sg);
    TrimmedOff(s);
  }

  /** What trimming takes off either end is white space. */
  lemma {:induction false} TrimmedOff(s: string)
    ensures var u := TrimStart(s);
      AllWhite(s[..|s| - |u|]) && AllWhite(u[|TrimEnd(u)|..])
  {
  }

  /** A suffix `u` of `s`, a prefix `t` of `u` and a prefix `sg` of `t` cut `s` into four consecutive pieces. */
  lemma {:induction false} NestedPieces(s: string, u: string, t: string, sg: string)
    requires |u| <= |s| && u == s[|s| - |u|..]
    requires |t| <= |u| && t == u[..|t|]
    requires |sg| <= |t| && sg == t[..|sg|]
    ensures s == s[..|s| - |u|] + sg + t[|sg|..] + u[|t|..]
  {
    assert t == sg + t[|sg|..];
    assert u == t + u[|t|..];
    assert s == s[..|s| - |u|] + u;
  }

  lemma {:induction false} SignedSound(t: string)
    requires ParseSigned(t).Some?
    ensures IsSignText(SignPrefix(t))
    ensures var d := t[|SignPrefix(t)|..];
      d != [] && AllDigits(d) && ParseSigned(t).value == SignedValue(SignPrefix(t), d)
  {
    if IsSign(t[0]) {
      assert t[..1] == [t[0]];
    }
  }

  /**
   * Conversely, white space, one optional sign, digits and white space parse
   * to the value the digits denote, exactly when that value is a 32-bit
   * integer.
   */
  lemma {:induction false} ParseComplete(a: string, sg: string, d: string, b: string)
    requires AllWhite(a) && AllWhite(b) && IsSignText(sg) && d != [] && AllDigits(d)
    ensures TryParseInt32(a + sg + d + b) ==
      if InInt32(SignedValue(sg, d)) then Some(SignedValue(sg, d)) else None
  {
    TrimsToSignedDigits(a, sg, d, b);
    ParseIsTrimmedParse(a + sg + d + b);
    SignedComplete(sg, d);
  }

  /** Trimming white space around a sign and digits leaves the sign and digits. */
  lemma {:induction false} TrimsToSignedDigits(a: string, sg: string, d: string, b: string)
    requires AllWhite(a) && AllWhite(b) && IsSignText(sg) && d != [] && AllDigits(d)
    ensures TrimEnd(TrimStart(a + sg + d + b)) == sg + d
  {
    var t := sg + d;
    assert a + sg + d + b == a + (t + b);
    SignedDigitsUnpadded(sg, d);
    assert (t + b)[0] == t[0];
    TrimStartSkipsWhite(a, t + b);
    TrimEndSkipsWhite(t, b);
  }

  lemma {:induction false} SignedDigitsUnpadded(sg: string, d: string)
    requires IsSignText(sg) && d != [] && AllDigits(d)
    ensures var t := sg + d; t != [] && !IsWhite(t[0]) && !IsWhite(t[|t| - 1])
  {
    var t := sg + d;
    if sg == [] { assert t[0] == d[0]; } else { assert t[0] == sg[0]; }
    assert t[|t| - 1] == d[|d| - 1];
  }

  /** Parsing is parsing the signed digits left after trimming. */
  lemma {:induction false} ParseIsTrimmedParse(s: string)
    ensures TryParseInt32(s) == ParseSigned(TrimEnd(TrimStart(s)))
  {
  }

  lemma {:induction false} TrimStartSkipsWhite(a: string, rest: string)
    requires AllWhite(a) && rest != [] && !IsWhite(rest[0])
    ensures TrimStart(a + rest) == rest
    decreases |a|
  {
    var s := a + rest;
    if a == [] {
      assert s == rest;
    } else {
      assert s[0] == a[0] && IsWhite(a[0]);
      assert s[1..] == a[1..] + rest;
      TrimStartSkipsWhite(a[1..], rest);
      assert TrimStart(s) == TrimStart(s[1..]);
    }
  }

  lemma {:induction false} TrimEndSkipsWhite(rest: string, b: string)
    requires AllWhite(b) && rest != [] && !IsWhite(rest[|rest| - 1])
    ensures TrimEnd(rest + b) == rest
    decreases |b|
  {
    var s := rest + b;
    if b == [] {
      assert s == rest;
    } else {
      assert s[|s| - 1] == b[|b| - 1] && IsWhite(b[|b| - 1]);
      assert s[..|s| - 1] == rest + b[..|b| - 1];
      TrimEndSkipsWhite(rest, b[..|b| - 1]);
      assert TrimEnd(s) == TrimEnd(s[..|s| - 1]);
    }
  }

  lemma {:induction false} SignedComplete(sg: string, d: string)
    requires IsSignText(sg) && d != [] && AllDigits(d)
    ensures ParseSigned(sg + d) ==
      if InInt32(SignedValue(sg, d)) then Some(SignedValue(sg, d)) else None
  {
    var t := sg + d;
    if sg == [] {
      assert t == d && !IsSign(d[0]);
    } else {
      assert t[0] == sg[0] && t[1..] == d;
    }
  }

  /** A signed run of digits whose value is not a 32-bit integer does not parse. */
  lemma {:induction false} ParseRejectsOverflow(sg: string, d: string)
    requires IsSignText(sg) && d != [] && AllDigits(d) && !InInt32(SignedValue(sg, d))
    ensures TryParseInt32(sg + d) == None
  {
    SignedDigitsUnpadded(sg, d);
    TrimLeavesUnpadded(sg + d);
    SignedComplete(sg, d);
  }
}
