/** Decimal parsing of a 32-bit signed integer, as `int.Parse` and
    `int.TryParse` do it with the default number style (optional leading and
    trailing white space, an optional `+` or `-` sign, one or more decimal
    digits; a value outside the int32 range is a failure), together with the
    decimal rendering that the parser inverts. */
module IntParse {
  import opened Outcomes

  const MinInt32: int := -0x8000_0000
  const MaxInt32: int := 0x7FFF_FFFF

  type Int32 = x: int | -0x8000_0000 <= x <= 0x7FFF_FFFF

  /** The white space the number style skips: U+0009 to U+000D and U+0020. */
  predicate IsWhite(c: char) {
    c == ' ' || '\t' <= c <= '\r'
  }

  predicate IsDigit(c: char) {
    '0' <= c <= '9'
  }

  predicate AllWhite(s: string) {
    forall i :: 0 <= i < |s| ==> IsWhite(s[i])
  }

  predicate AllDigits(s: string) {
    forall i :: 0 <= i < |s| ==> IsDigit(s[i])
  }

  /** The value of a string of decimal digits, most significant first. */
  function DigitsValue(s: string): nat
    requires AllDigits(s)
  {
    if s == [] then 0 else 10 * DigitsValue(s[..|s| - 1]) + (s[|s| - 1] as int - '0' as int)
  }

  function TrimStart(s: string): (t: string)
    ensures t == [] || !IsWhite(t[0])
  {
    if s != [] && IsWhite(s[0]) then TrimStart(s[1..]) else s
  }

  function TrimEnd(s: string): (t: string)
    ensures t == [] || !IsWhite(t[|t| - 1])
  {
    if s != [] && IsWhite(s[|s| - 1]) then TrimEnd(s[..|s| - 1]) else s
  }

  /** `int.TryParse(s, out v)`: `Some(v)` on success, `None` on a format
      error or an overflow. `int.Parse` is the same with the failure thrown. */
  function ParseInt32(s: string): (r: Option<int>)
    ensures r.Some? ==> MinInt32 <= r.value <= MaxInt32
  {
    ParseTrimmed(TrimEnd(TrimStart(s)))
  }

  /** An optional sign and at least one digit, with nothing around them. */
  function ParseTrimmed(t: string): (r: Option<int>)
    ensures r.Some? ==> MinInt32 <= r.value <= MaxInt32
  {
    var signed := t != [] && (t[0] == '-' || t[0] == '+');
    var digits := if signed then t[1..] else t;
    if digits == [] || !AllDigits(digits) then None
    else
      var magnitude: int := DigitsValue(digits);
      var v := if signed && t[0] == '-' then -magnitude else magnitude;
      if MinInt32 <= v <= MaxInt32 then Some(v) else None
  }

  function DigitChar(d: nat): (c: char)
    requires d < 10
    ensures IsDigit(c) && c as int - '0' as int == d
  {
    ('0' as int + d) as char
  }

  /** The decimal digits of `k`, without leading zeros. */
  function FormatNat(k: nat): (s: string)
    ensures s != [] && AllDigits(s) && DigitsValue(s) == k
    decreases k
  {
    if k < 10 then [DigitChar(k)]
    else
      var prefix := FormatNat(k / 10);
      var s := prefix + [DigitChar(k % 10)];
      assert s[..|s| - 1] == prefix;
      s
  }

  /** `v.ToString()`: a `-` for negative values, then the digits. This is the
      form in which the service writes each number. */
  function FormatInt(v: int): (s: string)
  {
    if v < 0 then "-" + FormatNat(-v) else FormatNat(v)
  }

  lemma FormatIntShape(v: int)
    ensures FormatInt(v) != []
    ensures forall i :: 0 <= i < |FormatInt(v)| ==> IsDigit(FormatInt(v)[i]) || FormatInt(v)[i] == '-'
    ensures IsDigit(FormatInt(v)[|FormatInt(v)| - 1])
  {
  }

  /** Parsing undoes formatting for every int32 value. */
  lemma {:induction false} ParseFormat(v: int)
    requires MinInt32 <= v <= MaxInt32
    ensures ParseInt32(FormatInt(v)) == Some(v)
  {
    var s := FormatInt(v);
    FormatIntShape(v);
    assert TrimStart(s) == s;
    assert TrimEnd(s) == s;
    if v < 0 {
      assert s[1..] == FormatNat(-v);
    }
  }

  /** A numeral outside the int32 range is a failure: the value is neither
      wrapped nor clamped. */
  lemma {:induction false} RejectsOutOfRange(v: int)
    requires v < MinInt32 || v > MaxInt32
    ensures ParseInt32(FormatInt(v)) == None
  {
    var s := FormatInt(v);
    FormatIntShape(v);
    assert TrimStart(s) == s;
    assert TrimEnd(s) == s;
    if v < 0 {
      assert s[1..] == FormatNat(-v);
    }
  }

  lemma {:induction false} TrimStartSkips(w: string, x: string)
    requires AllWhite(w)
    ensures TrimStart(w + x) == TrimStart(x)
  {
    if w != [] {
      assert (w + x)[1..] == w[1..] + x;
      TrimStartSkips(w[1..], x);
    } else {
      assert w + x == x;
    }
  }

  lemma {:induction false} TrimEndSkips(x: string, w: string)
    requires AllWhite(w)
    ensures TrimEnd(x + w) == TrimEnd(x)
  {
    if w != [] {
      assert (x + w)[..|x + w| - 1] == x + w[..|w| - 1];
      TrimEndSkips(x, w[..|w| - 1]);
    } else {
      assert x + w == x;
    }
  }

  lemma {:induction false} TrimBothSkips(s: string, w: string)
    requires AllWhite(w)
    ensures TrimEnd(TrimStart(s + w)) == TrimEnd(TrimStart(s))
  {
    if s == [] {
      assert s + w == w;
      TrimStartSkips(w, []);
      assert w + [] == w;
    } else if IsWhite(s[0]) {
      assert (s + w)[1..] == s[1..] + w;
      TrimBothSkips(s[1..], w);
    } else {
      TrimEndSkips(s, w);
    }
  }

  /** White space around a number never changes what it parses to; this is
      what lets a quota body with a trailing newline, or a line ending in a
      carriage return, parse. */
  lemma {:induction false} WhitePaddingIgnored(w1: string, s: string, w2: string)
    requires AllWhite(w1) && AllWhite(w2)
    ensures ParseInt32(w1 + s + w2) == ParseInt32(s)
  {
    assert w1 + s + w2 == w1 + (s + w2);
    TrimStartSkips(w1, s + w2);
    TrimBothSkips(s, w2);
  }

  /** A body that is not a number is refused. */
  lemma RejectsWords()
    ensures ParseInt32("not-a-number") == None
    ensures ParseInt32("") == None
    ensures ParseInt32("-") == None
  {
    assert TrimEnd(TrimStart("not-a-number")) == "not-a-number";
    assert !IsDigit("not-a-number"[0]);
  }

  /** One past the largest int32 is an overflow, and so a failure. */
  lemma RejectsOverflow()
    ensures ParseInt32("2147483648") == None
  {
    var s := "2147483648";
    assert TrimStart(s) == s;
    assert TrimEnd(s) == s;
    assert AllDigits(s);
    DigitsOfLimit();
  }

  lemma DigitsOfLimit()
    ensures AllDigits("2147483648") && DigitsValue("2147483648") == 2147483648
  {
    var s: string := "2";
    assert DigitsValue(s) == 2 by { assert s[..0] == []; }
    DigitsAppend(s, '1'); s := s + "1";
    DigitsAppend(s, '4'); s := s + "4";
    DigitsAppend(s, '7'); s := s + "7";
    DigitsAppend(s, '4'); s := s + "4";
    DigitsAppend(s, '8'); s := s + "8";
    DigitsAppend(s, '3'); s := s + "3";
    DigitsAppend(s, '6'); s := s + "6";
    DigitsAppend(s, '4'); s := s + "4";
    DigitsAppend(s, '8'); s := s + "8";
    assert s == "2147483648";
  }

  lemma DigitsAppend(a: string, c: char)
    requires AllDigits(a) && IsDigit(c)
    ensures AllDigits(a + [c])
    ensures DigitsValue(a + [c]) == 10 * DigitsValue(a) + (c as int - '0' as int)
  {
    assert (a + [c])[..|a|] == a;
  }
}
