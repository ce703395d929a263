/**
 The number tokens that the parser of picojson/picojson.h takes, as strtod does: their grammar byte by byte, and the
 decimal value of the integers among them.
 */
module JsonNumeral {
  import opened Bytes
  import opened JsonNumber
  import opened JsonValue
  import opened JsonText

  /** "e" or "E", an optional sign and digits. */
  datatype Exponent = Exponent(letter: byte, sign: bytes, digits: bytes)
  {
    predicate Proper() {
      (letter == 69 || letter == 101) && (sign == [] || sign == [43] || sign == [45]) && digits != [] &&
      Decimal(digits)
    }

    function Render(): (r: bytes) { [letter] + (sign + digits) }
  }

  /** An optional minus, digits, an optional point with digits, and an optional exponent. There is a digit in front of
      the exponent, and without a minus the first byte is one. */
  datatype Token = Token(minus: bool, whole: bytes, fraction: Option<bytes>, exponent: Option<Exponent>)
  {
    predicate Proper() {
      Decimal(whole) && (fraction.Some? ==> Decimal(fraction.value)) && (exponent.Some? ==> exponent.value.Proper()) &&
      (whole != [] || (minus && fraction.Some? && fraction.value != []))
    }

    function Sign(): (r: bytes) { if minus then [45] else [] }

    function Tail(): (r: bytes) { if exponent.Some? then exponent.value.Render() else [] }

    function Fraction(): (r: bytes) { if fraction.Some? then [46] + fraction.value else [] }

    function Render(): (r: bytes) { Sign() + (whole + (Fraction() + Tail())) }

    /** An integer that a double holds is a number, minus zero aside; the others are kept as they are. */
    function Meaning(): (v: Value)
      requires Proper()
    {
      if fraction.None? && exponent.None? then
        var n := if minus then -(DecimalValue(whole) as int) else DecimalValue(whole);
        if IsDouble(n) && !(minus && n == 0) then Number(n) else Numeral(Render())
      else Numeral(Render())
    }
  }

  predicate Decimal(d: bytes) { forall i :: 0 <= i < |d| ==> 48 <= d[i] <= 57 }

  function Pow10(k: nat): (r: nat)
    ensures r > 0
  {
    if k == 0 then 1 else 10 * Pow10(k - 1)
  }

  /** The first digit counts for the highest power of ten. */
  function DecimalValue(d: bytes): (n: nat)
    requires Decimal(d)
  {
    if d == [] then 0 else (d[0] - 48) * Pow10(|d| - 1) + DecimalValue(d[1..])
  }

  // ----- digits -----

  lemma {:induction false} AllDigitsIs(d: bytes)
    ensures AllDigits(d) <==> Decimal(d)
    decreases |d|
  {
    if d != [] {
      var rest, last := d[..|d| - 1], d[|d| - 1];
      AllDigitsIs(rest);
      if Decimal(rest) && 48 <= last <= 57 {
        forall i | 0 <= i < |d| ensures 48 <= d[i] <= 57 {
          if i < |d| - 1 { assert d[i] == rest[i]; }
        }
      }
    }
  }

  lemma FirstDigit(d: bytes)
    requires d != [] && Decimal(d)
    ensures Decimal(d[1..]) && DecimalValue(d) == (d[0] - 48) * Pow10(|d| - 1) + DecimalValue(d[1..])
    ensures |d| == 1 ==> DecimalValue(d) == d[0] - 48
  {
  }

  lemma TenTimes(high: nat, k: nat)
    ensures high * Pow10(k + 1) == 10 * (high * Pow10(k))
  {
  }

  lemma {:induction false} LastDigit(d: bytes)
    requires d != [] && Decimal(d)
    ensures DecimalValue(d) == 10 * DecimalValue(d[..|d| - 1]) + (d[|d| - 1] - 48)
    decreases |d|
  {
    hide DecimalValue, Pow10;
    FirstDigit(d);
    if |d| > 1 {
      var front := d[..|d| - 1];
      LastDigit(d[1..]);
      assert d[1..][..|d| - 2] == front[1..];
      FirstDigit(front);
      TenTimes(d[0] - 48, |d| - 2);
    } else {
      assert d[..0] == [];
      assert DecimalValue([]) == 0 by { NoDigits(); }
    }
  }

  lemma NoDigits()
    ensures DecimalValue([]) == 0
  {
  }

  lemma {:induction false} DigitsValueIs(d: bytes)
    requires AllDigits(d) && Decimal(d)
    ensures DigitsValue(d) == DecimalValue(d)
    decreases |d|
  {
    if d != [] {
      DigitsValueIs(d[..|d| - 1]);
      LastDigit(d);
    }
  }

  lemma {:induction false} SkipDigitsIs(t: bytes, i: nat, d: bytes)
    requires Decimal(d) && At(t, i, d) && (i + |d| < |t| ==> !(48 <= t[i + |d|] <= 57))
    ensures SkipDigits(t, i) == i + |d|
    decreases |d|
  {
    if d != [] {
      assert t[i] == t[i..i + |d|][0];
      assert t[i + 1..i + |d|] == d[1..];
      SkipDigitsIs(t, i + 1, d[1..]);
    }
  }

  lemma {:induction false} SkippedDigits(t: bytes, i: nat)
    requires i <= |t|
    ensures Decimal(t[i..SkipDigits(t, i)])
    ensures SkipDigits(t, i) < |t| ==> !(48 <= t[SkipDigits(t, i)] <= 57)
    decreases |t| - i
  {
    if i < |t| && IsDigit(t[i]) {
      SkippedDigits(t, i + 1);
      var j := SkipDigits(t, i);
      assert t[i..j] == [t[i]] + t[i + 1..j];
    }
  }

  // ----- what is read -----

  lemma ExponentIs(s: bytes, k: nat, e: Exponent)
    requires e.Proper() && At(s, k, e.Render()) && k + |e.Render()| == |s|
    ensures k < |s| && (s[k] == 69 || s[k] == 101) && IsExponent(s, k)
  {
    hide Decimal;
    AtSplit(s, k, [e.letter], e.sign + e.digits);
    assert s[k] == s[k..k + 1][0];
    AtSplit(s, k + 1, e.sign, e.digits);
    var i := k + 1 + |e.sign|;
    if e.sign != [] {
      assert s[k + 1] == s[k + 1..i][0];
    } else {
      FirstIsDigit(s, i, e.digits);
    }
    SkipDigitsIs(s, i, e.digits);
  }

  lemma FirstIsDigit(s: bytes, p: nat, d: bytes)
    requires d != [] && Decimal(d) && At(s, p, d)
    ensures p < |s| && 48 <= s[p] <= 57
  {
    assert s[p] == s[p..p + |d|][0];
  }

  lemma ExponentOf(s: bytes, k: nat) returns (e: Exponent)
    requires k < |s| && IsExponent(s, k)
    ensures e.Proper() && s[k..] == e.Render()
  {
    var i := if k + 1 < |s| && IsSign(s[k + 1]) then k + 2 else k + 1;
    SkippedDigits(s, i);
    assert s[i..|s|] == s[i..];
    e := Exponent(s[k], s[k + 1..i], s[i..]);
    assert s[k..] == [s[k]] + (s[k + 1..i] + s[i..]);
  }

  /** The four parts of a token and where they begin. */
  lemma TokenParts(t: Token, s: bytes)
    requires t.Proper() && s == t.Render()
    ensures var i := |t.Sign()|;
            var j := i + |t.whole|;
            var k := j + |t.Fraction()|;
            At(s, i, t.whole) && At(s, j, t.Fraction()) && At(s, k, t.Tail()) && k + |t.Tail()| == |s|
    ensures t.minus ==> |s| > 1 && s[0] == 45
    ensures !t.minus ==> s != [] && 48 <= s[0] <= 57
  {
    hide Exponent.Render, Exponent.Proper, At, Token.Sign, Token.Fraction, Token.Tail, Decimal;
    Whole(s);
    AtSplit(s, 0, t.Sign(), t.whole + (t.Fraction() + t.Tail()));
    AtSplit(s, |t.Sign()|, t.whole, t.Fraction() + t.Tail());
    AtSplit(s, |t.Sign()| + |t.whole|, t.Fraction(), t.Tail());
    TokenStart(t, s);
  }

  lemma TokenStart(t: Token, s: bytes)
    requires t.Proper() && At(s, 0, t.Sign()) && At(s, |t.Sign()|, t.whole)
    requires |s| == |t.Sign()| + |t.whole| + |t.Fraction()| + |t.Tail()|
    ensures t.minus ==> |s| > 1 && s[0] == 45
    ensures !t.minus ==> s != [] && 48 <= s[0] <= 57
  {
    hide Exponent.Render, Exponent.Proper, Token.Tail;
    if t.minus {
      assert s[0] == s[0..1][0];
    } else {
      FirstIsDigit(s, 0, t.whole);
    }
  }

  lemma Whole(s: bytes)
    ensures At(s, 0, s)
  {
    assert s[0..|s|] == s;
  }

  /** What follows the digits is no digit. */
  lemma TailStart(t: Token, s: bytes, k: nat)
    requires t.Proper() && At(s, k, t.Tail()) && k + |t.Tail()| == |s|
    ensures k < |s| <==> t.exponent.Some?
    ensures k < |s| ==> (s[k] == 69 || s[k] == 101) && IsExponent(s, k)
  {
    hide IsExponent, Exponent.Proper, Decimal;
    if t.exponent.Some? {
      ExponentIs(s, k, t.exponent.value);
    }
  }

  lemma FractionStart(t: Token, s: bytes, j: nat)
    requires t.Proper() && At(s, j, t.Fraction()) && j + |t.Fraction()| <= |s|
    ensures t.fraction.Some? ==> j < |s| && s[j] == 46 && At(s, j + 1, t.fraction.value)
  {
    hide Exponent.Proper, Decimal;
    if t.fraction.Some? {
      AtSplit(s, j, [46], t.fraction.value);
      assert s[j] == s[j..j + 1][0];
    }
  }

  lemma TokenIsNumeral(t: Token, s: bytes)
    requires t.Proper() && s == t.Render()
    ensures IsNumeral(s)
  {
    hide Token.Render, Token.Tail, IsExponent, At, Exponent.Proper, IsNumeral, SkipDigits;
    TokenParts(t, s);
    var i := |t.Sign()|;
    var j := i + |t.whole|;
    var k := j + |t.Fraction()|;
    TailStart(t, s, k);
    FractionStart(t, s, j);
    hide Decimal;
    SkipDigitsIs(s, i, t.whole);
    if t.fraction.Some? {
      SkipDigitsIs(s, j + 1, t.fraction.value);
    }
    NumeralAt(s, i, j, k);
  }

  lemma NumeralAt(s: bytes, i: nat, j: nat, k: nat)
    requires s != [] && s[0] != 43 && i == (if s[0] == 45 then 1 else 0) && i <= j <= k <= |s|
    requires j == SkipDigits(s, i) && (k == |s| || IsExponent(s, k))
    requires if j < |s| && s[j] == 46 then k == SkipDigits(s, j + 1) && (i < j || j + 1 < k) else k == j && i < j
    ensures IsNumeral(s)
  {
    hide SkipDigits, IsExponent;
  }

  /** A token is an integer exactly without a fraction and an exponent. */
  lemma TokenIsInteger(t: Token, s: bytes)
    requires t.Proper() && s == t.Render()
    ensures IsInteger(s) <==> t.fraction.None? && t.exponent.None?
    ensures IsInteger(s) ==>
              IntegerValue(s) == if t.minus then -(DecimalValue(t.whole) as int) else DecimalValue(t.whole)
  {
    hide At, Exponent.Proper, Exponent.Render;
    var i := |t.Sign()|;
    var rest := t.whole + (t.Fraction() + t.Tail());
    assert s[i..] == rest && (i == 0 ==> s == rest);
    TokenParts(t, s);
    AllDigitsIs(rest);
    NotDecimal(t);
    if t.fraction.None? && t.exponent.None? {
      assert rest == t.whole;
      DigitsValueIs(rest);
    }
  }

  lemma NotDecimal(t: Token)
    requires t.Proper()
    ensures Decimal(t.whole + (t.Fraction() + t.Tail())) <==> t.fraction.None? && t.exponent.None?
  {
    var rest := t.whole + (t.Fraction() + t.Tail());
    if t.fraction.Some? {
      assert rest[|t.whole|] == 46;
    } else if t.exponent.Some? {
      assert rest[|t.whole|] == t.exponent.value.letter;
    } else {
      assert rest == t.whole;
    }
  }

  /** A proper token is taken, with the value it stands for. */
  lemma ReadToken(t: Token)
    requires t.Proper()
    ensures ReadNumeral(t.Render()) == Some(t.Meaning())
  {
    hide Token.Proper, Token.Render, IsNumeral, IsInteger, IntegerValue, IsDouble, DecimalValue;
    TokenIsNumeral(t, t.Render());
    TokenIsInteger(t, t.Render());
    assert t.Render() != [] && (t.minus <==> t.Render()[0] == 45) by { TokenParts(t, t.Render()); }
  }

  /** A number that begins as a JSON number does and that strtod takes as a whole is a proper token. */
  lemma TokenOf(s: bytes) returns (t: Token)
    requires s != [] && (48 <= s[0] <= 57 || s[0] == 45) && ReadNumeral(s).Some?
    ensures t.Proper() && s == t.Render()
  {
    var i := if s[0] == 45 then 1 else 0;
    if IsInteger(s) {
      AllDigitsIs(s[i..]);
      assert i == 0 ==> s[i..] == s;
      t := Token(i == 1, s[i..], None, None);
      assert s == t.Sign() + (s[i..] + ([] + []));
    } else {
      t := NumeralOf(s);
    }
  }

  lemma NumeralOf(s: bytes) returns (t: Token)
    requires s != [] && (48 <= s[0] <= 57 || s[0] == 45) && IsNumeral(s)
    ensures t.Proper() && s == t.Render()
  {
    hide IsExponent, Exponent.Proper, Exponent.Render, SkipDigits, Decimal, Token.Render;
    var i := if s[0] == 45 then 1 else 0;
    var j := SkipDigits(s, i);
    SkippedDigits(s, i);
    FirstDigitSkipped(s);
    var fraction, k := FractionOf(s, j);
    var exponent := TailOf(s, k);
    t := Token(i == 1, s[i..j], fraction, exponent);
    JoinToken(t, s, i, j, k);
  }

  lemma FirstDigitSkipped(s: bytes)
    requires s != []
    ensures 48 <= s[0] <= 57 ==> SkipDigits(s, 0) > 0
  {
  }

  lemma FractionOf(s: bytes, j: nat) returns (fraction: Option<bytes>, k: nat)
    requires j <= |s|
    ensures fraction.Some? <==> j < |s| && s[j] == 46
    ensures fraction.Some? ==> Decimal(fraction.value) && k == SkipDigits(s, j + 1) == j + 1 + |fraction.value|
    ensures fraction.None? ==> k == j
    ensures j <= k <= |s| && s[j..k] == if fraction.Some? then [46] + fraction.value else []
  {
    fraction, k := None, j;
    if j < |s| && s[j] == 46 {
      SkippedDigits(s, j + 1);
      k := SkipDigits(s, j + 1);
      fraction := Some(s[j + 1..k]);
    }
  }

  lemma TailOf(s: bytes, k: nat) returns (exponent: Option<Exponent>)
    requires k <= |s| && (k < |s| ==> IsExponent(s, k))
    ensures exponent.Some? ==> exponent.value.Proper()
    ensures s[k..] == if exponent.Some? then exponent.value.Render() else []
  {
    hide IsExponent;
    exponent := None;
    if k < |s| {
      var e := ExponentOf(s, k);
      exponent := Some(e);
    }
  }

  lemma JoinToken(t: Token, s: bytes, i: nat, j: nat, k: nat)
    requires i <= j <= k <= |s|
    requires s[..i] == t.Sign() && s[i..j] == t.whole && s[j..k] == t.Fraction() && s[k..] == t.Tail()
    ensures s == t.Render()
  {
    hide Token.Sign, Token.Fraction, Token.Tail;
    assert s[i..] == s[i..j] + (s[j..k] + s[k..]);
    assert s == s[..i] + s[i..];
  }

  /** Exactly the proper tokens are taken. */
  lemma TokensTaken(s: bytes, v: Value)
    requires s != [] && (48 <= s[0] <= 57 || s[0] == 45)
    ensures ReadNumeral(s) == Some(v) <==> exists t: Token :: t.Proper() && s == t.Render() && v == t.Meaning()
  {
    hide Token.Proper, Token.Render, Token.Meaning, ReadNumeral;
    forall t: Token | t.Proper() && s == t.Render() ensures ReadNumeral(s) == Some(t.Meaning()) {
      ReadToken(t);
    }
    if ReadNumeral(s) == Some(v) {
      var t := TokenOf(s);
      ReadToken(t);
    }
  }

  /** The bytes of which numbers consist. */
  predicate NumberByte(c: byte) { 48 <= c <= 57 || c == 43 || c == 45 || c == 46 || c == 69 || c == 101 }

  predicate NumberBytes(t: bytes) { forall i :: 0 <= i < |t| ==> NumberByte(t[i]) }

  lemma NumberJoin(a: bytes, b: bytes)
    requires NumberBytes(a) && NumberBytes(b)
    ensures NumberBytes(a + b)
  {
    hide NumberByte;
  }

  lemma TokenBytes(t: Token)
    requires t.Proper()
    ensures NumberBytes(t.Render())
    ensures t.Render() != [] && (t.Render()[0] == 45 || 48 <= t.Render()[0] <= 57)
  {
    assert t.Render() != [] && (t.Render()[0] == 45 || 48 <= t.Render()[0] <= 57) by { TokenParts(t, t.Render()); }
    if t.exponent.Some? {
      var e := t.exponent.value;
      NumberJoin(e.sign, e.digits);
      NumberJoin([e.letter], e.sign + e.digits);
    }
    if t.fraction.Some? { NumberJoin([46], t.fraction.value); }
    assert NumberBytes(t.Sign()) && NumberBytes(t.whole) && NumberBytes(t.Fraction()) && NumberBytes(t.Tail());
    hide NumberBytes, Token.Proper, Token.Tail, Token.Fraction, Token.Sign;
    NumberJoin(t.Fraction(), t.Tail());
    NumberJoin(t.whole, t.Fraction() + t.Tail());
    NumberJoin(t.Sign(), t.whole + (t.Fraction() + t.Tail()));
  }
}
