/** JavaScript's Number(string) on the inventory's price cells, and the sign of
    the difference of two numbers as a sort comparator sees it.

    The value of a numeric literal is kept as an exact rational; rounding to
    the nearest double is not modelled. */
module Numbers {
  import opened Strings
  import opened Options

  /** A JavaScript number: finite, one of the infinities, or NaN. */
  datatype ExtNum = Finite(value: real) | PosInf | NegInf | NaN

  function Negate(x: ExtNum): ExtNum {
    match x
    case Finite(v) => Finite(-v)
    case PosInf => NegInf
    case NegInf => PosInf
    case NaN => NaN
  }

  /** The value of a digit in bases up to 36; 36 for anything that is not a digit. */
  function DigitValue(c: char): (d: nat)
    ensures d <= 36
    ensures ('0' <= c <= '9') <==> d < 10
  {
    if '0' <= c <= '9' then c as nat - '0' as nat
    else if 'a' <= c <= 'z' then c as nat - 'a' as nat + 10
    else if 'A' <= c <= 'Z' then c as nat - 'A' as nat + 10
    else 36
  }

  predicate AllDigitsIn(s: string, base: nat) {
    forall i :: 0 <= i < |s| ==> DigitValue(s[i]) < base
  }

  /** The value of a string of digits, most significant first. */
  function DigitsValue(s: string, base: nat): nat
    requires AllDigitsIn(s, base)
  {
    if s == [] then 0 else DigitsValue(s[..|s| - 1], base) * base + DigitValue(s[|s| - 1])
  }

  function Pow10(n: nat): (p: nat)
    ensures p >= 1
  {
    if n == 0 then 1 else 10 * Pow10(n - 1)
  }

  /** x times ten to the power e. */
  function Scale(x: real, e: int): real {
    if e >= 0 then x * Pow10(e) as real else x / Pow10(-e) as real
  }

  /** The position of the first c in s, or |s| when there is none. */
  function IndexOf(s: string, c: char): (k: nat)
    ensures k <= |s|
    ensures k < |s| ==> s[k] == c
    ensures forall i :: 0 <= i < k ==> s[i] != c
  {
    if s == [] then 0 else if s[0] == c then 0 else 1 + IndexOf(s[1..], c)
  }

  /** The position of the exponent marker `e` or `E`, or |s|. */
  function ExponentAt(s: string): (k: nat)
    ensures k <= |s|
    ensures k < |s| ==> s[k] == 'e' || s[k] == 'E'
    ensures forall i :: 0 <= i < k ==> s[i] != 'e' && s[i] != 'E'
  {
    if s == [] then 0 else if s[0] == 'e' || s[0] == 'E' then 0 else 1 + ExponentAt(s[1..])
  }

  /** The signed decimal integer after an exponent marker. */
  function Exponent(s: string): Option<int> {
    if s != [] && (s[0] == '+' || s[0] == '-') then
      var digits := s[1..];
      if digits != [] && AllDigitsIn(digits, 10) then
        Some(if s[0] == '-' then -(DigitsValue(digits, 10) as int) else DigitsValue(digits, 10))
      else None
    else if s != [] && AllDigitsIn(s, 10) then Some(DigitsValue(s, 10))
    else None
  }

  /** The value of the decimal numeral `whole.fraction`. */
  function PointValue(whole: string, fraction: string): real
    requires AllDigitsIn(whole, 10) && AllDigitsIn(fraction, 10)
  {
    DigitsValue(whole, 10) as real + DigitsValue(fraction, 10) as real / Pow10(|fraction|) as real
  }

  /** Digits with an optional decimal point, at least one digit in all. */
  function Mantissa(m: string): Option<real> {
    var d := IndexOf(m, '.');
    var whole := m[..d];
    var fraction := if d < |m| then m[d + 1..] else "";
    if AllDigitsIn(whole, 10) && AllDigitsIn(fraction, 10) && |whole| + |fraction| > 0 then
      Some(PointValue(whole, fraction))
    else None
  }

  /** StrUnsignedDecimalLiteral: `Infinity`, or a mantissa with an optional
      exponent. */
  function UnsignedDecimal(s: string): Option<ExtNum> {
    if s == "Infinity" then Some(PosInf)
    else
      var e := ExponentAt(s);
      var m := Mantissa(s[..e]);
      var exponent := if e == |s| then Some(0) else Exponent(s[e + 1..]);
      if m.Some? && exponent.Some? then Some(Finite(Scale(m.value, exponent.value))) else None
  }

  /** StrDecimalLiteral: an unsigned decimal literal with an optional sign. */
  function SignedDecimal(s: string): Option<ExtNum> {
    if s != [] && s[0] == '+' then UnsignedDecimal(s[1..])
    else if s != [] && s[0] == '-' then
      match UnsignedDecimal(s[1..])
      case Some(x) => Some(Negate(x))
      case None => None
    else UnsignedDecimal(s)
  }

  /** The base of a `0x`, `0o` or `0b` prefix (either case), or 0. */
  function PrefixBase(s: string): nat {
    if |s| < 2 || s[0] != '0' then 0
    else if s[1] == 'x' || s[1] == 'X' then 16
    else if s[1] == 'o' || s[1] == 'O' then 8
    else if s[1] == 'b' || s[1] == 'B' then 2
    else 0
  }

  /** Number(raw) on a string: white space is ignored, an empty string is 0,
      a hexadecimal, octal or binary integer literal or a decimal literal has
      its value, and anything else is NaN. */
  function NumberOf(raw: string): ExtNum {
    var t := Trim(raw);
    var base := PrefixBase(t);
    if t == "" then Finite(0.0)
    else if base != 0 && |t| > 2 && AllDigitsIn(t[2..], base) then Finite(DigitsValue(t[2..], base) as real)
    else match SignedDecimal(t)
      case Some(x) => x
      case None => NaN
  }

  /** The sign of x - y as Array.prototype.sort reads a comparator's result:
      NaN (which is also what Infinity - Infinity gives) counts as 0. */
  function Compare(x: ExtNum, y: ExtNum): (c: int)
    ensures -1 <= c <= 1
  {
    if x.NaN? || y.NaN? || x == y then 0
    else if x.NegInf? || y.PosInf? then -1
    else if x.PosInf? || y.NegInf? then 1
    else if x.value < y.value then -1
    else if x.value > y.value then 1
    else 0
  }

  // ---------------------------------------------------------------------
  // What Number gives for the cells a price column holds.

  predicate NoDigit(s: string) {
    forall i :: 0 <= i < |s| ==> !('0' <= s[i] <= '9')
  }

  /** An empty or all-blank cell is the number 0 (a missing price is not NaN). */
  lemma NumberOfBlank(s: string)
    requires AllSpace(s)
    ensures NumberOf(s) == Finite(0.0)
  {
  }

  lemma {:induction false} DigitsOfNat(n: nat)
    ensures AllDigitsIn(NatToString(n), 10)
    ensures DigitsValue(NatToString(n), 10) == n
  {
    var r := NatToString(n);
    if n >= 10 {
      DigitsOfNat(n / 10);
      assert r[..|r| - 1] == NatToString(n / 10);
    }
  }

  /** Decimal digits hold neither a point nor an exponent marker. */
  lemma NoMarkers(t: string)
    requires AllDigitsIn(t, 10)
    ensures ExponentAt(t) == |t| && IndexOf(t, '.') == |t|
  {
  }

  lemma MantissaOfDigits(t: string)
    requires AllDigitsIn(t, 10) && t != []
    ensures Mantissa(t) == Some(DigitsValue(t, 10) as real)
  {
    NoMarkers(t);
    assert t[..|t|] == t;
  }

  /** A run of digits without point or exponent is read as that decimal integer. */
  lemma UnsignedDigits(t: string)
    requires t != [] && AllDigitsIn(t, 10)
    ensures UnsignedDecimal(t) == Some(Finite(DigitsValue(t, 10) as real))
  {
    NoMarkers(t);
    assert t != "Infinity" by { assert DigitValue(t[0]) < 10; }
    MantissaOfDigits(t);
    UnsignedOfMantissa(t, DigitsValue(t, 10) as real);
  }

  lemma DigitsTrimmed(t: string)
    requires t != [] && AllDigitsIn(t, 10)
    ensures Trim(t) == t
  {
    assert DigitValue(t[0]) < 10 && DigitValue(t[|t| - 1]) < 10;
    TrimOfTrimmed(t);
  }

  /** The decimal numeral of a natural number reads back as that number. */
  lemma NumberOfNat(n: nat)
    ensures NumberOf(NatToString(n)) == Finite(n as real)
  {
    var t := NatToString(n);
    DigitsOfNat(n);
    DigitsTrimmed(t);
    assert PrefixBase(t) == 0;
    UnsignedDigits(t);
  }

  /** A numeral with a decimal point and digits on both sides, such as
      `12.50`, reads as its whole part plus its fraction digits over the
      matching power of ten. */
  lemma NumberOfFraction(w: string, f: string, t: string)
    requires w != [] && AllDigitsIn(w, 10)
    requires f != [] && AllDigitsIn(f, 10)
    requires t == w + "." + f
    ensures NumberOf(t) ==
      Finite(PointValue(w, f))
  {
    FractionText(w, f, t);
    FractionNumber(w, f, t);
  }

  lemma FractionNumber(w: string, f: string, t: string)
    requires AllDigitsIn(w, 10) && AllDigitsIn(f, 10) && w != []
    requires |t| == |w| + 1 + |f| && t[..|w|] == w && t[|w|] == '.' && t[|w| + 1..] == f
    requires forall i :: 0 <= i < |w| ==> t[i] != '.'
    requires |t| >= 2 && IsTrimmed(t) && DigitValue(t[0]) < 10 && (t[1] == '.' || DigitValue(t[1]) < 10)
    requires forall i :: 0 <= i < |t| ==> t[i] == '.' || DigitValue(t[i]) < 10
    ensures NumberOf(t) ==
      Finite(PointValue(w, f))
  {
    MantissaOfFraction(w, f, t);
    NumberOfPlain(t, PointValue(w, f));
  }

  /** Digits and points starting with a digit, not `0x`, `0o` or `0b`, read
      as their mantissa. */
  lemma NumberOfPlain(t: string, v: real)
    requires |t| >= 2 && IsTrimmed(t) && DigitValue(t[0]) < 10 && (t[1] == '.' || DigitValue(t[1]) < 10)
    requires forall i :: 0 <= i < |t| ==> t[i] == '.' || DigitValue(t[i]) < 10
    requires Mantissa(t) == Some(v)
    ensures NumberOf(t) == Finite(v)
  {
    TrimOfTrimmed(t);
    assert PrefixBase(t) == 0;
    NoExponent(t);
    assert t != "Infinity" && t[0] != '+' && t[0] != '-' by { assert DigitValue(t[0]) < 10; }
    UnsignedOfMantissa(t, v);
    SignedOfUnsigned(t, Finite(v));
    NumberOfSigned(t, Finite(v));
  }

  lemma SignedOfUnsigned(t: string, x: ExtNum)
    requires t != [] && t[0] != '+' && t[0] != '-' && UnsignedDecimal(t) == Some(x)
    ensures SignedDecimal(t) == Some(x)
  {
  }

  /** Where the parts of `w.f` sit in the text. */
  lemma FractionText(w: string, f: string, t: string)
    requires w != [] && AllDigitsIn(w, 10)
    requires f != [] && AllDigitsIn(f, 10)
    requires t == w + "." + f
    ensures |t| == |w| + 1 + |f| && t[..|w|] == w && t[|w|] == '.' && t[|w| + 1..] == f
    ensures forall i :: 0 <= i < |t| ==> t[i] == '.' || DigitValue(t[i]) < 10
    ensures |t| >= 2 && IsTrimmed(t) && DigitValue(t[0]) < 10 && (t[1] == '.' || DigitValue(t[1]) < 10)
    ensures forall i :: 0 <= i < |w| ==> t[i] != '.'
  {
    forall i | 0 <= i < |t|
      ensures t[i] == '.' || DigitValue(t[i]) < 10
    {
      if i < |w| { assert t[i] == w[i]; }
      else if i > |w| { assert t[i] == f[i - |w| - 1]; }
    }
    forall i | 0 <= i < |w|
      ensures t[i] != '.'
    {
      assert t[i] == w[i];
    }
    assert DigitValue(t[|t| - 1]) < 10;
  }

  /** Digits and points hold no exponent marker. */
  lemma NoExponent(t: string)
    requires forall i :: 0 <= i < |t| ==> t[i] == '.' || DigitValue(t[i]) < 10
    ensures ExponentAt(t) == |t|
  {
  }

  /** A literal without exponent whose mantissa reads as v is v. */
  lemma UnsignedOfMantissa(t: string, v: real)
    requires t != "Infinity" && ExponentAt(t) == |t| && Mantissa(t) == Some(v)
    ensures UnsignedDecimal(t) == Some(Finite(v))
  {
    assert t[..ExponentAt(t)] == t;
    ScaleZero(v);
    assert UnsignedDecimal(t) == Some(Finite(Scale(v, 0)));
  }

  lemma ScaleZero(x: real)
    ensures Scale(x, 0) == x
  {
    assert Pow10(0) == 1;
  }

  lemma MantissaOfFraction(w: string, f: string, t: string)
    requires AllDigitsIn(w, 10) && AllDigitsIn(f, 10) && w != []
    requires |t| == |w| + 1 + |f| && t[..|w|] == w && t[|w|] == '.' && t[|w| + 1..] == f
    requires forall i :: 0 <= i < |w| ==> t[i] != '.'
    ensures Mantissa(t) == Some(PointValue(w, f))
  {
    var d := IndexOf(t, '.');
    assert d == |w|;
  }

  /** A leading minus sign negates a numeral. */
  lemma NumberOfNegated(n: nat)
    ensures NumberOf("-" + NatToString(n)) == Finite(-(n as real))
  {
    DigitsOfNat(n);
    MinusText(NatToString(n), "-" + NatToString(n));
    NumberOfMinus("-" + NatToString(n), NatToString(n));
  }

  lemma MinusText(d: string, t: string)
    requires d != [] && t == "-" + d
    ensures |t| == |d| + 1 && t[0] == '-' && t[1..] == d && t[|t| - 1] == d[|d| - 1]
  {
  }

  lemma NumberOfMinus(t: string, d: string)
    requires d != [] && AllDigitsIn(d, 10)
    requires |t| == |d| + 1 && t[0] == '-' && t[1..] == d && t[|t| - 1] == d[|d| - 1]
    ensures NumberOf(t) == Finite(-(DigitsValue(d, 10) as real))
  {
    assert DigitValue(t[|t| - 1]) < 10;
    TrimOfTrimmed(t);
    assert PrefixBase(t) == 0;
    UnsignedDigits(d);
    SignedOfMinus(t, d, Finite(DigitsValue(d, 10) as real));
    NumberOfSigned(t, Finite(-(DigitsValue(d, 10) as real)));
  }

  lemma SignedOfMinus(t: string, d: string, x: ExtNum)
    requires t != [] && t[0] == '-' && t[1..] == d && UnsignedDecimal(d) == Some(x)
    ensures SignedDecimal(t) == Some(Negate(x))
  {
  }

  /** A trimmed text without a `0x`, `0o` or `0b` prefix reads as its decimal literal. */
  lemma NumberOfSigned(t: string, x: ExtNum)
    requires Trim(t) == t && t != [] && PrefixBase(t) == 0 && SignedDecimal(t) == Some(x)
    ensures NumberOf(t) == x
  {
  }

  /** A cell with no digit at all is never a finite number: it is NaN unless
      it is blank (0) or spells an infinity. */
  lemma NoDigitNotFinite(s: string)
    requires NoDigit(s)
    ensures NumberOf(s).Finite? ==> AllSpace(s)
  {
    var t := Trim(s);
    var i := LeadingSpaces(s);
    assert forall j :: 0 <= j < |t| ==> t[j] == s[i + j];
    if t != "" {
      assert t[0] == s[i];
      assert PrefixBase(t) == 0;
      NoDigitDecimal(t);
      if t[0] == '+' || t[0] == '-' {
        NoDigitDecimal(t[1..]);
      }
    }
  }

  lemma NoDigitMantissa(m: string)
    requires NoDigit(m)
    ensures Mantissa(m) == None
  {
    var d := IndexOf(m, '.');
    if d > 0 {
      assert DigitValue(m[..d][0]) >= 10;
    } else if d + 1 < |m| {
      assert DigitValue(m[d + 1..][0]) >= 10;
    }
  }

  lemma NoDigitDecimal(t: string)
    requires NoDigit(t)
    ensures UnsignedDecimal(t) == None || UnsignedDecimal(t) == Some(PosInf)
  {
    if t != "Infinity" {
      NoDigitMantissa(t[..ExponentAt(t)]);
    }
  }

  // ---------------------------------------------------------------------
  // The comparator's sign is a total preorder once NaN is excluded.

  lemma CompareAntisymmetric(x: ExtNum, y: ExtNum)
    ensures Compare(x, y) == -Compare(y, x)
  {
  }

  lemma CompareReflexive(x: ExtNum)
    ensures Compare(x, x) == 0
  {
  }

  /** Among numbers, the comparator says "equal" only of equal values. */
  lemma CompareZero(x: ExtNum, y: ExtNum)
    requires !x.NaN? && !y.NaN?
    ensures Compare(x, y) == 0 <==> x == y
  {
  }

  lemma CompareTransitive(x: ExtNum, y: ExtNum, z: ExtNum)
    requires !x.NaN? && !y.NaN? && !z.NaN?
    requires Compare(x, y) <= 0 && Compare(y, z) <= 0
    ensures Compare(x, z) <= 0
  {
  }

  /** NaN compares as equal to everything, which is why an order with NaN in
      it is not a preorder: NaN sits "between" 1 and 2 although 1 < 2. */
  lemma NaNBreaksTransitivity()
    ensures Compare(Finite(2.0), NaN) <= 0 && Compare(NaN, Finite(1.0)) <= 0
    ensures Compare(Finite(2.0), Finite(1.0)) > 0
  {
  }

  /** The order of the extended reals: -Infinity below every finite value,
      +Infinity above. */
  predicate AtMost(x: ExtNum, y: ExtNum) {
    x.NegInf? || y.PosInf? || (x.Finite? && y.Finite? && x.value <= y.value)
  }

  /** Once NaN is excluded, a comparator result that is not positive means
      "at most". */
  lemma CompareAtMost(x: ExtNum, y: ExtNum)
    requires !x.NaN? && !y.NaN?
    ensures Compare(x, y) <= 0 <==> AtMost(x, y)
  {
  }
}
