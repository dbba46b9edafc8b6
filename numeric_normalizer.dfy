/**
 * Tolerant numeric parsing of the explorer's loosely formatted values:
 * `to_number` and the PHP string casts the script relies on.
 *
 * Numbers follow a simplified grammar: an optional sign, then decimal digits
 * with at most one decimal point and at least one digit. Exponents are not
 * part of it. Values are exact reals, not IEEE doubles.
 */
module NumericNormalizer {
  import opened Wrappers

  /** A value decoded from the explorer's JSON; arrays and objects keep only their element count. */
  datatype JValue = JNull | JBool(b: bool) | JNum(x: real) | JStr(s: string) | JArr(size: nat)

  predicate IsDigit(c: char) { '0' <= c <= '9' }

  predicate IsSign(c: char) { c == '+' || c == '-' }

  /** The characters PHP's trim() strips. */
  predicate IsTrimSpace(c: char) {
    c == ' ' || c == '\t' || c == '\n' || c == '\r' || c == '\0' || c == '\U{000B}'
  }

  /** The characters PCRE's \s matches; PHP's casts skip the same ones before a number. */
  predicate IsPcreSpace(c: char) {
    c == ' ' || c == '\t' || c == '\n' || c == '\r' || c == '\U{000B}' || c == '\U{000C}'
  }

  predicate AllDigits(s: string) {
    forall i :: 0 <= i < |s| ==> IsDigit(s[i])
  }

  function DigitValue(c: char): (d: nat)
    requires IsDigit(c)
    ensures d < 10
  {
    c as int - '0' as int
  }

  function DigitChar(d: nat): (c: char)
    requires d < 10
    ensures IsDigit(c) && DigitValue(c) == d
  {
    ('0' as int + d) as char
  }

  function Pow10(n: nat): (r: nat)
    ensures r >= 1
  {
    if n == 0 then 1 else 10 * Pow10(n - 1)
  }

  // ---------------------------------------------------------------------------
  // String preparation: trim, first whitespace-separated token, separators
  // ---------------------------------------------------------------------------

  function TrimLeft(s: string): (r: string)
    ensures |r| <= |s| && r == s[|s| - |r|..]
    ensures forall i :: 0 <= i < |s| - |r| ==> IsTrimSpace(s[i])
    ensures r == [] || !IsTrimSpace(r[0])
  {
    if |s| > 0 && IsTrimSpace(s[0]) then TrimLeft(s[1..]) else s
  }

  function TrimRight(s: string): (r: string)
    ensures |r| <= |s| && r == s[..|r|]
    ensures forall i :: |r| <= i < |s| ==> IsTrimSpace(s[i])
    ensures r == [] || !IsTrimSpace(r[|r| - 1])
  {
    if |s| > 0 && IsTrimSpace(s[|s| - 1]) then TrimRight(s[..|s| - 1]) else s
  }

  /** PHP's trim(): the string without its leading and trailing trim-space characters. */
  function Trim(s: string): (r: string)
    ensures |r| <= |s|
    ensures r == [] || (!IsTrimSpace(r[0]) && !IsTrimSpace(r[|r| - 1]))
    ensures (s == [] || (!IsTrimSpace(s[0]) && !IsTrimSpace(s[|s| - 1]))) ==> r == s
  {
    TrimRight(TrimLeft(s))
  }

  /** The first piece of preg_split('/\s+/', s): everything before the first whitespace character. */
  function FirstToken(s: string): (r: string)
    ensures |r| <= |s| && r == s[..|r|]
    ensures forall i :: 0 <= i < |r| ==> !IsPcreSpace(r[i])
    ensures |r| == |s| || IsPcreSpace(s[|r|])
  {
    if s == [] || IsPcreSpace(s[0]) then [] else [s[0]] + FirstToken(s[1..])
  }

  /** str_replace([',', ' '], '', t): the token without thousands separators and spaces. */
  function StripSeparators(t: string): (r: string)
    ensures |r| <= |t|
    ensures forall i :: 0 <= i < |r| ==> r[i] != ',' && r[i] != ' ' && r[i] in t
    ensures (forall i :: 0 <= i < |t| ==> t[i] != ',' && t[i] != ' ') ==> r == t
  {
    if t == [] then []
    else if t[0] == ',' || t[0] == ' ' then StripSeparators(t[1..])
    else [t[0]] + StripSeparators(t[1..])
  }

  // ---------------------------------------------------------------------------
  // Numeric strings and their values
  // ---------------------------------------------------------------------------

  /** 1 when t starts with a sign character, else 0. */
  function SignLength(t: string): (n: nat)
    ensures n <= |t|
    ensures n == 1 <==> |t| > 0 && IsSign(t[0])
  {
    if |t| > 0 && IsSign(t[0]) then 1 else 0
  }

  /**
   * PHP's is_numeric on a string, in the simplified grammar
   * [+-]?([0-9]+(\.[0-9]*)?|\.[0-9]+): an optional sign, a run of digits,
   * then either the end or a '.' followed only by digits, with at least one
   * digit in all.
   */
  predicate IsNumeric(t: string) {
    var b := SignLength(t);
    var e := b + DigitRun(t, b);
    if e == |t| then e > b
    else t[e] == '.' && AllDigits(t[e + 1..]) && (e > b || e + 1 < |t|)
  }

  /** The length of the run of digits in s that starts at position i. */
  function DigitRun(s: string, i: nat): (n: nat)
    requires i <= |s|
    ensures i + n <= |s|
    ensures i + n == |s| || !IsDigit(s[i + n])
    decreases |s| - i
  {
    if i < |s| && IsDigit(s[i]) then 1 + DigitRun(s, i + 1) else 0
  }

  /** Every character of the run DigitRun measures is a digit. */
  lemma {:induction false} DigitRunDigits(s: string, i: nat)
    requires i <= |s|
    ensures forall k :: i <= k < i + DigitRun(s, i) ==> IsDigit(s[k])
    decreases |s| - i
  {
    if i < |s| && IsDigit(s[i]) {
      DigitRunDigits(s, i + 1);
    }
  }

  /** The natural number a digit string denotes; 0 for the empty string. */
  function DigitsValue(ds: string): nat
    requires AllDigits(ds)
  {
    if ds == [] then 0 else 10 * DigitsValue(ds[..|ds| - 1]) + DigitValue(ds[|ds| - 1])
  }

  /** The digits of a numeric string before its point. */
  function WholePart(t: string): (w: string)
    requires IsNumeric(t)
    ensures AllDigits(w)
  {
    var b := SignLength(t);
    DigitRunDigits(t, b);
    t[b..b + DigitRun(t, b)]
  }

  /** The digits of a numeric string after its point; empty when it has none. */
  function FractionPart(t: string): (f: string)
    requires IsNumeric(t)
    ensures AllDigits(f)
  {
    var e := SignLength(t) + DigitRun(t, SignLength(t));
    if e < |t| then
      assert t[e] == '.';
      t[e + 1..]
    else []
  }

  /** The value of the decimal numeral whole.frac. */
  function DecimalValue(whole: string, frac: string): real
    requires AllDigits(whole) && AllDigits(frac)
  {
    DigitsValue(whole) as real + DigitsValue(frac) as real / Pow10(|frac|) as real
  }

  /** PHP's (float) of a numeric string, computed exactly. */
  function ParseNumeric(t: string): real
    requires IsNumeric(t)
  {
    var magnitude := DecimalValue(WholePart(t), FractionPart(t));
    if SignLength(t) == 1 && t[0] == '-' then -magnitude else magnitude
  }

  // ---------------------------------------------------------------------------
  // The pattern [-+]?[0-9]*\.?[0-9]+ and its leftmost match
  // ---------------------------------------------------------------------------

  /**
   * Where a match of [-+]?[0-9]*\.?[0-9]+ that starts at p ends, if one does.
   * The quantifiers are greedy, so the match takes the whole run of digits,
   * then a '.' together with the digits after it when at least one follows.
   */
  function MantissaEnd(s: string, p: nat): (r: Option<nat>)
    requires p <= |s|
    ensures r.Some? ==> p < r.value <= |s| && IsNumeric(s[p..r.value]) && IsDigit(s[r.value - 1])
  {
    var f := GreedyEnd(s, p);
    GreedyEndIsGreedy(s, p);
    if f > p then Some(f) else None
  }

  /** The end of the greedy match from p, or p itself when nothing matches there. */
  function GreedyEnd(s: string, p: nat): (f: nat)
    requires p <= |s|
    ensures p <= f <= |s|
  {
    var b := if p < |s| && IsSign(s[p]) then p + 1 else p;
    var e := b + DigitRun(s, b);
    if e + 1 < |s| && s[e] == '.' && IsDigit(s[e + 1]) then e + 1 + DigitRun(s, e + 1)
    else if e > b then e
    else p
  }

  lemma GreedyEndIsGreedy(s: string, p: nat)
    requires p <= |s|
    ensures GreedyEnd(s, p) > p ==> MantissaMatch(s, p, GreedyEnd(s, p))
    ensures forall q: nat :: GreedyEnd(s, p) < q <= |s| ==> !MantissaMatch(s, p, q)
  {
    var b := if p < |s| && IsSign(s[p]) then p + 1 else p;
    MantissaGreedy(s, p, b, GreedyEnd(s, p));
  }

  /**
   * MantissaEnd is the match PCRE takes at p: the slice it reports is a
   * match, no longer slice from p is one, and it reports nothing exactly
   * when no slice from p matches.
   */
  lemma MantissaEndIsGreedy(s: string, p: nat)
    requires p <= |s|
    ensures MantissaEnd(s, p).Some? ==> MantissaMatch(s, p, MantissaEnd(s, p).value)
    ensures MantissaEnd(s, p).Some? ==> forall q: nat :: MantissaEnd(s, p).value < q <= |s| ==> !MantissaMatch(s, p, q)
    ensures MantissaEnd(s, p).None? ==> forall q: nat :: p < q <= |s| ==> !MantissaMatch(s, p, q)
  {
    GreedyEndIsGreedy(s, p);
  }

  /** s[p..q] is a match of [-+]?[0-9]*\.?[0-9]+: a numeric string that ends in a digit. */
  predicate MantissaMatch(s: string, p: nat, q: nat) {
    p < q <= |s| && IsNumeric(s[p..q]) && IsDigit(s[q - 1])
  }

  /**
   * The greedy end f of a match at p: the digits after the point when a
   * digit follows the point, else the whole run of digits, and p itself
   * when that run is empty. A match ends there, and none goes past it.
   */
  lemma MantissaGreedy(s: string, p: nat, b: nat, f: nat)
    requires p <= b <= |s| && (b == p || b == p + 1)
    requires b == p + 1 <==> p < |s| && IsSign(s[p])
    requires var e := b + DigitRun(s, b);
      f == if e + 1 < |s| && s[e] == '.' && IsDigit(s[e + 1]) then e + 1 + DigitRun(s, e + 1)
           else if e > b then e
           else p
    ensures f > p ==> MantissaMatch(s, p, f)
    ensures forall q: nat :: f < q <= |s| ==> !MantissaMatch(s, p, q)
  {
    var e := b + DigitRun(s, b);
    DigitRunDigits(s, b);
    if e + 1 < |s| && s[e] == '.' && IsDigit(s[e + 1]) {
      DigitRunDigits(s, e + 1);
      MantissaIsNumeric(s, p, b, e, f);
    } else if e > b {
      MantissaIsNumeric(s, p, b, e, e);
    }
    forall q: nat | f < q <= |s|
      ensures !MantissaMatch(s, p, q)
    {
      if MantissaMatch(s, p, q) {
        MantissaMatchBoundAt(s, p, b, q);
      }
    }
  }

  lemma MantissaMatchBoundAt(s: string, p: nat, b: nat, q: nat)
    requires p <= b <= |s| && (b == p || b == p + 1)
    requires b == p + 1 <==> p < |s| && IsSign(s[p])
    requires MantissaMatch(s, p, q)
    ensures var e := b + DigitRun(s, b);
      if e + 1 < |s| && s[e] == '.' && IsDigit(s[e + 1]) then q <= e + 1 + DigitRun(s, e + 1)
      else b < e && q <= e
  {
    var e := b + DigitRun(s, b);
    var E := if q <= e then q else e;
    NumericSliceShape(s, p, b, q, E);
    if E < q && e + 1 < |s| && s[e] == '.' && IsDigit(s[e + 1]) {
      var f := e + 1 + DigitRun(s, e + 1);
      assert f == |s| || !IsDigit(s[f]);
    }
  }

  /** A numeric slice s[p..q] ending in a digit, read in the coordinates of s. */
  lemma NumericSliceShape(s: string, p: nat, b: nat, q: nat, E: nat)
    requires p <= b <= |s| && (b == p || b == p + 1)
    requires b == p + 1 <==> p < |s| && IsSign(s[p])
    requires MantissaMatch(s, p, q)
    requires E == if q <= b + DigitRun(s, b) then q else b + DigitRun(s, b)
    ensures b <= E <= q
    ensures E == q ==> b < E
    ensures E < q ==> s[E] == '.' && q >= E + 2 && forall k :: E < k < q ==> IsDigit(s[k])
  {
    var t := s[p..q];
    assert t[0] == s[p];
    assert SignLength(t) == b - p;
    DigitRunDigits(s, b);
    DigitRunOfSlice(s, p, q, b, E);
    if E < q {
      assert t[E - p] == s[E];
      assert t[q - p - 1] == s[q - 1];
      forall k | E < k < q ensures IsDigit(s[k]) {
        assert t[E - p + 1..][k - E - 1] == s[k];
      }
    }
  }

  /** After its first character a numeric string holds only digits and the point. */
  lemma NumericBody(t: string, i: nat)
    requires IsNumeric(t) && 1 <= i < |t|
    ensures IsDigit(t[i]) || t[i] == '.'
  {
    var e := SignLength(t) + DigitRun(t, SignLength(t));
    DigitRunDigits(t, SignLength(t));
    if i > e {
      assert t[e + 1..][i - e - 1] == t[i];
    }
  }

  lemma MantissaIsNumeric(s: string, p: nat, b: nat, e: nat, f: nat)
    requires p <= b <= e <= f <= |s| && p < f
    requires b == p + 1 <==> p < |s| && IsSign(s[p])
    requires b == p || b == p + 1
    requires forall k :: b <= k < e ==> IsDigit(s[k])
    requires e < f ==> s[e] == '.' && e + 1 < f
    requires forall k :: e < k < f ==> IsDigit(s[k])
    requires b < e || e + 1 < f
    ensures IsNumeric(s[p..f])
  {
    var t := s[p..f];
    assert SignLength(t) == b - p;
    assert DigitRun(t, b - p) == e - b by {
      DigitRunOfSlice(s, p, f, b, e);
    }
    if e < f {
      assert t[e - p] == '.';
      assert t[e - p + 1..] == s[e + 1..f];
    }
  }

  lemma DigitRunOfSlice(s: string, p: nat, f: nat, b: nat, e: nat)
    requires p <= b <= e <= f <= |s|
    requires forall k :: b <= k < e ==> IsDigit(s[k])
    requires e == f || !IsDigit(s[e])
    ensures DigitRun(s[p..f], b - p) == e - b
  {
    DigitRunDigits(s[p..f], b - p);
  }

  /** The leftmost match of the mantissa pattern at or after position p, as (start, end). */
  function LeftmostMantissa(s: string, p: nat): (r: Option<(nat, nat)>)
    requires p <= |s|
    ensures r.Some? ==> p <= r.value.0 < r.value.1 <= |s| && MantissaEnd(s, r.value.0) == Some(r.value.1)
    ensures r.Some? ==> forall k :: p <= k < r.value.0 ==> MantissaEnd(s, k).None?
    ensures r.None? ==> forall k :: p <= k <= |s| ==> MantissaEnd(s, k).None?
    decreases |s| - p
  {
    var here := MantissaEnd(s, p);
    if here.Some? then Some((p, here.value))
    else if p == |s| then None
    else
      var r := LeftmostMantissa(s, p + 1);
      assert MantissaEnd(s, p).None?;
      r
  }

  // ---------------------------------------------------------------------------
  // to_number and the casts
  // ---------------------------------------------------------------------------

  /** PHP's is_numeric on a decoded value. */
  predicate IsNumericValue(v: JValue) {
    v.JNum? || (v.JStr? && IsNumeric(v.s))
  }

  /** PHP's (float) of a value that is_numeric accepts. */
  function NumericValue(v: JValue): real
    requires IsNumericValue(v)
  {
    if v.JNum? then v.x else ParseNumeric(v.s)
  }

  /**
   * The string to_number parses when its argument is a non-numeric string:
   * the first whitespace-separated token of the trimmed string without
   * separators if that is numeric, else the leftmost number anywhere in the
   * trimmed string, else that token.
   */
  function NumberCandidate(s: string): string {
    var clean := Trim(s);
    var first := StripSeparators(FirstToken(clean));
    if IsNumeric(first) then first
    else match LeftmostMantissa(clean, 0)
      case Some(m) => clean[m.0..m.1]
      case None => first
  }

  /** to_number: never fails; whatever does not parse reads as 0.0. */
  function ToNumber(v: JValue): real {
    if IsNumericValue(v) then NumericValue(v)
    else if !v.JStr? then 0.0
    else
      var candidate := NumberCandidate(v.s);
      if IsNumeric(candidate) then ParseNumeric(candidate) else 0.0
  }

  /** The first position at or after i that does not hold whitespace. */
  function SkipSpaces(s: string, i: nat): (j: nat)
    requires i <= |s|
    ensures i <= j <= |s|
    ensures j == |s| || !IsPcreSpace(s[j])
    decreases |s| - i
  {
    if i < |s| && IsPcreSpace(s[i]) then SkipSpaces(s, i + 1) else i
  }

  /** Every character SkipSpaces passes over is whitespace. */
  lemma {:induction false} SkipSpacesSkipped(s: string, i: nat)
    requires i <= |s|
    ensures forall k :: i <= k < SkipSpaces(s, i) ==> IsPcreSpace(s[k])
    decreases |s| - i
  {
    if i < |s| && IsPcreSpace(s[i]) {
      SkipSpacesSkipped(s, i + 1);
    }
  }

  /** PHP's (int) of a string: the optionally signed digits after leading whitespace; 0 when there are none. */
  function StringToInt(s: string): int {
    var p := SkipSpaces(s, 0);
    var b := if p < |s| && IsSign(s[p]) then p + 1 else p;
    DigitRunDigits(s, b);
    var n: int := DigitsValue(s[b..b + DigitRun(s, b)]);
    if b == p + 1 && s[p] == '-' then -n else n
  }

  /** PHP's (float) of a string: the leading number after whitespace; 0.0 when there is none. */
  function StringToFloat(s: string): real {
    var p := SkipSpaces(s, 0);
    match MantissaEnd(s, p)
    case Some(e) => ParseNumeric(s[p..e])
    case None => 0.0
  }

  /** PHP's (int) of a float: truncation toward zero. */
  function Truncate(x: real): (n: int)
    ensures x >= 0.0 ==> 0 <= n && n as real <= x < n as real + 1.0
    ensures x < 0.0 ==> n <= 0 && n as real - 1.0 < x <= n as real
  {
    if x >= 0.0 then x.Floor else -((-x).Floor)
  }

  /** PHP's (int) of a decoded JSON value. */
  function ToInt(v: JValue): int {
    match v
    case JNull => 0
    case JBool(b) => if b then 1 else 0
    case JNum(x) => Truncate(x)
    case JStr(s) => StringToInt(s)
    case JArr(n) => if n > 0 then 1 else 0
  }

  // ---------------------------------------------------------------------------
  // Properties
  // ---------------------------------------------------------------------------

  /** The decimal representation of n, without sign or leading zeros. */
  function ShowNat(n: nat): (r: string)
    ensures |r| >= 1 && AllDigits(r)
  {
    if n < 10 then [DigitChar(n)] else ShowNat(n / 10) + [DigitChar(n % 10)]
  }

  lemma {:induction false} DigitsValueOfShowNat(n: nat)
    ensures DigitsValue(ShowNat(n)) == n
  {
    if n >= 10 {
      var t := ShowNat(n);
      assert t[..|t| - 1] == ShowNat(n / 10);
      DigitsValueOfShowNat(n / 10);
    }
  }

  lemma AllDigitsParts(t: string)
    requires |t| >= 1 && AllDigits(t)
    ensures IsNumeric(t) && SignLength(t) == 0
    ensures WholePart(t) == t && FractionPart(t) == []
  {
    assert IsNumeric(t) && SignLength(t) == 0 by {
      assert IsDigit(t[0]);
    }
    assert DigitRun(t, 0) == |t|;
    assert t[0..|t|] == t;
  }

  lemma AllDigitsIsNumeric(t: string)
    requires |t| >= 1 && AllDigits(t)
    ensures IsNumeric(t) && SignLength(t) == 0
    ensures ParseNumeric(t) == DigitsValue(t) as real
  {
    AllDigitsParts(t);
    DecimalWithoutFraction(t);
  }

  lemma DecimalWithoutFraction(w: string)
    requires AllDigits(w)
    ensures DecimalValue(w, []) == DigitsValue(w) as real
  {
    assert DigitsValue([]) == 0 && Pow10(0) == 1;
  }

  /** Reading a written natural number back through to_number gives the number. */
  lemma ToNumberReadsShowNat(n: nat)
    ensures ToNumber(JStr(ShowNat(n))) == n as real
  {
    AllDigitsIsNumeric(ShowNat(n));
    DigitsValueOfShowNat(n);
  }

  /** The same for a negative number written with a leading minus sign. */
  lemma ToNumberReadsNegative(n: nat)
    ensures ToNumber(JStr("-" + ShowNat(n))) == -(n as real)
  {
    var d := ShowNat(n);
    NegatedParts(d);
    DecimalWithoutFraction(d);
    DigitsValueOfShowNat(n);
  }

  lemma NegatedParts(d: string)
    requires |d| >= 1 && AllDigits(d)
    ensures IsNumeric("-" + d) && SignLength("-" + d) == 1
    ensures WholePart("-" + d) == d && FractionPart("-" + d) == []
    ensures ParseNumeric("-" + d) == -DecimalValue(d, [])
  {
    var t := "-" + d;
    assert t[1..] == d;
    assert forall i :: 1 <= i < |t| ==> t[i] == d[i - 1];
    assert SignLength(t) == 1;
    assert DigitRun(t, 1) == |d|;
    assert t[1..1 + |d|] == d;
  }

  /** The casts the script applies to plain-text endpoint bodies read written numbers back. */
  /**
   * is_numeric on a decoded JSON value accepts every number, and (float) keeps
   * it; it refuses null, booleans and arrays; and the decimal text of a
   * natural number is accepted and read as that number.
   */
  lemma NumericValueKinds(v: JValue, n: nat)
    ensures v.JNum? ==> IsNumericValue(v) && NumericValue(v) == v.x
    ensures v.JNull? || v.JBool? || v.JArr? ==> !IsNumericValue(v)
    ensures IsNumericValue(JStr(ShowNat(n))) && NumericValue(JStr(ShowNat(n))) == n as real
  {
    AllDigitsIsNumeric(ShowNat(n));
    DigitsValueOfShowNat(n);
  }

  lemma CastsReadShowNat(n: nat)
    ensures StringToInt(ShowNat(n)) == n
    ensures StringToFloat(ShowNat(n)) == n as real
  {
    var t := ShowNat(n);
    assert !IsPcreSpace(t[0]) && !IsSign(t[0]);
    assert SkipSpaces(t, 0) == 0;
    assert DigitRun(t, 0) == |t|;
    assert t[0..|t|] == t;
    assert MantissaEnd(t, 0) == Some(|t|);
    AllDigitsIsNumeric(t);
    DigitsValueOfShowNat(n);
  }

  /** Every numeric string holds at least one digit. */
  lemma NumericHasDigit(t: string)
    requires IsNumeric(t)
    ensures exists i :: 0 <= i < |t| && IsDigit(t[i])
  {
    var b := SignLength(t);
    var e := b + DigitRun(t, b);
    if e > b {
      assert IsDigit(t[b]);
    } else {
      assert t[e + 1..][0] == t[e + 1];
      assert IsDigit(t[e + 1]);
    }
  }

  predicate NoDigit(s: string) {
    forall i :: 0 <= i < |s| ==> !IsDigit(s[i])
  }

  lemma NoDigitInTrim(s: string)
    requires NoDigit(s)
    ensures NoDigit(Trim(s))
  {
    var l := TrimLeft(s);
    NoDigitInSlice(s, |s| - |l|, |s|);
    assert l == s[|s| - |l|..|s|];
    NoDigitInSlice(l, 0, |TrimRight(l)|);
    assert TrimRight(l) == l[0..|TrimRight(l)|];
  }

  lemma NoDigitInSlice(s: string, i: nat, j: nat)
    requires NoDigit(s) && i <= j <= |s|
    ensures NoDigit(s[i..j])
  {
    assert forall k :: 0 <= k < j - i ==> s[i..j][k] == s[i + k];
  }

  lemma NoDigitInToken(s: string)
    requires NoDigit(s)
    ensures NoDigit(StripSeparators(FirstToken(s)))
  {
    var token := FirstToken(s);
    assert forall i :: 0 <= i < |token| ==> token[i] == s[i];
    var first := StripSeparators(token);
    forall i | 0 <= i < |first| ensures !IsDigit(first[i]) {
      assert first[i] in token;
    }
  }

  lemma NoDigitNoMantissa(s: string)
    requires NoDigit(s)
    ensures LeftmostMantissa(s, 0).None?
  {
  }

  /** A string without any digit reads as the unresolved sentinel 0.0. */
  lemma NoDigitReadsZero(s: string)
    requires NoDigit(s)
    ensures ToNumber(JStr(s)) == 0.0
  {
    if IsNumeric(s) {
      NumericHasDigit(s);
    }
    NoDigitInTrim(s);
    var clean := Trim(s);
    NoDigitInToken(clean);
    NoDigitNoMantissa(clean);
    var first := StripSeparators(FirstToken(clean));
    assert NumberCandidate(s) == first;
    if IsNumeric(first) {
      NumericHasDigit(first);
    }
  }

  lemma {:induction false} StripSeparatorsAppend(a: string, b: string)
    ensures StripSeparators(a + b) == StripSeparators(a) + StripSeparators(b)
  {
    if a == [] {
      assert a + b == b;
    } else {
      assert (a + b)[0] == a[0];
      assert (a + b)[1..] == a[1..] + b;
      StripSeparatorsAppend(a[1..], b);
      if a[0] != ',' && a[0] != ' ' {
        assert [a[0]] + (StripSeparators(a[1..]) + StripSeparators(b))
            == ([a[0]] + StripSeparators(a[1..])) + StripSeparators(b);
      }
    }
  }

  lemma {:induction false} FirstTokenStopsAtSpace(a: string, b: string)
    requires forall i :: 0 <= i < |a| ==> !IsPcreSpace(a[i])
    requires |b| > 0 && IsPcreSpace(b[0])
    ensures FirstToken(a + b) == a
  {
    if a != [] {
      assert (a + b)[1..] == a[1..] + b;
      FirstTokenStopsAtSpace(a[1..], b);
    }
  }

  lemma DecimalIsNumeric(a: string, b: string)
    requires |a| >= 1 && AllDigits(a) && AllDigits(b)
    ensures IsNumeric(a + "." + b) && SignLength(a + "." + b) == 0
  {
    var t := a + "." + b;
    assert forall i :: 0 <= i < |t| ==> (i < |a| ==> t[i] == a[i]) && (i > |a| ==> t[i] == b[i - |a| - 1]);
    assert IsDigit(t[0]) && !IsSign(t[0]);
    forall i, j | 0 <= i < j < |t| && t[i] == '.' ensures t[j] != '.' {
      assert i == |a|;
    }
  }

  /** A digit string, a point and a digit string read as the decimal fraction they write. */
  lemma ParseDecimal(a: string, b: string)
    requires |a| >= 1 && AllDigits(a) && AllDigits(b)
    ensures IsNumeric(a + "." + b)
    ensures ParseNumeric(a + "." + b) == DecimalValue(a, b)
  {
    DecimalIsNumeric(a, b);
    var t := a + "." + b;
    assert forall i :: 0 <= i < |a| ==> t[i] == a[i];
    assert DigitRun(t, 0) == |a| by {
      DigitRunDigits(t, 0);
      assert t[|a|] == '.';
    }
    assert WholePart(t) == a by {
      assert t[0..|a|] == a;
    }
    assert FractionPart(t) == b by {
      assert t[|a| + 1..] == b;
    }
  }

  lemma DigitsAroundPoint(b: string, c: string)
    requires AllDigits(b) && AllDigits(c)
    ensures forall i :: 0 <= i < |b + "." + c| ==> IsDigit((b + "." + c)[i]) || (b + "." + c)[i] == '.'
  {
    var t := b + "." + c;
    forall i | 0 <= i < |t| ensures IsDigit(t[i]) || t[i] == '.' {
      if i < |b| {
        assert t[i] == b[i];
      } else if i > |b| {
        assert t[i] == c[i - |b| - 1];
      }
    }
  }

  lemma DigitsConcat(a: string, b: string)
    requires AllDigits(a) && AllDigits(b)
    ensures AllDigits(a + b)
  {
    forall i | 0 <= i < |a + b| ensures IsDigit((a + b)[i]) {
      if i < |a| {
        assert (a + b)[i] == a[i];
      } else {
        assert (a + b)[i] == b[i - |a|];
      }
    }
  }

  lemma NoSeparatorsKept(t: string)
    requires forall i :: 0 <= i < |t| ==> IsDigit(t[i]) || t[i] == '.'
    ensures StripSeparators(t) == t
  {
  }

  lemma StripGroupedNumeral(a: string, b: string, c: string)
    requires AllDigits(a) && AllDigits(b) && AllDigits(c)
    ensures StripSeparators(a + "," + b + "." + c) == a + b + "." + c
  {
    var rest := b + "." + c;
    GroupedRegroup(a, b, c);
    StripSeparatorsAppend(a + ",", rest);
    StripTrailingComma(a);
    DigitsAroundPoint(b, c);
    NoSeparatorsKept(rest);
  }

  lemma GroupedRegroup(a: string, b: string, c: string)
    ensures a + "," + b + "." + c == (a + ",") + (b + "." + c)
    ensures a + (b + "." + c) == a + b + "." + c
  {
    var rest := b + "." + c;
    var grouped := a + "," + b + "." + c;
    assert |grouped| == |(a + ",") + rest|;
    forall i | 0 <= i < |grouped| ensures grouped[i] == ((a + ",") + rest)[i] {
    }
    var plain := a + b + "." + c;
    assert |plain| == |a + rest|;
    forall i | 0 <= i < |plain| ensures plain[i] == (a + rest)[i] {
    }
  }

  lemma StripTrailingComma(a: string)
    requires AllDigits(a)
    ensures StripSeparators(a + ",") == a
  {
    StripSeparatorsAppend(a, ",");
    assert StripSeparators(",") == [];
    NoSeparatorsKept(a);
    assert a + [] == a;
  }

  lemma GroupedNumeralToken(a: string, b: string, c: string)
    requires AllDigits(a) && AllDigits(b) && AllDigits(c)
    ensures forall i :: 0 <= i < |a + "," + b + "." + c| ==> !IsPcreSpace((a + "," + b + "." + c)[i])
  {
    var t := a + "," + b + "." + c;
    DigitsAroundPoint(b, c);
    assert t == (a + ",") + (b + "." + c);
    forall i | 0 <= i < |t| ensures !IsPcreSpace(t[i]) {
      if i < |a| {
        assert t[i] == a[i];
      } else if i > |a| {
        assert t[i] == (b + "." + c)[i - |a| - 1];
      }
    }
  }

  lemma GroupedNumeralValue(a: string, b: string, c: string)
    requires |a| >= 1 && AllDigits(a) && AllDigits(b) && AllDigits(c)
    ensures IsNumeric(a + b + "." + c) && ParseNumeric(a + b + "." + c) == DecimalValue(a + b, c)
  {
    DigitsConcat(a, b);
    ParseDecimal(a + b, c);
  }

  /**
   * Thousands separators are dropped and a trailing unit is ignored:
   * "<a>,<b>.<c> <unit>" reads as the decimal numeral <a><b>.<c>.
   */
  lemma ToNumberDropsSeparatorsAndUnit(a: string, b: string, c: string, u: string)
    requires |a| >= 1 && AllDigits(a) && AllDigits(b) && AllDigits(c)
    requires |u| >= 1 && u[0] == ' ' && !IsTrimSpace(u[|u| - 1])
    ensures ToNumber(JStr(a + "," + b + "." + c + u)) == DecimalValue(a + b, c)
  {
    GroupedNumeralCandidate(a, b, c, u);
    GroupedNumeralValue(a, b, c);
  }

  lemma GroupedNumeralCandidate(a: string, b: string, c: string, u: string)
    requires |a| >= 1 && AllDigits(a) && AllDigits(b) && AllDigits(c)
    requires |u| >= 1 && u[0] == ' ' && !IsTrimSpace(u[|u| - 1])
    ensures !IsNumeric(a + "," + b + "." + c + u)
    ensures NumberCandidate(a + "," + b + "." + c + u) == a + b + "." + c
  {
    var tok := a + "," + b + "." + c;
    var s := tok + u;
    GroupedNumeralNotNumeric(a, b, c, u);
    assert Trim(s) == s by {
      assert s[0] == a[0] && s[|s| - 1] == u[|u| - 1];
    }
    assert FirstToken(s) == tok by {
      GroupedNumeralToken(a, b, c);
      FirstTokenStopsAtSpace(tok, u);
    }
    StripGroupedNumeral(a, b, c);
    GroupedNumeralValue(a, b, c);
  }

  lemma GroupedNumeralNotNumeric(a: string, b: string, c: string, u: string)
    requires |a| >= 1 && AllDigits(a)
    ensures !IsNumeric(a + "," + b + "." + c + u)
  {
    var s := a + "," + b + "." + c + u;
    assert forall i :: 0 <= i < |a| ==> s[i] == a[i];
    assert s[|a|] == ',';
    DigitRunDigits(s, 0);
    assert DigitRun(s, 0) == |a|;
  }

  /** The instance "1,234.5 USD", which reads as 1234.5. */
  lemma ToNumberSeparatorExample()
    ensures ToNumber(JStr("1,234.5 USD")) == 1234.5
  {
    assert "1,234.5 USD" == "1" + "," + "234" + "." + "5" + " USD";
    assert DecimalValue("1" + "234", "5") == 1234.5 by {
      assert "1" + "234" == ShowNat(1234) && "5" == ShowNat(5);
      DigitsValueOfShowNat(1234);
      DigitsValueOfShowNat(5);
    }
    ToNumberDropsSeparatorsAndUnit("1", "234", "5", " USD");
  }

  /** Text without a number reads as 0.0; a number is taken as is. */
  lemma ToNumberPlainExamples()
    ensures ToNumber(JStr("abc")) == 0.0
    ensures ToNumber(JNum(42.0)) == 42.0
  {
    assert NoDigit("abc") by {
      assert "abc"[0] == 'a' && "abc"[1] == 'b' && "abc"[2] == 'c';
    }
    NoDigitReadsZero("abc");
  }
}
