/** The canonical audit form: decimal texts, and nested values with sorted keys. */
module ScoreAudit {
  import opened Prelude
  import opened Sorting
  import opened Dictionaries
  import opened Reals
  import opened Decimals

  // --- Decimals ---

  /** A finite decimal: sign, coefficient and power of ten; the same number has many of these. */
  datatype Decimal = Decimal(negative: bool, coefficient: nat, exponent: int)

  function Magnitude(coefficient: nat, exponent: int): real {
    coefficient as real * Power(exponent)
  }

  /** The number a decimal denotes. */
  function Value(d: Decimal): real {
    if d.negative then -Magnitude(d.coefficient, d.exponent) else Magnitude(d.coefficient, d.exponent)
  }

  function DigitCount(n: nat): nat {
    if n < 10 then 1 else 1 + DigitCount(n / 10)
  }

  /** `n / unit`, the half rounded to the even neighbour. */
  function RoundedQuotient(n: nat, unit: nat): nat
    requires unit > 0
  {
    var q, twice := n / unit, 2 * (n % unit);
    if twice > unit || (twice == unit && q % 2 == 1) then q + 1 else q
  }

  /** Round half even to the context's precision. */
  function Rounded(d: Decimal): Decimal {
    if DigitCount(d.coefficient) <= PRECISION then d
    else
      var k := DigitCount(d.coefficient) - PRECISION;
      Decimal(d.negative, RoundedQuotient(d.coefficient, Ten(k)), d.exponent + k)
  }

  /** Without trailing zeros. */
  function Stripped(d: Decimal): (r: Decimal)
    requires d.coefficient > 0
    ensures r.coefficient % 10 != 0 && r.negative == d.negative
    decreases d.coefficient
  {
    if d.coefficient % 10 != 0 then d
    else Stripped(Decimal(d.negative, d.coefficient / 10, d.exponent + 1))
  }

  lemma {:induction false} RoundedPositive(d: Decimal)
    requires d.coefficient > 0
    ensures Rounded(d).coefficient > 0
  {
    if DigitCount(d.coefficient) > PRECISION {
      var k := DigitCount(d.coefficient) - PRECISION;
      DigitCountBound(d.coefficient, k);
      QuotientPositive(d.coefficient, Ten(k));
      hide RoundedQuotient;
    }
  }

  lemma QuotientPositive(n: nat, unit: nat)
    requires n >= unit > 0
    ensures RoundedQuotient(n, unit) > 0
  {
  }

  lemma {:induction false} DigitCountBound(n: nat, k: nat)
    requires k < DigitCount(n) && n > 0
    ensures n >= Ten(k)
  {
    if k > 0 { DigitCountBound(n / 10, k - 1); }
  }

  lemma {:induction false} DigitCountLimit(n: nat)
    ensures n < Ten(DigitCount(n))
  {
    if n >= 10 { DigitCountLimit(n / 10); }
  }

  /** Rounding the digits of a decimal is the context's rounding of its number. */
  lemma RoundedIsContextRound(d: Decimal)
    requires d.coefficient > 0
    ensures Magnitude(d.coefficient, d.exponent) > 0.0
    ensures Magnitude(Rounded(d).coefficient, Rounded(d).exponent)
            == Round(Magnitude(d.coefficient, d.exponent))
  {
    var c, count := d.coefficient, DigitCount(d.coefficient);
    DigitCountBound(c, count - 1);
    DigitCountLimit(c);
    hide DigitCount, Ten, Power, Round, Unit, RoundedQuotient;
    PositiveMagnitude(c, d.exponent);
    if count <= PRECISION {
      FewDigits(c, d.exponent, count);
    } else {
      LastPlace(c, d.exponent, count);
      RoundedInUnits(c, d.exponent, count - PRECISION);
    }
  }

  lemma PositiveMagnitude(c: nat, e: int)
    requires c > 0
    ensures Magnitude(c, e) > 0.0
  {
    ProductPositive(c as real, Power(e));
  }

  lemma FewDigits(c: nat, e: int, count: nat)
    requires 0 < c < Ten(count) && count <= PRECISION
    ensures Magnitude(c, e) > 0.0 && Round(Magnitude(c, e)) == Magnitude(c, e)
  {
    TenOrder(count, PRECISION);
    hide Ten, Power, Round;
    Representable(c, e);
  }

  lemma {:induction false} TenOrder(a: nat, b: nat)
    requires a <= b
    ensures Ten(a) <= Ten(b)
  {
    if a < b { TenOrder(a, b - 1); }
  }

  /** The last place the context keeps of a coefficient with so many digits. */
  lemma LastPlace(c: nat, e: int, count: nat)
    requires 0 < count && Ten(count - 1) <= c < Ten(count) && Magnitude(c, e) > 0.0
    ensures Unit(Magnitude(c, e)) == Power(e + count - PRECISION)
  {
    hide Ten, Power;
    PowerPlus(e, count - 1);
    PowerPlus(e, count);
    TimesCancel(c, Ten(count), Power(e));
    TimesCancel(c, Ten(count - 1), Power(e));
    assert Magnitude(c, e) == Times(c, Power(e));
    ExponentIs(Magnitude(c, e), e + count - 1);
  }

  lemma RoundedInUnits(c: nat, e: int, k: nat)
    requires Magnitude(c, e) > 0.0 && Unit(Magnitude(c, e)) == Power(e + k)
    ensures Round(Magnitude(c, e)) == Magnitude(RoundedQuotient(c, Ten(k)), e + k)
  {
    hide Power, Unit, HalfEven, RoundedQuotient;
    var x, u, n := Magnitude(c, e), Power(e + k), RoundedQuotient(c, Ten(k));
    PowerPlus(e, k);
    HalfEvenQuotient(c, Ten(k));
    var y := c as real / Ten(k) as real;
    QuotientTimes(c as real, Ten(k) as real);
    Regroup(y, Ten(k) as real, Power(e));
    assert x == y * u;
    QuotientOf(y, u);
    assert Round(x) == Times(HalfEven(x / u), u);
  }

  lemma Regroup(a: real, b: real, c: real)
    ensures (a * b) * c == a * (b * c)
  {
  }

  lemma QuotientOf(y: real, u: real)
    requires u > 0.0
    ensures y * u / u == y
  {
    QuotientTimes(y * u, u);
    Cancel(y * u / u, y, u);
  }

  lemma HalfOf(r: nat, unit: nat)
    ensures (r as real < unit as real / 2.0 <==> 2 * r < unit) && (r as real == unit as real / 2.0 <==> 2 * r == unit)
  {
    assert (2 * r) as real == 2.0 * r as real;
  }

  lemma HalfEvenQuotient(c: nat, unit: nat)
    requires unit > 0
    ensures HalfEven(c as real / unit as real) == RoundedQuotient(c, unit)
  {
    var q, r, u := c / unit, c % unit, unit as real;
    assert c == q * unit + r;
    var y := c as real / u;
    QuotientTimes(c as real, u);
    var rest := y - q as real;
    DifferenceTimes(y, q as real, u);
    assert (q * unit) as real == q as real * u;
    assert rest * u == r as real;
    ScaledOrder(0.0, rest, u);
    ScaledOrder(rest, 1.0, u);
    HalfScaled(rest - 1.0, r as real - u, u) by { DifferenceTimes(rest, 1.0, u); }
    HalfScaled(rest, r as real, u);
    HalfOf(r, unit);
    assert 0.0 <= rest < 1.0 && y.Floor == q;
  }

  // --- Texts ---

  function DigitChar(n: nat): char
    requires n < 10
  {
    ('0' as int + n) as char
  }

  function DigitValue(c: char): nat {
    if '0' <= c <= '9' then c as int - '0' as int else 0
  }

  predicate AllDigits(s: string) {
    forall i | 0 <= i < |s| :: '0' <= s[i] <= '9'
  }

  function DigitsOf(n: nat): (s: string)
    ensures |s| > 0 && AllDigits(s)
  {
    if n < 10 then [DigitChar(n)] else DigitsOf(n / 10) + [DigitChar(n % 10)]
  }

  function Zeros(k: nat): (s: string)
    ensures |s| == k && AllDigits(s)
  {
    if k == 0 then [] else Zeros(k - 1) + ['0']
  }

  /** The number a run of digits denotes. */
  function Number(s: string): nat
    decreases |s|
  {
    if s == [] then 0 else Number(s[..|s| - 1]) * 10 + DigitValue(s[|s| - 1])
  }

  /** Fixed-point notation, as `format(value, "f")` writes it. */
  function Fixed(coefficient: nat, exponent: int): string {
    var digits := DigitsOf(coefficient);
    if exponent >= 0 then
      digits + Zeros(exponent)
    else
      var places := -exponent;
      var padded := if |digits| <= places then Zeros(places + 1 - |digits|) + digits else digits;
      padded[..|padded| - places] + "." + padded[|padded| - places..]
  }

  function CanonicalDecimal(d: Decimal): string {
    if d.coefficient == 0 then "0"
    else
      RoundedPositive(d);
      var n := Stripped(Rounded(d));
      (if n.negative then "-" else "") + Fixed(n.coefficient, n.exponent)
  }

  function PointAt(s: string): (r: nat)
    ensures r <= |s|
  {
    if s == [] || s[0] == '.' then 0 else 1 + PointAt(s[1..])
  }

  function ReadUnsigned(s: string, negative: bool): Decimal {
    var p := PointAt(s);
    if p == |s| then Decimal(negative, Number(s), 0)
    else Decimal(negative, Number(s[..p] + s[p + 1..]), -(|s| - p - 1))
  }

  /** `Decimal(text)` on fixed-point texts. */
  function ReadDecimal(s: string): Decimal {
    if s != [] && s[0] == '-' then ReadUnsigned(s[1..], true) else ReadUnsigned(s, false)
  }

  // --- Reading a decimal back ---

  lemma MagnitudeStep(c: nat, e: int)
    ensures Magnitude(10 * c, e) == Magnitude(c, e + 1)
  {
    PowerStep(e);
    Reassociate(c as real, Power(e));
    assert (10 * c) as real == 10.0 * c as real;
  }

  lemma Reassociate(x: real, y: real)
    ensures (10.0 * x) * y == x * (10.0 * y)
  {
  }

  lemma {:induction false} MagnitudeShift(c: nat, e: int, k: nat)
    ensures Magnitude(c * Ten(k), e) == Magnitude(c, e + k)
    decreases k
  {
    hide Magnitude;
    if k > 0 {
      MagnitudeShift(c, e + 1, k - 1);
      MagnitudeStep(c * Ten(k - 1), e);
      assert c * Ten(k) == 10 * (c * Ten(k - 1));
    }
  }

  lemma {:induction false} StrippedValue(d: Decimal)
    requires d.coefficient > 0
    ensures Value(Stripped(d)) == Value(d)
    decreases d.coefficient
  {
    hide Magnitude;
    if d.coefficient % 10 == 0 {
      StrippedValue(Decimal(d.negative, d.coefficient / 10, d.exponent + 1));
      MagnitudeStep(d.coefficient / 10, d.exponent);
      assert 10 * (d.coefficient / 10) == d.coefficient;
    }
  }

  lemma {:induction false} DigitsRead(n: nat)
    ensures Number(DigitsOf(n)) == n
  {
    var s := DigitsOf(n);
    if n < 10 {
      assert s[..0] == [] && Number(s[..0]) == 0;
    } else {
      DigitsRead(n / 10);
      assert s[..|s| - 1] == DigitsOf(n / 10);
    }
  }

  lemma TimesTen(n: nat, k: nat)
    requires k > 0
    ensures n * Ten(k - 1) * 10 == n * Ten(k)
  {
    assert Ten(k) == 10 * Ten(k - 1);
  }

  lemma {:induction false} TrailingZeros(s: string, k: nat)
    ensures Number(s + Zeros(k)) == Number(s) * Ten(k)
  {
    if k == 0 {
      assert s + Zeros(0) == s;
    } else {
      var all := s + Zeros(k);
      assert all[..|all| - 1] == s + Zeros(k - 1);
      assert Number(all) == Number(s + Zeros(k - 1)) * 10;
      TrailingZeros(s, k - 1);
      TimesTen(Number(s), k);
      hide Number, Ten;
    }
  }

  lemma {:induction false} LeadingZeros(k: nat, s: string)
    ensures Number(Zeros(k) + s) == Number(s)
    decreases k + |s|
  {
    var all := Zeros(k) + s;
    if s != [] {
      assert all[..|all| - 1] == Zeros(k) + s[..|s| - 1];
      LeadingZeros(k, s[..|s| - 1]);
    } else if k > 0 {
      assert all[..|all| - 1] == Zeros(k - 1) + [];
      LeadingZeros(k - 1, []);
    }
  }

  lemma {:induction false} PointOfDigits(s: string, rest: string)
    requires AllDigits(s) && (rest == [] || rest[0] == '.')
    ensures PointAt(s + rest) == |s|
  {
    if s == [] {
      assert s + rest == rest;
    } else {
      assert (s + rest)[0] == s[0] && (s + rest)[1..] == s[1..] + rest;
      PointOfDigits(s[1..], rest);
    }
  }

  /** Fixed-point notation starts with a digit and reads back as the same number. */
  lemma FixedRead(coefficient: nat, exponent: int, negative: bool)
    ensures var s := Fixed(coefficient, exponent);
            && |s| > 0 && s[0] != '-'
            && Value(ReadUnsigned(s, negative)) == Value(Decimal(negative, coefficient, exponent))
  {
    var digits := DigitsOf(coefficient);
    DigitsRead(coefficient);
    hide DigitsOf, Number, Magnitude, Ten, Zeros;
    if exponent >= 0 {
      var s := digits + Zeros(exponent);
      assert s + [] == s && AllDigits(s);
      PointOfDigits(s, []);
      TrailingZeros(digits, exponent);
      MagnitudeShift(coefficient, 0, exponent);
    } else {
      FixedPoint(digits, -exponent);
    }
  }

  /** Padding keeps the digits, and the point is read back where it was put. */
  lemma FixedPoint(digits: string, places: nat)
    requires AllDigits(digits) && places > 0
    ensures var padded := if |digits| <= places then Zeros(places + 1 - |digits|) + digits else digits;
            var s := padded[..|padded| - places] + "." + padded[|padded| - places..];
            && s[0] != '-' && PointAt(s) == |padded| - places < |s|
            && |s| - PointAt(s) - 1 == places
            && Number(s[..PointAt(s)] + s[PointAt(s) + 1..]) == Number(digits)
  {
    var padded := if |digits| <= places then Zeros(places + 1 - |digits|) + digits else digits;
    if |digits| <= places { LeadingZeros(places + 1 - |digits|, digits); }
    assert AllDigits(padded);
    hide Zeros, Number, PointAt, AllDigits;
    SplitAtPoint(padded, |padded| - places);
  }

  lemma SplitAtPoint(digits: string, p: nat)
    requires AllDigits(digits) && 0 < p <= |digits|
    ensures var s := digits[..p] + "." + digits[p..];
            && s[0] != '-' && PointAt(s) == p && |s| == |digits| + 1 && s[..p] + s[p + 1..] == digits
  {
    var head, tail := digits[..p], digits[p..];
    var s := head + "." + tail;
    assert s == head + ("." + tail) && s[0] == digits[0];
    PointOfDigits(head, "." + tail);
    hide PointAt, AllDigits;
    assert s[..p] == head && s[p + 1..] == tail && head + tail == digits;
  }

  /** Reading a canonical text back gives the value rounded to the context's precision, and that value exactly
      when it has no more digits than the precision. */
  lemma CanonicalReadsBack(d: Decimal)
    ensures Value(ReadDecimal(CanonicalDecimal(d))) == Value(Rounded(d))
    ensures DigitCount(d.coefficient) <= PRECISION ==> Value(ReadDecimal(CanonicalDecimal(d))) == Value(d)
  {
    if d.coefficient == 0 {
      assert "0"[1..] == [] && PointAt("0") == 1;
      assert "0"[..0] == [] && Number("0") == 0;
    } else {
      RoundedPositive(d);
      var n := Stripped(Rounded(d));
      StrippedValue(Rounded(d));
      FixedRead(n.coefficient, n.exponent, n.negative);
      var s := Fixed(n.coefficient, n.exponent);
      hide Fixed, Rounded, ReadUnsigned, Value;
      assert (("-" + s)[1..]) == s && [] + s == s;
    }
  }

  lemma MagnitudeCancel(a: nat, b: nat, e: int)
    requires Magnitude(a, e) == Magnitude(b, e)
    ensures a == b
  {
    Cancel(a as real, b as real, Power(e));
  }

  lemma NotDivisible(b: nat, k: nat)
    requires k > 0
    ensures b * Ten(k) % 10 == 0
  {
    assert b * Ten(k) == 10 * (b * Ten(k - 1));
  }

  /** A coefficient without trailing zero is determined, with its exponent, by the number. */
  lemma StrippedUnique(a: nat, i: int, b: nat, j: int)
    requires a % 10 != 0 && b % 10 != 0 && Magnitude(a, i) == Magnitude(b, j)
    ensures a == b && i == j
    decreases if i > j then 1 else 0
  {
    hide Magnitude, Ten;
    if i > j {
      StrippedUnique(b, j, a, i);
    } else {
      var k := j - i;
      MagnitudeShift(b, i, k);
      assert i + k == j;
      MagnitudeCancel(a, b * Ten(k), i);
      if k > 0 {
        NotDivisible(b, k);
        assert false;
      }
      MagnitudeCancel(a, b, i);
    }
  }

  lemma SameStripped(a: Decimal, b: Decimal)
    requires a.coefficient > 0 && b.coefficient > 0 && Value(a) == Value(b)
    ensures Stripped(a) == Stripped(b)
  {
    var x, y := Stripped(a), Stripped(b);
    StrippedValue(a);
    StrippedValue(b);
    PositiveMagnitude(x.coefficient, x.exponent);
    PositiveMagnitude(y.coefficient, y.exponent);
    hide Magnitude, Stripped;
    StrippedUnique(x.coefficient, x.exponent, y.coefficient, y.exponent);
  }

  /** Two values share a canonical text exactly when they are numerically equal after rounding. */
  lemma CanonicalTextIff(a: Decimal, b: Decimal)
    ensures CanonicalDecimal(a) == CanonicalDecimal(b) <==> Value(Rounded(a)) == Value(Rounded(b))
  {
    CanonicalReadsBack(a);
    CanonicalReadsBack(b);
    hide Rounded, Value, Fixed, Stripped, ReadDecimal;
    if Value(Rounded(a)) == Value(Rounded(b)) {
      ZeroRounds(a);
      ZeroRounds(b);
      if a.coefficient > 0 && b.coefficient > 0 {
        RoundedPositive(a);
        RoundedPositive(b);
        SameStripped(Rounded(a), Rounded(b));
      }
    }
  }

  lemma ZeroRounds(d: Decimal)
    ensures Value(Rounded(d)) == 0.0 <==> d.coefficient == 0
  {
    if d.coefficient > 0 { NonZero(d); }
  }

  lemma NonZero(d: Decimal)
    requires d.coefficient > 0
    ensures Value(Rounded(d)) != 0.0
  {
    RoundedPositive(d);
    PositiveMagnitude(Rounded(d).coefficient, Rounded(d).exponent);
    hide Magnitude, Rounded;
  }

  // --- Nested values ---

  /** A supported audit value; `Unsupported` stands for binary floats and every type that is refused. */
  datatype AuditValue =
    | Nothing | Truth(truth: bool) | Whole(number: int) | Text(text: string)
    | Amount(decimal: Decimal) | Identifier(id: Uuid) | Moment(at: Instant) | Day(date: Date)
    | Items(items: seq<AuditValue>) | Fields(fields: seq<Field>) | Unsupported

  /** A mapping entry under the text of its key. */
  datatype Field = Field(key: string, value: AuditValue)

  /** The ISO texts of identifiers, moments and days. */
  datatype Formats = Formats(id: Uuid -> string, moment: Instant -> string, day: Date -> string)

  function FieldName(f: Field): string {
    f.key
  }

  function FieldKey(f: Field): seq<int> {
    TextKey(f.key)
  }

  /** A dictionary comprehension over ordered entries: of equal keys the last value is kept. */
  function AsDictionary(fields: seq<Field>): seq<Field>
    decreases |fields|
  {
    if fields == [] then [] else Put(AsDictionary(fields[..|fields| - 1]), fields[|fields| - 1], FieldName)
  }

  function Rekeyed(fields: seq<Field>, values: seq<Option<AuditValue>>): (r: seq<Field>)
    requires |values| == |fields| && forall i | 0 <= i < |values| :: values[i].Some?
    ensures |r| == |fields|
    ensures forall i | 0 <= i < |r| :: r[i] == Field(fields[i].key, values[i].value)
  {
    seq(|fields|, i requires 0 <= i < |fields| => Field(fields[i].key, values[i].value))
  }

  /** The canonical form; None where the original raises. */
  function Canonical(v: AuditValue, f: Formats): Option<AuditValue> {
    match v
    case Unsupported => None
    case Amount(d) => Some(Text(CanonicalDecimal(d)))
    case Identifier(id) => Some(Text(f.id(id)))
    case Moment(at) => Some(Text(f.moment(at)))
    case Day(date) => Some(Text(f.day(date)))
    case Items(items) =>
      if forall i | 0 <= i < |items| :: Canonical(items[i], f).Some?
      then Some(Items(seq(|items|, i requires 0 <= i < |items| => Canonical(items[i], f).value)))
      else None
    case Fields(fields) =>
      var values := seq(|fields|, i requires 0 <= i < |fields| => Canonical(fields[i].value, f));
      if forall i | 0 <= i < |values| :: values[i].Some? then
        Some(Fields(AsDictionary(Sort(Rekeyed(fields, values), FieldKey))))
      else None
    case _ => Some(v)
  }

  /** Texts, numbers, truth values, lists, and mappings with strictly increasing keys. */
  ghost predicate IsCanonical(v: AuditValue) {
    match v
    case Nothing => true
    case Truth(_) => true
    case Whole(_) => true
    case Text(_) => true
    case Items(items) => forall i | 0 <= i < |items| :: IsCanonical(items[i])
    case Fields(fields) =>
      StrictlySorted(fields, FieldKey) && forall i | 0 <= i < |fields| :: IsCanonical(fields[i].value)
    case _ => false
  }

  ghost predicate AllCanonical(fields: seq<Field>) {
    forall x | x in fields :: IsCanonical(x.value)
  }

  lemma {:induction false} PutSorted(d: seq<Field>, x: Field)
    requires StrictlySorted(d, FieldKey) && forall y | y in d :: LexLeq(FieldKey(y), FieldKey(x))
    ensures StrictlySorted(Put(d, x, FieldName), FieldKey)
    ensures forall y | y in Put(d, x, FieldName) :: y == x || y in d
  {
    hide LexLeq, FieldKey;
    if d != [] {
      assert d[0] in d && forall y | y in d[1..] :: y in d;
      if d[0].key == x.key {
        SameName(d[0], x);
        forall j | 0 <= j < |d[1..]| ensures LexLeq(FieldKey(x), FieldKey(d[1..][j])) && FieldKey(x) != FieldKey(d[1..][j]) {
          assert d[1..][j] == d[j + 1];
        }
      } else {
        PutSorted(d[1..], x);
        var r := Put(d[1..], x, FieldName);
        forall j | 0 <= j < |r| ensures LexLeq(FieldKey(d[0]), FieldKey(r[j])) && FieldKey(d[0]) != FieldKey(r[j]) {
          assert r[j] in r;
          if r[j] != x {
            var k :| 0 <= k < |d[1..]| && d[1..][k] == r[j];
            assert d[k + 1] == r[j];
          } else {
            DifferentName(d[0], x);
          }
        }
      }
    }
  }

  lemma SameName(a: Field, b: Field)
    requires a.key == b.key
    ensures FieldKey(a) == FieldKey(b)
  {
  }

  lemma DifferentName(a: Field, b: Field)
    requires a.key != b.key
    ensures FieldKey(a) != FieldKey(b)
  {
  }

  /** A dictionary built from ordered entries has strictly increasing keys. */
  lemma {:induction false} DictionarySorted(fields: seq<Field>)
    requires Ascending(fields, FieldKey)
    ensures StrictlySorted(AsDictionary(fields), FieldKey)
    ensures forall y | y in AsDictionary(fields) :: y in fields
    decreases |fields|
  {
    hide LexLeq, FieldKey, Put;
    if fields != [] {
      var n := |fields| - 1;
      var front, last := fields[..n], fields[n];
      DictionarySorted(front);
      forall y | y in AsDictionary(front) ensures LexLeq(FieldKey(y), FieldKey(last)) && y in fields {
        assert y in front;
        var i :| 0 <= i < n && fields[i] == y;
      }
      PutSorted(AsDictionary(front), last);
    }
  }

  /** Strictly increasing keys are a dictionary already. */
  lemma {:induction false} DictionaryOfSorted(fields: seq<Field>)
    requires StrictlySorted(fields, FieldKey)
    ensures AsDictionary(fields) == fields
    decreases |fields|
  {
    hide LexLeq, FieldKey, Put;
    if fields != [] {
      var n := |fields| - 1;
      DictionaryOfSorted(fields[..n]);
      forall i | 0 <= i < n ensures fields[i].key != fields[n].key {
        if fields[i].key == fields[n].key { SameName(fields[i], fields[n]); }
      }
      PutNew(fields[..n], fields[n]);
      assert fields == fields[..n] + [fields[n]];
    }
  }

  lemma {:induction false} PutNew(d: seq<Field>, x: Field)
    requires forall i | 0 <= i < |d| :: d[i].key != x.key
    ensures Put(d, x, FieldName) == d + [x]
  {
    if d != [] { PutNew(d[1..], x); }
  }

  /** What the conversion returns is canonical, */
  lemma {:induction false} CanonicalIsCanonical(v: AuditValue, f: Formats)
    requires Canonical(v, f).Some?
    ensures IsCanonical(Canonical(v, f).value)
    decreases v
  {
    hide CanonicalDecimal;
    match v
    case Items(items) =>
      forall i | 0 <= i < |items| ensures IsCanonical(Canonical(items[i], f).value) {
        CanonicalIsCanonical(items[i], f);
      }
    case Fields(fields) =>
      var values := FieldsForm(fields, f);
      forall i | 0 <= i < |fields| ensures IsCanonical(values[i].value) {
        CanonicalIsCanonical(fields[i].value, f);
      }
      hide Canonical, Sort, AsDictionary;
      var entries := Rekeyed(fields, values);
      SortAscending(entries, FieldKey);
      MultisetElements(Sort(entries, FieldKey), entries);
      DictionarySorted(Sort(entries, FieldKey));
      var d := AsDictionary(Sort(entries, FieldKey));
      forall i | 0 <= i < |d| ensures IsCanonical(d[i].value) {
        assert d[i] in entries;
      }
    case _ =>
  }

  /** and a canonical value converts to itself. */
  lemma {:induction false} CanonicalFixed(v: AuditValue, f: Formats)
    requires IsCanonical(v)
    ensures Canonical(v, f) == Some(v)
    decreases v
  {
    hide CanonicalDecimal;
    match v
    case Items(items) =>
      forall i | 0 <= i < |items| ensures Canonical(items[i], f) == Some(items[i]) {
        CanonicalFixed(items[i], f);
      }
      assert seq(|items|, i requires 0 <= i < |items| => Canonical(items[i], f).value) == items;
    case Fields(fields) =>
      forall i | 0 <= i < |fields| ensures Canonical(fields[i].value, f) == Some(fields[i].value) {
        CanonicalFixed(fields[i].value, f);
      }
      var values := FieldsForm(fields, f);
      assert Rekeyed(fields, values) == fields;
      SortOfStrict(fields, FieldKey);
      DictionaryOfSorted(fields);
    case _ =>
  }

  /** The conversion is idempotent. */
  lemma CanonicalIdempotent(v: AuditValue, f: Formats)
    requires Canonical(v, f).Some?
    ensures Canonical(Canonical(v, f).value, f) == Canonical(v, f)
  {
    CanonicalIsCanonical(v, f);
    CanonicalFixed(Canonical(v, f).value, f);
  }

  lemma SortedEntries(a: seq<Field>, b: seq<Field>, x: seq<Field>, y: seq<Field>, f: Formats)
    requires Distinct(a, FieldName) && Distinct(b, FieldName) && SameElements(a, b) && |x| == |a| && |y| == |b|
    requires forall i | 0 <= i < |a| :: Canonical(a[i].value, f) == Some(x[i].value) && x[i].key == a[i].key
    requires forall i | 0 <= i < |b| :: Canonical(b[i].value, f) == Some(y[i].value) && y[i].key == b[i].key
    ensures Sort(x, FieldKey) == Sort(y, FieldKey)
  {
    hide Canonical, FieldKey, Sort;
    forall e ensures e in x <==> e in y {
      EntriesSame(a, b, x, y, f, e);
      EntriesSame(b, a, y, x, f, e);
    }
    EntriesDistinct(a, x);
    EntriesDistinct(b, y);
    SortIgnoresOrder(x, y, FieldKey);
  }

  ghost predicate Convertible(fields: seq<Field>, f: Formats) {
    forall i | 0 <= i < |fields| :: Canonical(fields[i].value, f).Some?
  }

  lemma ConvertibleSame(a: seq<Field>, b: seq<Field>, f: Formats)
    requires SameElements(a, b) && Convertible(a, f)
    ensures Convertible(b, f)
  {
    hide Canonical;
    forall i | 0 <= i < |b| ensures Canonical(b[i].value, f).Some? {
      assert b[i] in b;
      var k :| 0 <= k < |a| && a[k] == b[i];
    }
  }

  function Converted(fields: seq<Field>, f: Formats): (r: seq<Option<AuditValue>>)
    ensures |r| == |fields|
  {
    seq(|fields|, i requires 0 <= i < |fields| => Canonical(fields[i].value, f))
  }

  lemma ConvertedForm(fields: seq<Field>, f: Formats)
    ensures var values := Converted(fields, f);
            Canonical(Fields(fields), f) ==
            if forall i | 0 <= i < |values| :: values[i].Some?
            then Some(Fields(AsDictionary(Sort(Rekeyed(fields, values), FieldKey)))) else None
  {
    hide Sort, AsDictionary, CanonicalDecimal, Rekeyed;
  }

  /** The form of a converted mapping, by the converted values of its entries. */
  lemma FieldsForm(fields: seq<Field>, f: Formats) returns (values: seq<Option<AuditValue>>)
    ensures |values| == |fields| && forall i | 0 <= i < |fields| :: values[i] == Canonical(fields[i].value, f)
    ensures Canonical(Fields(fields), f) ==
            if forall i | 0 <= i < |values| :: values[i].Some?
            then Some(Fields(AsDictionary(Sort(Rekeyed(fields, values), FieldKey)))) else None
  {
    values := Converted(fields, f);
    hide Canonical, Sort, AsDictionary, Rekeyed;
    ConvertedForm(fields, f);
  }

  /** With pairwise different key texts the insertion order of a mapping does not matter. */
  lemma InsertionOrderIrrelevant(a: seq<Field>, b: seq<Field>, f: Formats)
    requires Distinct(a, FieldName) && Distinct(b, FieldName) && SameElements(a, b)
    ensures Canonical(Fields(a), f) == Canonical(Fields(b), f)
  {
    var x := FieldsForm(a, f);
    var y := FieldsForm(b, f);
    hide Canonical, Sort, AsDictionary;
    if Convertible(a, f) {
      ConvertibleSame(a, b, f);
      SortedEntries(a, b, Rekeyed(a, x), Rekeyed(b, y), f);
    } else if Convertible(b, f) {
      ConvertibleSame(b, a, f);
    }
  }

  lemma EntriesSame(a: seq<Field>, b: seq<Field>, x: seq<Field>, y: seq<Field>, f: Formats, e: Field)
    requires SameElements(a, b) && |x| == |a| && |y| == |b|
    requires forall i | 0 <= i < |a| :: Canonical(a[i].value, f) == Some(x[i].value) && x[i].key == a[i].key
    requires forall i | 0 <= i < |b| :: Canonical(b[i].value, f) == Some(y[i].value) && y[i].key == b[i].key
    ensures e in x ==> e in y
  {
    hide Canonical;
    if e in x {
      var i :| 0 <= i < |x| && x[i] == e;
      assert a[i] in a;
      var k :| 0 <= k < |b| && b[k] == a[i];
      assert y[k] == e;
    }
  }

  lemma EntriesDistinct(a: seq<Field>, x: seq<Field>)
    requires Distinct(a, FieldName) && |x| == |a| && forall i | 0 <= i < |a| :: x[i].key == a[i].key
    ensures Distinct(x, FieldKey)
  {
    hide FieldKey;
    forall i, j | 0 <= i < j < |x| ensures FieldKey(x[i]) != FieldKey(x[j]) {
      assert FieldName(a[i]) != FieldName(a[j]);
      DifferentName(x[i], x[j]);
    }
  }

  // --- What the conversion keeps ---

  lemma {:induction false} LastCons<T, K>(a: T, s: seq<T>, key: T -> K, k: K)
    ensures LastWith([a] + s, key, k) ==
            if LastWith(s, key, k).Some? then LastWith(s, key, k) else if key(a) == k then Some(a) else None
    decreases |s|
  {
    if s == [] {
      assert [a] + s == [a] && [a][..0] == [];
      assert LastWith([], key, k) == None;
    } else {
      var front := s[..|s| - 1];
      assert ([a] + s)[..|[a] + s| - 1] == [a] + front;
      LastCons(a, front, key, k);
    }
  }

  lemma {:induction false} InsertLast(x: Field, s: seq<Field>, k: string)
    ensures LastWith(Insert(x, s, FieldKey), FieldName, k) == LastWith([x] + s, FieldName, k)
  {
    hide LexLeq, FieldKey, LastWith;
    if s != [] && !LexLeq(FieldKey(x), FieldKey(s[0])) {
      var rest := s[1..];
      assert s == [s[0]] + rest;
      LexTotal(FieldKey(x), FieldKey(s[0]));
      if x.key == s[0].key {
        SameName(x, s[0]);
        LexTotal(FieldKey(x), FieldKey(x));
      }
      InsertLast(x, rest, k);
      LastCons(s[0], Insert(x, rest, FieldKey), FieldName, k);
      LastCons(x, rest, FieldName, k);
      LastCons(x, s, FieldName, k);
      LastCons(s[0], rest, FieldName, k);
    }
  }

  /** Sorting is stable: of entries with one key the last stays the last. */
  lemma {:induction false} SortLast(s: seq<Field>, k: string)
    ensures LastWith(Sort(s, FieldKey), FieldName, k) == LastWith(s, FieldName, k)
  {
    hide LastWith, FieldKey;
    if s != [] {
      var rest := s[1..];
      assert s == [s[0]] + rest;
      SortLast(rest, k);
      InsertLast(s[0], Sort(rest, FieldKey), k);
      LastCons(s[0], rest, FieldName, k);
      LastCons(s[0], Sort(rest, FieldKey), FieldName, k);
    }
  }

  lemma {:induction false} PutLast(d: seq<Field>, x: Field, k: string)
    requires Distinct(d, FieldName)
    ensures LastWith(Put(d, x, FieldName), FieldName, k) == if x.key == k then Some(x) else LastWith(d, FieldName, k)
  {
    hide LastWith;
    if d == [] {
      LastCons(x, [], FieldName, k);
      assert [x] + [] == [x] && LastWith(d, FieldName, k).None?;
    } else {
      var rest := d[1..];
      assert d == [d[0]] + rest;
      LastCons(d[0], rest, FieldName, k);
      forall i, j | 0 <= i < j < |rest| ensures FieldName(rest[i]) != FieldName(rest[j]) {
        assert FieldName(d[i + 1]) != FieldName(d[j + 1]);
      }
      if d[0].key == x.key {
        LastCons(x, rest, FieldName, k);
        forall y | y in rest ensures FieldName(y) != x.key {
          var i :| 0 <= i < |rest| && rest[i] == y;
          assert FieldName(d[0]) != FieldName(d[i + 1]);
        }
      } else {
        PutLast(rest, x, k);
        LastCons(d[0], Put(rest, x, FieldName), FieldName, k);
      }
    }
  }

  lemma {:induction false} DictionaryLast(fields: seq<Field>, k: string)
    ensures Distinct(AsDictionary(fields), FieldName)
    ensures LastWith(AsDictionary(fields), FieldName, k) == LastWith(fields, FieldName, k)
    decreases |fields|
  {
    if fields != [] {
      var front, last := fields[..|fields| - 1], fields[|fields| - 1];
      DictionaryLast(front, k);
      PutKeepsDistinct(AsDictionary(front), last, FieldName);
      PutLast(AsDictionary(front), last, k);
    }
  }

  /** The last entry of a mapping under its key. */
  ghost predicate LastEntry(fields: seq<Field>, i: int) {
    0 <= i < |fields| && forall j | i < j < |fields| :: fields[j].key != fields[i].key
  }

  lemma {:induction false} LastIndex(fields: seq<Field>, k: string)
    ensures LastWith(fields, FieldName, k).None? ==> forall i | 0 <= i < |fields| :: fields[i].key != k
    ensures LastWith(fields, FieldName, k).Some? ==>
              exists i | 0 <= i < |fields| :: LastEntry(fields, i) && fields[i].key == k
                                              && LastWith(fields, FieldName, k) == Some(fields[i])
    decreases |fields|
  {
    if fields != [] {
      var n := |fields| - 1;
      var front := fields[..n];
      if fields[n].key == k {
        assert LastEntry(fields, n);
      } else {
        LastIndex(front, k);
        if LastWith(front, FieldName, k).Some? {
          var i :| 0 <= i < |front| && LastEntry(front, i) && front[i].key == k
                   && LastWith(front, FieldName, k) == Some(front[i]);
          forall j | i < j < |fields| ensures fields[j].key != fields[i].key {
            if j < n { assert front[j].key != front[i].key; }
          }
          assert LastEntry(fields, i);
        } else {
          forall i | 0 <= i < |fields| ensures fields[i].key != k {
            if i < n { assert front[i].key != k; }
          }
        }
      }
    }
  }

  lemma LastOfEntry(fields: seq<Field>, i: int)
    requires LastEntry(fields, i)
    ensures LastWith(fields, FieldName, fields[i].key) == Some(fields[i])
  {
    LastIndex(fields, fields[i].key);
  }

  /** The entry at a place of the result is the conversion of the entry at a place of the mapping. */
  ghost predicate Converts(fields: seq<Field>, i: int, converted: seq<Field>, j: int, f: Formats) {
    && 0 <= i < |fields| && 0 <= j < |converted|
    && converted[j].key == fields[i].key && Canonical(fields[i].value, f) == Some(converted[j].value)
  }

  ghost predicate IsKept(fields: seq<Field>, i: int, converted: seq<Field>, f: Formats) {
    exists j :: Converts(fields, i, converted, j, f)
  }

  ghost predicate StemsFromLast(fields: seq<Field>, converted: seq<Field>, j: int, f: Formats) {
    exists i :: LastEntry(fields, i) && Converts(fields, i, converted, j, f)
  }

  /** One converted entry for each key, and it is the conversion of the last entry under the key. */
  ghost predicate KeepsEntries(fields: seq<Field>, converted: seq<Field>, f: Formats) {
    && (forall i | LastEntry(fields, i) :: IsKept(fields, i, converted, f))
    && (forall j | 0 <= j < |converted| :: StemsFromLast(fields, converted, j, f))
    && (forall i, j | 0 <= i < j < |converted| :: converted[i].key != converted[j].key)
  }

  /** Lists whose last entries under every key are the same. */
  ghost predicate SameLast(a: seq<Field>, b: seq<Field>) {
    forall k :: LastWith(a, FieldName, k) == LastWith(b, FieldName, k)
  }

  lemma LastIsAmong(a: seq<Field>, b: seq<Field>, i: int) returns (j: int)
    requires SameLast(a, b) && LastEntry(a, i)
    ensures LastEntry(b, j) && b[j] == a[i]
  {
    LastOfEntry(a, i);
    LastIndex(b, a[i].key);
    assert LastWith(b, FieldName, a[i].key) == Some(a[i]);
    hide LastWith;
    j :| 0 <= j < |b| && LastEntry(b, j) && LastWith(b, FieldName, a[i].key) == Some(b[j]);
  }

  lemma EntriesKept(fields: seq<Field>, entries: seq<Field>, converted: seq<Field>, f: Formats)
    requires |entries| == |fields|
    requires forall i | 0 <= i < |fields| ::
               entries[i].key == fields[i].key && Canonical(fields[i].value, f) == Some(entries[i].value)
    requires SameLast(entries, converted) && SameLast(converted, entries) && Distinct(converted, FieldName)
    ensures KeepsEntries(fields, converted, f)
  {
    hide Canonical, LastWith, SameLast;
    assert forall i :: LastEntry(fields, i) <==> LastEntry(entries, i);
    forall i | LastEntry(fields, i) ensures IsKept(fields, i, converted, f) {
      var j := LastIsAmong(entries, converted, i);
      assert Converts(fields, i, converted, j, f);
    }
    forall i, j | 0 <= i < j < |converted| ensures converted[i].key != converted[j].key {
      assert FieldName(converted[i]) != FieldName(converted[j]);
    }
    forall j | 0 <= j < |converted| ensures StemsFromLast(fields, converted, j, f) {
      assert LastEntry(converted, j) by {
        forall x | j < x < |converted| ensures converted[x].key != converted[j].key {
          assert FieldName(converted[j]) != FieldName(converted[x]);
        }
      }
      var i := LastIsAmong(converted, entries, j);
      assert Converts(fields, i, converted, j, f);
    }
  }

  lemma DictionaryKeepsLast(entries: seq<Field>)
    ensures var converted := AsDictionary(Sort(entries, FieldKey));
            SameLast(entries, converted) && SameLast(converted, entries) && Distinct(converted, FieldName)
  {
    var converted := AsDictionary(Sort(entries, FieldKey));
    forall k ensures LastWith(converted, FieldName, k) == LastWith(entries, FieldName, k) {
      DictionaryLast(Sort(entries, FieldKey), k);
      SortLast(entries, k);
    }
    DictionaryLast(Sort(entries, FieldKey), "");
    hide Sort, AsDictionary, LastWith, FieldKey;
  }

  lemma FieldsKept(fields: seq<Field>, f: Formats)
    ensures var r := Canonical(Fields(fields), f);
            && (r.Some? <==> forall i | 0 <= i < |fields| :: Canonical(fields[i].value, f).Some?)
            && (r.Some? ==> r.value.Fields? && KeepsEntries(fields, r.value.fields, f))
  {
    var values := FieldsForm(fields, f);
    hide Canonical, Sort, AsDictionary, KeepsEntries;
    if forall i | 0 <= i < |values| :: values[i].Some? {
      var entries := Rekeyed(fields, values);
      DictionaryKeepsLast(entries);
      hide SameLast, Distinct;
      EntriesKept(fields, entries, AsDictionary(Sort(entries, FieldKey)), f);
    }
  }

  /** Of a list every item is kept in its place, and of a mapping the last value under each key. */
  lemma CanonicalKeeps(v: AuditValue, f: Formats)
    requires v.Items? || v.Fields?
    ensures var r := Canonical(v, f);
            && (v.Items? ==>
                  && (r.Some? <==> forall i | 0 <= i < |v.items| :: Canonical(v.items[i], f).Some?)
                  && (r.Some? ==>
                        && r.value.Items? && |r.value.items| == |v.items|
                        && forall i | 0 <= i < |v.items| :: Canonical(v.items[i], f) == Some(r.value.items[i])))
            && (v.Fields? ==>
                  && (r.Some? <==> forall i | 0 <= i < |v.fields| :: Canonical(v.fields[i].value, f).Some?)
                  && (r.Some? ==> r.value.Fields? && KeepsEntries(v.fields, r.value.fields, f)))
  {
    if v.Fields? {
      FieldsKept(v.fields, f);
      hide KeepsEntries, Canonical;
    } else {
      hide CanonicalDecimal, Sort, AsDictionary;
    }
  }

  /**
   * A decimal becomes a text that reads back as its rounded value, identifiers and times their ISO texts; texts,
   * whole numbers and truth values stay, anything else is refused.
   */
  lemma CanonicalLeaf(v: AuditValue, f: Formats)
    requires !v.Items? && !v.Fields?
    ensures var r := Canonical(v, f);
            && (r.None? <==> v.Unsupported?)
            && (v.Amount? ==> r.value.Text? && Value(ReadDecimal(r.value.text)) == Value(Rounded(v.decimal)))
            && (v.Identifier? ==> r == Some(Text(f.id(v.id))))
            && (v.Moment? ==> r == Some(Text(f.moment(v.at))))
            && (v.Day? ==> r == Some(Text(f.day(v.date))))
            && (v.Nothing? || v.Truth? || v.Whole? || v.Text? ==> r == Some(v))
  {
    if v.Amount? { CanonicalReadsBack(v.decimal); }
    hide CanonicalDecimal, Sort, AsDictionary, ReadDecimal, Value, Rounded;
  }
}
