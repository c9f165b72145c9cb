/** The plural-rules fill-in for the app's five languages, checked against the CLDR clauses written in the
    condition language of UTS #35 Part 3, section 5.1. */
module PluralRules {
  import opened Common
  import opened Rounding

  datatype Category = Zero | One | Two | Few | Many | Other

  datatype RuleType = Cardinal | Ordinal

  /** A JavaScript number, as far as it matters here: an exact finite value, or NaN or an infinity. */
  datatype Number = Finite(value: real) | NotFinite

  // ----- operands, computed by printing the number -----

  /** `Math.abs(n).toFixed(3)`, in thousandths: the nearest, the larger of two. */
  function Thousandths(x: real): nat {
    (Abs(x) * 1000.0 + 0.5).Floor
  }

  function Digit(d: nat): char
    requires d < 10
  {
    '0' + d as char
  }

  function Digits(n: nat): string {
    if n < 10 then [Digit(n)] else Digits(n / 10) + [Digit(n % 10)]
  }

  /** The printed fraction of f thousandths, trailing zeros dropped. */
  function FractionText(f: nat): string
    requires f < 1000
  {
    if f == 0 then ""
    else if f % 100 == 0 then ['.', Digit(f / 100)]
    else if f % 10 == 0 then ['.', Digit(f / 100), Digit(f / 10 % 10)]
    else ['.', Digit(f / 100), Digit(f / 10 % 10), Digit(f % 10)]
  }

  /** `String(t / 1000)`, for values small enough to print without an exponent. */
  function Printed(t: nat): string {
    Digits(t / 1000) + FractionText(t % 1000)
  }

  function IndexOf(s: string, c: char): (r: int)
    ensures -1 <= r < |s|
    ensures r >= 0 ==> s[r] == c
  {
    if s == [] then -1
    else if s[0] == c then 0
    else var rest := IndexOf(s[1..], c); if rest == -1 then -1 else rest + 1
  }

  /** CLDR operands: n is the value in thousandths, i its integer part, v the number of visible fraction digits. */
  datatype Operands = Operands(n: nat, i: nat, v: nat)

  function OperandsOf(x: real): Operands {
    var abs := Thousandths(x);
    var text := Printed(abs);
    var dot := IndexOf(text, '.');
    Operands(abs, abs / 1000, if dot == -1 then 0 else |text| - dot - 1)
  }

  lemma {:induction false} DotAfterDigits(n: nat, rest: string)
    ensures IndexOf(Digits(n) + rest, '.') == (var k := IndexOf(rest, '.'); if k == -1 then -1 else |Digits(n)| + k)
    decreases n
  {
    var last := [Digit(n % 10)];
    assert (last + rest)[1..] == rest && (last + rest)[0] != '.';
    if n >= 10 {
      assert Digits(n) + rest == Digits(n / 10) + (last + rest);
      DotAfterDigits(n / 10, last + rest);
    }
  }

  function Pow10(k: nat): nat {
    if k == 0 then 1 else 10 * Pow10(k - 1)
  }

  /** The visible digits of t thousandths. */
  lemma VisibleDigits(x: real)
    ensures var f := Thousandths(x) % 1000;
            OperandsOf(x).v == if f == 0 then 0 else if f % 100 == 0 then 1 else if f % 10 == 0 then 2 else 3
  {
    var t := Thousandths(x);
    var head, tail := Digits(t / 1000), FractionText(t % 1000);
    DotAfterDigits(t / 1000, tail);
    if tail != "" {
      assert tail[0] == '.' && IndexOf(tail, '.') == 0;
    }
  }

  lemma ScaledThousandths(t: nat)
    ensures 10 * t % 1000 == 0 <==> t % 1000 % 100 == 0
    ensures 100 * t % 1000 == 0 <==> t % 1000 % 10 == 0
    ensures 1000 * t % 1000 == 0
  {
    var q, f := t / 1000, t % 1000;
    RemainderUnique(10 * t, 1000, 10 * q + f / 100, 10 * (f % 100));
    RemainderUnique(100 * t, 1000, 100 * q + f / 10, 100 * (f % 10));
    RemainderUnique(1000 * t, 1000, t, 0);
  }

  /** Measuring the text after the dot finds the least number of decimals that shows the rounded number exactly. */
  lemma VisibleDigitsLeast(x: real)
    ensures var o := OperandsOf(x);
            Pow10(o.v) * o.n % 1000 == 0 && forall k: nat :: k < o.v ==> Pow10(k) * o.n % 1000 != 0
  {
    var t, v := Thousandths(x), OperandsOf(x).v;
    VisibleDigits(x);
    assert Pow10(0) == 1 && Pow10(1) == 10 && Pow10(2) == 100 && Pow10(3) == 1000;
    ScaledThousandths(t);
    forall k: nat | k < v ensures Pow10(k) * t % 1000 != 0 {
      assert k == 0 || k == 1 || k == 2;
    }
  }

  /** The number is rounded to the nearest thousandth, the larger of two, and split before the point. */
  lemma OperandsNearest(x: real)
    ensures var o := OperandsOf(x);
            && o.n as real - 0.5 <= Abs(x) * 1000.0 < o.n as real + 0.5
            && 1000 * o.i <= o.n < 1000 * o.i + 1000
  {
  }

  // ----- the app's selectors -----

  function Between(x: int, from: int, to: int): bool {
    x >= from && x <= to
  }

  datatype Language = En | De | Es | Pl | Uk

  function CardinalCategories(language: Language): seq<Category> {
    match language
    case En => [One, Other]
    case De => [One, Other]
    case Es => [One, Many, Other]
    case Pl => [One, Few, Many, Other]
    case Uk => [One, Few, Many, Other]
  }

  function SelectCardinal(language: Language, x: real): Category {
    SelectBy(language, OperandsOf(x))
  }

  function SelectBy(language: Language, o: Operands): Category {
    match language
    case En =>
      if o.i == 1 && o.v == 0 then One else Other
    case De =>
      if o.i == 1 && o.v == 0 then One else Other
    case Es =>
      if o.n == 1000 then One
      else if o.i != 0 && o.i % 1_000_000 == 0 && o.v == 0 then Many
      else Other
    case Pl =>
      if o.v != 0 then Other
      else if o.i == 1 then One
      else if Between(o.i % 10, 2, 4) && !Between(o.i % 100, 12, 14) then Few
      else Many
    case Uk =>
      if o.v != 0 then Other
      else if o.i % 10 == 1 && o.i % 100 != 11 then One
      else if Between(o.i % 10, 2, 4) && !Between(o.i % 100, 12, 14) then Few
      else Many
  }

  /** JavaScript's `n % m` on a number that is not negative. */
  function Remainder(n: real, m: int): real
    requires 0 < m
  {
    n - (m * (n / m as real).Floor) as real
  }

  function OrdinalEn(x: real): Category {
    var n := Abs(x);
    if Remainder(n, 10) == 1.0 && Remainder(n, 100) != 11.0 then One
    else if Remainder(n, 10) == 2.0 && Remainder(n, 100) != 12.0 then Two
    else if Remainder(n, 10) == 3.0 && Remainder(n, 100) != 13.0 then Few
    else Other
  }

  // ----- UTS #35 conditions -----

  datatype Operand = N | I | V | E

  /** A relation compares an operand, reduced by a modulus unless that is 0, with the range lo..hi. */
  datatype Condition =
    | Rel(operand: Operand, modulus: nat, negated: bool, lo: nat, hi: nat)
    | And(left: Condition, right: Condition)
    | Or(left: Condition, right: Condition)

  /** The operand in thousandths; e is 0, as for every number not written in compact form. */
  function OperandValue(op: Operand, o: Operands): nat {
    match op
    case N => o.n
    case I => 1000 * o.i
    case V => 1000 * o.v
    case E => 0
  }

  /** Only whole values are in a range. */
  predicate InRange(value: nat, lo: nat, hi: nat) {
    value % 1000 == 0 && lo <= value / 1000 <= hi
  }

  predicate Holds(c: Condition, o: Operands)
    decreases c
  {
    match c
    case Rel(op, m, negated, lo, hi) =>
      var value := OperandValue(op, o);
      InRange(if m == 0 then value else value % (1000 * m), lo, hi) != negated
    case And(l, r) => Holds(l, o) && Holds(r, o)
    case Or(l, r) => Holds(l, o) || Holds(r, o)
  }

  function Eq(op: Operand, m: nat, lo: nat, hi: nat): Condition { Rel(op, m, false, lo, hi) }

  function Ne(op: Operand, m: nat, lo: nat, hi: nat): Condition { Rel(op, m, true, lo, hi) }

  datatype RuleSet = CardinalRules(language: Language) | OrdinalRules(language: Language)

  /** The explicit clause CLDR gives a category, if any. */
  function ClauseOf(rules: RuleSet, c: Category): Option<Condition> {
    match rules
    case CardinalRules(En) => if c == One then Some(And(Eq(I, 0, 1, 1), Eq(V, 0, 0, 0))) else None
    case CardinalRules(De) => if c == One then Some(And(Eq(I, 0, 1, 1), Eq(V, 0, 0, 0))) else None
    case CardinalRules(Es) =>
      if c == One then Some(Eq(N, 0, 1, 1))
      else if c == Many then
        Some(Or(And(And(Eq(E, 0, 0, 0), Ne(I, 0, 0, 0)), And(Eq(I, 1_000_000, 0, 0), Eq(V, 0, 0, 0))), Ne(E, 0, 0, 5)))
      else None
    case CardinalRules(Pl) =>
      if c == One then Some(And(Eq(I, 0, 1, 1), Eq(V, 0, 0, 0)))
      else if c == Few then Some(And(Eq(V, 0, 0, 0), And(Eq(I, 10, 2, 4), Ne(I, 100, 12, 14))))
      else if c == Many then
        Some(Or(And(Eq(V, 0, 0, 0), And(Ne(I, 0, 1, 1), Eq(I, 10, 0, 1))),
                Or(And(Eq(V, 0, 0, 0), Eq(I, 10, 5, 9)), And(Eq(V, 0, 0, 0), Eq(I, 100, 12, 14)))))
      else None
    case CardinalRules(Uk) =>
      if c == One then Some(And(Eq(V, 0, 0, 0), And(Eq(I, 10, 1, 1), Ne(I, 100, 11, 11))))
      else if c == Few then Some(And(Eq(V, 0, 0, 0), And(Eq(I, 10, 2, 4), Ne(I, 100, 12, 14))))
      else if c == Many then
        Some(Or(And(Eq(V, 0, 0, 0), Eq(I, 10, 0, 0)),
                Or(And(Eq(V, 0, 0, 0), Eq(I, 10, 5, 9)), And(Eq(V, 0, 0, 0), Eq(I, 100, 11, 14)))))
      else None
    case OrdinalRules(En) =>
      if c == One then Some(And(Eq(N, 10, 1, 1), Ne(N, 100, 11, 11)))
      else if c == Two then Some(And(Eq(N, 10, 2, 2), Ne(N, 100, 12, 12)))
      else if c == Few then Some(And(Eq(N, 10, 3, 3), Ne(N, 100, 13, 13)))
      else None
    case OrdinalRules(Uk) => if c == Few then Some(And(Eq(N, 10, 3, 3), Ne(N, 100, 13, 13))) else None
    case OrdinalRules(_) => None
  }

  predicate Explicit(rules: RuleSet, c: Category, o: Operands) {
    ClauseOf(rules, c).Some? && Holds(ClauseOf(rules, c).value, o)
  }

  /** A number falls in a category by its clause; in `other` when no explicit clause holds. */
  predicate Falls(rules: RuleSet, c: Category, o: Operands) {
    if c == Other then
      !Explicit(rules, Zero, o) && !Explicit(rules, One, o) && !Explicit(rules, Two, o) && !Explicit(rules, Few, o) && !Explicit(rules, Many, o)
    else Explicit(rules, c, o)
  }

  // ----- the selectors follow the clauses -----

  lemma LastDigits(i: nat)
    ensures i % 100 % 10 == i % 10
  {
  }

  /** A whole operand's remainder, read in thousandths. */
  lemma WholeRemainder(k: nat, m: nat)
    requires 0 < m
    ensures 1000 * k % (1000 * m) == 1000 * (k % m)
  {
    var q := k / m;
    assert k == m * q + k % m;
    assert 1000 * k == (1000 * m) * q + 1000 * (k % m);
    RemainderUnique(1000 * k, 1000 * m, q, 1000 * (k % m));
  }

  lemma RemainderUnique(a: nat, m: nat, q: nat, r: nat)
    requires a == m * q + r && r < m
    ensures a % m == r
  {
    var q' := a / m;
    assert a == m * q' + a % m;
    assert (q + 1) * m == m * q + m && (q' + 1) * m == m * q' + m;
    if q < q' {
      MulOrder(q + 1, q', m);
    } else if q' < q {
      MulOrder(q' + 1, q, m);
    }
  }

  lemma HoldsRelI(o: Operands, m: nat, negated: bool, lo: nat, hi: nat)
    ensures Holds(Rel(I, m, negated, lo, hi), o) == ((lo <= (if m == 0 then o.i else o.i % m) <= hi) != negated)
  {
    if m != 0 {
      WholeRemainder(o.i, m);
    }
  }

  lemma HoldsV(o: Operands)
    ensures Holds(Eq(V, 0, 0, 0), o) == (o.v == 0)
  {
  }

  lemma EnClauses(o: Operands, c: Category)
    ensures forall l :: l == En || l == De ==> (SelectBy(l, o) == c <==> Falls(CardinalRules(l), c, o))
  {
    HoldsRelI(o, 0, false, 1, 1);
    HoldsV(o);
  }

  lemma EsClauses(o: Operands, c: Category)
    requires o.i == o.n / 1000 && (o.v == 0 <==> o.n % 1000 == 0)
    ensures SelectBy(Es, o) == c <==> Falls(CardinalRules(Es), c, o)
  {
    HoldsRelI(o, 0, true, 0, 0);
    HoldsRelI(o, 1_000_000, false, 0, 0);
    HoldsV(o);
  }

  lemma PlClauses(o: Operands, c: Category)
    ensures SelectBy(Pl, o) == c <==> Falls(CardinalRules(Pl), c, o)
  {
    HoldsRelI(o, 0, false, 1, 1);
    HoldsRelI(o, 0, true, 1, 1);
    HoldsRelI(o, 10, false, 0, 1);
    HoldsRelI(o, 10, false, 2, 4);
    HoldsRelI(o, 10, false, 5, 9);
    HoldsRelI(o, 100, true, 12, 14);
    HoldsRelI(o, 100, false, 12, 14);
    HoldsV(o);
    LastDigits(o.i);
  }

  lemma UkOneFew(o: Operands)
    ensures Explicit(CardinalRules(Uk), One, o) <==> o.v == 0 && o.i % 10 == 1 && o.i % 100 != 11
    ensures Explicit(CardinalRules(Uk), Few, o) <==> o.v == 0 && 2 <= o.i % 10 <= 4 && !(12 <= o.i % 100 <= 14)
  {
    HoldsRelI(o, 10, false, 1, 1);
    HoldsRelI(o, 100, true, 11, 11);
    HoldsRelI(o, 10, false, 2, 4);
    HoldsRelI(o, 100, true, 12, 14);
    HoldsV(o);
  }

  lemma UkMany(o: Operands)
    ensures Explicit(CardinalRules(Uk), Many, o)
            <==> o.v == 0 && (o.i % 10 == 0 || 5 <= o.i % 10 <= 9 || 11 <= o.i % 100 <= 14)
  {
    HoldsRelI(o, 10, false, 0, 0);
    HoldsRelI(o, 10, false, 5, 9);
    HoldsRelI(o, 100, false, 11, 14);
    HoldsV(o);
  }

  lemma UkClauses(o: Operands, c: Category)
    ensures SelectBy(Uk, o) == c <==> Falls(CardinalRules(Uk), c, o)
  {
    UkOneFew(o);
    UkMany(o);
    LastDigits(o.i);
  }

  /** For every number: the app selects a category exactly when CLDR's clauses put the number there, so the
      clauses are disjoint and, with `other`, exhaustive.  The sign plays no part. */
  lemma CardinalMatchesCldr(language: Language, x: real, c: Category)
    ensures SelectCardinal(language, x) == c <==> Falls(CardinalRules(language), c, OperandsOf(x))
    ensures SelectCardinal(language, -x) == SelectCardinal(language, x)
  {
    var o := OperandsOf(x);
    VisibleDigits(x);
    match language
    case En => EnClauses(o, c);
    case De => EnClauses(o, c);
    case Es => EsClauses(o, c);
    case Pl => PlClauses(o, c);
    case Uk => UkClauses(o, c);
  }

  // ----- ordinals -----

  predicate Whole(n: real) {
    n.Floor as real == n
  }

  /** A real remainder is a digit pattern's value only at whole numbers. */
  lemma WholeRemainderIff(n: real, m: int, k: int)
    requires 0.0 <= n && (m == 10 || m == 100) && 0 <= k < m
    ensures Remainder(n, m) == k as real <==> Whole(n) && n.Floor % m == k
  {
    var q := (n / m as real).Floor;
    assert q as real <= n / m as real < q as real + 1.0;
    assert (m * q) as real <= n < (m * q) as real + m as real;
    if Remainder(n, m) == k as real {
      assert n == (m * q + k) as real;
      RemainderUnique(n.Floor, m, q, k);
    }
    if Whole(n) {
      var r := n.Floor - m * q;
      assert 0 <= r < m;
      RemainderUnique(n.Floor, m, q, r);
    }
  }

  /** The app's test for one ordinal ending. */
  predicate EndsLike(n: real, k: int) {
    Remainder(n, 10) == k as real && Remainder(n, 100) != (10 + k) as real
  }

  lemma EndsLikeIff(n: real, k: int)
    requires 0.0 <= n && 1 <= k <= 3
    ensures EndsLike(n, k) <==> Whole(n) && n.Floor % 10 == k && n.Floor % 100 != 10 + k
  {
    WholeRemainderIff(n, 10, k);
    WholeRemainderIff(n, 100, 10 + k);
  }

  lemma OrdinalEndings(x: real)
    ensures OrdinalEn(x) == if EndsLike(Abs(x), 1) then One else if EndsLike(Abs(x), 2) then Two
                            else if EndsLike(Abs(x), 3) then Few else Other
  {
  }

  lemma WholeThousandths(x: real)
    requires Whole(Abs(x))
    ensures Thousandths(x) == 1000 * Abs(x).Floor
  {
    assert Abs(x) * 1000.0 == (1000 * Abs(x).Floor) as real;
  }

  lemma HoldsEnding(o: Operands, w: nat, k: nat)
    requires o.n == 1000 * w && 1 <= k <= 3
    ensures Holds(And(Eq(N, 10, k, k), Ne(N, 100, 10 + k, 10 + k)), o) <==> w % 10 == k && w % 100 != 10 + k
  {
    WholeRemainder(w, 10);
    WholeRemainder(w, 100);
  }

  /** The app's ordinal of a whole number is CLDR's; of any other number it is `other`. */
  lemma OrdinalByCases(x: real)
    ensures Whole(Abs(x)) ==> Falls(OrdinalRules(En), OrdinalEn(x), OperandsOf(x))
    ensures !Whole(Abs(x)) ==> OrdinalEn(x) == Other
  {
    var n := Abs(x);
    OrdinalEndings(x);
    EndsLikeIff(n, 1);
    EndsLikeIff(n, 2);
    EndsLikeIff(n, 3);
    if Whole(n) {
      WholeThousandths(x);
      HoldsEnding(OperandsOf(x), n.Floor, 1);
      HoldsEnding(OperandsOf(x), n.Floor, 2);
      HoldsEnding(OperandsOf(x), n.Floor, 3);
    }
  }

  /** A number that is whole once rounded has the ordinal endings of its integer part; any other has none. */
  lemma EndingHolds(o: Operands, k: nat)
    requires 1 <= k <= 3
    ensures Holds(And(Eq(N, 10, k, k), Ne(N, 100, 10 + k, 10 + k)), o)
        <==> o.n % 1000 == 0 && o.n / 1000 % 10 == k && o.n / 1000 % 100 != 10 + k
  {
    if o.n % 1000 == 0 {
      HoldsEnding(o, o.n / 1000, k);
    } else {
      FractionKept(o.n, 10);
    }
  }

  lemma FractionKept(n: nat, m: nat)
    requires m == 10 || m == 100
    ensures n % (1000 * m) % 1000 == n % 1000
  {
  }

  /** Ordinals are chosen without the rounding cardinals get, so the English ones agree with CLDR exactly on whole
      numbers and on those whose rounding to thousandths is not whole, ends in none of 1, 2 and 3, or ends in
      11, 12 or 13. */
  lemma OrdinalMatchesCldrIff(x: real)
    ensures var t := Thousandths(x);
            var w := t / 1000;
            Falls(OrdinalRules(En), OrdinalEn(x), OperandsOf(x))
            <==> Whole(Abs(x)) || t % 1000 != 0 || !(1 <= w % 10 <= 3) || 11 <= w % 100 <= 13
  {
    OrdinalByCases(x);
    var o := OperandsOf(x);
    EndingHolds(o, 1);
    EndingHolds(o, 2);
    EndingHolds(o, 3);
    LastDigits(o.n / 1000);
  }

  /** The other languages always get `other`: CLDR's answer in German, Spanish and Polish, and in Ukrainian exactly for
      the numbers whose rounding is not whole, does not end in 3, or ends in 13. */
  lemma OtherOrdinalsMatchCldrIff(language: Language, x: real)
    requires language != En
    ensures var t := Thousandths(x);
            var w := t / 1000;
            Falls(OrdinalRules(language), Select(PluralRules(language, Ordinal), Finite(x)), OperandsOf(x))
            <==> language != Uk || t % 1000 != 0 || w % 10 != 3 || w % 100 == 13
  {
    EndingHolds(OperandsOf(x), 3);
  }

  /** 1.0001 is shown as 1 and counted `one` by CLDR, but the app's ordinal of it is `other`. */
  lemma OrdinalNotRounded()
    ensures SelectCardinal(En, 1.0001) == One && OrdinalEn(1.0001) == Other
    ensures Falls(OrdinalRules(En), One, OperandsOf(1.0001))
  {
    VisibleDigits(1.0001);
    OrdinalByCases(1.0001);
  }

  // ----- negotiation and the class -----

  /** The constructor's first argument. */
  datatype Locales = Unset | Single(tag: string) | Several(tags: seq<string>)

  datatype PluralRules = PluralRules(language: Language, kind: RuleType)

  /** The part of a string before its first '-' or '_'. */
  function Head(s: string): string {
    if s == [] || s[0] == '-' || s[0] == '_' then [] else [s[0]] + Head(s[1..])
  }

  function LanguageNamed(name: string): Option<Language> {
    if name == "en" then Some(En)
    else if name == "de" then Some(De)
    else if name == "es" then Some(Es)
    else if name == "pl" then Some(Pl)
    else if name == "uk" then Some(Uk)
    else None
  }

  /** `lower` is the platform's lower-casing, left abstract. */
  function LanguageOf(tag: string, lower: string -> string): Option<Language> {
    LanguageNamed(Head(lower(tag)))
  }

  function Requested(locales: Locales): seq<string> {
    match locales
    case Unset => []
    case Single(tag) => if tag == "" then [] else [tag]
    case Several(tags) => tags
  }

  function FirstSupported(tags: seq<string>, lower: string -> string): Option<Language> {
    if tags == [] then None
    else if LanguageOf(tags[0], lower).Some? then LanguageOf(tags[0], lower)
    else FirstSupported(tags[1..], lower)
  }

  function Construct(locales: Locales, kind: Option<RuleType>, lower: string -> string): PluralRules {
    PluralRules(FirstSupported(Requested(locales), lower).GetOr(En), kind.GetOr(Cardinal))
  }

  function SupportedAmong(tags: seq<string>, lower: string -> string): seq<string> {
    if tags == [] then [] else
      (if LanguageOf(tags[0], lower).Some? then [tags[0]] else []) + SupportedAmong(tags[1..], lower)
  }

  function SupportedLocalesOf(locales: Locales, lower: string -> string): seq<string> {
    SupportedAmong(Requested(locales), lower)
  }

  function Select(rules: PluralRules, n: Number): Category {
    if n.NotFinite? then Other
    else if rules.kind == Ordinal then if rules.language == En then OrdinalEn(n.value) else Other
    else SelectCardinal(rules.language, n.value)
  }

  function ResolvedCategories(rules: PluralRules): seq<Category> {
    if rules.kind == Ordinal then if rules.language == En then [One, Two, Few, Other] else [Other]
    else CardinalCategories(rules.language)
  }

  lemma {:induction false} FirstIsFirst(tags: seq<string>, lower: string -> string)
    ensures var supported := SupportedAmong(tags, lower);
            if supported == [] then FirstSupported(tags, lower) == None
            else FirstSupported(tags, lower) == LanguageOf(supported[0], lower) && LanguageOf(supported[0], lower).Some?
    ensures SupportedAmong(tags, lower) == [] <==> forall t :: t in tags ==> LanguageOf(t, lower).None?
  {
    if tags != [] {
      FirstIsFirst(tags[1..], lower);
      assert tags == [tags[0]] + tags[1..];
    }
  }

  /** `resolvedOptions().locale`. */
  function CodeOf(language: Language): string {
    match language
    case En => "en"
    case De => "de"
    case Es => "es"
    case Pl => "pl"
    case Uk => "uk"
  }

  predicate AtEnd(rest: string) {
    rest == "" || rest[0] == '-' || rest[0] == '_'
  }

  /** The tag, in lower case, is the language's code or goes on behind it with '-' or '_'. */
  ghost predicate TagFor(tag: string, language: Language, lower: string -> string) {
    CodeOf(language) <= lower(tag) && AtEnd(lower(tag)[|CodeOf(language)|..])
  }

  lemma NamedIff(name: string, language: Language)
    ensures LanguageNamed(name) == Some(language) <==> name == CodeOf(language)
  {
  }

  lemma {:induction false} HeadIff(s: string, head: string)
    requires '-' !in head && '_' !in head
    ensures Head(s) == head <==> head <= s && AtEnd(s[|head|..])
  {
    if s != "" && head != "" {
      assert head == [head[0]] + head[1..] && head[0] in head;
      HeadIff(s[1..], head[1..]);
      assert s == [s[0]] + s[1..];
      if head <= s {
        assert s[1..][|head| - 1..] == s[|head|..];
      }
      assert head[0] == s[0] ==> (head <= s <==> head[1..] <= s[1..]);
    }
  }

  lemma LanguageOfIff(tag: string, language: Language, lower: string -> string)
    ensures LanguageOf(tag, lower) == Some(language) <==> TagFor(tag, language, lower)
  {
    NamedIff(Head(lower(tag)), language);
    HeadIff(lower(tag), CodeOf(language));
  }

  lemma UnsupportedIff(tag: string, lower: string -> string)
    ensures LanguageOf(tag, lower).None? <==> forall l: Language :: !TagFor(tag, l, lower)
  {
    forall l: Language ensures LanguageOf(tag, lower) == Some(l) <==> TagFor(tag, l, lower) {
      LanguageOfIff(tag, l, lower);
    }
    if LanguageOf(tag, lower).Some? {
      assert TagFor(tag, LanguageOf(tag, lower).value, lower);
    }
  }

  /** The rules built for a request are for the language that the first tag `supportedLocalesOf` reports for the same
      request names; English if it reports none, which is so exactly when no tag names any of the languages. */
  lemma NegotiatedIsFirstReported(locales: Locales, kind: Option<RuleType>, lower: string -> string)
    ensures var reported := SupportedLocalesOf(locales, lower);
            if reported == [] then Construct(locales, kind, lower).language == En
            else TagFor(reported[0], Construct(locales, kind, lower).language, lower)
    ensures SupportedLocalesOf(locales, lower) == []
        <==> forall t, l: Language :: t in Requested(locales) ==> !TagFor(t, l, lower)
  {
    FirstIsFirst(Requested(locales), lower);
    var reported, rules := SupportedLocalesOf(locales, lower), Construct(locales, kind, lower);
    if reported != [] {
      LanguageOfIff(reported[0], rules.language, lower);
    }
    forall t | t in Requested(locales) ensures LanguageOf(t, lower).None? <==> forall l: Language :: !TagFor(t, l, lower) {
      UnsupportedIff(t, lower);
    }
  }

  /** Reported are the tags that name one of the languages, each as often as it was asked for, and no others. */
  lemma {:induction false} ReportedIff(tags: seq<string>, tag: string, lower: string -> string)
    ensures multiset(SupportedAmong(tags, lower))[tag]
            == if exists l: Language :: TagFor(tag, l, lower) then multiset(tags)[tag] else 0
  {
    if tags != [] {
      ReportedIff(tags[1..], tag, lower);
      UnsupportedIff(tags[0], lower);
      assert tags == [tags[0]] + tags[1..];
    }
  }

  /** The tags of a request: none, one unless empty, or several. */
  ghost predicate Asks(locales: Locales, tags: seq<string>) {
    match locales
    case Unset => tags == []
    case Single(tag) => tags == if |tag| == 0 then [] else [tag]
    case Several(list) => tags == list
  }

  /** `language` is that of the first tag which names one, and English where none does. */
  ghost predicate Negotiates(tags: seq<string>, language: Language, lower: string -> string) {
    if exists i, l: Language :: 0 <= i < |tags| && TagFor(tags[i], l, lower) then
      exists i :: 0 <= i < |tags| && TagFor(tags[i], language, lower)
                  && forall j, l: Language :: 0 <= j < i ==> !TagFor(tags[j], l, lower)
    else language == En
  }

  lemma {:induction false} FirstSupportedIs(tags: seq<string>, lower: string -> string)
    ensures Negotiates(tags, FirstSupported(tags, lower).GetOr(En), lower)
    ensures FirstSupported(tags, lower).None? <==> forall i, l: Language :: 0 <= i < |tags| ==> !TagFor(tags[i], l, lower)
  {
    if tags != [] {
      UnsupportedIff(tags[0], lower);
      if LanguageOf(tags[0], lower).Some? {
        LanguageOfIff(tags[0], LanguageOf(tags[0], lower).value, lower);
        assert TagFor(tags[0], LanguageOf(tags[0], lower).value, lower);
      } else {
        var rest := tags[1..];
        FirstSupportedIs(rest, lower);
        LaterTags(tags, FirstSupported(rest, lower).GetOr(En), lower);
      }
    }
  }

  /** A tag that names no language has no part in the choice. */
  lemma LaterTags(tags: seq<string>, language: Language, lower: string -> string)
    requires tags != [] && (forall l: Language :: !TagFor(tags[0], l, lower)) && Negotiates(tags[1..], language, lower)
    ensures Negotiates(tags, language, lower)
    ensures (forall i, l: Language :: 0 <= i < |tags| ==> !TagFor(tags[i], l, lower))
        <==> forall i, l: Language :: 0 <= i < |tags[1..]| ==> !TagFor(tags[1..][i], l, lower)
  {
    var rest := tags[1..];
    assert forall i :: 0 <= i < |rest| ==> rest[i] == tags[i + 1];
    if i, l: Language :| 0 <= i < |tags| && TagFor(tags[i], l, lower) {
      assert TagFor(rest[i - 1], l, lower);
      var k :| 0 <= k < |rest| && TagFor(rest[k], language, lower) && forall j, m: Language :: 0 <= j < k ==> !TagFor(rest[j], m, lower);
      assert TagFor(tags[k + 1], language, lower);
      forall j, m: Language | 0 <= j < k + 1 ensures !TagFor(tags[j], m, lower) {
        if j > 0 {
          assert !TagFor(rest[j - 1], m, lower);
        }
      }
    }
  }

  /** From the tags to the category: the rules are those of the language negotiated, they put a number in a category exactly
      when CLDR's clauses of that language do, and anything not finite in `other`. */
  lemma SelectsAsCldr(locales: Locales, tags: seq<string>, kind: Option<RuleType>, lower: string -> string, x: real, c: Category)
    requires Asks(locales, tags)
    ensures var rules := Construct(locales, kind, lower);
            && Negotiates(tags, rules.language, lower)
            && (rules.kind == Ordinal <==> kind == Some(Ordinal))
            && (kind != Some(Ordinal) ==>
                  (Select(rules, Finite(x)) == c <==> Falls(CardinalRules(rules.language), c, OperandsOf(x))))
            && Select(rules, NotFinite) == Other
  {
    FirstSupportedIs(tags, lower);
    var language := Construct(locales, kind, lower).language;
    CardinalMatchesCldr(language, x, c);
  }

  lemma CardinalExample(language: Language, x: real, t: nat)
    requires Thousandths(x) == t
    ensures t == 500 ==> SelectCardinal(language, x) == Other
    ensures t == 0 ==> SelectCardinal(language, x) == if language == Pl || language == Uk then Many else Other
    ensures t == 1000 ==> SelectCardinal(language, x) == One
    ensures t == 2000 && (language == Pl || language == Uk) ==> SelectCardinal(language, x) == Few
    ensures t == 1_000_000_000 && language == Es ==> SelectCardinal(language, x) == Many
  {
    VisibleDigits(x);
  }

  lemma OrdinalExample(w: nat)
    requires w <= 3
    ensures OrdinalEn(w as real) == if w == 1 then One else if w == 2 then Two else if w == 3 then Few else Other
  {
    var n := w as real;
    OrdinalEndings(n);
    EndsLikeIff(n, 1);
    EndsLikeIff(n, 2);
    EndsLikeIff(n, 3);
  }

  /** For every negotiated locale and type, the categories reported are exactly those some number is given. */
  lemma CategoriesAreTheRange(rules: PluralRules, c: Category)
    ensures c in ResolvedCategories(rules) <==> exists n :: Select(rules, n) == c
  {
    if c in ResolvedCategories(rules) {
      var x: real;
      if rules.kind == Ordinal {
        var w := if c == One then 1 else if c == Two then 2 else if c == Few then 3 else 0;
        OrdinalExample(w);
        x := w as real;
      } else if c == Many && rules.language != Es {
        x := 0.0;
        CardinalExample(rules.language, 0.0, 0);
      } else {
        x := if c == One then 1.0 else if c == Few then 2.0 else if c == Many then 1_000_000.0 else 0.5;
        CardinalExample(rules.language, x, if c == One then 1000 else if c == Few then 2000 else if c == Many then 1_000_000_000 else 500);
      }
      assert Select(rules, Finite(x)) == c;
    }
  }

  /** The Ukrainian third: `few` by CLDR, `other` by the app. */
  lemma UkrainianThird()
    ensures Select(PluralRules(Uk, Ordinal), Finite(3.0)) == Other
    ensures Falls(OrdinalRules(Uk), Few, OperandsOf(3.0))
  {
    WholeThousandths(3.0);
    EndingHolds(OperandsOf(3.0), 3);
  }
}
