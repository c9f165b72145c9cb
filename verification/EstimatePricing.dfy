/** Pricing an estimate with rounding at every stage, and splitting tax-inclusive deposits and draws.  Money is
    integer cents; quantities, prices and percentages are exact reals. */
module EstimatePricing {
  import opened Common
  import opened Rounding

  datatype Norm = Norm(materialCode: string, quantityPerUnit: real, wasteFactorPercent: Option<real>)

  datatype RateItem = RateItem(laborHoursPerUnit: real, materials: seq<Norm>)

  datatype Catalog = Catalog(rateItems: map<string, RateItem>, prices: map<string, real>)

  datatype Line = Line(materialsCost: int, laborCost: int, lineTotal: int)

  /** An unknown rate item makes the program throw; a material without a price makes the amounts NaN. */
  datatype LineResult = Priced(line: Line) | UnknownRateItem | MissingPrice

  datatype Totals = Totals(materialsCostTotal: int, laborCostTotal: int, subtotal: int, markupAmount: int,
                           taxAmount: int, grandTotal: int)

  /** `round2`, on an amount in cents: the nearest whole cent, halves upwards. */
  function Cents(x: real): (c: int)
    ensures c as real - 0.5 <= x < c as real + 0.5
  {
    (x + 0.5).Floor
  }

  lemma WholeCents(c: int)
    ensures Cents(c as real) == c
  {
  }

  /** The exact materials cost in cents, waste included; prices are in whole currency. */
  function MaterialsExact(materials: seq<Norm>, prices: map<string, real>, quantity: real): real
    requires forall m :: m in materials ==> m.materialCode in prices
  {
    if materials == [] then 0.0 else
      var m := materials[|materials| - 1];
      MaterialsExact(materials[..|materials| - 1], prices, quantity)
      + 100.0 * prices[m.materialCode] * m.quantityPerUnit * quantity * (1.0 + m.wasteFactorPercent.GetOr(0.0) / 100.0)
  }

  function LaborExact(item: RateItem, quantity: real, laborRatePerHour: real): real {
    100.0 * item.laborHoursPerUnit * quantity * laborRatePerHour
  }

  function ComputeLine(catalog: Catalog, code: string, quantity: real, laborRatePerHour: real): LineResult {
    if code !in catalog.rateItems then UnknownRateItem
    else
      var item := catalog.rateItems[code];
      if exists m :: m in item.materials && m.materialCode !in catalog.prices then MissingPrice
      else
        var materialsCost := Cents(MaterialsExact(item.materials, catalog.prices, quantity));
        var laborCost := Cents(LaborExact(item, quantity, laborRatePerHour));
        Priced(Line(materialsCost, laborCost, Cents((materialsCost + laborCost) as real)))
  }

  function MaterialsOf(l: Line): int { l.materialsCost }

  function LaborOf(l: Line): int { l.laborCost }

  function TotalOf(l: Line): int { l.lineTotal }

  function SumOf(lines: seq<Line>, amount: Line -> int): int {
    if lines == [] then 0 else amount(lines[0]) + SumOf(lines[1..], amount)
  }

  function ComputeEstimateTotals(lines: seq<Line>, markupPercent: real, taxPercent: real): Totals {
    TotalsFrom(SumOf(lines, MaterialsOf), SumOf(lines, LaborOf), markupPercent, taxPercent)
  }

  function TotalsFrom(materials: int, labor: int, markupPercent: real, taxPercent: real): Totals {
    var materialsCostTotal := Cents(materials as real);
    var laborCostTotal := Cents(labor as real);
    var subtotal := Cents((materialsCostTotal + laborCostTotal) as real);
    var markupAmount := Cents(subtotal as real * markupPercent / 100.0);
    var taxAmount := Cents((subtotal + markupAmount) as real * taxPercent / 100.0);
    var grandTotal := Cents((subtotal + markupAmount + taxAmount) as real);
    Totals(materialsCostTotal, laborCostTotal, subtotal, markupAmount, taxAmount, grandTotal)
  }

  // ----- conservation -----

  /** A line whose total is the sum of its parts, as ComputeLine makes it. */
  ghost predicate Adds(l: Line) {
    l.lineTotal == l.materialsCost + l.laborCost
  }

  lemma {:induction false} SumsAdd(lines: seq<Line>)
    requires forall l :: l in lines ==> Adds(l)
    ensures SumOf(lines, MaterialsOf) + SumOf(lines, LaborOf)
            == SumOf(lines, TotalOf)
  {
    if lines != [] {
      assert lines == [lines[0]] + lines[1..] && lines[0] in lines;
      SumsAdd(lines[1..]);
    }
  }

  /** In cents nothing is lost between the lines and the totals. */
  lemma TotalsConserve(lines: seq<Line>, markupPercent: real, taxPercent: real)
    requires forall l :: l in lines ==> Adds(l)
    ensures var t := ComputeEstimateTotals(lines, markupPercent, taxPercent);
            t.subtotal == SumOf(lines, TotalOf)
            && t.subtotal == t.materialsCostTotal + t.laborCostTotal
            && t.grandTotal == t.subtotal + t.markupAmount + t.taxAmount
  {
    SumsAdd(lines);
    TotalsFromStaged(SumOf(lines, MaterialsOf), SumOf(lines, LaborOf), markupPercent, taxPercent);
  }

  /** The stages of the totals: each percentage is rounded on its own, sums are not changed by rounding. */
  ghost predicate Staged(t: Totals, markupPercent: real, taxPercent: real) {
    && t.subtotal == t.materialsCostTotal + t.laborCostTotal
    && t.markupAmount == Cents(t.subtotal as real * markupPercent / 100.0)
    && t.taxAmount == Cents((t.subtotal + t.markupAmount) as real * taxPercent / 100.0)
    && t.grandTotal == t.subtotal + t.markupAmount + t.taxAmount
  }

  lemma TotalsFromStaged(materials: int, labor: int, markupPercent: real, taxPercent: real)
    ensures var t := TotalsFrom(materials, labor, markupPercent, taxPercent);
            Staged(t, markupPercent, taxPercent) && t.materialsCostTotal == materials && t.laborCostTotal == labor
  {
    var t := TotalsFrom(materials, labor, markupPercent, taxPercent);
    WholeCents(materials);
    WholeCents(labor);
    WholeCents(t.materialsCostTotal + t.laborCostTotal);
    WholeCents(t.subtotal + t.markupAmount + t.taxAmount);
  }

  lemma {:induction false} SumSplit(a: seq<Line>, l: Line, b: seq<Line>, amount: Line -> int)
    ensures SumOf(a + [l] + b, amount) == amount(l) + SumOf(a + b, amount)
  {
    if a == [] {
      assert a + [l] + b == [l] + b && a + b == b;
      assert ([l] + b)[1..] == b;
    } else {
      assert (a + [l] + b)[1..] == a[1..] + [l] + b;
      assert (a + b)[1..] == a[1..] + b;
      SumSplit(a[1..], l, b, amount);
    }
  }

  lemma {:induction false} SumPermuted(a: seq<Line>, b: seq<Line>, amount: Line -> int)
    requires multiset(a) == multiset(b)
    ensures SumOf(a, amount) == SumOf(b, amount)
  {
    if a == [] {
      assert |multiset(b)| == 0;
      assert b == [];
    } else {
      assert a[0] in multiset(a) && a[0] in multiset(b) && a[0] in b;
      var i :| 0 <= i < |b| && b[i] == a[0];
      var rest := b[..i] + b[i + 1..];
      assert a == [a[0]] + a[1..];
      assert b == b[..i] + [a[0]] + b[i + 1..];
      assert multiset(a[1..]) == multiset(a) - multiset{a[0]};
      assert multiset(rest) == multiset(b) - multiset{a[0]};
      SumPermuted(a[1..], rest, amount);
      SumSplit(b[..i], a[0], b[i + 1..], amount);
    }
  }

  /** No total depends on the order of the lines. */
  lemma TotalsPermuted(a: seq<Line>, b: seq<Line>, markupPercent: real, taxPercent: real)
    requires multiset(a) == multiset(b)
    ensures ComputeEstimateTotals(a, markupPercent, taxPercent) == ComputeEstimateTotals(b, markupPercent, taxPercent)
  {
    SumPermuted(a, b, MaterialsOf);
    SumPermuted(a, b, LaborOf);
  }

  lemma {:induction false} SumConcat(a: seq<Line>, b: seq<Line>, amount: Line -> int)
    ensures SumOf(a + b, amount) == SumOf(a, amount) + SumOf(b, amount)
  {
    if a == [] {
      assert a + b == b;
    } else {
      assert (a + b)[1..] == a[1..] + b;
      SumConcat(a[1..], b, amount);
    }
  }

  lemma TotalsOf(lines: seq<Line>, markupPercent: real, taxPercent: real)
    ensures var t := ComputeEstimateTotals(lines, markupPercent, taxPercent);
            t.materialsCostTotal == SumOf(lines, MaterialsOf) && t.laborCostTotal == SumOf(lines, LaborOf)
  {
    WholeCents(SumOf(lines, MaterialsOf));
    WholeCents(SumOf(lines, LaborOf));
  }

  /** Materials and labour are totalled apart: one line's are its own, ... */
  lemma TotalsOfOne(l: Line, markupPercent: real, taxPercent: real)
    ensures var t := ComputeEstimateTotals([l], markupPercent, taxPercent);
            t.materialsCostTotal == l.materialsCost && t.laborCostTotal == l.laborCost
  {
    assert [l][1..] == [];
    TotalsOf([l], markupPercent, taxPercent);
  }

  /** ... and two lists' together are the sums of theirs. */
  lemma TotalsOfTwo(a: seq<Line>, b: seq<Line>, s: Totals, t: Totals, both: Totals, markupPercent: real, taxPercent: real)
    requires s == ComputeEstimateTotals(a, markupPercent, taxPercent) && t == ComputeEstimateTotals(b, markupPercent, taxPercent)
    requires both == ComputeEstimateTotals(a + b, markupPercent, taxPercent)
    ensures both.materialsCostTotal == s.materialsCostTotal + t.materialsCostTotal
    ensures both.laborCostTotal == s.laborCostTotal + t.laborCostTotal
  {
    SumConcat(a, b, MaterialsOf);
    SumConcat(a, b, LaborOf);
    TotalsOf(a, markupPercent, taxPercent);
    TotalsOf(b, markupPercent, taxPercent);
    TotalsOf(a + b, markupPercent, taxPercent);
  }

  // ----- staged rounding against the exact formula -----

  datatype Order = Order(code: string, quantity: real)

  ghost predicate Orderable(catalog: Catalog, order: Order) {
    order.code in catalog.rateItems
    && forall m :: m in catalog.rateItems[order.code].materials ==> m.materialCode in catalog.prices
  }

  function PriceAll(catalog: Catalog, orders: seq<Order>, laborRatePerHour: real): (lines: seq<Line>)
    requires forall o :: o in orders ==> Orderable(catalog, o)
    ensures |lines| == |orders|
    ensures forall i :: 0 <= i < |orders| ==>
              ComputeLine(catalog, orders[i].code, orders[i].quantity, laborRatePerHour) == Priced(lines[i])
  {
    if orders == [] then [] else
      assert orders == [orders[0]] + orders[1..];
      LineWithinCent(catalog, orders[0], laborRatePerHour);
      [ComputeLine(catalog, orders[0].code, orders[0].quantity, laborRatePerHour).line]
      + PriceAll(catalog, orders[1..], laborRatePerHour)
  }

  /** What the norms' materials cost by themselves, in cents. */
  function NetCost(norms: seq<Norm>, prices: map<string, real>, quantity: real): real
    requires forall m :: m in norms ==> m.materialCode in prices
  {
    if norms == [] then 0.0 else
      var m := norms[|norms| - 1];
      NetCost(norms[..|norms| - 1], prices, quantity) + prices[m.materialCode] * 100.0 * (m.quantityPerUnit * quantity)
  }

  /** What is added for waste: of each norm's net cost its percentage. */
  function WasteCost(norms: seq<Norm>, prices: map<string, real>, quantity: real): real
    requires forall m :: m in norms ==> m.materialCode in prices
  {
    if norms == [] then 0.0 else
      var m := norms[|norms| - 1];
      var waste := match m.wasteFactorPercent case None => 0.0 case Some(percent) => NetCost([m], prices, quantity) * (percent / 100.0);
      WasteCost(norms[..|norms| - 1], prices, quantity) + waste
  }

  lemma OneNormCost(m: Norm, prices: map<string, real>, quantity: real)
    requires m.materialCode in prices
    ensures NetCost([m], prices, quantity) == prices[m.materialCode] * 100.0 * (m.quantityPerUnit * quantity)
  {
    assert [m][..0] == [];
  }

  lemma WithWaste(price: real, perUnit: real, quantity: real, percent: real)
    ensures var net := price * 100.0 * (perUnit * quantity);
            100.0 * price * perUnit * quantity * (1.0 + percent / 100.0) == net + net * (percent / 100.0)
  {
    var net := price * 100.0 * (perUnit * quantity);
    assert 100.0 * price * perUnit * quantity == net;
  }

  /** The materials cost is the net cost and the waste of all norms. */
  lemma {:induction false} MaterialsAddUp(norms: seq<Norm>, prices: map<string, real>, quantity: real)
    requires forall m :: m in norms ==> m.materialCode in prices
    ensures MaterialsExact(norms, prices, quantity) == NetCost(norms, prices, quantity) + WasteCost(norms, prices, quantity)
  {
    if norms != [] {
      var m := norms[|norms| - 1];
      MaterialsAddUp(norms[..|norms| - 1], prices, quantity);
      OneNormCost(m, prices, quantity);
      WithWaste(prices[m.materialCode], m.quantityPerUnit, quantity, m.wasteFactorPercent.GetOr(0.0));
    }
  }

  function MaterialsBill(catalog: Catalog, order: Order): real
    requires Orderable(catalog, order)
  {
    var norms := catalog.rateItems[order.code].materials;
    NetCost(norms, catalog.prices, order.quantity) + WasteCost(norms, catalog.prices, order.quantity)
  }

  /** Hours at the hourly rate, in cents. */
  function LaborBill(catalog: Catalog, order: Order, laborRatePerHour: real): real
    requires Orderable(catalog, order)
  {
    (catalog.rateItems[order.code].laborHoursPerUnit * order.quantity) * (laborRatePerHour * 100.0)
  }

  function ExactCost(catalog: Catalog, order: Order, laborRatePerHour: real): real
    requires Orderable(catalog, order)
  {
    MaterialsBill(catalog, order) + LaborBill(catalog, order, laborRatePerHour)
  }

  function ExactCosts(catalog: Catalog, orders: seq<Order>, laborRatePerHour: real): (costs: seq<real>)
    requires forall o :: o in orders ==> Orderable(catalog, o)
    ensures |costs| == |orders|
    ensures forall i :: 0 <= i < |orders| ==> costs[i] == ExactCost(catalog, orders[i], laborRatePerHour)
  {
    seq(|orders|, i requires 0 <= i < |orders| => ExactCost(catalog, orders[i], laborRatePerHour))
  }

  function Sum(xs: seq<real>): real {
    if xs == [] then 0.0 else xs[0] + Sum(xs[1..])
  }

  function ExactSubtotal(catalog: Catalog, orders: seq<Order>, laborRatePerHour: real): real
    requires forall o :: o in orders ==> Orderable(catalog, o)
  {
    Sum(ExactCosts(catalog, orders, laborRatePerHour))
  }

  /** A line's materials and labour are each within half a cent of what the norms, the waste and the hours come to; its
      total is their sum, so within a cent. */
  lemma LineWithinCent(catalog: Catalog, order: Order, laborRatePerHour: real)
    requires Orderable(catalog, order)
    ensures var r := ComputeLine(catalog, order.code, order.quantity, laborRatePerHour);
            r.Priced? && Adds(r.line)
            && Abs(r.line.materialsCost as real - MaterialsBill(catalog, order)) <= 0.5
            && Abs(r.line.laborCost as real - LaborBill(catalog, order, laborRatePerHour)) <= 0.5
            && Abs(r.line.lineTotal as real - ExactCost(catalog, order, laborRatePerHour)) <= 1.0
  {
    MaterialsAddUp(catalog.rateItems[order.code].materials, catalog.prices, order.quantity);
    LaborOrder(catalog.rateItems[order.code].laborHoursPerUnit, order.quantity, laborRatePerHour);
    var r := ComputeLine(catalog, order.code, order.quantity, laborRatePerHour);
    WholeCents(r.line.materialsCost + r.line.laborCost);
  }

  lemma LaborOrder(hours: real, quantity: real, rate: real)
    ensures 100.0 * hours * quantity * rate == (hours * quantity) * (rate * 100.0)
  {
  }

  /** A line is priced exactly when its rate item is known and all its materials have prices. */
  lemma PricedIff(catalog: Catalog, order: Order, laborRatePerHour: real)
    ensures var r := ComputeLine(catalog, order.code, order.quantity, laborRatePerHour);
            && (r.Priced? <==> Orderable(catalog, order))
            && (r.UnknownRateItem? <==> order.code !in catalog.rateItems)
  {
  }

  const TILES := Catalog(
    map["RC-TILE-FLOOR" := RateItem(0.6, [Norm("CER-TILE", 1.0, Some(5.0)), Norm("TILE-ADH", 4.0, None), Norm("GROUT", 0.5, None)])],
    map["CER-TILE" := 22.0, "TILE-ADH" := 1.8, "GROUT" := 3.5])

  /** 100 m2 of floor tile at 22.00 an hour: 3205.00 of materials, 110.00 of it waste, and 1320.00 of labour. */
  lemma TileFloorLine()
    ensures ComputeLine(TILES, "RC-TILE-FLOOR", 100.0, 22.0) == Priced(Line(320500, 132000, 452500))
  {
    var tile, adhesive, grout := Norm("CER-TILE", 1.0, Some(5.0)), Norm("TILE-ADH", 4.0, None), Norm("GROUT", 0.5, None);
    var norms := TILES.rateItems["RC-TILE-FLOOR"].materials;
    assert norms == [tile, adhesive, grout];
    assert norms[..2] == [tile, adhesive] && [tile, adhesive][..1] == [tile] && [tile][..0] == [];
    assert MaterialsExact([tile], TILES.prices, 100.0) == 231000.0;
    assert MaterialsExact([tile, adhesive], TILES.prices, 100.0) == 303000.0;
    assert MaterialsExact(norms, TILES.prices, 100.0) == 320500.0;
  }

  lemma LineDrift(catalog: Catalog, order: Order, laborRatePerHour: real, line: Line)
    requires Orderable(catalog, order) && ComputeLine(catalog, order.code, order.quantity, laborRatePerHour) == Priced(line)
    ensures Adds(line) && Near(line, ExactCost(catalog, order, laborRatePerHour))
  {
    LineWithinCent(catalog, order, laborRatePerHour);
  }

  ghost predicate Near(line: Line, exact: real) {
    Abs(line.lineTotal as real - exact) <= 1.0
  }

  lemma {:induction false} SumDrift(lines: seq<Line>, exacts: seq<real>)
    requires |lines| == |exacts| && forall i :: 0 <= i < |lines| ==> Near(lines[i], exacts[i])
    ensures Abs(SumOf(lines, TotalOf) as real - Sum(exacts)) <= |lines| as real
  {
    if lines != [] {
      SumDrift(lines[1..], exacts[1..]);
      assert Near(lines[0], exacts[0]);
    }
  }

  lemma SubtotalDrift(catalog: Catalog, orders: seq<Order>, laborRatePerHour: real)
    requires forall o :: o in orders ==> Orderable(catalog, o)
    ensures var lines := PriceAll(catalog, orders, laborRatePerHour);
            (forall l :: l in lines ==> Adds(l))
            && Abs(SumOf(lines, TotalOf) as real - ExactSubtotal(catalog, orders, laborRatePerHour)) <= |orders| as real
  {
    var lines, exacts := PriceAll(catalog, orders, laborRatePerHour), ExactCosts(catalog, orders, laborRatePerHour);
    forall i | 0 <= i < |orders| ensures Adds(lines[i]) && Near(lines[i], exacts[i]) {
      LineDrift(catalog, orders[i], laborRatePerHour, lines[i]);
    }
    SumDrift(lines, exacts);
  }

  lemma Scaled(e: real, bound: real, k: real)
    requires Abs(e) <= bound && 0.0 <= k
    ensures Abs(e * k) <= bound * k
  {
    assert (bound - e) * k >= 0.0 && (bound + e) * k >= 0.0;
    assert (bound - e) * k == bound * k - e * k && (bound + e) * k == bound * k + e * k;
  }

  /** Adding a rounded percentage: from within n of the exact amount to within n * (1 + rate) + 1/2 of the exact sum. */
  lemma AddOnError(exact: real, amount: real, n: real, rate: real, added: real)
    requires Abs(amount - exact) <= n && 0.0 <= rate
    requires Abs(added - amount * rate) <= 0.5
    ensures Abs(amount + added - exact * (1.0 + rate)) <= n * (1.0 + rate) + 0.5
  {
    var e, d, k := amount - exact, added - amount * rate, exact * (1.0 + rate);
    Scaled(e, n, rate);
    var er, nr := e * rate, n * rate;
    assert er == amount * rate - exact * rate;
    assert k == exact + exact * rate;
    assert n * (1.0 + rate) == n + nr;
    assert amount + added - k == e + d + er;
    AbsSum(e, d, er, n, nr);
  }

  lemma AbsSum(a: real, b: real, c: real, n: real, k: real)
    requires Abs(a) <= n && Abs(b) <= 0.5 && Abs(c) <= k
    ensures Abs(a + b + c) <= n + 0.5 + k
  {
  }

  /** An amount raised by a percentage, exactly. */
  function Raised(x: real, percent: real): real {
    x * (1.0 + percent / 100.0)
  }

  /** One stage: adding a percentage rounded to the cent. */
  lemma StageError(exact: real, amount: int, n: real, percent: real, added: int)
    requires 0.0 <= percent && Abs(amount as real - exact) <= n
    requires added == Cents(amount as real * percent / 100.0)
    ensures Abs((amount + added) as real - Raised(exact, percent)) <= Raised(n, percent) + 0.5
  {
    assert amount as real * percent / 100.0 == amount as real * (percent / 100.0);
    AddOnError(exact, amount as real, n, percent / 100.0, added as real);
  }

  /** With non-negative markup and tax, n lines' grand total differs from the unrounded formula by at most
      (1 + t/100) * (n * (1 + m/100) + 1/2) + 1/2 cents. */
  lemma GrandTotalError(catalog: Catalog, orders: seq<Order>, laborRatePerHour: real, markupPercent: real, taxPercent: real)
    requires forall o :: o in orders ==> Orderable(catalog, o)
    requires 0.0 <= markupPercent && 0.0 <= taxPercent
    ensures var totals := ComputeEstimateTotals(PriceAll(catalog, orders, laborRatePerHour), markupPercent, taxPercent);
            var exact := Raised(Raised(ExactSubtotal(catalog, orders, laborRatePerHour), markupPercent), taxPercent);
            Abs(totals.grandTotal as real - exact) <= Raised(Raised(|orders| as real, markupPercent) + 0.5, taxPercent) + 0.5
  {
    var lines := PriceAll(catalog, orders, laborRatePerHour);
    SubtotalDrift(catalog, orders, laborRatePerHour);
    TotalsError(lines, ExactSubtotal(catalog, orders, laborRatePerHour), |orders| as real, markupPercent, taxPercent);
  }

  lemma TotalsError(lines: seq<Line>, exact: real, n: real, markupPercent: real, taxPercent: real)
    requires 0.0 <= markupPercent && 0.0 <= taxPercent
    requires (forall l :: l in lines ==> Adds(l)) && Abs(SumOf(lines, TotalOf) as real - exact) <= n
    ensures Abs(ComputeEstimateTotals(lines, markupPercent, taxPercent).grandTotal as real
                    - Raised(Raised(exact, markupPercent), taxPercent))
            <= Raised(Raised(n, markupPercent) + 0.5, taxPercent) + 0.5
  {
    TotalsStaged(lines, markupPercent, taxPercent);
    TwoStages(ComputeEstimateTotals(lines, markupPercent, taxPercent), exact, n, markupPercent, taxPercent);
  }

  lemma TotalsStaged(lines: seq<Line>, markupPercent: real, taxPercent: real)
    requires forall l :: l in lines ==> Adds(l)
    ensures Staged(ComputeEstimateTotals(lines, markupPercent, taxPercent), markupPercent, taxPercent)
    ensures ComputeEstimateTotals(lines, markupPercent, taxPercent).subtotal == SumOf(lines, TotalOf)
  {
    SumsAdd(lines);
    TotalsFromStaged(SumOf(lines, MaterialsOf), SumOf(lines, LaborOf), markupPercent, taxPercent);
  }

  lemma TwoStages(t: Totals, exact: real, n: real, markupPercent: real, taxPercent: real)
    requires 0.0 <= markupPercent && 0.0 <= taxPercent && Abs(t.subtotal as real - exact) <= n
    requires Staged(t, markupPercent, taxPercent)
    ensures Abs(t.grandTotal as real - Raised(Raised(exact, markupPercent), taxPercent))
            <= Raised(Raised(n, markupPercent) + 0.5, taxPercent) + 0.5
  {
    StageError(exact, t.subtotal, n, markupPercent, t.markupAmount);
    StageError(Raised(exact, markupPercent), t.subtotal + t.markupAmount, Raised(n, markupPercent) + 0.5, taxPercent, t.taxAmount);
  }

  // ----- deposits and draws -----

  /** An invoice for a total that includes 20% tax. */
  datatype Invoice = Invoice(subtotal: int, taxAmount: int, total: int)

  /** `round2(grandTotal * share)`, the share in percent. */
  function ShareOf(grandTotal: int, percent: nat): int {
    RoundDiv(grandTotal * percent, 100)
  }

  /** `round2(total - total / 1.2)` and what remains. */
  function SplitInclusive(total: int): Invoice {
    var tax := RoundDiv(total * 12 - total * 10, 12);
    Invoice(RoundDiv(total - tax, 1), tax, total)
  }

  /** Every split adds up to the cent, and the tax is within 0.6 cent of a fifth of the subtotal. */
  lemma SplitConserves(total: int)
    ensures var i := SplitInclusive(total);
            i.subtotal + i.taxAmount == total && -3 <= 5 * i.taxAmount - i.subtotal <= 3
    ensures 0 <= total ==> 0 <= SplitInclusive(total).taxAmount <= SplitInclusive(total).subtotal
  {
    var tax := RoundDiv(total * 12 - total * 10, 12);
    RoundDivUnique(total - tax, 1, total - tax);
  }

  /** Adding the tax rate to the rounded subtotal gives the total back exactly when the total leaves no remainder
      of 3 on division by 6, where the tax sits on a half cent. */
  lemma RegrossRecoversIff(total: int)
    ensures RoundDiv(SplitInclusive(total).subtotal * 12, 10) == total <==> total % 6 != 3
  {
    SplitConserves(total);
    var k, r := total / 6, total % 6;
    RoundDivUnique(total * 12 - total * 10, 12, if r < 3 then k else k + 1);
    var subtotal := SplitInclusive(total).subtotal;
    RoundDivUnique(subtotal * 12, 10, if r == 3 then total - 1 else total);
  }

  /** A share is within half a cent of its percentage of the total. */
  lemma ShareWithinHalfCent(grandTotal: int, percent: nat)
    ensures -100 <= 200 * ShareOf(grandTotal, percent) - 2 * (percent * grandTotal) <= 100
  {
    assert grandTotal * percent == percent * grandTotal;
  }

  /** A 30% deposit and a 40% draw, each rounded, never bill more than the estimate. */
  lemma DepositAndDrawWithinTotal(grandTotal: nat)
    ensures ShareOf(grandTotal, 30) + ShareOf(grandTotal, 40) <= grandTotal
  {
    var deposit, draw := ShareOf(grandTotal, 30), ShareOf(grandTotal, 40);
    assert 200 * (deposit + draw) <= 140 * grandTotal + 200;
  }
}
