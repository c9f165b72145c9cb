/** The API's costing engine: the weighted average beside the seed's, and first-in-first-out consumption of cost
    layers.  Quantities and unit costs are integer ten-thousandths; a cost is rounded back to that grid. */
module InventoryCosting {
  import opened Common
  import opened Rounding
  import StockLedger

  // ----- weighted average -----

  /** Stock below zero counts as none, and stock without an average at nothing. */
  function WeightedAverageCost(currentQuantity: int, currentAverageCost: Option<int>, receiptQuantity: int, receiptUnitCost: int): int {
    var priorValue := if currentQuantity > 0 then currentQuantity * currentAverageCost.GetOr(0) else 0;
    var quantityAfter := Max(currentQuantity, 0) + receiptQuantity;
    if quantityAfter <= 0 then receiptUnitCost
    else RoundDiv(priorValue + receiptQuantity * receiptUnitCost, quantityAfter)
  }

  /** The engine never lets an overdraft distort the average: on stock at or below zero it restarts at the receipt's cost. */
  lemma OverdraftRestarts(currentQuantity: int, average: Option<int>, quantity: int, unitCost: int)
    requires currentQuantity <= 0 && 0 <= quantity
    ensures WeightedAverageCost(currentQuantity, average, quantity, unitCost) == unitCost
  {
    if quantity > 0 {
      assert quantity * unitCost == unitCost * quantity;
      RoundDivWhole(unitCost, quantity);
    }
  }

  /** The engine and the seeded ledger blend a receipt alike exactly when: on stock, there is an average or the missing
      one is lost in rounding; overdrawn, there is no average, or the receipt does not clear the overdraft, or what
      the overdraft does to the seed's average is lost in rounding; on no stock, always. */
  lemma SeedBlendsLikeEngineIff(level: Option<StockLedger.Level>, quantity: int, unitCost: int)
    requires 0 <= quantity
    ensures var q, average, n := StockLedger.OnHand(level), StockLedger.Average(level), StockLedger.OnHand(level) + quantity;
            StockLedger.Blend(level, quantity, unitCost) == WeightedAverageCost(q, average, quantity, unitCost)
            <==> && (q > 0 ==> average.Some? || -n <= 2 * (-q * unitCost) < n)
                 && (q < 0 ==> average.None? || n <= 0 || -n <= 2 * (-q * (unitCost - average.value)) < n)
  {
    var q, average, n := StockLedger.OnHand(level), StockLedger.Average(level), StockLedger.OnHand(level) + quantity;
    if q > 0 {
      if average.None? {
        UnpricedBlend(q, quantity, unitCost);
      }
    } else {
      OverdraftRestarts(q, average, quantity, unitCost);
      if n > 0 {
        if average.None? {
          UnpricedBlend(q, quantity, unitCost);
        } else {
          StockLedger.BlendAsShift(level, quantity, unitCost);
          RoundsToZeroIff(-q * (unitCost - average.value), n);
        }
      }
    }
  }

  /** Five overdrawn at 100, ten in at 200: the seed averages to 300, the engine to 200. */
  lemma OverdrawnBlendsDiffer()
    ensures StockLedger.Blend(Some(StockLedger.Level(-5, Some(100))), 10, 200) == 300
    ensures WeightedAverageCost(-5, Some(100), 10, 200) == 200
  {
    RoundDivUnique(-5 * 100 + 10 * 200, 5, 300);
    OverdraftRestarts(-5, Some(100), 10, 200);
  }

  /** Stock without an average: priced at the receipt's cost it keeps that cost; at nothing, it dilutes it. */
  lemma UnpricedBlend(q: int, quantity: int, unitCost: int)
    requires q + quantity > 0
    ensures RoundDiv(q * unitCost + quantity * unitCost, q + quantity) == unitCost
    ensures RoundDiv(0 + quantity * unitCost, q + quantity) == unitCost
        <==> -(q + quantity) <= 2 * (-q * unitCost) < q + quantity
  {
    var n := q + quantity;
    assert q * unitCost + quantity * unitCost == unitCost * n;
    RoundDivWhole(unitCost, n);
    assert quantity * unitCost == -q * unitCost + unitCost * n;
    RoundDivShift(-q * unitCost, n, unitCost);
    RoundsToZeroIff(-q * unitCost, n);
  }

  // ----- first in, first out -----

  /** Layers are listed oldest first. */
  datatype Layer = Layer(id: string, remainingQuantity: int, unitCost: int)

  datatype Touched = Touched(id: string, remainingQuantity: int)

  datatype Consumption = Consumption(totalCost: int, consumedQuantity: int, shortfallQuantity: int, updatedLayers: seq<Touched>)

  function Taken(layer: Layer, wanted: int): int {
    if wanted <= 0 then 0 else Max(0, Min(layer.remainingQuantity, wanted))
  }

  /** The layer once that is taken. */
  function After(layer: Layer, wanted: int): Layer {
    layer.(remainingQuantity := layer.remainingQuantity - Taken(layer, wanted))
  }

  /** What is still wanted once it is taken. */
  function Then(layer: Layer, wanted: int): int {
    wanted - Taken(layer, wanted)
  }

  /** What is still wanted after taking from the layers in order. */
  function Unmet(layers: seq<Layer>, wanted: int): int {
    if layers == [] then wanted else Unmet(layers[1..], Then(layers[0], wanted))
  }

  /** Quantity times unit cost over everything taken, unrounded. */
  function CostOf(layers: seq<Layer>, wanted: int): int {
    if layers == [] then 0
    else Taken(layers[0], wanted) * layers[0].unitCost + CostOf(layers[1..], Then(layers[0], wanted))
  }

  /** The layers as they are left. */
  function Left(layers: seq<Layer>, wanted: int): (left: seq<Layer>)
    ensures |left| == |layers|
  {
    if layers == [] then [] else [After(layers[0], wanted)] + Left(layers[1..], Then(layers[0], wanted))
  }

  function TouchedBy(layer: Layer, wanted: int): seq<Touched> {
    var take := Taken(layer, wanted);
    if take <= 0 then [] else [Touched(layer.id, layer.remainingQuantity - take)]
  }

  function UpdatedLayers(layers: seq<Layer>, wanted: int): seq<Touched> {
    if layers == [] then [] else TouchedBy(layers[0], wanted) + UpdatedLayers(layers[1..], Then(layers[0], wanted))
  }

  /** The layers whose quantity differs between two lists, with the later quantity. */
  function Changed(before: seq<Layer>, after: seq<Layer>): seq<Touched>
    requires |before| == |after|
  {
    if before == [] then [] else
      (if after[0] != before[0] then [Touched(after[0].id, after[0].remainingQuantity)] else [])
      + Changed(before[1..], after[1..])
  }

  /** Only quantities differ, and a layer's does only if all older ones are used up. */
  ghost predicate OldestFirst(before: seq<Layer>, after: seq<Layer>) {
    && |after| == |before|
    && (forall i :: 0 <= i < |before| ==> after[i] == before[i].(remainingQuantity := after[i].remainingQuantity))
    && (forall i, j :: 0 <= i < j < |before| && after[j] != before[j] ==> after[i].remainingQuantity <= 0)
  }

  lemma {:induction false} UpdatedIsChanged(layers: seq<Layer>, wanted: int)
    ensures UpdatedLayers(layers, wanted) == Changed(layers, Left(layers, wanted))
  {
    if layers != [] {
      UpdatedIsChanged(layers[1..], Then(layers[0], wanted));
      assert Left(layers, wanted)[1..] == Left(layers[1..], Then(layers[0], wanted));
    }
  }

  /** Where nothing is wanted nothing happens. */
  lemma {:induction false} NothingWanted(layers: seq<Layer>, wanted: int)
    requires wanted <= 0
    ensures Unmet(layers, wanted) == wanted && CostOf(layers, wanted) == 0
    ensures Left(layers, wanted) == layers && UpdatedLayers(layers, wanted) == []
  {
    if layers != [] {
      NothingWanted(layers[1..], wanted);
      assert layers == [layers[0]] + layers[1..];
    }
  }

  lemma {:induction false} LeftOldestFirst(layers: seq<Layer>, wanted: int)
    ensures OldestFirst(layers, Left(layers, wanted))
  {
    if layers != [] {
      var first, rest, still := layers[0], layers[1..], Then(layers[0], wanted);
      LeftOldestFirst(rest, still);
      if still <= 0 {
        NothingWanted(rest, still);
      }
      OneLayerMore(rest, Left(rest, still), first, After(first, wanted));
      assert layers == [first] + rest;
    }
  }

  lemma OneLayerMore(before: seq<Layer>, after: seq<Layer>, b: Layer, a: Layer)
    requires OldestFirst(before, after) && a == b.(remainingQuantity := a.remainingQuantity)
    requires after != before ==> a.remainingQuantity <= 0
    ensures OldestFirst([b] + before, [a] + after)
  {
  }

  /** What a consumption returns: the cost rounded, the quantities, the layers it touched. */
  function Consumed(layers: seq<Layer>, wanted: int): Consumption {
    var unmet := Unmet(layers, wanted);
    Consumption(RoundDiv(CostOf(layers, wanted), 10_000), wanted - unmet, Max(unmet, 0), UpdatedLayers(layers, wanted))
  }

  /** What the loop keeps, having come to layer i: what is done and what is still to do make the whole. */
  ghost predicate Underway(layers: seq<Layer>, wanted: int, i: nat, remaining: int, totalCost: int, updated: seq<Touched>) {
    && i <= |layers|
    && Unmet(layers, wanted) == Unmet(layers[i..], remaining)
    && CostOf(layers, wanted) == totalCost + CostOf(layers[i..], remaining)
    && UpdatedLayers(layers, wanted) == updated + UpdatedLayers(layers[i..], remaining)
  }

  lemma UnderwayNext(layers: seq<Layer>, wanted: int, i: nat, remaining: int, totalCost: int, updated: seq<Touched>)
    requires i < |layers| && Underway(layers, wanted, i, remaining, totalCost, updated)
    ensures var take := Taken(layers[i], remaining);
            Underway(layers, wanted, i + 1, remaining - take, totalCost + take * layers[i].unitCost, updated + TouchedBy(layers[i], remaining))
  {
    var rest := layers[i..];
    assert rest[0] == layers[i] && rest[1..] == layers[i + 1..];
    assert updated + (TouchedBy(layers[i], remaining) + UpdatedLayers(rest[1..], Then(layers[i], remaining)))
        == updated + TouchedBy(layers[i], remaining) + UpdatedLayers(rest[1..], Then(layers[i], remaining));
  }

  lemma UnderwayDone(layers: seq<Layer>, wanted: int, i: nat, remaining: int, totalCost: int, updated: seq<Touched>)
    requires Underway(layers, wanted, i, remaining, totalCost, updated) && (i < |layers| ==> remaining <= 0)
    ensures Unmet(layers, wanted) == remaining && CostOf(layers, wanted) == totalCost && UpdatedLayers(layers, wanted) == updated
  {
    if i < |layers| {
      NothingWanted(layers[i..], remaining);
    }
  }

  method CalculateFifoConsumption(layers: seq<Layer>, consumeQuantity: int) returns (result: Consumption)
    ensures result == Consumed(layers, consumeQuantity)
    ensures result.updatedLayers == Changed(layers, Left(layers, consumeQuantity))
    ensures OldestFirst(layers, Left(layers, consumeQuantity))
  {
    var remaining := consumeQuantity;
    var totalCost := 0;
    var updatedLayers: seq<Touched> := [];
    var i := 0;
    assert layers[0..] == layers;
    while i < |layers| && remaining > 0
      invariant Underway(layers, consumeQuantity, i, remaining, totalCost, updatedLayers)
    {
      var layer := layers[i];
      UnderwayNext(layers, consumeQuantity, i, remaining, totalCost, updatedLayers);
      i := i + 1;
      var take := Min(layer.remainingQuantity, remaining);
      if take <= 0 {
        assert updatedLayers + [] == updatedLayers;
        continue;
      }
      totalCost := totalCost + take * layer.unitCost;
      remaining := remaining - take;
      updatedLayers := updatedLayers + [Touched(layer.id, layer.remainingQuantity - take)];
    }
    UnderwayDone(layers, consumeQuantity, i, remaining, totalCost, updatedLayers);
    UpdatedIsChanged(layers, consumeQuantity);
    LeftOldestFirst(layers, consumeQuantity);
    result := Consumption(RoundDiv(totalCost, 10_000), consumeQuantity - remaining, Max(remaining, 0), updatedLayers);
  }

  /** The stock the layers hold. */
  function Held(layers: seq<Layer>): (held: nat) {
    if layers == [] then 0 else Max(0, layers[0].remainingQuantity) + Held(layers[1..])
  }

  /** What the layers are worth, unrounded. */
  function Worth(layers: seq<Layer>): int {
    if layers == [] then 0 else layers[0].remainingQuantity * layers[0].unitCost + Worth(layers[1..])
  }

  /** Everything wanted is taken as long as the layers hold it, and what is taken leaves the layers. */
  lemma {:induction false} FifoConserves(layers: seq<Layer>, wanted: nat)
    ensures Unmet(layers, wanted) == Max(0, wanted - Held(layers))
    ensures Held(Left(layers, wanted)) == Held(layers) - (wanted - Unmet(layers, wanted))
  {
    if layers != [] {
      var still := Then(layers[0], wanted);
      FifoConserves(layers[1..], still);
      assert Left(layers, wanted)[1..] == Left(layers[1..], still);
    }
  }

  /** What it costs is what the layers lose in worth. */
  lemma {:induction false} CostLeavesWorth(layers: seq<Layer>, wanted: int)
    ensures CostOf(layers, wanted) == Worth(layers) - Worth(Left(layers, wanted))
  {
    if layers != [] {
      var first, still := layers[0], Then(layers[0], wanted);
      CostLeavesWorth(layers[1..], still);
      assert Left(layers, wanted)[1..] == Left(layers[1..], still);
      LessTimes(first.remainingQuantity, Taken(first, wanted), first.unitCost);
    }
  }

  /** What is returned: the consumed quantity is the lesser of what was wanted and what the layers hold, and leaves them;
      the shortfall is the rest; the cost is the worth that leaves them, rounded to the grid. */
  lemma ConsumedInFull(layers: seq<Layer>, wanted: int)
    ensures var c, left := Consumed(layers, wanted), Left(layers, wanted);
            && c.consumedQuantity == Min(Max(wanted, 0), Held(layers)) == Held(layers) - Held(left)
            && c.shortfallQuantity == Max(wanted, 0) - c.consumedQuantity
            && Rounds(Worth(layers) - Worth(left), 10_000, c.totalCost)
  {
    CostLeavesWorth(layers, wanted);
    if wanted < 0 {
      NothingWanted(layers, wanted);
    } else {
      FifoConserves(layers, wanted);
    }
  }

  // ----- issuing in two goes -----

  lemma TakenTwice(layer: Layer, first: nat, second: nat)
    ensures var rest := After(layer, first);
            && Taken(layer, first) + Taken(rest, second) == Taken(layer, first + second)
            && Taken(layer, first) <= first && Taken(rest, second) <= second
            && After(rest, second) == After(layer, first + second)
            && Then(layer, first) + Then(rest, second) == Then(layer, first + second)
  {
  }

  lemma TakenTwiceCost(layer: Layer, first: nat, second: nat)
    ensures var rest := After(layer, first);
            Taken(layer, first) * layer.unitCost + Taken(rest, second) * rest.unitCost == Taken(layer, first + second) * layer.unitCost
  {
    TakenTwice(layer, first, second);
    var take, more := Taken(layer, first), Taken(After(layer, first), second);
    assert (take + more) * layer.unitCost == take * layer.unitCost + more * layer.unitCost;
  }

  /** The first layer and the others, taken from once. */
  lemma LeftFirst(layers: seq<Layer>, wanted: int)
    requires layers != []
    ensures var left := Left(layers, wanted);
            left[0] == After(layers[0], wanted) && left[1..] == Left(layers[1..], Then(layers[0], wanted))
  {
  }

  lemma {:induction false} UnmetTwice(layers: seq<Layer>, first: nat, second: nat)
    ensures 0 <= Unmet(layers, first) && 0 <= Unmet(Left(layers, first), second)
    ensures Unmet(layers, first) + Unmet(Left(layers, first), second) == Unmet(layers, first + second)
  {
    if layers != [] {
      TakenTwice(layers[0], first, second);
      LeftFirst(layers, first);
      UnmetTwice(layers[1..], Then(layers[0], first), Then(After(layers[0], first), second));
    }
  }

  lemma {:induction false} LeftTwice(layers: seq<Layer>, first: nat, second: nat)
    ensures Left(Left(layers, first), second) == Left(layers, first + second)
  {
    if layers != [] {
      TakenTwice(layers[0], first, second);
      LeftFirst(layers, first);
      LeftTwice(layers[1..], Then(layers[0], first), Then(After(layers[0], first), second));
    }
  }

  lemma {:induction false} CostTwice(layers: seq<Layer>, first: nat, second: nat)
    ensures CostOf(layers, first) + CostOf(Left(layers, first), second) == CostOf(layers, first + second)
  {
    if layers != [] {
      TakenTwice(layers[0], first, second);
      TakenTwiceCost(layers[0], first, second);
      LeftFirst(layers, first);
      CostTwice(layers[1..], Then(layers[0], first), Then(After(layers[0], first), second));
    }
  }

  /** Rounding two costs apart or together differs by at most one grid step, and not at all exactly when their remainders
      past the nearest steps come to the same as that of their sum. */
  lemma RoundedSum(a: int, b: int)
    ensures -1 <= RoundDiv(a, 10_000) + RoundDiv(b, 10_000) - RoundDiv(a + b, 10_000) <= 1
    ensures RoundDiv(a, 10_000) + RoundDiv(b, 10_000) == RoundDiv(a + b, 10_000)
        <==> 5_000 <= (a + 5_000) % 10_000 + (b + 5_000) % 10_000 < 15_000
  {
    var x, y := (a + 5_000) / 10_000, (b + 5_000) / 10_000;
    RoundDivUnique(a, 10_000, x);
    RoundDivUnique(b, 10_000, y);
    var r := RoundDiv(a + b, 10_000);
    assert Rounds(a + b, 10_000, r);
  }

  /** Issuing in two goes draws the same quantities from the same layers as issuing the whole at once. */
  lemma TwoIssuesAsOne(layers: seq<Layer>, first: nat, second: nat)
    ensures var rest := Left(layers, first);
            var one, two, whole := Consumed(layers, first), Consumed(rest, second), Consumed(layers, first + second);
            && Left(rest, second) == Left(layers, first + second)
            && one.consumedQuantity + two.consumedQuantity == whole.consumedQuantity
            && one.shortfallQuantity + two.shortfallQuantity == whole.shortfallQuantity
  {
    LeftTwice(layers, first, second);
    UnmetTwice(layers, first, second);
  }

  /** The two costs returned, each rounded, come within one grid step of the one cost, and to it exactly when the
      unrounded costs' remainders allow. */
  lemma TwoIssueCosts(layers: seq<Layer>, first: nat, second: nat)
    ensures var rest := Left(layers, first);
            var one, two, whole := Consumed(layers, first), Consumed(rest, second), Consumed(layers, first + second);
            var c1, c2 := CostOf(layers, first), CostOf(rest, second);
            && c1 + c2 == CostOf(layers, first + second)
            && -1 <= one.totalCost + two.totalCost - whole.totalCost <= 1
            && (one.totalCost + two.totalCost == whole.totalCost
                <==> 5_000 <= (c1 + 5_000) % 10_000 + (c2 + 5_000) % 10_000 < 15_000)
  {
    var c1, c2 := CostOf(layers, first), CostOf(Left(layers, first), second);
    CostTwice(layers, first, second);
    RoundedSum(c1, c2);
  }

  /** Two grid units at half a grid step each cost 1 issued together, and 1 each issued apart. */
  lemma SplitIssueCostsMore()
    ensures var layers := [Layer("a", 2, 5_000)];
            && Consumed(layers, 2).totalCost == 1
            && Consumed(layers, 1).totalCost == 1 && Consumed(Left(layers, 1), 1).totalCost == 1
  {
    var l2, l1 := Layer("a", 2, 5_000), Layer("a", 1, 5_000);
    assert [l2][1..] == [] && [l1][1..] == [];
    assert Left([l2], 1) == [l1];
    assert CostOf([l2], 2) == 10_000 && CostOf([l2], 1) == 5_000 && CostOf([l1], 1) == 5_000;
    RoundDivUnique(10_000, 10_000, 1);
    RoundDivUnique(5_000, 10_000, 1);
  }

  /** At two fifths of a step each they cost nothing issued apart, and 1 issued together. */
  lemma SplitIssueCostsLess()
    ensures var layers := [Layer("a", 2, 4_000)];
            && Consumed(layers, 2).totalCost == 1
            && Consumed(layers, 1).totalCost == 0 && Consumed(Left(layers, 1), 1).totalCost == 0
  {
    var l2, l1 := Layer("a", 2, 4_000), Layer("a", 1, 4_000);
    assert [l2][1..] == [] && [l1][1..] == [];
    assert Left([l2], 1) == [l1];
    assert CostOf([l2], 2) == 8_000 && CostOf([l2], 1) == 4_000 && CostOf([l1], 1) == 4_000;
    RoundDivUnique(8_000, 10_000, 1);
    RoundDivUnique(4_000, 10_000, 0);
  }

  function InStock(layers: seq<Layer>): seq<Layer> {
    if layers == [] then [] else (if layers[0].remainingQuantity > 0 then [layers[0]] else []) + InStock(layers[1..])
  }

  lemma InStockFirst(layers: seq<Layer>)
    requires layers != []
    ensures var stock, rest := InStock(layers), InStock(layers[1..]);
            if layers[0].remainingQuantity > 0 then stock != [] && stock[0] == layers[0] && stock[1..] == rest
            else stock == rest && forall wanted :: Taken(layers[0], wanted) == 0
  {
  }

  lemma {:induction false} UsedUpUntouched(layers: seq<Layer>, wanted: int)
    ensures Unmet(InStock(layers), wanted) == Unmet(layers, wanted)
    ensures CostOf(InStock(layers), wanted) == CostOf(layers, wanted)
  {
    if layers != [] {
      InStockFirst(layers);
      UsedUpUntouched(layers[1..], Then(layers[0], wanted));
      assert layers[0].remainingQuantity <= 0 ==> Taken(layers[0], wanted) == 0;
    }
  }

  lemma {:induction false} UsedUpNotUpdated(layers: seq<Layer>, wanted: int)
    ensures UpdatedLayers(InStock(layers), wanted) == UpdatedLayers(layers, wanted)
  {
    if layers != [] {
      InStockFirst(layers);
      UsedUpNotUpdated(layers[1..], Then(layers[0], wanted));
      assert layers[0].remainingQuantity <= 0 ==> TouchedBy(layers[0], wanted) == [];
    }
  }

  /** The next issue may as well be costed on the layers still in stock: those used up, which the service deletes, have
      no part in it. */
  lemma UsedUpLayersIrrelevant(layers: seq<Layer>, wanted: int)
    ensures Consumed(InStock(layers), wanted) == Consumed(layers, wanted)
  {
    UsedUpUntouched(layers, wanted);
    UsedUpNotUpdated(layers, wanted);
  }
}
