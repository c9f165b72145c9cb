/** The stock ledger behind `recordStock`: an append-only movement log beside one incrementally
    updated level row per (warehouse, material).  Quantities and unit costs are integers, in the
    ten-thousandths the database columns keep; `averageCost` is rounded back to that grid by every
    costed receipt. */
module StockLedger {
  import opened Common
  import opened Rounding

  datatype Kind = Receipt | Issue | WriteOff

  datatype Key = Key(warehouseId: string, materialId: string)

  datatype Command = Command(key: Key, kind: Kind, quantity: int, unitCost: Option<int>)

  datatype Movement = Movement(key: Key, kind: Kind, quantity: int, unitCost: Option<int>)

  datatype Level = Level(quantityOnHand: int, averageCost: Option<int>)

  /** What the ledger stores, as a value. */
  datatype Store = Store(levels: map<Key, Level>, movements: seq<Movement>)

  const EMPTY_STORE := Store(map[], [])

  function Delta(kind: Kind, quantity: int): int {
    if kind.Receipt? then quantity else -quantity
  }

  function OnHand(level: Option<Level>): int {
    if level.Some? then level.value.quantityOnHand else 0
  }

  function Average(level: Option<Level>): Option<int> {
    if level.Some? then level.value.averageCost else None
  }

  /** The moving average after a costed receipt; stock that never had a cost counts at the receipt's. */
  function Blend(level: Option<Level>, quantity: int, unitCost: int): int {
    var oldQty := OnHand(level);
    var oldAvg := Average(level).GetOr(unitCost);
    var newQty := oldQty + quantity;
    if newQty > 0 then RoundDiv(oldQty * oldAvg + quantity * unitCost, newQty) else unitCost
  }

  function AverageAfter(level: Option<Level>, kind: Kind, quantity: int, unitCost: Option<int>): Option<int> {
    if kind.Receipt? && unitCost.Some? then Some(Blend(level, quantity, unitCost.value)) else Average(level)
  }

  function LevelAfter(level: Option<Level>, kind: Kind, quantity: int, unitCost: Option<int>): Level {
    Level(OnHand(level) + Delta(kind, quantity), AverageAfter(level, kind, quantity, unitCost))
  }

  function LevelAt(levels: map<Key, Level>, key: Key): Option<Level> {
    if key in levels then Some(levels[key]) else None
  }

  function Stamped(level: Option<Level>, c: Command): Movement {
    Movement(c.key, c.kind, c.quantity, if c.kind.Receipt? then c.unitCost else Average(level))
  }

  function Step(s: Store, c: Command): Store {
    var level := LevelAt(s.levels, c.key);
    Store(s.levels[c.key := LevelAfter(level, c.kind, c.quantity, c.unitCost)], s.movements + [Stamped(level, c)])
  }

  /** The store after recording `cs`, in order, into an empty ledger. */
  function Run(cs: seq<Command>): Store {
    if cs == [] then EMPTY_STORE else Step(Run(cs[..|cs| - 1]), cs[|cs| - 1])
  }

  /** The ledger as the program updates it: rows and log are overwritten in place. */
  class Ledger {
    var levels: map<Key, Level>
    var movements: seq<Movement>

    ghost function Contents(): Store
      reads this
    {
      Store(levels, movements)
    }

    /** Every level row is what a from-scratch replay of its key's movements gives. */
    ghost predicate Valid()
      reads this
    {
      Agrees(Contents())
    }

    constructor ()
      ensures Valid() && Contents() == EMPTY_STORE
    {
      levels, movements := map[], [];
    }

    method RecordStock(c: Command)
      requires Valid()
      modifies this
      ensures Contents() == Step(old(Contents()), c)
      ensures Valid()
    {
      var delta := if c.kind == Receipt then c.quantity else -c.quantity;
      var level := LevelAt(levels, c.key);
      var averageCost := if level.Some? then level.value.averageCost else None;
      if c.kind == Receipt && c.unitCost.Some? {
        var oldQty := if level.Some? then level.value.quantityOnHand else 0;
        var oldAvg := if averageCost.Some? then averageCost.value else c.unitCost.value;
        var newQty := oldQty + c.quantity;
        averageCost := Some(if newQty > 0
                            then RoundDiv(oldQty * oldAvg + c.quantity * c.unitCost.value, newQty)
                            else c.unitCost.value);
      }
      movements := movements + [Movement(c.key, c.kind, c.quantity, if c.kind == Receipt then c.unitCost else averageCost)];
      if level.Some? {
        var row := level.value.(quantityOnHand := level.value.quantityOnHand + delta);
        if averageCost.Some? {
          row := row.(averageCost := averageCost);
        }
        levels := levels[c.key := row];
      } else {
        levels := levels[c.key := Level(delta, averageCost)];
      }
      StepAgrees(old(Contents()), c);
    }
  }

  // ----- the log, replayed from scratch -----

  function OfKey(ms: seq<Movement>, key: Key): seq<Movement> {
    if ms == [] then [] else
      var last := ms[|ms| - 1];
      OfKey(ms[..|ms| - 1], key) + if last.key == key then [last] else []
  }

  function CommandsOfKey(cs: seq<Command>, key: Key): seq<Command> {
    if cs == [] then [] else
      var last := cs[|cs| - 1];
      CommandsOfKey(cs[..|cs| - 1], key) + if last.key == key then [last] else []
  }

  /** A level row rebuilt from one key's movements, oldest first. */
  function Replay(log: seq<Movement>): Option<Level> {
    if log == [] then None else
      var m := log[|log| - 1];
      Some(LevelAfter(Replay(log[..|log| - 1]), m.kind, m.quantity, m.unitCost))
  }

  ghost predicate Agrees(s: Store) {
    forall key :: LevelAt(s.levels, key) == Replay(OfKey(s.movements, key))
  }

  lemma OfKeyAppend(ms: seq<Movement>, m: Movement, key: Key)
    ensures OfKey(ms + [m], key) == OfKey(ms, key) + if m.key == key then [m] else []
  {
    assert (ms + [m])[..|ms|] == ms;
  }

  lemma ReplayAppend(log: seq<Movement>, m: Movement)
    ensures Replay(log + [m]) == Some(LevelAfter(Replay(log), m.kind, m.quantity, m.unitCost))
  {
    assert (log + [m])[..|log|] == log;
  }

  lemma StepAgreesAt(s: Store, c: Command, key: Key)
    requires LevelAt(s.levels, key) == Replay(OfKey(s.movements, key))
    ensures LevelAt(Step(s, c).levels, key) == Replay(OfKey(Step(s, c).movements, key))
  {
    var log, m := OfKey(s.movements, key), Stamped(LevelAt(s.levels, c.key), c);
    OfKeyAppend(s.movements, m, key);
    if key == c.key {
      assert OfKey(Step(s, c).movements, key) == log + [m];
      ReplayAppend(log, m);
      assert AverageAfter(Replay(log), m.kind, m.quantity, m.unitCost) == AverageAfter(Replay(log), c.kind, c.quantity, c.unitCost);
    } else {
      assert OfKey(Step(s, c).movements, key) == log;
    }
  }

  lemma StepAgrees(s: Store, c: Command)
    requires Agrees(s)
    ensures Agrees(Step(s, c))
  {
    forall key ensures LevelAt(Step(s, c).levels, key) == Replay(OfKey(Step(s, c).movements, key)) {
      StepAgreesAt(s, c, key);
    }
  }

  /** The cached rows agree with the log after any run. */
  lemma {:induction false} RunAgrees(cs: seq<Command>)
    ensures Agrees(Run(cs))
  {
    if cs != [] {
      RunAgrees(cs[..|cs| - 1]);
      StepAgrees(Run(cs[..|cs| - 1]), cs[|cs| - 1]);
    }
  }

  /** A key's row and its part of the log depend on that key's commands only. */
  lemma {:induction false} OtherKeysDoNotMatter(cs: seq<Command>, key: Key)
    ensures LevelAt(Run(cs).levels, key) == LevelAt(Run(CommandsOfKey(cs, key)).levels, key)
    ensures OfKey(Run(cs).movements, key) == Run(CommandsOfKey(cs, key)).movements
  {
    if cs != [] {
      var front, c := cs[..|cs| - 1], cs[|cs| - 1];
      OtherKeysDoNotMatter(front, key);
      OfKeyAppend(Run(front).movements, Stamped(LevelAt(Run(front).levels, c.key), c), key);
      if c.key == key {
        var mine := CommandsOfKey(front, key);
        assert (mine + [c])[..|mine|] == mine;
      } else {
        assert CommandsOfKey(cs, key) == CommandsOfKey(front, key);
      }
    }
  }

  /** Any two interleavings of the same per-key command streams end with the same level rows and the
      same per-key logs. */
  lemma InterleavingIrrelevant(cs: seq<Command>, ds: seq<Command>)
    requires forall key :: CommandsOfKey(cs, key) == CommandsOfKey(ds, key)
    ensures Run(cs).levels == Run(ds).levels
    ensures forall key :: OfKey(Run(cs).movements, key) == OfKey(Run(ds).movements, key)
  {
    forall key
      ensures LevelAt(Run(cs).levels, key) == LevelAt(Run(ds).levels, key)
      ensures OfKey(Run(cs).movements, key) == OfKey(Run(ds).movements, key)
    {
      assert CommandsOfKey(cs, key) == CommandsOfKey(ds, key);
      OtherKeysDoNotMatter(cs, key);
      OtherKeysDoNotMatter(ds, key);
    }
    forall key
      ensures key in Run(cs).levels <==> key in Run(ds).levels
      ensures key in Run(cs).levels ==> Run(cs).levels[key] == Run(ds).levels[key]
    {
      assert LevelAt(Run(cs).levels, key) == LevelAt(Run(ds).levels, key);
    }
  }

  // ----- what came in and went out -----

  /** The quantities of one kind, summed. */
  function Quantities(cs: seq<Command>, kind: Kind): int {
    if cs == [] then 0 else
      var c := cs[|cs| - 1];
      Quantities(cs[..|cs| - 1], kind) + if c.kind == kind then c.quantity else 0
  }

  lemma CommandOfKey(cs: seq<Command>, key: Key)
    requires cs != []
    ensures var front, c := cs[..|cs| - 1], cs[|cs| - 1];
            if c.key == key
            then forall kind :: Quantities(CommandsOfKey(cs, key), kind)
                                == Quantities(CommandsOfKey(front, key), kind) + if c.kind == kind then c.quantity else 0
            else CommandsOfKey(cs, key) == CommandsOfKey(front, key)
  {
    var front, c := cs[..|cs| - 1], cs[|cs| - 1];
    var mine := CommandsOfKey(front, key);
    assert (mine + [c])[..|mine|] == mine;
  }

  /** After any run a key has on hand what it received less what was issued and less what was written off. */
  lemma {:induction false} OnHandBalances(cs: seq<Command>, key: Key)
    ensures var mine := CommandsOfKey(cs, key);
            OnHand(LevelAt(Run(cs).levels, key)) == Quantities(mine, Receipt) - Quantities(mine, Issue) - Quantities(mine, WriteOff)
  {
    if cs != [] {
      OnHandBalances(cs[..|cs| - 1], key);
      CommandOfKey(cs, key);
    }
  }

  /** The log has one movement per command, in order, of its key, kind and quantity, and of a receipt its cost. */
  lemma {:induction false} LogRecordsCommands(cs: seq<Command>, i: nat)
    requires i < |cs|
    ensures var log := Run(cs).movements;
            && |log| == |cs|
            && log[i].key == cs[i].key && log[i].kind == cs[i].kind && log[i].quantity == cs[i].quantity
            && (cs[i].kind.Receipt? ==> log[i].unitCost == cs[i].unitCost)
  {
    var front := cs[..|cs| - 1];
    if front != [] {
      LogRecordsCommands(front, if i < |front| then i else 0);
    }
  }

  // ----- what the log records -----

  /** Every outgoing movement carries the average its key had just before it. */
  ghost predicate WellStamped(log: seq<Movement>) {
    log == [] ||
    var front, m := log[..|log| - 1], log[|log| - 1];
    WellStamped(front) && (!m.kind.Receipt? ==> m.unitCost == Average(Replay(front)))
  }

  /** Quantities are not negative and no outgoing movement takes more than is on hand. */
  ghost predicate Covered(log: seq<Movement>) {
    log == [] ||
    var front, m := log[..|log| - 1], log[|log| - 1];
    Covered(front) && 0 <= m.quantity && (!m.kind.Receipt? ==> m.quantity <= OnHand(Replay(front)))
  }

  /** The unit costs of the costed receipts. */
  function UnitCosts(log: seq<Movement>): set<int> {
    if log == [] then {} else
      var m := log[|log| - 1];
      UnitCosts(log[..|log| - 1]) + if m.kind.Receipt? && m.unitCost.Some? then {m.unitCost.value} else {}
  }

  ghost predicate AllReceiptsCosted(log: seq<Movement>) {
    forall m :: m in log && m.kind.Receipt? ==> m.unitCost.Some?
  }

  /** Value booked in at receipt cost less value booked out at the stamped cost. */
  function BookedValue(log: seq<Movement>): int {
    if log == [] then 0 else
      var m := log[|log| - 1];
      var amount := m.quantity * m.unitCost.GetOr(0);
      match m.kind
      case Receipt => BookedValue(log[..|log| - 1]) + amount
      case Issue => BookedValue(log[..|log| - 1]) - amount
      case WriteOff => BookedValue(log[..|log| - 1]) - amount
  }

  /** The on-hand quantities right after each receipt, summed. */
  function PostReceiptQuantities(log: seq<Movement>): int {
    if log == [] then 0 else
      var m := log[|log| - 1];
      PostReceiptQuantities(log[..|log| - 1]) + if m.kind.Receipt? then OnHand(Replay(log)) else 0
  }

  lemma {:induction false} RunWellStamped(cs: seq<Command>, key: Key)
    ensures WellStamped(OfKey(Run(cs).movements, key))
  {
    if cs != [] {
      var front, c := cs[..|cs| - 1], cs[|cs| - 1];
      RunWellStamped(front, key);
      RunAgrees(front);
      var m := Stamped(LevelAt(Run(front).levels, c.key), c);
      OfKeyAppend(Run(front).movements, m, key);
      if c.key == key {
        var log := OfKey(Run(front).movements, key);
        assert (log + [m])[..|log|] == log;
        assert LevelAt(Run(front).levels, key) == Replay(log);
      } else {
        assert OfKey(Run(cs).movements, key) == OfKey(Run(front).movements, key);
      }
    }
  }

  // ----- range of the average -----

  lemma WeightedWithin(q: int, a: int, p: int, u: int, lo: int, hi: int)
    requires 0 <= q && 0 <= p && lo <= a <= hi && lo <= u <= hi
    ensures lo * (q + p) <= q * a + p * u <= hi * (q + p)
  {
    MulOrder(lo, a, q);
    MulOrder(a, hi, q);
    MulOrder(lo, u, p);
    MulOrder(u, hi, p);
  }

  /** With stock not below zero, one blend stays between the old average and the new cost, rounding included. */
  lemma BlendWithin(level: Option<Level>, quantity: int, unitCost: int, lo: int, hi: int)
    requires 0 <= OnHand(level) && 0 <= quantity
    requires lo <= unitCost <= hi
    requires Average(level).Some? ==> lo <= Average(level).value <= hi
    ensures lo <= Blend(level, quantity, unitCost) <= hi
  {
    var q, a := OnHand(level), Average(level).GetOr(unitCost);
    if q + quantity > 0 {
      WeightedWithin(q, a, quantity, unitCost, lo, hi);
      RoundDivWithin(q * a + quantity * unitCost, q + quantity, lo, hi);
    }
  }

  /** The blend is the new cost, moved by the stock's share of the price change. */
  lemma BlendAsShift(level: Option<Level>, quantity: int, unitCost: int)
    requires Average(level).Some? && 0 < OnHand(level) + quantity
    ensures Blend(level, quantity, unitCost)
            == unitCost + RoundDiv(-OnHand(level) * (unitCost - Average(level).value), OnHand(level) + quantity)
  {
    var q, a := OnHand(level), Average(level).value;
    var excess := -q * (unitCost - a);
    assert q * a + quantity * unitCost == excess + unitCost * (q + quantity);
    RoundDivShift(excess, q + quantity, unitCost);
  }

  lemma SignOfProduct(x: int, y: int)
    requires 0 < x
    ensures 0 <= y <==> 0 <= x * y
    ensures 0 < y <==> 0 < x * y
  {
  }

  /** Exactly when one costed receipt keeps the average between the old average and its own cost: stock is
      not below zero, or the overdraft is too small beside the resulting stock to survive rounding. */
  lemma BlendBetweenIff(level: Option<Level>, quantity: int, unitCost: int)
    requires Average(level).Some? && 0 <= quantity && 0 < OnHand(level) + quantity
    ensures var q, a, n := OnHand(level), Average(level).value, OnHand(level) + quantity;
            Min(a, unitCost) <= Blend(level, quantity, unitCost) <= Max(a, unitCost)
            <==> 0 <= q || -n <= 2 * (-q * (unitCost - a)) < n
  {
    var q, a, n := OnHand(level), Average(level).value, OnHand(level) + quantity;
    if 0 <= q {
      BlendWithin(level, quantity, unitCost, Min(a, unitCost), Max(a, unitCost));
    } else {
      var excess := -q * (unitCost - a);
      SignOfProduct(-q, unitCost - a);
      BlendAsShift(level, quantity, unitCost);
      RoundsToZeroIff(excess, n);
      RoundDivWhole(0, n);
      if excess >= 0 {
        RoundDivMonotone(0 * n, excess, n);
      } else {
        RoundDivMonotone(excess, 0 * n, n);
      }
    }
  }

  /** Exactly when one costed receipt leaves the average within any given range, whatever stock and average it finds. */
  lemma BlendInRangeIff(level: Option<Level>, quantity: int, unitCost: int, lo: int, hi: int)
    ensures var q, a, n := OnHand(level), Average(level).GetOr(unitCost), OnHand(level) + quantity;
            lo <= Blend(level, quantity, unitCost) <= hi
            <==> if n > 0 then 2 * (lo * n) - n <= 2 * (q * a + quantity * unitCost) < 2 * (hi * n) + n
                 else lo <= unitCost <= hi
  {
    var q, a, n := OnHand(level), Average(level).GetOr(unitCost), OnHand(level) + quantity;
    if n > 0 {
      RoundDivBetweenIff(q * a + quantity * unitCost, n, lo, hi);
    }
  }

  lemma CoveredOnHand(log: seq<Movement>)
    requires Covered(log)
    ensures 0 <= OnHand(Replay(log))
  {
  }

  /** The average is unset exactly while no costed receipt has arrived: once set, it stays set. */
  lemma {:induction false} AverageSetIff(log: seq<Movement>)
    ensures Average(Replay(log)).Some? <==> UnitCosts(log) != {}
  {
    if log != [] {
      AverageSetIff(log[..|log| - 1]);
    }
  }

  lemma {:induction false} ReplayedAverageInRange(log: seq<Movement>, lo: int, hi: int)
    requires Covered(log)
    requires forall u :: u in UnitCosts(log) ==> lo <= u <= hi
    ensures Average(Replay(log)).Some? ==> lo <= Average(Replay(log)).value <= hi
  {
    if log != [] {
      var front, m := log[..|log| - 1], log[|log| - 1];
      assert forall u :: u in UnitCosts(front) ==> u in UnitCosts(log);
      ReplayedAverageInRange(front, lo, hi);
      if m.kind.Receipt? && m.unitCost.Some? {
        CoveredOnHand(front);
        assert m.unitCost.value in UnitCosts(log);
        BlendWithin(Replay(front), m.quantity, m.unitCost.value, lo, hi);
      }
    }
  }

  lemma CostExtremes(log: seq<Movement>) returns (lo: int, hi: int)
    requires UnitCosts(log) != {}
    ensures lo in UnitCosts(log) && hi in UnitCosts(log)
    ensures forall u :: u in UnitCosts(log) ==> lo <= u <= hi
  {
    var front, m := log[..|log| - 1], log[|log| - 1];
    if UnitCosts(front) == {} {
      lo, hi := m.unitCost.value, m.unitCost.value;
    } else {
      lo, hi := CostExtremes(front);
      if m.kind.Receipt? && m.unitCost.Some? {
        lo, hi := Min(lo, m.unitCost.value), Max(hi, m.unitCost.value);
      }
    }
  }

  /** After any run whose issues and write-offs of a key never exceed its stock, that key's average is unset
      or lies between two unit costs it was actually received at. */
  lemma AverageInRange(cs: seq<Command>, key: Key) returns (lo: int, hi: int)
    requires Covered(OfKey(Run(cs).movements, key))
    ensures var average := Average(LevelAt(Run(cs).levels, key));
            var costs := UnitCosts(OfKey(Run(cs).movements, key));
            if costs == {} then average == None
            else average.Some? && lo in costs && hi in costs && lo <= average.value <= hi
                 && forall u :: u in costs ==> lo <= u <= hi
  {
    RunAgrees(cs);
    var log := OfKey(Run(cs).movements, key);
    assert LevelAt(Run(cs).levels, key) == Replay(log);
    AverageSetIff(log);
    lo, hi := 0, 0;
    if UnitCosts(log) != {} {
      lo, hi := CostExtremes(log);
      ReplayedAverageInRange(log, lo, hi);
    }
  }

  /** Overdrawn stock breaks the range: 10 in at 100, 15 out, 10 in at 200 averages to 300. */
  lemma OverdrawnAverageEscapes(key: Key)
    ensures var cs := [Command(key, Receipt, 10, Some(100)), Command(key, Issue, 15, None), Command(key, Receipt, 10, Some(200))];
            LevelAt(Run(cs).levels, key) == Some(Level(5, Some(300)))
  {
    var c0, c1, c2 := Command(key, Receipt, 10, Some(100)), Command(key, Issue, 15, None), Command(key, Receipt, 10, Some(200));
    assert [c0, c1, c2][..2] == [c0, c1] && [c0, c1][..1] == [c0] && [c0][..0] == [];
    assert Run([c0]) == Step(EMPTY_STORE, c0);
    RoundDivUnique(0 * 100 + 10 * 100, 10, 100);
    assert Run([c0, c1]) == Step(Run([c0]), c1);
    RoundDivUnique(-5 * 100 + 10 * 200, 5, 300);
  }

  // ----- rounding drift -----

  /** Value on hand at the cached average. */
  function CarriedValue(level: Option<Level>): int {
    OnHand(level) * Average(level).GetOr(0)
  }

  /** How far one costed receipt moves the carried value beyond its own cost. */
  function ReceiptError(level: Option<Level>, quantity: int, unitCost: int): int {
    CarriedValue(Some(LevelAfter(level, Receipt, quantity, Some(unitCost)))) - (CarriedValue(level) + quantity * unitCost)
  }

  /** A receipt on priced stock must leave stock above zero, or none at all that it re-prices; on stock that never had a
      cost, what that stock is worth at the new cost must be within the allowance. */
  predicate ReceiptWithin(level: Option<Level>, quantity: int, unitCost: int) {
    var q, n := OnHand(level), OnHand(level) + quantity;
    if Average(level).Some? then n > 0 || (n == 0 && (q == 0 || unitCost == Average(level).value))
    else -n <= 2 * (q * unitCost) <= n
  }

  /** Exactly when one costed receipt's error is at most half a grid step per unit then on hand. */
  lemma ReceiptWithinIff(level: Option<Level>, quantity: int, unitCost: int)
    ensures var n := OnHand(level) + quantity;
            -n <= 2 * ReceiptError(level, quantity, unitCost) <= n <==> ReceiptWithin(level, quantity, unitCost)
  {
    var q, n := OnHand(level), OnHand(level) + quantity;
    if Average(level).Some? && n > 0 {
      RoundedValueNear(q * Average(level).value + quantity * unitCost, n, Blend(level, quantity, unitCost));
    } else {
      UncoveredReceiptError(level, quantity, unitCost);
      if Average(level).Some? && n == 0 {
        ZeroProductIff(q, unitCost - Average(level).value);
      }
    }
  }

  lemma ZeroProductIff(x: int, y: int)
    ensures x * y == 0 <==> x == 0 || y == 0
  {
  }

  /** Where the average is not blended the error is exactly the old stock times the change of price. */
  lemma UncoveredReceiptError(level: Option<Level>, quantity: int, unitCost: int)
    requires Average(level).None? || OnHand(level) + quantity <= 0
    ensures ReceiptError(level, quantity, unitCost) == OnHand(level) * (unitCost - Average(level).GetOr(0))
  {
    BlendUncovered(level, quantity, unitCost);
    RepricedValue(OnHand(level), quantity, unitCost, Average(level).GetOr(0));
  }

  lemma BlendUncovered(level: Option<Level>, quantity: int, unitCost: int)
    requires Average(level).None? || OnHand(level) + quantity <= 0
    ensures Blend(level, quantity, unitCost) == unitCost
  {
    var q, n := OnHand(level), OnHand(level) + quantity;
    if n > 0 {
      SumTimes(q, quantity, unitCost);
      assert q * unitCost + quantity * unitCost == unitCost * n;
      RoundDivWhole(unitCost, n);
    }
  }

  lemma RepricedValue(q: int, p: int, u: int, a: int)
    ensures (q + p) * u - (q * a + p * u) == q * (u - a)
  {
  }

  lemma RoundedValueNear(value: int, n: int, r: int)
    requires Rounds(value, n, r)
    ensures -n <= 2 * (n * r - value) <= n
  {
    assert n * r == r * n;
  }

  lemma SumTimes(q: int, d: int, a: int)
    ensures (q + d) * a == q * a + d * a
  {
  }

  /** An issue stamped with the current average moves the carried value by exactly what it books out. */
  lemma IssueDrift(level: Option<Level>, kind: Kind, quantity: int)
    requires !kind.Receipt?
    ensures CarriedValue(Some(LevelAfter(level, kind, quantity, Average(level))))
            == CarriedValue(level) - quantity * Average(level).GetOr(0)
  {
    LessTimes(OnHand(level), quantity, Average(level).GetOr(0));
  }

  /** Every receipt in the log was within its allowance when it came. */
  ghost predicate ReceiptsWithin(log: seq<Movement>) {
    log == [] ||
    var front, m := log[..|log| - 1], log[|log| - 1];
    ReceiptsWithin(front)
    && (m.kind.Receipt? && m.unitCost.Some? ==> ReceiptWithin(Replay(front), m.quantity, m.unitCost.value))
  }

  lemma {:induction false} ReplayedDrift(log: seq<Movement>)
    requires WellStamped(log) && ReceiptsWithin(log) && AllReceiptsCosted(log)
    ensures -PostReceiptQuantities(log) <= 2 * Drift(log) <= PostReceiptQuantities(log)
  {
    if log != [] {
      var front, m := log[..|log| - 1], log[|log| - 1];
      assert forall x :: x in front ==> x in log;
      ReplayedDrift(front);
      assert m in log && log == front + [m];
      if m.kind.Receipt? {
        ReceiptDrift(front, m);
      } else {
        OutgoingDrift(front, m);
      }
    }
  }

  lemma OneMore(front: seq<Movement>, m: Movement)
    ensures var log, after := front + [m], LevelAfter(Replay(front), m.kind, m.quantity, m.unitCost);
            && log[..|log| - 1] == front && log[|log| - 1] == m
            && Replay(log) == Some(after)
            && BookedValue(log) == BookedValue(front) + (if m.kind.Receipt? then 1 else -1) * (m.quantity * m.unitCost.GetOr(0))
            && PostReceiptQuantities(log) == PostReceiptQuantities(front) + if m.kind.Receipt? then after.quantityOnHand else 0
  {
    assert (front + [m])[..|front|] == front;
  }

  /** What a receipt adds to the drift and to its bound. */
  lemma ReceiptDrift(front: seq<Movement>, m: Movement)
    requires m.kind.Receipt? && m.unitCost.Some? && ReceiptWithin(Replay(front), m.quantity, m.unitCost.value)
    ensures var log := front + [m];
            var allowed := PostReceiptQuantities(log) - PostReceiptQuantities(front);
            -allowed <= 2 * (Drift(log) - Drift(front)) <= allowed
  {
    OneMore(front, m);
    ReceiptWithinIff(Replay(front), m.quantity, m.unitCost.value);
  }

  /** An issue or write-off adds nothing to either. */
  lemma OutgoingDrift(front: seq<Movement>, m: Movement)
    requires !m.kind.Receipt? && m.unitCost == Average(Replay(front))
    ensures var log := front + [m];
            Drift(log) == Drift(front) && PostReceiptQuantities(log) == PostReceiptQuantities(front)
  {
    OneMore(front, m);
    IssueDrift(Replay(front), m.kind, m.quantity);
  }

  /** How far the carried value has moved from the booked value. */
  function Drift(log: seq<Movement>): int {
    CarriedValue(Replay(log)) - BookedValue(log)
  }

  /** Over any run of costed receipts, each within its allowance, and of any issues and write-offs of a key, overdrawing
      ones included, on-hand quantity times cached average stays within half a grid step, per unit on hand after
      each receipt, of the value booked. */
  lemma DriftBound(cs: seq<Command>, key: Key)
    requires ReceiptsWithin(OfKey(Run(cs).movements, key)) && AllReceiptsCosted(OfKey(Run(cs).movements, key))
    ensures var log := OfKey(Run(cs).movements, key);
            var drift := CarriedValue(LevelAt(Run(cs).levels, key)) - BookedValue(log);
            -PostReceiptQuantities(log) <= 2 * drift <= PostReceiptQuantities(log)
  {
    RunAgrees(cs);
    RunWellStamped(cs, key);
    ReplayedDrift(OfKey(Run(cs).movements, key));
  }

  /** Where nothing is ever taken that is not on hand, every costed receipt is within its allowance. */
  lemma {:induction false} CoveredReceiptsWithin(log: seq<Movement>)
    requires Covered(log) && AllReceiptsCosted(log)
    ensures ReceiptsWithin(log)
    ensures Average(Replay(log)).None? ==> OnHand(Replay(log)) == 0
  {
    if log != [] {
      var front, m := log[..|log| - 1], log[|log| - 1];
      assert m in log && forall x :: x in front ==> x in log;
      CoveredReceiptsWithin(front);
      CoveredOnHand(front);
    }
  }

  /** So the bound holds over any run of costed receipts and covered issues and write-offs. */
  lemma CoveredDriftBound(cs: seq<Command>, key: Key)
    requires Covered(OfKey(Run(cs).movements, key)) && AllReceiptsCosted(OfKey(Run(cs).movements, key))
    ensures var log := OfKey(Run(cs).movements, key);
            var drift := CarriedValue(LevelAt(Run(cs).levels, key)) - BookedValue(log);
            -PostReceiptQuantities(log) <= 2 * drift <= PostReceiptQuantities(log)
  {
    CoveredReceiptsWithin(OfKey(Run(cs).movements, key));
    DriftBound(cs, key);
  }

  /** 10 in at 100, 15 out, 3 in at 200: the last receipt leaves stock below zero, and the carried value 500 off the
      booked one where 4 are allowed. */
  lemma OverdrawnDrift(key: Key)
    ensures var cs := [Command(key, Receipt, 10, Some(100)), Command(key, Issue, 15, None), Command(key, Receipt, 3, Some(200))];
            var log := Run(cs).movements;
            Drift(log) == -500 && PostReceiptQuantities(log) == 8
  {
    var c0, c1, c2 := Command(key, Receipt, 10, Some(100)), Command(key, Issue, 15, None), Command(key, Receipt, 3, Some(200));
    var m0, m1, m2 := Movement(key, Receipt, 10, Some(100)), Movement(key, Issue, 15, Some(100)), Movement(key, Receipt, 3, Some(200));
    assert [c0, c1, c2][..2] == [c0, c1] && [c0, c1][..1] == [c0] && [c0][..0] == [];
    assert [m0, m1, m2][..2] == [m0, m1] && [m0, m1][..1] == [m0] && [m0][..0] == [];
    RoundDivUnique(0 * 100 + 10 * 100, 10, 100);
    assert Run([c0]) == Step(EMPTY_STORE, c0) && Run([c0]).movements == [m0];
    assert Run([c0, c1]) == Step(Run([c0]), c1) && Run([c0, c1]).movements == [m0, m1];
    assert Run([c0, c1, c2]).movements == [m0, m1, m2];
    assert Replay([m0]) == Some(Level(10, Some(100)));
    assert Replay([m0, m1]) == Some(Level(-5, Some(100)));
    assert Replay([m0, m1, m2]) == Some(Level(-2, Some(200)));
    assert BookedValue([m0]) == 1000 && BookedValue([m0, m1]) == -500;
    assert PostReceiptQuantities([m0]) == 10 && PostReceiptQuantities([m0, m1]) == 10;
  }
}
