/** The exchange-rate table: every directed pair derived from one table of values in dollars. */
module CrossRates {
  import opened Common

  datatype Rate = Rate(fromCurrency: string, toCurrency: string, rate: real)

  /** Each currency's value, positive. */
  ghost predicate Valued(currencies: seq<string>, usdPer: map<string, real>) {
    forall c :: c in currencies ==> c in usdPer && usdPer[c] > 0.0
  }

  function Quotient(usdPer: map<string, real>, a: string, b: string): real {
    if a in usdPer && b in usdPer && usdPer[b] != 0.0 then usdPer[a] / usdPer[b] else 0.0
  }

  /** The rows from one currency, as the inner loop pushes them. */
  function RowsFrom(a: string, tos: seq<string>, usdPer: map<string, real>): seq<Rate> {
    if tos == [] then [] else
      var b := tos[|tos| - 1];
      RowsFrom(a, tos[..|tos| - 1], usdPer) + if a == b then [] else [Rate(a, b, Quotient(usdPer, a, b))]
  }

  function Table(froms: seq<string>, tos: seq<string>, usdPer: map<string, real>): seq<Rate> {
    if froms == [] then [] else
      Table(froms[..|froms| - 1], tos, usdPer) + RowsFrom(froms[|froms| - 1], tos, usdPer)
  }

  method SeedExchangeRates(currencies: seq<string>, usdPer: map<string, real>) returns (rows: seq<Rate>)
    requires Distinct(currencies) && Valued(currencies, usdPer)
    ensures rows == Table(currencies, currencies, usdPer)
    ensures |rows| == |currencies| * (|currencies| - 1)
    ensures EachPairOnce(rows, currencies)
  {
    rows := [];
    for i := 0 to |currencies|
      invariant rows == Table(currencies[..i], currencies, usdPer)
    {
      var from := currencies[i];
      ghost var before := rows;
      for j := 0 to |currencies|
        invariant rows == before + RowsFrom(from, currencies[..j], usdPer)
      {
        var to := currencies[j];
        assert currencies[..j + 1][..j] == currencies[..j];
        if from == to {
          continue;
        }
        assert from in currencies && to in currencies;
        rows := rows + [Rate(from, to, usdPer[from] / usdPer[to])];
      }
      assert currencies[..|currencies|] == currencies;
      assert currencies[..i + 1][..i] == currencies[..i];
    }
    assert currencies[..|currencies|] == currencies;
    TableComplete(currencies, currencies, usdPer);
    TableLength(currencies, currencies, usdPer);
  }

  // ----- every ordered pair, once -----

  ghost predicate HasPair(rows: seq<Rate>, i: nat, a: string, b: string) {
    i < |rows| && rows[i].fromCurrency == a && rows[i].toCurrency == b
  }

  /** No pair has two rows. */
  ghost predicate NoPairTwice(rows: seq<Rate>) {
    forall i, j :: 0 <= i < j < |rows| ==>
      !(rows[i].fromCurrency == rows[j].fromCurrency && rows[i].toCurrency == rows[j].toCurrency)
  }

  ghost predicate EachPairOnce(rows: seq<Rate>, currencies: seq<string>) {
    && NoPairTwice(rows)
    && (forall r :: r in rows ==> r.fromCurrency in currencies && r.toCurrency in currencies && r.fromCurrency != r.toCurrency)
    && (forall a, b :: a in currencies && b in currencies && a != b ==> exists i :: HasPair(rows, i, a, b))
  }

  lemma {:induction false} RowsFromComplete(a: string, tos: seq<string>, usdPer: map<string, real>)
    requires Distinct(tos)
    ensures var rows := RowsFrom(a, tos, usdPer);
            && NoPairTwice(rows)
            && (forall r :: r in rows ==> r.fromCurrency == a && r.toCurrency in tos && r.toCurrency != a
                                          && r.rate == Quotient(usdPer, a, r.toCurrency))
            && (forall b :: b in tos && b != a ==> exists i :: HasPair(rows, i, a, b))
            && |rows| == |tos| - if a in tos then 1 else 0
  {
    if tos != [] {
      var front, b := tos[..|tos| - 1], tos[|tos| - 1];
      assert tos == front + [b] && b !in front;
      RowsFromComplete(a, front, usdPer);
      var before, rows := RowsFrom(a, front, usdPer), RowsFrom(a, tos, usdPer);
      forall c | c in tos && c != a ensures exists i :: HasPair(rows, i, a, c) {
        if c in front {
          var i :| HasPair(before, i, a, c);
          assert HasPair(rows, i, a, c);
        } else {
          assert HasPair(rows, |before|, a, c);
        }
      }
      forall i, j | 0 <= i < j < |rows|
        ensures !(rows[i].fromCurrency == rows[j].fromCurrency && rows[i].toCurrency == rows[j].toCurrency)
      {
        assert rows[i] == before[i] && before[i] in before;
      }
    }
  }

  ghost predicate Complete(rows: seq<Rate>, froms: seq<string>, tos: seq<string>, usdPer: map<string, real>) {
    && NoPairTwice(rows)
    && (forall r :: r in rows ==> r.fromCurrency in froms && r.toCurrency in tos && r.fromCurrency != r.toCurrency
                                  && r.rate == Quotient(usdPer, r.fromCurrency, r.toCurrency))
    && (forall a, b :: a in froms && b in tos && a != b ==> exists i :: HasPair(rows, i, a, b))
  }

  lemma {:induction false} TableComplete(froms: seq<string>, tos: seq<string>, usdPer: map<string, real>)
    requires Distinct(froms) && Distinct(tos)
    ensures Complete(Table(froms, tos, usdPer), froms, tos, usdPer)
  {
    if froms != [] {
      var front, a := froms[..|froms| - 1], froms[|froms| - 1];
      assert froms == front + [a] && a !in front;
      TableComplete(front, tos, usdPer);
      RowsFromComplete(a, tos, usdPer);
      JoinRows(Table(front, tos, usdPer), RowsFrom(a, tos, usdPer), front, a, tos);
    }
  }

  lemma {:induction false} TableLength(froms: seq<string>, tos: seq<string>, usdPer: map<string, real>)
    requires Distinct(tos) && forall a :: a in froms ==> a in tos
    ensures |Table(froms, tos, usdPer)| == |froms| * (|tos| - 1)
  {
    if froms != [] {
      var front, a := froms[..|froms| - 1], froms[|froms| - 1];
      assert a in froms && forall x :: x in front ==> x in froms;
      TableLength(front, tos, usdPer);
      RowsFromComplete(a, tos, usdPer);
      OneMore(|front|, |tos| - 1);
    }
  }

  lemma OneMore(n: int, k: int)
    ensures (n + 1) * k == n * k + k
  {
  }

  lemma JoinRows(before: seq<Rate>, more: seq<Rate>, front: seq<string>, a: string, tos: seq<string>)
    requires NoPairTwice(before) && NoPairTwice(more) && a !in front
    requires forall r :: r in before ==> r.fromCurrency in front
    requires forall r :: r in more ==> r.fromCurrency == a
    requires forall x, b :: x in front && b in tos && x != b ==> exists i :: HasPair(before, i, x, b)
    requires forall b :: b in tos && b != a ==> exists i :: HasPair(more, i, a, b)
    ensures NoPairTwice(before + more)
    ensures forall x, b :: x in front + [a] && b in tos && x != b ==> exists i :: HasPair(before + more, i, x, b)
  {
    var rows := before + more;
    forall i, j | 0 <= i < j < |rows|
      ensures !(rows[i].fromCurrency == rows[j].fromCurrency && rows[i].toCurrency == rows[j].toCurrency)
    {
      if i < |before| <= j {
        assert before[i] in before && more[j - |before|] in more;
      }
    }
    forall x, b | x in front + [a] && b in tos && x != b ensures exists i :: HasPair(rows, i, x, b) {
      if x in front {
        var i :| HasPair(before, i, x, b);
        assert HasPair(rows, i, x, b);
      } else {
        var i :| HasPair(more, i, a, b);
        assert HasPair(rows, |before| + i, x, b);
      }
    }
  }

  // ----- conversions along a path -----

  /** The rate the table gives for a pair. */
  function Lookup(rows: seq<Rate>, a: string, b: string): Option<real> {
    if rows == [] then None
    else if rows[0].fromCurrency == a && rows[0].toCurrency == b then Some(rows[0].rate)
    else Lookup(rows[1..], a, b)
  }

  lemma {:induction false} LookupFinds(rows: seq<Rate>, a: string, b: string, i: nat)
    requires HasPair(rows, i, a, b)
    ensures Lookup(rows, a, b).Some?
    ensures exists r :: r in rows && r.fromCurrency == a && r.toCurrency == b && Lookup(rows, a, b) == Some(r.rate)
  {
    if rows[0].fromCurrency == a && rows[0].toCurrency == b {
      assert rows[0] in rows;
    } else {
      LookupFinds(rows[1..], a, b, i - 1);
      var r :| r in rows[1..] && r.fromCurrency == a && r.toCurrency == b && Lookup(rows[1..], a, b) == Some(r.rate);
      assert r in rows;
    }
  }

  /** Every step of the path changes currency, and stays in the list. */
  ghost predicate Walk(path: seq<string>, currencies: seq<string>) {
    && path != []
    && (forall c :: c in path ==> c in currencies)
    && (forall i :: 0 <= i < |path| - 1 ==> path[i] != path[i + 1])
  }

  /** The product of the table's rates along a path. */
  function PathRate(rows: seq<Rate>, path: seq<string>): real {
    if |path| <= 1 then 1.0 else Lookup(rows, path[0], path[1]).GetOr(0.0) * PathRate(rows, path[1..])
  }

  lemma Chain(a: real, b: real, c: real)
    requires b != 0.0 && c != 0.0
    ensures (a / b) * (b / c) == a / c
  {
    var q := b / c;
    assert q * c == b;
    assert (a / b) * b == a;
    assert ((a / b) * q) * c == (a / b) * (q * c);
  }

  lemma TableRate(currencies: seq<string>, usdPer: map<string, real>, a: string, b: string)
    requires Distinct(currencies) && Valued(currencies, usdPer)
    requires a in currencies && b in currencies && a != b
    ensures Lookup(Table(currencies, currencies, usdPer), a, b) == Some(usdPer[a] / usdPer[b])
  {
    var rows := Table(currencies, currencies, usdPer);
    TableComplete(currencies, currencies, usdPer);
    var i :| HasPair(rows, i, a, b);
    LookupFinds(rows, a, b, i);
  }

  lemma SelfQuotient(a: real)
    requires a != 0.0
    ensures a / a == 1.0
  {
  }

  lemma WalkOn(path: seq<string>, currencies: seq<string>)
    requires Walk(path, currencies) && |path| > 1
    ensures path[0] in currencies && path[1] in currencies && path[0] != path[1] && Walk(path[1..], currencies)
  {
    assert path[0] in path && path[1] in path && path[0] != path[0 + 1];
    var rest := path[1..];
    forall i | 0 <= i < |rest| - 1 ensures rest[i] != rest[i + 1] {
      assert path[i + 1] != path[i + 1 + 1];
    }
  }

  lemma {:induction false} PathQuotient(currencies: seq<string>, usdPer: map<string, real>, path: seq<string>)
    requires Distinct(currencies) && Valued(currencies, usdPer) && Walk(path, currencies)
    ensures path[0] in currencies && path[|path| - 1] in currencies
    ensures PathRate(Table(currencies, currencies, usdPer), path) == usdPer[path[0]] / usdPer[path[|path| - 1]]
    decreases |path|
  {
    var first, last := path[0], path[|path| - 1];
    assert first in path && last in path;
    if |path| == 1 {
      SelfQuotient(usdPer[first]);
    } else {
      var rest := path[1..];
      WalkOn(path, currencies);
      PathQuotient(currencies, usdPer, rest);
      TableRate(currencies, usdPer, first, path[1]);
      Chain(usdPer[first], usdPer[path[1]], usdPer[last]);
    }
  }

  /** Converting along any path multiplies to the quotient of the end points' values: on an open path that is the
      direct rate, and every closed cycle multiplies to one. */
  lemma PathsTelescope(currencies: seq<string>, usdPer: map<string, real>, path: seq<string>)
    requires Distinct(currencies) && Valued(currencies, usdPer) && Walk(path, currencies)
    ensures var rows := Table(currencies, currencies, usdPer);
            if path[0] == path[|path| - 1] then PathRate(rows, path) == 1.0
            else Lookup(rows, path[0], path[|path| - 1]) == Some(PathRate(rows, path))
  {
    PathQuotient(currencies, usdPer, path);
    if path[0] == path[|path| - 1] {
      SelfQuotient(usdPer[path[0]]);
    } else {
      TableRate(currencies, usdPer, path[0], path[|path| - 1]);
    }
  }
}
