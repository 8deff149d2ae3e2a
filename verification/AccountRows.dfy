/** Token counts per period, agent and profile: adding them up, and the order in
    which the rows are shown. */
module AccountRows {
  import opened Wrappers
  import opened Strings

  datatype Counts = Counts(input: int, cacheRead: int, cacheCreation: int, output: int, calls: int, turns: int)
  {
    function Total(): int { input + cacheRead + cacheCreation + output }

    function Plus(c: Counts): Counts {
      Counts(input + c.input, cacheRead + c.cacheRead, cacheCreation + c.cacheCreation, output + c.output,
             calls + c.calls, turns + c.turns)
    }
  }

  const ZERO := Counts(0, 0, 0, 0, 0, 0)

  datatype Item<K> = Item(key: K, counts: Counts)

  // ---- Adding up by key ----

  function SumAll<K(==)>(items: seq<Item<K>>): Counts {
    if items == [] then ZERO else SumAll(items[..|items| - 1]).Plus(items[|items| - 1].counts)
  }

  function SumAt<K(==)>(items: seq<Item<K>>, key: K): Counts {
    if items == [] then ZERO
    else
      var it := items[|items| - 1];
      if it.key == key then SumAt(items[..|items| - 1], key).Plus(it.counts) else SumAt(items[..|items| - 1], key)
  }

  ghost predicate HasKey<K(!new)>(items: seq<Item<K>>, key: K) {
    exists i :: 0 <= i < |items| && items[i].key == key
  }

  function SumOver<K(==)>(order: seq<K>, items: seq<Item<K>>): Counts {
    if order == [] then ZERO else SumOver(order[..|order| - 1], items).Plus(SumAt(items, order[|order| - 1]))
  }

  lemma {:induction false} SumOverNothing<K>(order: seq<K>)
    ensures SumOver<K>(order, []) == ZERO
  {
    if order != [] {
      SumOverNothing(order[..|order| - 1]);
    }
  }

  lemma {:induction false} SumOverOneMore<K>(order: seq<K>, items: seq<Item<K>>)
    requires items != [] && Distinct(order)
    ensures var it := items[|items| - 1]; var before := SumOver(order, items[..|items| - 1]);
      SumOver(order, items) == if it.key in order then before.Plus(it.counts) else before
  {
    if order != [] {
      var init := order[..|order| - 1];
      SumOverOneMore(init, items);
      assert order == init + [order[|order| - 1]];
    }
  }

  /** Adding up per key and then over all keys, in any order, counts every item once. */
  lemma {:induction false} SumsAreConserved<K(!new)>(order: seq<K>, items: seq<Item<K>>)
    requires Distinct(order) && forall i :: 0 <= i < |items| ==> items[i].key in order
    ensures SumOver(order, items) == SumAll(items)
  {
    if items == [] {
      SumOverNothing(order);
    } else {
      SumsAreConserved(order, items[..|items| - 1]);
      SumOverOneMore(order, items);
    }
  }

  /** Every field is added up by itself. */
  lemma SumsAreFieldwise<K>(items: seq<Item<K>>, item: Item<K>)
    ensures var was, now, c := SumAll(items), SumAll(items + [item]), item.counts;
      && now.input == was.input + c.input && now.output == was.output + c.output
      && now.cacheRead == was.cacheRead + c.cacheRead && now.cacheCreation == was.cacheCreation + c.cacheCreation
      && now.calls == was.calls + c.calls && now.turns == was.turns + c.turns
    ensures var none := SumAll<K>([]);
      none.input == none.output == none.cacheRead == none.cacheCreation == none.calls == none.turns == 0
  {
    assert (items + [item])[..|items|] == items;
  }

  // ---- Rows ----

  /** What the quota ledger says of one key. */
  datatype Stats = Stats(cycles: int, exhausted: int, weeklyExhausted: int, eligible: int, excluded: int)

  const NO_STATS := Stats(0, 0, 0, 0, 0)

  datatype Key = Key(period: string, agent: string, profile: string)

  datatype Row = Row(key: Key, counts: Counts, stats: Stats)

  /** The first pass: total descending, then agent, then profile. */
  predicate BySize(a: Row, b: Row) {
    a.counts.Total() > b.counts.Total() ||
    (a.counts.Total() == b.counts.Total() && StrLe(a.key.agent, b.key.agent)
     && (a.key.agent == b.key.agent ==> StrLe(a.key.profile, b.key.profile)))
  }

  /** The second pass: period descending. */
  predicate ByPeriod(a: Row, b: Row) { StrLe(b.key.period, a.key.period) }

  /** The one order both passes together amount to. */
  predicate InOrder(a: Row, b: Row) {
    ByPeriod(a, b) && (a.key.period == b.key.period ==> BySize(a, b))
  }

  ghost predicate SortedBy(rows: seq<Row>, le: (Row, Row) -> bool) {
    forall i, j :: 0 <= i < j < |rows| ==> le(rows[i], rows[j])
  }

  /** A stable sort: each row goes before the first one it may precede. */
  function Insert(x: Row, rows: seq<Row>, le: (Row, Row) -> bool): (r: seq<Row>)
    ensures multiset(r) == multiset([x] + rows) && |r| == |rows| + 1
  {
    if rows == [] || le(x, rows[0]) then [x] + rows
    else
      assert rows == [rows[0]] + rows[1..];
      [rows[0]] + Insert(x, rows[1..], le)
  }

  function StableSort(rows: seq<Row>, le: (Row, Row) -> bool): (r: seq<Row>)
    ensures multiset(r) == multiset(rows) && |r| == |rows|
  {
    if rows == [] then []
    else
      assert rows == [rows[0]] + rows[1..];
      Insert(rows[0], StableSort(rows[1..], le), le)
  }

  lemma SameElements(a: seq<Row>, b: seq<Row>)
    requires multiset(a) == multiset(b)
    ensures forall r :: r in a <==> r in b
  {
    assert forall r :: r in a <==> r in multiset(a);
    assert forall r :: r in b <==> r in multiset(b);
  }

  lemma BySizeTotal(a: Row, b: Row, c: Row)
    ensures BySize(a, b) || BySize(b, a)
    ensures BySize(a, b) && BySize(b, c) ==> BySize(a, c)
    ensures BySize(a, b) && BySize(b, a) ==> a.key.agent == b.key.agent && a.key.profile == b.key.profile
  {
    StrLeTotal(a.key.agent, b.key.agent);
    StrLeTotal(a.key.profile, b.key.profile);
    if BySize(a, b) && BySize(b, c) && a.counts.Total() == c.counts.Total() {
      StrLeTransitive(a.key.agent, b.key.agent, c.key.agent);
      if a.key.agent == c.key.agent {
        StrLeAntisymmetric(a.key.agent, b.key.agent);
        StrLeTransitive(a.key.profile, b.key.profile, c.key.profile);
      }
    }
    if BySize(a, b) && BySize(b, a) {
      StrLeAntisymmetric(a.key.agent, b.key.agent);
      StrLeAntisymmetric(a.key.profile, b.key.profile);
    }
  }

  lemma {:induction false} InsertBySize(x: Row, rows: seq<Row>)
    requires SortedBy(rows, BySize)
    ensures SortedBy(Insert(x, rows, BySize), BySize)
  {
    if rows == [] {
    } else if BySize(x, rows[0]) {
      forall j | 0 <= j < |rows| ensures BySize(x, rows[j]) {
        BySizeTotal(x, rows[0], rows[j]);
      }
    } else {
      InsertBySize(x, rows[1..]);
      BySizeTotal(x, rows[0], x);
      var rest := Insert(x, rows[1..], BySize);
      SameElements(rest, [x] + rows[1..]);
      hide BySize, Insert;
      forall j | 0 <= j < |rest| ensures BySize(rows[0], rest[j]) {
        assert rest[j] in [x] + rows[1..];
      }
    }
  }

  lemma {:induction false} FirstPassSorts(rows: seq<Row>)
    ensures SortedBy(StableSort(rows, BySize), BySize)
  {
    if rows != [] {
      FirstPassSorts(rows[1..]);
      InsertBySize(rows[0], StableSort(rows[1..], BySize));
    }
  }

  /** The second pass puts a row that the first pass placed ahead of `rows` where
      the combined order wants it. */
  lemma {:induction false} InsertInOrder(x: Row, rows: seq<Row>)
    requires SortedBy(rows, InOrder) && forall r :: r in rows ==> BySize(x, r)
    ensures SortedBy(Insert(x, rows, ByPeriod), InOrder)
  {
    hide InOrder, BySize, ByPeriod;
    if rows == [] {
    } else if ByPeriod(x, rows[0]) {
      forall j | 0 <= j < |rows| ensures InOrder(x, rows[j]) {
        assert rows[j] in rows;
        InOrderThrough(x, rows[0], rows[j]);
      }
    } else {
      InsertInOrder(x, rows[1..]);
      LaterPeriodFirst(x, rows[0]);
      var rest := Insert(x, rows[1..], ByPeriod);
      SameElements(rest, [x] + rows[1..]);
      hide Insert;
      forall j | 0 <= j < |rest| ensures InOrder(rows[0], rest[j]) {
        assert rest[j] in [x] + rows[1..];
      }
    }
  }

  lemma InOrderThrough(x: Row, y: Row, z: Row)
    requires ByPeriod(x, y) && (y == z || InOrder(y, z)) && BySize(x, z)
    ensures InOrder(x, z)
  {
    if y != z {
      StrLeTransitive(z.key.period, y.key.period, x.key.period);
    }
  }

  lemma LaterPeriodFirst(x: Row, y: Row)
    requires !ByPeriod(x, y)
    ensures InOrder(y, x)
  {
    StrLeTotal(x.key.period, y.key.period);
    StrLeTotal(x.key.period, x.key.period);
  }

  /** Two stable passes, by size and then by period, sort in the one combined order. */
  lemma {:induction false} SecondPassSorts(rows: seq<Row>)
    requires SortedBy(rows, BySize)
    ensures SortedBy(StableSort(rows, ByPeriod), InOrder)
  {
    if rows != [] {
      SecondPassSorts(rows[1..]);
      var rest := StableSort(rows[1..], ByPeriod);
      SameElements(rest, rows[1..]);
      hide InOrder, BySize, Insert;
      InsertInOrder(rows[0], rest);
    }
  }

  function Ordered(rows: seq<Row>): seq<Row> { StableSort(StableSort(rows, BySize), ByPeriod) }

  lemma TwoPassesAreOneOrder(rows: seq<Row>)
    ensures SortedBy(Ordered(rows), InOrder) && multiset(Ordered(rows)) == multiset(rows)
  {
    FirstPassSorts(rows);
    SecondPassSorts(StableSort(rows, BySize));
  }

  ghost predicate DistinctKeys(rows: seq<Row>) {
    forall i, j :: 0 <= i < j < |rows| ==> rows[i].key != rows[j].key
  }

  lemma InOrderAntisymmetric(a: Row, b: Row)
    requires InOrder(a, b) && InOrder(b, a)
    ensures a.key == b.key
  {
    StrLeAntisymmetric(a.key.period, b.key.period);
    BySizeTotal(a, b, a);
  }

  lemma NoElements(rows: seq<Row>)
    ensures (forall r :: r !in rows) <==> rows == []
  {
    if rows != [] {
      assert rows[0] in rows;
    }
  }

  /** There is only one such order, so where the rows came from does not show. */
  lemma {:induction false} OrderIsUnique(a: seq<Row>, b: seq<Row>)
    requires SortedBy(a, InOrder) && SortedBy(b, InOrder) && DistinctKeys(a) && DistinctKeys(b)
    requires forall r :: r in a <==> r in b
    ensures a == b
  {
    if a == [] {
      NoElements(b);
    } else {
      assert a[0] in b;
      FirstIsFirst(a, b);
      hide InOrder;
      assert forall r :: r in a[1..] <==> r in a && r != a[0];
      assert forall r :: r in b[1..] <==> r in b && r != b[0];
      OrderIsUnique(a[1..], b[1..]);
      assert a == [a[0]] + a[1..] && b == [b[0]] + b[1..];
    }
  }

  lemma FirstIsFirst(a: seq<Row>, b: seq<Row>)
    requires a != [] && b != [] && SortedBy(a, InOrder) && SortedBy(b, InOrder) && DistinctKeys(a)
    requires a[0] in b && b[0] in a
    ensures a[0] == b[0]
  {
    var i :| 0 <= i < |a| && a[i] == b[0];
    if i > 0 && a[0] != b[0] {
      InOrderAntisymmetric(a[0], b[0]);
    }
  }
}
