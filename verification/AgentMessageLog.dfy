/** The store itself: the table behind transactions and the counter behind a lock. */
module AgentMessageLog {
  import opened MessageTable
  import opened MessageLog

  /** `order` lists the latest rows of `t` and `left` holds the others. */
  ghost predicate Taking(order: seq<string>, left: Table, t: Table) {
    && left.Keys <= t.Keys
    && (forall u :: u in left ==> left[u] == t[u])
    && InOrder(order, t)
    && (forall u :: u in t ==> u in left <==> u !in order)
    && forall u, v :: u in left && v in order ==> Earlier(t[u], t[v])
  }

  lemma TakeOne(order: seq<string>, left: Table, t: Table, m: string)
    requires Taking(order, left, t)
    requires m in left && forall u :: u in left && u != m ==> Earlier(left[u], left[m])
    ensures Taking([m] + order, left - {m}, t)
  {
  }

  lemma TakenIsTail(order: seq<string>, left: Table, t: Table, n: nat)
    requires Taking(order, left, t) && |order| <= n && (left == map[] || |order| == n)
    ensures IsTail(order, t, n)
  {
    DistinctKeys(order, t);
    assert left == map[] ==> KeysOf(order) == t.Keys;
  }

  class Store {
    var table: Table
    var counter: nat

    ghost function Now(): State
      reads this
    {
      State(table, counter)
    }

    /** A restart over a database that already holds rows. */
    constructor (persisted: Table, readOk: bool)
      ensures table == persisted && Seeded(table, readOk, counter)
    {
      table := persisted;
      var top := 0;
      if readOk {
        top := MaxSeq(persisted);
      }
      counter := top;
    }

    static method MaxSeq(t: Table) returns (n: nat)
      ensures IsMaxSeq(t, n)
    {
      n := 0;
      var left := t.Keys;
      while left != {}
        invariant left <= t.Keys
        invariant forall u :: u in t.Keys - left ==> t[u].seqNo <= n
        invariant (left == t.Keys && n == 0) || exists u :: u in t.Keys - left && t[u].seqNo == n
      {
        var u :| u in left;
        if left == t.Keys || t[u].seqNo > n {
          n := t[u].seqNo;
        }
        left := left - {u};
      }
    }

    static method CleanRows(rows: seq<Input>) returns (b: Batch)
      ensures b == Clean(rows)
    {
      b := Batch([], map[]);
      for i := 0 to |rows|
        invariant b == Clean(rows[..i])
      {
        assert rows[..i + 1][..i] == rows[..i];
        if rows[i].Usable? {
          var uid := rows[i].uid;
          b := Batch(if uid in b.rows then b.order else b.order + [uid], b.rows[uid := rows[i]]);
        }
      }
      assert rows[..|rows|] == rows;
    }

    static method UpsertRows(t: Table, b: Batch, counter: nat) returns (r: Table, n: nat)
      requires BatchOk(b)
      ensures r == UpsertAll(t, b, counter) && n == counter + |b.order|
    {
      r, n := t, counter;
      for i := 0 to |b.order|
        invariant n == counter + i && r == UpsertAll(t, b.(order := b.order[..i]), counter)
      {
        n := n + 1;
        assert b.order[..i + 1][..i] == b.order[..i];
        r := Upsert(r, b.rows[b.order[i]], n);
      }
      assert b.order[..|b.order|] == b.order;
    }

    method Append(rows: seq<Input>, commits: bool) returns (written: nat)
      modifies this
      ensures Now() == Step(old(Now()), MessageLog.Append(rows, commits))
      ensures written == if commits then |Clean(Capped(rows)).order| else 0
    {
      var kept := rows;
      if |kept| > MAX_APPEND_ROWS {
        kept := kept[|kept| - MAX_APPEND_ROWS..];
      }
      var b := CleanRows(kept);
      if b.order == [] {
        return 0;
      }
      hide Clean, Newest, UpsertAll;
      var t, n := UpsertRows(table, b, counter);
      if !commits {
        return 0;
      }
      table, counter := Newest(t, MAX_ROWS), n;
      return |b.order|;
    }

    method Update(patches: seq<Patch>, commits: bool) returns (touched: nat)
      modifies this
      ensures Now() == Step(old(Now()), MessageLog.Update(patches, commits))
      ensures touched == if commits then Touched(old(table), patches) else 0
    {
      var t := table;
      touched := 0;
      for i := 0 to |patches|
        invariant t == Patched(table, patches[..i]) && touched == Touched(table, patches[..i])
        invariant Now() == old(Now())
      {
        assert patches[..i + 1][..i] == patches[..i];
        if patches[i].Writes() && patches[i].uid in t {
          touched := touched + 1;
          t := PatchOne(t, patches[i]);
        }
      }
      assert patches[..|patches|] == patches;
      if !commits {
        return 0;
      }
      table := t;
    }

    /** The rows ordered newest first, cut at the limit and turned round. */
    method Tail(limit: int, readOk: bool) returns (order: seq<string>)
      requires DistinctSeqs(table)
      ensures !readOk ==> order == []
      ensures readOk ==> IsTail(order, table, if limit < 1 then 1 else if limit > 500 then 500 else limit)
    {
      var n := if limit < 1 then 1 else if limit > MAX_ROWS then MAX_ROWS else limit;
      order := [];
      if !readOk {
        return;
      }
      var left := table;
      while left != map[] && |order| < n
        invariant Taking(order, left, table) && |order| <= n
        decreases left.Keys
      {
        var m := Latest(left);
        TakeOne(order, left, table, m);
        order, left := [m] + order, left - {m};
      }
      TakenIsTail(order, left, table, n);
    }

    static method Latest(t: Table) returns (m: string)
      requires t != map[] && DistinctSeqs(t)
      ensures m in t && forall u :: u in t && u != m ==> Earlier(t[u], t[m])
    {
      m :| m in t;
      var left := t.Keys - {m};
      while left != {}
        invariant left <= t.Keys && m in t.Keys - left
        invariant forall u :: u in t.Keys - left && u != m ==> Earlier(t[u], t[m])
      {
        var u :| u in left;
        if Earlier(t[m], t[u]) {
          m := u;
        }
        left := left - {u};
      }
    }
  }

  lemma {:induction false} DistinctKeys(order: seq<string>, t: Table)
    requires InOrder(order, t)
    ensures |KeysOf(order)| == |order|
  {
    if order != [] {
      DistinctKeys(order[1..], t);
      assert KeysOf(order) == KeysOf(order[1..]) + {order[0]};
      assert order[0] !in order[1..];
    }
  }
}
