/** Sorting a set of distinct strings, as `sorted()` does. */
module Sorting {
  import opened Wrappers
  import opened Strings

  predicate Ascending(s: seq<string>) {
    forall a, b :: 0 <= a < b < |s| ==> StrLe(s[a], s[b])
  }

  lemma {:induction false} LeastOf(ids: set<string>) returns (least: string)
    requires ids != {}
    ensures least in ids && forall y :: y in ids ==> StrLe(least, y)
  {
    var x :| x in ids;
    if ids == {x} {
      least := x;
      StrLeTotal(x, x);
    } else {
      var m := LeastOf(ids - {x});
      StrLeTotal(x, m);
      StrLeTotal(x, x);
      least := if StrLe(x, m) then x else m;
      forall y | y in ids ensures StrLe(least, y) {
        if y != x && least == x {
          StrLeTransitive(x, m, y);
        }
      }
    }
  }

  /** `sorted(...)`: the least remaining string first. */
  method SortStrings(ids: set<string>) returns (order: seq<string>)
    ensures Enumerates(order, ids)
    ensures Ascending(order)
  {
    order := [];
    var rest := ids;
    while rest != {}
      invariant rest <= ids && Enumerates(order, ids - rest)
      invariant Ascending(order)
      invariant forall a, y :: 0 <= a < |order| && y in rest ==> StrLe(order[a], y)
      decreases rest
    {
      ghost var m := LeastOf(rest);
      var least :| least in rest && forall y :: y in rest ==> StrLe(least, y);
      order := order + [least];
      rest := rest - {least};
    }
  }

  /** There is only one way to list a set in ascending order. */
  lemma {:induction false} SortedIsUnique(s: seq<string>, t: seq<string>, elements: set<string>)
    requires Enumerates(s, elements) && Ascending(s) && Enumerates(t, elements) && Ascending(t)
    ensures s == t
    decreases |s|
  {
    if elements == {} {
      NothingToList(s);
      NothingToList(t);
    } else {
      var x :| x in elements;
      assert x in s && x in t;
      assert s[0] in t && t[0] in s;
      FirstIsLeast(s, t[0]);
      FirstIsLeast(t, s[0]);
      StrLeAntisymmetric(s[0], t[0]);
      TailEnumerates(s, elements);
      TailEnumerates(t, elements);
      SortedIsUnique(s[1..], t[1..], elements - {s[0]});
    }
  }

  lemma FirstIsLeast(s: seq<string>, x: string)
    requires Ascending(s) && x in s
    ensures StrLe(s[0], x)
  {
    StrLeTotal(x, x);
  }

  lemma TailEnumerates(s: seq<string>, elements: set<string>)
    requires s != [] && Enumerates(s, elements) && Ascending(s)
    ensures Enumerates(s[1..], elements - {s[0]}) && Ascending(s[1..])
  {
  }

  /** The elements of a set in ascending order. */
  ghost function Sorted(elements: set<string>): (s: seq<string>)
    ensures Enumerates(s, elements) && Ascending(s)
  {
    SortedExists(elements);
    var s :| Enumerates(s, elements) && Ascending(s);
    s
  }

  lemma {:induction false} SortedExists(elements: set<string>)
    ensures exists s :: Enumerates(s, elements) && Ascending(s)
    decreases elements
  {
    if elements == {} {
      assert Enumerates([], elements) && Ascending([]);
    } else {
      var x := LeastOf(elements);
      SortedExists(elements - {x});
      var t :| Enumerates(t, elements - {x}) && Ascending(t);
      var s := [x] + t;
      assert forall y :: y in s <==> y == x || y in t;
      assert forall i :: 1 <= i < |s| ==> s[i] == t[i - 1];
      assert Enumerates(s, elements) && Ascending(s);
    }
  }
}
