/** Ordering of the payer's creditors before rerouting: a stable sort of the
    payer's debts by amount (`sortedBy { it.value }`) and their split into the
    creditors the payee also owes and the others (`groupBy`). */
module Creditors {
  import opened Graph

  /** Amounts never decrease along the list. */
  ghost predicate Ascending(es: seq<Edge>) {
    forall j, k :: 0 <= j < k < |es| ==> es[j].value <= es[k].value
  }

  /** The edges of the list whose amount is `v`, in list order. */
  function WithValue(es: seq<Edge>, v: int): seq<Edge> {
    if es == [] then []
    else (if es[0].value == v then [es[0]] else []) + WithValue(es[1..], v)
  }

  /** Puts `e` in front of the first edge whose amount is at least its own. */
  function InsertBefore(e: Edge, t: seq<Edge>): (r: seq<Edge>)
    ensures multiset(r) == multiset(t) + multiset{e}
  {
    if t == [] || e.value <= t[0].value then
      [e] + t
    else
      assert t == [t[0]] + t[1..];
      [t[0]] + InsertBefore(e, t[1..])
  }

  /** A lower bound of `e` and of every edge of `t` bounds the insertion. */
  lemma {:induction false} InsertBeforeBound(e: Edge, t: seq<Edge>, lo: int)
    requires lo <= e.value && forall k :: 0 <= k < |t| ==> lo <= t[k].value
    ensures forall k :: 0 <= k < |InsertBefore(e, t)| ==> lo <= InsertBefore(e, t)[k].value
  {
    if t != [] && e.value > t[0].value {
      InsertBeforeBound(e, t[1..], lo);
    }
  }

  lemma {:induction false} InsertBeforeAscending(e: Edge, t: seq<Edge>)
    requires Ascending(t)
    ensures Ascending(InsertBefore(e, t))
  {
    if t == [] || e.value <= t[0].value {
      AscendingCons(e, t);
    } else {
      InsertBeforeAscending(e, t[1..]);
      InsertBeforeBound(e, t[1..], t[0].value);
      AscendingCons(t[0], InsertBefore(e, t[1..]));
    }
  }

  /** An ascending list stays ascending behind a head no larger than any of it. */
  lemma AscendingCons(x: Edge, rest: seq<Edge>)
    requires Ascending(rest) && forall k :: 0 <= k < |rest| ==> x.value <= rest[k].value
    ensures Ascending([x] + rest)
  {
    var r := [x] + rest;
    forall j, k | 0 <= j < k < |r| ensures r[j].value <= r[k].value {
      assert r[k] == rest[k - 1];
      if j > 0 {
        assert r[j] == rest[j - 1];
      }
    }
  }

  /** Among the edges of one amount, `e` lands in front: the others keep
      their order. */
  lemma {:induction false} InsertBeforeWithValue(e: Edge, t: seq<Edge>, v: int)
    ensures WithValue(InsertBefore(e, t), v) == (if e.value == v then [e] else []) + WithValue(t, v)
  {
    var r := InsertBefore(e, t);
    if t == [] || e.value <= t[0].value {
      assert r[1..] == t;
    } else {
      var rest := InsertBefore(e, t[1..]);
      assert r[1..] == rest;
      InsertBeforeWithValue(e, t[1..], v);
      var head := if t[0].value == v then [t[0]] else [];
      var mine := if e.value == v then [e] else [];
      assert WithValue(r, v) == head + WithValue(rest, v);
      assert WithValue(t, v) == head + WithValue(t[1..], v);
      if e.value == v {
        // t[0] is strictly below v, so it is filtered out on both sides
        assert head == [];
        assert WithValue(r, v) == mine + WithValue(t[1..], v);
      } else {
        assert mine + WithValue(t, v) == WithValue(t, v);
        assert WithValue(r, v) == head + (mine + WithValue(t[1..], v));
      }
    }
  }

  /** `sortedBy { it.value }`: ascending by amount, a permutation of its input. */
  function SortedByValue(es: seq<Edge>): (r: seq<Edge>)
    ensures Ascending(r)
    ensures multiset(r) == multiset(es)
  {
    if es == [] then []
    else
      assert es == [es[0]] + es[1..];
      InsertBeforeAscending(es[0], SortedByValue(es[1..]));
      InsertBefore(es[0], SortedByValue(es[1..]))
  }

  /** The sort is stable: the edges of any one amount keep their input order.
      With `Ascending` and the permutation this fixes the result completely. */
  lemma {:induction false} SortedByValueIsStable(es: seq<Edge>, v: int)
    ensures WithValue(SortedByValue(es), v) == WithValue(es, v)
  {
    if es != [] {
      SortedByValueIsStable(es[1..], v);
      assert WithValue(es, v) == (if es[0].value == v then [es[0]] else []) + WithValue(es[1..], v);
      InsertBeforeWithValue(es[0], SortedByValue(es[1..]), v);
    }
  }

  /** The edges of `es` whose creditor is (`shared`) or is not (`!shared`) also
      a creditor of `to` in `s`: one group of `groupBy { to.toPay.any { ... } }`,
      in list order. */
  function Select(es: seq<Edge>, s: Store, to: UserId, shared: bool): (r: seq<Edge>)
    ensures multiset(r) <= multiset(es)
    ensures forall e :: e in r ==> e in es && HasEdge(s, to, e.receiver) == shared
  {
    if es == [] then []
    else
      var rest := Select(es[1..], s, to, shared);
      assert es == [es[0]] + es[1..];
      if HasEdge(s, to, es[0].receiver) == shared then [es[0]] + rest else rest
  }

  /** A group of an ascending list is ascending. */
  lemma {:induction false} SelectAscending(es: seq<Edge>, s: Store, to: UserId, shared: bool)
    requires Ascending(es)
    ensures Ascending(Select(es, s, to, shared))
  {
    if es != [] {
      SelectAscending(es[1..], s, to, shared);
      var rest := Select(es[1..], s, to, shared);
      assert forall x :: x in rest ==> es[0].value <= x.value;
    }
  }

  /** The two groups together are the list again. */
  lemma {:induction false} SelectSplits(es: seq<Edge>, s: Store, to: UserId)
    ensures multiset(Select(es, s, to, true)) + multiset(Select(es, s, to, false)) == multiset(es)
  {
    if es != [] {
      assert es == [es[0]] + es[1..];
      SelectSplits(es[1..], s, to);
    }
  }

  /** Lines 50-51: `from`'s debts sorted by amount, split into the creditors
      `to` also owes (first) and the others (second). */
  function Groups(s: Store, from: UserId, to: UserId): (g: (seq<Edge>, seq<Edge>))
    ensures Ascending(g.0) && Ascending(g.1)
    ensures multiset(g.0) + multiset(g.1) == multiset(ToPay(s, from))
    ensures forall e :: e in g.0 ==> e in s && e.payer == from && HasEdge(s, to, e.receiver)
    ensures forall e :: e in g.1 ==> e in s && e.payer == from && !HasEdge(s, to, e.receiver)
    ensures DistinctIds(s) ==> DistinctIds(g.0) && DistinctIds(g.1)
  {
    var sorted := SortedByValue(ToPay(s, from));
    ToPayExact(s, from);
    SelectSplits(sorted, s, to);
    SelectAscending(sorted, s, to, true);
    SelectAscending(sorted, s, to, false);
    assert forall e :: e in sorted ==> e in ToPay(s, from) by {
      forall e | e in sorted ensures e in ToPay(s, from) {
        assert e in multiset(sorted);
      }
    }
    if DistinctIds(s) then
      DistinctIdsSub(s, Select(sorted, s, to, true));
      DistinctIdsSub(s, Select(sorted, s, to, false));
      (Select(sorted, s, to, true), Select(sorted, s, to, false))
    else
      (Select(sorted, s, to, true), Select(sorted, s, to, false))
  }
}
