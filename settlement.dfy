/** The netting steps of `MoneyServiceImpl` (`reduceDebt`, `transferDebt`,
    `updateBalance`) as functions from the persisted store to the new store
    and the part of the amount that is still to be settled. */
module Settlement {
  import opened Graph
  import opened Creditors

  /** The store after a step and the part of the amount it did not absorb. */
  datatype Step = Step(store: Store, remaining: int)

  function Max(a: int, b: int): int {
    if a >= b then a else b
  }

  /** `reduceDebt(from, to, v)`: `from` hands `to` the amount `v`. A debt of
      `from` to `to` shrinks, or is paid off and the surplus comes back; failing
      that, a debt of `to` to `from` grows by `v`; failing both, all of `v`
      comes back. */
  function ReduceDebt(s: Store, from: UserId, to: UserId, v: int): (o: Step)
    ensures v >= 0 ==> 0 <= o.remaining && (Positive(s) ==> o.remaining <= v)
  {
    match Find(s, from, to)
    case Some(i) =>
      if s[i].value > v then
        Step(WithAmount(s, i, s[i].value - v), 0)
      else
        Step(RemoveAt(s, i), v - s[i].value)
    case None =>
      match Find(s, to, from)
      case Some(j) =>
        Step(WithAmount(s, j, s[j].value + v), 0)
      case None =>
        Step(s, v)
  }

  /** `reduceDebt` creates no relationship and no edge: it only changes or
      deletes existing ones. */
  lemma ReduceDebtFootprint(s: Store, from: UserId, to: UserId, v: int)
    ensures Pairs(ReduceDebt(s, from, to, v).store) <= Pairs(s)
    ensures Ids(ReduceDebt(s, from, to, v).store) <= Ids(s)
    ensures DistinctIds(s) ==> DistinctIds(ReduceDebt(s, from, to, v).store)
  {
    if Find(s, from, to).Some? {
      FootprintOwing(s, from, to, v);
    } else {
      FootprintOwed(s, from, to, v);
    }
  }

  lemma FootprintOwing(s: Store, from: UserId, to: UserId, v: int)
    requires Find(s, from, to).Some?
    ensures Pairs(ReduceDebt(s, from, to, v).store) <= Pairs(s)
    ensures Ids(ReduceDebt(s, from, to, v).store) <= Ids(s)
    ensures DistinctIds(s) ==> DistinctIds(ReduceDebt(s, from, to, v).store)
  {
    var i := Find(s, from, to).value;
    if s[i].value > v {
      FootprintChanged(s, i, s[i].value - v);
    } else {
      DropStep(s, from, to, v);
      PairsRemoveAt(s, i);
      IdsRemoveAt(s, i);
      if DistinctIds(s) {
        DistinctIdsRemoveAt(s, i);
      }
    }
  }

  lemma FootprintChanged(s: Store, i: nat, v: int)
    requires i < |s|
    ensures Pairs(WithAmount(s, i, v)) <= Pairs(s)
    ensures Ids(WithAmount(s, i, v)) <= Ids(s)
    ensures DistinctIds(s) ==> DistinctIds(WithAmount(s, i, v))
  {
    PairsWithAmount(s, i, v);
    IdsWithAmount(s, i, v);
    if DistinctIds(s) {
      DistinctIdsWithAmount(s, i, v);
    }
  }

  lemma FootprintOwed(s: Store, from: UserId, to: UserId, v: int)
    requires Find(s, from, to).None?
    ensures Pairs(ReduceDebt(s, from, to, v).store) <= Pairs(s)
    ensures Ids(ReduceDebt(s, from, to, v).store) <= Ids(s)
    ensures DistinctIds(s) ==> DistinctIds(ReduceDebt(s, from, to, v).store)
  {
    var g := Find(s, to, from);
    if g.Some? {
      FootprintChanged(s, g.value, s[g.value].value + v);
    }
  }

  // ---------------------------------------------------------------------
  // The four outcomes of reduceDebt

  /** A debt of `from` to `to` larger than the payment shrinks by it in place,
      and the payment is used up. */
  lemma ReduceDebtShrinks(s: Store, from: UserId, to: UserId, v: int)
    requires Find(s, from, to).Some? && s[Find(s, from, to).value].value > v
    ensures var i := Find(s, from, to).value; var o := ReduceDebt(s, from, to, v);
      o.remaining == 0 && |o.store| == |s|
      && o.store[i] == s[i].(value := s[i].value - v)
      && (forall k :: 0 <= k < |s| && k != i ==> o.store[k] == s[k])
  {
  }

  /** A debt of `from` to `to` no larger than the payment is paid off: its edge
      leaves the store, and with it both lists, and the surplus comes back. */
  lemma ReduceDebtPaysOff(s: Store, from: UserId, to: UserId, v: int)
    requires Find(s, from, to).Some? && s[Find(s, from, to).value].value <= v
    ensures var i := Find(s, from, to).value; var o := ReduceDebt(s, from, to, v);
      o.remaining == v - s[i].value
      && multiset(o.store) == multiset(s) - multiset{s[i]}
      && (DistinctIds(s) ==> s[i] !in ToPay(o.store, from) && s[i] !in ToReturn(o.store, to))
      && (UniquePairs(s) ==> !HasEdge(o.store, from, to))
  {
    var i := Find(s, from, to).value;
    var o := ReduceDebt(s, from, to, v);
    assert o.store == RemoveAt(s, i);
    RemoveAtMultiset(s, i);
    ToPayExact(o.store, from);
    ToReturnExact(o.store, to);
    if DistinctIds(s) {
      DistinctIdsOnce(s, s[i]);
      assert s[i] !in multiset(o.store);
    }
    if UniquePairs(s) {
      RemoveAtUnique(s, i);
    }
  }

  /** When `from` owes `to` nothing but `to` owes `from`, that debt grows by the
      payment, which is used up. */
  lemma ReduceDebtGrows(s: Store, from: UserId, to: UserId, v: int)
    requires Find(s, from, to).None? && Find(s, to, from).Some?
    ensures var j := Find(s, to, from).value; var o := ReduceDebt(s, from, to, v);
      o.remaining == 0 && |o.store| == |s|
      && o.store[j] == s[j].(value := s[j].value + v)
      && (forall k :: 0 <= k < |s| && k != j ==> o.store[k] == s[k])
  {
  }

  /** Without a relationship either way nothing changes and all of `v` comes back. */
  lemma ReduceDebtUnrelated(s: Store, from: UserId, to: UserId, v: int)
    requires !HasEdge(s, from, to) && !HasEdge(s, to, from)
    ensures ReduceDebt(s, from, to, v) == Step(s, v)
  {
  }

  // The step each case of `reduceDebt` takes, for use in the proofs below.

  lemma ShrinkStep(s: Store, from: UserId, to: UserId, v: int)
    requires Find(s, from, to).Some? && s[Find(s, from, to).value].value > v
    ensures var i := Find(s, from, to).value;
      ReduceDebt(s, from, to, v) == Step(WithAmount(s, i, s[i].value - v), 0)
  {
  }

  lemma DropStep(s: Store, from: UserId, to: UserId, v: int)
    requires Find(s, from, to).Some? && s[Find(s, from, to).value].value <= v
    ensures var i := Find(s, from, to).value;
      ReduceDebt(s, from, to, v) == Step(RemoveAt(s, i), v - s[i].value)
  {
  }

  lemma GrowStep(s: Store, from: UserId, to: UserId, v: int)
    requires Find(s, from, to).None? && Find(s, to, from).Some?
    ensures var j := Find(s, to, from).value;
      ReduceDebt(s, from, to, v) == Step(WithAmount(s, j, s[j].value + v), 0)
  {
  }

  /** Whatever the case, the part of `v` that was absorbed moved the balances
      of exactly `from` (up) and `to` (down) by that amount. */
  lemma ReduceDebtMovesNet(s: Store, from: UserId, to: UserId, v: int, u: UserId)
    requires from != to
    ensures var o := ReduceDebt(s, from, to, v);
      Net(o.store, u) == Net(s, u) + Shift(from, to, v - o.remaining, u)
  {
    if Find(s, from, to).Some? {
      NetOwing(s, from, to, v, u);
    } else if Find(s, to, from).Some? {
      NetOwed(s, from, to, v, u);
    }
  }

  lemma NetOwing(s: Store, from: UserId, to: UserId, v: int, u: UserId)
    requires from != to && Find(s, from, to).Some?
    ensures var o := ReduceDebt(s, from, to, v);
      Net(o.store, u) == Net(s, u) + Shift(from, to, v - o.remaining, u)
  {
    var i := Find(s, from, to).value;
    if s[i].value > v {
      NetOwingShrink(s, from, to, v, u);
    } else {
      NetOwingDrop(s, from, to, v, u);
    }
  }

  lemma NetOwingShrink(s: Store, from: UserId, to: UserId, v: int, u: UserId)
    requires from != to && Find(s, from, to).Some? && s[Find(s, from, to).value].value > v
    ensures Net(ReduceDebt(s, from, to, v).store, u) == Net(s, u) + Shift(from, to, v, u)
  {
    var i := Find(s, from, to).value;
    assert s[i].payer == from && s[i].receiver == to;
    ShrinkStep(s, from, to, v);
    NetShrink(s, i, v, u);
  }

  lemma NetOwingDrop(s: Store, from: UserId, to: UserId, v: int, u: UserId)
    requires from != to && Find(s, from, to).Some? && s[Find(s, from, to).value].value <= v
    ensures var o := ReduceDebt(s, from, to, v);
      Net(o.store, u) == Net(s, u) + Shift(from, to, v - o.remaining, u)
  {
    var i := Find(s, from, to).value;
    assert s[i].payer == from && s[i].receiver == to;
    DropStep(s, from, to, v);
    NetDrop(s, i, u);
  }

  lemma NetOwed(s: Store, from: UserId, to: UserId, v: int, u: UserId)
    requires from != to && Find(s, from, to).None? && Find(s, to, from).Some?
    ensures var o := ReduceDebt(s, from, to, v);
      Net(o.store, u) == Net(s, u) + Shift(from, to, v - o.remaining, u)
  {
    var j := Find(s, to, from).value;
    assert s[j].payer == to && s[j].receiver == from;
    GrowStep(s, from, to, v);
    NetGrow(s, j, v, u);
  }

  /** Adding `x` to a debt moves `x` of balance from debtor to creditor. */
  lemma NetGrow(s: Store, j: nat, x: int, u: UserId)
    requires j < |s| && s[j].payer != s[j].receiver
    ensures Net(WithAmount(s, j, s[j].value + x), u) == Net(s, u) + Shift(s[j].receiver, s[j].payer, x, u)
  {
    NetWithAmount(s, j, s[j].value + x, u);
  }

  /** Taking `x` off a debt moves `x` of balance from creditor to debtor. */
  lemma NetShrink(s: Store, i: nat, x: int, u: UserId)
    requires i < |s| && s[i].payer != s[i].receiver
    ensures Net(WithAmount(s, i, s[i].value - x), u) == Net(s, u) + Shift(s[i].payer, s[i].receiver, x, u)
  {
    NetWithAmount(s, i, s[i].value - x, u);
  }

  /** Deleting a debt moves its amount of balance from creditor to debtor. */
  lemma NetDrop(s: Store, i: nat, u: UserId)
    requires i < |s| && s[i].payer != s[i].receiver
    ensures Net(RemoveAt(s, i), u) == Net(s, u) + Shift(s[i].payer, s[i].receiver, s[i].value, u)
  {
    NetRemoveAt(s, i, u);
  }

  /** The class invariant survives a non-negative payment. */
  lemma ReduceDebtKeepsConsistent(s: Store, from: UserId, to: UserId, v: int)
    requires Consistent(s) && v >= 0
    ensures Consistent(ReduceDebt(s, from, to, v).store)
  {
    match Find(s, from, to)
    case Some(i) =>
      if s[i].value > v {
        ConsistentWithAmount(s, i, s[i].value - v);
      } else {
        ConsistentRemoveAt(s, i);
      }
    case None =>
      match Find(s, to, from)
      case Some(j) => ConsistentWithAmount(s, j, s[j].value + v);
      case None =>
  }

  /** So does one edge per ordered pair, and the absence of self debt. */
  lemma ReduceDebtKeepsWellFormed(s: Store, from: UserId, to: UserId, v: int)
    requires WellFormed(s) && v >= 0
    ensures WellFormed(ReduceDebt(s, from, to, v).store)
  {
    match Find(s, from, to)
    case Some(i) =>
      if s[i].value > v {
        WellFormedWithAmount(s, i, s[i].value - v);
      } else {
        WellFormedRemoveAt(s, i);
      }
    case None =>
      match Find(s, to, from)
      case Some(j) => WellFormedWithAmount(s, j, s[j].value + v);
      case None =>
  }

  /** In a minimal store, a payment that is not used up leaves no relationship
      between the two either way. */
  lemma ReduceDebtClears(s: Store, from: UserId, to: UserId, v: int)
    requires Minimal(s) && ReduceDebt(s, from, to, v).remaining != 0
    ensures var o := ReduceDebt(s, from, to, v); !HasEdge(o.store, from, to) && !HasEdge(o.store, to, from)
  {
    ReduceDebtFootprint(s, from, to, v);
    var f := Find(s, from, to);
    if f.Some? {
      var i := f.value;
      RemoveAtUnique(s, i);
      forall e | e in s ensures Pair(e) != (to, from) {
        var k :| 0 <= k < |s| && s[k] == e;
        assert Pair(s[i]) != (s[k].receiver, s[k].payer);
      }
    }
  }

  /** Edges whose debtor is not the paying side keep their identity and their
      two participants: `reduceDebt` deletes only a debt of `from`. */
  lemma ReduceDebtKeepsLive(s: Store, from: UserId, to: UserId, v: int, es: seq<Edge>)
    requires DistinctIds(s) && Live(s, es) && forall k :: 0 <= k < |es| ==> es[k].payer != from
    ensures Live(ReduceDebt(s, from, to, v).store, es)
  {
    if Find(s, from, to).Some? {
      LiveOwing(s, from, to, v, es);
    } else if Find(s, to, from).Some? {
      var j := Find(s, to, from).value;
      GrowStep(s, from, to, v);
      LiveWithAmount(s, j, s[j].value + v, es);
    }
  }

  lemma LiveOwing(s: Store, from: UserId, to: UserId, v: int, es: seq<Edge>)
    requires DistinctIds(s) && Live(s, es) && forall k :: 0 <= k < |es| ==> es[k].payer != from
    requires Find(s, from, to).Some?
    ensures Live(ReduceDebt(s, from, to, v).store, es)
  {
    var i := Find(s, from, to).value;
    if s[i].value > v {
      ShrinkStep(s, from, to, v);
      LiveWithAmount(s, i, s[i].value - v, es);
    } else {
      DropStep(s, from, to, v);
      LiveDrop(s, i, from, es);
    }
  }

  /** Deleting a debt of `from` keeps the listed debts of others live. */
  lemma LiveDrop(s: Store, i: nat, from: UserId, es: seq<Edge>)
    requires i < |s| && s[i].payer == from
    requires DistinctIds(s) && Live(s, es) && forall k :: 0 <= k < |es| ==> es[k].payer != from
    ensures Live(RemoveAt(s, i), es)
  {
    forall k | 0 <= k < |es| ensures es[k].id != s[i].id {
      IndexOfIdUnique(s, i);
    }
    LiveRemoveAt(s, i, es);
  }

  // ---------------------------------------------------------------------
  // transferDebt

  /** `transferDebt(from, old, r)`: `from` takes over up to `r` of the debt
      `old` (the object with identity `debt`, read with its current amount),
      as a new relationship of `from` to the same creditor. A debt that fits
      is moved whole and its edge deleted; a larger one keeps the rest. The
      new edge is appended to the store; no existing relationship of `from`
      with that creditor is consulted. */
  function TransferDebt(s: Store, from: UserId, debt: nat, r: int): (o: Step)
    requires debt in Ids(s)
    ensures o.remaining == Max(0, r - Current(s, debt).value)
  {
    TakeOver(s, IndexOfId(s, debt), from, r)
  }

  /** `transferDebt` on the edge at position `i`. */
  function TakeOver(s: Store, i: nat, from: UserId, r: int): (o: Step)
    requires i < |s|
    ensures o.remaining == Max(0, r - s[i].value)
  {
    var e := s[i];
    if r >= e.value then
      Step(RemoveAt(s, i) + [Edge(FreshId(s), from, e.receiver, e.value)], r - e.value)
    else
      Step(WithAmount(s, i, e.value - r) + [Edge(FreshId(s), from, e.receiver, r)], 0)
  }

  /** The store loses the moved part of the edge at `i` and gains, as its
      newest edge, a debt of `from` to that edge's creditor for exactly that
      part. */
  ghost predicate Moved(s: Store, i: nat, from: UserId, r: int, o: Step)
    requires i < |s|
  {
    var e := s[i];
    var moved := r - o.remaining;
    && moved == (if r >= e.value then e.value else r)
    && |o.store| >= 1
    && o.store[|o.store| - 1] == Edge(FreshId(s), from, e.receiver, moved)
    && multiset(o.store[..|o.store| - 1])
       == multiset(s) - multiset{e} + (if r >= e.value then multiset{} else multiset{e.(value := e.value - r)})
  }

  lemma TransferDebtMoves(s: Store, from: UserId, debt: nat, r: int)
    requires debt in Ids(s)
    ensures Moved(s, IndexOfId(s, debt), from, r, TransferDebt(s, from, debt, r))
  {
    TakeOverMoves(s, IndexOfId(s, debt), from, r);
  }

  lemma TakeOverMoves(s: Store, i: nat, from: UserId, r: int)
    requires i < |s|
    ensures Moved(s, i, from, r, TakeOver(s, i, from, r))
  {
    var o := TakeOver(s, i, from, r);
    if r >= s[i].value {
      assert o.store[..|o.store| - 1] == RemoveAt(s, i);
      RemoveAtMultiset(s, i);
    } else {
      assert o.store[..|o.store| - 1] == WithAmount(s, i, s[i].value - r);
      WithAmountMultiset(s, i, s[i].value - r);
    }
  }

  /** Every other relationship object survives unchanged. */
  lemma TransferDebtKeepsOthers(s: Store, from: UserId, debt: nat, r: int)
    requires debt in Ids(s)
    ensures forall x :: x in s && x.id != debt ==> x in TransferDebt(s, from, debt, r).store
  {
    TakeOverKeepsOthers(s, IndexOfId(s, debt), from, r);
  }

  lemma TakeOverKeepsOthers(s: Store, i: nat, from: UserId, r: int)
    requires i < |s|
    ensures forall x :: x in s && x.id != s[i].id ==> x in TakeOver(s, i, from, r).store
  {
    RemoveAtKeeps(s, i);
  }

  /** What the creditor of `old` is owed in total does not change. */
  lemma TransferDebtKeepsCreditorTotal(s: Store, from: UserId, debt: nat, r: int)
    requires debt in Ids(s)
    ensures var c := Current(s, debt).receiver;
      Total(TransferDebt(s, from, debt, r).store, c, Credit) == Total(s, c, Credit)
  {
    TakeOverKeepsCreditorTotal(s, IndexOfId(s, debt), from, r);
  }

  lemma TakeOverKeepsCreditorTotal(s: Store, i: nat, from: UserId, r: int)
    requires i < |s|
    ensures Total(TakeOver(s, i, from, r).store, s[i].receiver, Credit) == Total(s, s[i].receiver, Credit)
  {
    if r >= s[i].value {
      TotalRemoveAtAppend(s, i, Edge(FreshId(s), from, s[i].receiver, s[i].value), s[i].receiver, Credit);
    } else {
      TotalWithAmountAppend(s, i, s[i].value - r, Edge(FreshId(s), from, s[i].receiver, r), s[i].receiver, Credit);
      assert Share(s[i].(value := s[i].value - r), s[i].receiver, Credit) == s[i].value - r;
    }
  }

  /** The moved amount comes off the balance of `from` and onto that of the
      old debtor; the creditor's balance stays as it was. */
  lemma TransferDebtMovesNet(s: Store, from: UserId, debt: nat, r: int, u: UserId)
    requires debt in Ids(s) && from != Current(s, debt).payer
    ensures var o := TransferDebt(s, from, debt, r);
      Net(o.store, u) == Net(s, u) + Shift(Current(s, debt).payer, from, r - o.remaining, u)
  {
    TakeOverMovesNet(s, IndexOfId(s, debt), from, r, u);
  }

  lemma TakeOverMovesNet(s: Store, i: nat, from: UserId, r: int, u: UserId)
    requires i < |s| && from != s[i].payer
    ensures var o := TakeOver(s, i, from, r);
      Net(o.store, u) == Net(s, u) + Shift(s[i].payer, from, r - o.remaining, u)
  {
    var e := s[i];
    if r >= e.value {
      var w, n := RemoveAt(s, i), Edge(FreshId(s), from, e.receiver, e.value);
      assert TakeOver(s, i, from, r) == Step(w + [n], r - e.value);
      NetRemoveAt(s, i, u);
      NetAppend(w, n, u);
    } else {
      var w, n := WithAmount(s, i, e.value - r), Edge(FreshId(s), from, e.receiver, r);
      assert TakeOver(s, i, from, r) == Step(w + [n], 0);
      NetWithAmount(s, i, e.value - r, u);
      NetAppend(w, n, u);
    }
  }

  /** The class invariant survives a positive transfer. */
  lemma TransferDebtKeepsConsistent(s: Store, from: UserId, debt: nat, r: int)
    requires Consistent(s) && debt in Ids(s) && r > 0
    ensures Consistent(TransferDebt(s, from, debt, r).store)
  {
    TakeOverKeepsConsistent(s, IndexOfId(s, debt), from, r);
  }

  lemma TakeOverKeepsConsistent(s: Store, i: nat, from: UserId, r: int)
    requires Consistent(s) && i < |s| && r > 0
    ensures Consistent(TakeOver(s, i, from, r).store)
  {
    var e := s[i];
    if r >= e.value {
      var w, n := RemoveAt(s, i), Edge(FreshId(s), from, e.receiver, e.value);
      assert TakeOver(s, i, from, r).store == w + [n];
      ConsistentRemoveAt(s, i);
      IdsRemoveAt(s, i);
      ConsistentAppend(w, n);
    } else {
      var w, n := WithAmount(s, i, e.value - r), Edge(FreshId(s), from, e.receiver, r);
      assert TakeOver(s, i, from, r).store == w + [n];
      ConsistentWithAmount(s, i, e.value - r);
      IdsWithAmount(s, i, e.value - r);
      ConsistentAppend(w, n);
    }
  }

  /** `transferDebt` deletes or shrinks only the edge `debt` and adds one
      fresh debt of `from` to that edge's creditor. */
  lemma TransferDebtFootprint(s: Store, from: UserId, debt: nat, r: int)
    requires debt in Ids(s)
    ensures var o := TransferDebt(s, from, debt, r);
      && Ids(s) - {debt} <= Ids(o.store)
      && Pairs(o.store) <= Pairs(s) + {(from, Current(s, debt).receiver)}
      && (DistinctIds(s) ==> DistinctIds(o.store))
  {
    var i := IndexOfId(s, debt);
    if r >= s[i].value {
      TakeOverAllFootprint(s, i, from, r);
    } else {
      TakeOverPartFootprint(s, i, from, r);
    }
  }

  lemma TakeOverAllFootprint(s: Store, i: nat, from: UserId, r: int)
    requires i < |s| && r >= s[i].value
    ensures var o := TakeOver(s, i, from, r);
      && Ids(s) - {s[i].id} <= Ids(o.store)
      && Pairs(o.store) <= Pairs(s) + {(from, s[i].receiver)}
      && (DistinctIds(s) ==> DistinctIds(o.store))
  {
    var w, n := RemoveAt(s, i), Edge(FreshId(s), from, s[i].receiver, s[i].value);
    assert TakeOver(s, i, from, r).store == w + [n];
    IdsAppend(w, n);
    PairsAppend(w, n);
    IdsRemoveAt(s, i);
    PairsRemoveAt(s, i);
    if DistinctIds(s) {
      DistinctIdsRemoveAt(s, i);
      DistinctIdsAppend(w, n);
    }
  }

  lemma TakeOverPartFootprint(s: Store, i: nat, from: UserId, r: int)
    requires i < |s| && r < s[i].value
    ensures var o := TakeOver(s, i, from, r);
      && Ids(s) - {s[i].id} <= Ids(o.store)
      && Pairs(o.store) <= Pairs(s) + {(from, s[i].receiver)}
      && (DistinctIds(s) ==> DistinctIds(o.store))
  {
    var w, n := WithAmount(s, i, s[i].value - r), Edge(FreshId(s), from, s[i].receiver, r);
    assert TakeOver(s, i, from, r).store == w + [n];
    IdsAppend(w, n);
    PairsAppend(w, n);
    IdsWithAmount(s, i, s[i].value - r);
    PairsWithAmount(s, i, s[i].value - r);
    if DistinctIds(s) {
      DistinctIdsAppend(w, n);
    }
  }

  /** The edges still waiting to be taken over stay stored under their
      identities. */
  lemma TransferDebtKeepsLive(s: Store, from: UserId, debt: nat, r: int, es: seq<Edge>)
    requires debt in Ids(s) && DistinctIds(s) && Live(s, es)
    requires forall k :: 0 <= k < |es| ==> es[k].id != debt
    ensures Live(TransferDebt(s, from, debt, r).store, es)
  {
    var i := IndexOfId(s, debt);
    if r >= s[i].value {
      TakeOverAllKeepsLive(s, i, from, r, es);
    } else {
      TakeOverPartKeepsLive(s, i, from, r, es);
    }
  }

  lemma TakeOverAllKeepsLive(s: Store, i: nat, from: UserId, r: int, es: seq<Edge>)
    requires i < |s| && r >= s[i].value && DistinctIds(s) && Live(s, es)
    requires forall k :: 0 <= k < |es| ==> es[k].id != s[i].id
    ensures Live(TakeOver(s, i, from, r).store, es)
  {
    var w, n := RemoveAt(s, i), Edge(FreshId(s), from, s[i].receiver, s[i].value);
    assert TakeOver(s, i, from, r).store == w + [n];
    LiveRemoveAt(s, i, es);
    DistinctIdsRemoveAt(s, i);
    IdsRemoveAt(s, i);
    LiveAppend(w, n, es);
  }

  lemma TakeOverPartKeepsLive(s: Store, i: nat, from: UserId, r: int, es: seq<Edge>)
    requires i < |s| && r < s[i].value && DistinctIds(s) && Live(s, es)
    ensures Live(TakeOver(s, i, from, r).store, es)
  {
    var w, n := WithAmount(s, i, s[i].value - r), Edge(FreshId(s), from, s[i].receiver, r);
    assert TakeOver(s, i, from, r).store == w + [n];
    LiveWithAmount(s, i, s[i].value - r, es);
    IdsWithAmount(s, i, s[i].value - r);
    LiveAppend(w, n, es);
  }

  // ---------------------------------------------------------------------
  // updateBalance

  /** Lines 52-57: for each shared creditor in turn, `to` pays it the
      remainder by `reduceDebt(to, creditor, remaining)`, stopping once the
      remainder is used up. */
  function SettleShared(s: Store, to: UserId, es: seq<Edge>, rem: int): (o: Step)
    ensures rem >= 0 ==> o.remaining >= 0
  {
    if es == [] then Step(s, rem)
    else
      var t := ReduceDebt(s, to, es[0].receiver, rem);
      if t.remaining == 0 then t else SettleShared(t.store, to, es[1..], t.remaining)
  }

  /** Lines 58-63: `to` takes over the listed debts one by one with
      `transferDebt`, stopping once the remainder is used up. */
  function TransferAll(s: Store, to: UserId, es: seq<Edge>, rem: int): (o: Step)
    requires forall k :: 0 <= k < |es| ==> es[k].id in Ids(s)
    requires DistinctIds(es)
    ensures rem >= 0 ==> o.remaining >= 0
    decreases |es|
  {
    if es == [] then Step(s, rem)
    else
      var t := TransferDebt(s, to, es[0].id, rem);
      if t.remaining == 0 then t
      else
        TransferDebtFootprint(s, to, es[0].id, rem);
        NextIds(es);
        TransferAll(t.store, to, es[1..], t.remaining)
  }

  /** One round of the loop of lines 58-63. */
  lemma TransferAllStep(s: Store, to: UserId, es: seq<Edge>, rem: int)
    requires es != [] && forall k :: 0 <= k < |es| ==> es[k].id in Ids(s)
    requires DistinctIds(es)
    ensures var t := TransferDebt(s, to, es[0].id, rem);
      t.remaining != 0 ==>
        && (forall k :: 0 <= k < |es[1..]| ==> es[1..][k].id in Ids(t.store))
        && DistinctIds(es[1..])
        && TransferAll(s, to, es, rem) == TransferAll(t.store, to, es[1..], t.remaining)
  {
    TransferDebtFootprint(s, to, es[0].id, rem);
    NextIds(es);
  }

  lemma NextIds(es: seq<Edge>)
    requires es != [] && DistinctIds(es)
    ensures DistinctIds(es[1..])
    ensures forall k :: 0 <= k < |es[1..]| ==> es[1..][k].id != es[0].id
  {
  }

  /** Lines 49-63: `from`'s remaining debts, ascending by amount, are worked
      through shared creditors first, then the others. */
  function Reroute(s: Store, from: UserId, to: UserId, rem: int): (o: Step)
    requires DistinctIds(s) && from != to
    ensures rem >= 0 ==> o.remaining >= 0
  {
    var g := Groups(s, from, to);
    var a := SettleShared(s, to, g.0, rem);
    if a.remaining == 0 then a
    else
      SharedStageKeepsOthers(s, from, to, rem);
      TransferAll(a.store, to, g.1, a.remaining)
  }

  /** The debts of `from` to creditors `to` does not share are all still
      stored when the shared-creditor stage is over. */
  lemma SharedStageKeepsOthers(s: Store, from: UserId, to: UserId, rem: int)
    requires DistinctIds(s) && from != to
    ensures var g := Groups(s, from, to);
      Live(SettleShared(s, to, g.0, rem).store, g.1)
  {
    var g := Groups(s, from, to);
    LiveOf(s, g.1);
    forall k | 0 <= k < |g.1| ensures g.1[k].payer != to {
      assert g.1[k] in g.1;
    }
    SettleSharedKeepsLive(s, to, g.0, rem, g.1);
  }

  /** The shared-creditor stage keeps every debt of somebody other than `to`
      under its identity. */
  lemma {:induction false} SettleSharedKeepsLive(s: Store, to: UserId, es: seq<Edge>, rem: int, ls: seq<Edge>)
    requires DistinctIds(s) && Live(s, ls) && forall k :: 0 <= k < |ls| ==> ls[k].payer != to
    ensures Live(SettleShared(s, to, es, rem).store, ls)
    decreases |es|
  {
    if es != [] {
      var t := ReduceDebt(s, to, es[0].receiver, rem);
      ReduceDebtKeepsLive(s, to, es[0].receiver, rem, ls);
      if t.remaining != 0 {
        ReduceDebtFootprint(s, to, es[0].receiver, rem);
        SettleSharedKeepsLive(t.store, to, es[1..], t.remaining, ls);
      }
    }
  }

  /** Lines 67-70: the residual debt of `to` to `from`, saved as a new edge. */
  function Residual(s: Store, from: UserId, to: UserId, r: int): (o: Store)
    ensures |o| == |s| + 1 && o[..|s|] == s
    ensures o[|s|] == Edge(FreshId(s), to, from, r)
  {
    s + [Edge(FreshId(s), to, from, r)]
  }

  /** `updateBalance(from, to, v)`: `from` has paid `to` the amount `v`. */
  function UpdateBalance(s: Store, from: UserId, to: UserId, v: int): Store
    requires DistinctIds(s) && from != to
  {
    var d := ReduceDebt(s, from, to, v);
    if d.remaining == 0 then d.store
    else
      ReduceDebtFootprint(s, from, to, v);
      Redistribute(d.store, from, to, d.remaining)
  }

  /** Lines 48-70: what the direct settlement left over, `r`, is rerouted
      through `from`'s creditors when `from` has any, and the rest becomes a
      debt of `to` to `from`. */
  function Redistribute(s: Store, from: UserId, to: UserId, r: int): Store
    requires DistinctIds(s) && from != to
  {
    var t := if ToPay(s, from) != [] then Reroute(s, from, to, r) else Step(s, r);
    if t.remaining == 0 then t.store else Residual(t.store, from, to, t.remaining)
  }

  // ---------------------------------------------------------------------
  // The class invariant through updateBalance

  lemma {:induction false} SettleSharedKeepsConsistent(s: Store, to: UserId, es: seq<Edge>, rem: int)
    requires Consistent(s) && rem >= 0
    ensures Consistent(SettleShared(s, to, es, rem).store)
    decreases |es|
  {
    if es != [] {
      var t := ReduceDebt(s, to, es[0].receiver, rem);
      ReduceDebtKeepsConsistent(s, to, es[0].receiver, rem);
      if t.remaining != 0 {
        SettleSharedKeepsConsistent(t.store, to, es[1..], t.remaining);
      }
    }
  }

  lemma {:induction false} TransferAllKeepsConsistent(s: Store, to: UserId, es: seq<Edge>, rem: int)
    requires forall k :: 0 <= k < |es| ==> es[k].id in Ids(s)
    requires DistinctIds(es) && Consistent(s) && rem > 0
    ensures Consistent(TransferAll(s, to, es, rem).store)
    decreases |es|
  {
    if es != [] {
      var t := TransferDebt(s, to, es[0].id, rem);
      TransferDebtKeepsConsistent(s, to, es[0].id, rem);
      if t.remaining != 0 {
        TransferDebtFootprint(s, to, es[0].id, rem);
        NextIds(es);
        TransferAllKeepsConsistent(t.store, to, es[1..], t.remaining);
      }
    }
  }

  lemma RerouteKeepsConsistent(s: Store, from: UserId, to: UserId, rem: int)
    requires Consistent(s) && from != to && rem > 0
    ensures Consistent(Reroute(s, from, to, rem).store)
  {
    var g := Groups(s, from, to);
    var a := SettleShared(s, to, g.0, rem);
    SettleSharedKeepsConsistent(s, to, g.0, rem);
    if a.remaining != 0 {
      SharedStageKeepsOthers(s, from, to, rem);
      TransferAllKeepsConsistent(a.store, to, g.1, a.remaining);
    }
  }

  lemma ResidualKeepsConsistent(s: Store, from: UserId, to: UserId, r: int)
    requires Consistent(s) && r > 0
    ensures Consistent(Residual(s, from, to, r))
  {
    ConsistentAppend(s, Edge(FreshId(s), to, from, r));
  }

  /** Every payment keeps the amounts positive and the identities distinct. */
  lemma UpdateBalanceKeepsConsistent(s: Store, from: UserId, to: UserId, v: int)
    requires Consistent(s) && from != to && v >= 0
    ensures Consistent(UpdateBalance(s, from, to, v))
  {
    var d := ReduceDebt(s, from, to, v);
    ReduceDebtKeepsConsistent(s, from, to, v);
    if d.remaining != 0 {
      RedistributeKeepsConsistent(d.store, from, to, d.remaining);
    }
  }

  lemma RedistributeKeepsConsistent(s: Store, from: UserId, to: UserId, r: int)
    requires Consistent(s) && from != to && r > 0
    ensures Consistent(Redistribute(s, from, to, r))
  {
    var t := if ToPay(s, from) != [] then Reroute(s, from, to, r) else Step(s, r);
    if ToPay(s, from) != [] {
      RerouteKeepsConsistent(s, from, to, r);
    }
    if t.remaining != 0 {
      ResidualKeepsConsistent(t.store, from, to, t.remaining);
    }
  }

  /** Line 45: a payment of 0 leaves the store exactly as it was. */
  lemma ZeroPaymentIsNoOp(s: Store, from: UserId, to: UserId)
    requires Consistent(s) && from != to
    ensures UpdateBalance(s, from, to, 0) == s
  {
    var f := Find(s, from, to);
    if f.Some? {
      ShrinkStep(s, from, to, 0);
      assert WithAmount(s, f.value, s[f.value].value - 0) == s;
    } else if Find(s, to, from).Some? {
      var j := Find(s, to, from).value;
      GrowStep(s, from, to, 0);
      assert WithAmount(s, j, s[j].value + 0) == s;
    }
  }

  // ---------------------------------------------------------------------
  // Balances through updateBalance

  /** `a` and `b` have no creditor in common. */
  ghost predicate NoSharedCreditor(s: Store, a: UserId, b: UserId) {
    forall c :: HasEdge(s, a, c) ==> !HasEdge(s, b, c)
  }

  /** Taking over the unshared debts moves each taken part off the balance
      of their debtor `p` and onto that of `to`. */
  lemma {:induction false} TransferAllMovesNet(s: Store, to: UserId, es: seq<Edge>, rem: int, p: UserId, u: UserId, w: Step)
    requires forall k :: 0 <= k < |es| ==> es[k].id in Ids(s)
    requires DistinctIds(es) && DistinctIds(s) && Live(s, es)
    requires p != to && forall k :: 0 <= k < |es| ==> es[k].payer == p
    requires w == TransferAll(s, to, es, rem)
    ensures Net(w.store, u) == Net(s, u) + Shift(p, to, rem - w.remaining, u)
    decreases |es|
  {
    if es != [] {
      var t := TransferDebt(s, to, es[0].id, rem);
      TransferStepMovesNet(s, to, es, rem, p, u);
      if t.remaining != 0 {
        TransferRestReady(s, to, es, rem, p);
        var o := TransferAll(t.store, to, es[1..], t.remaining);
        TransferAllMovesNet(t.store, to, es[1..], t.remaining, p, u, o);
        TransferAllCombine(s, to, es, rem, p, u, t, o, w);
      }
    }
  }

  lemma {:induction false} TransferAllCombine(s: Store, to: UserId, es: seq<Edge>, rem: int, p: UserId, u: UserId, t: Step, o: Step, w: Step)
    requires es != [] && forall k :: 0 <= k < |es| ==> es[k].id in Ids(s)
    requires DistinctIds(es)
    requires t == TransferDebt(s, to, es[0].id, rem) && t.remaining != 0
    requires forall k :: 0 <= k < |es[1..]| ==> es[1..][k].id in Ids(t.store)
    requires o == TransferAll(t.store, to, es[1..], t.remaining)
    requires Net(t.store, u) == Net(s, u) + Shift(p, to, rem - t.remaining, u)
    requires Net(o.store, u) == Net(t.store, u) + Shift(p, to, t.remaining - o.remaining, u)
    requires w == TransferAll(s, to, es, rem)
    ensures Net(w.store, u) == Net(s, u) + Shift(p, to, rem - w.remaining, u)
  {
    TransferAllStep(s, to, es, rem);
    ShiftChain(Net(s, u), Net(t.store, u), Net(w.store, u), p, to, rem - t.remaining, t.remaining - o.remaining, rem - w.remaining, u);
  }

  /** After the first transfer, the rest of the list meets the same
      conditions against the new store. */
  lemma TransferRestReady(s: Store, to: UserId, es: seq<Edge>, rem: int, p: UserId)
    requires es != [] && forall k :: 0 <= k < |es| ==> es[k].id in Ids(s)
    requires DistinctIds(es) && DistinctIds(s) && Live(s, es)
    requires forall k :: 0 <= k < |es| ==> es[k].payer == p
    ensures var t := TransferDebt(s, to, es[0].id, rem); var rest := es[1..];
      && (forall k :: 0 <= k < |rest| ==> rest[k].id in Ids(t.store))
      && DistinctIds(rest) && DistinctIds(t.store) && Live(t.store, rest)
      && (forall k :: 0 <= k < |rest| ==> rest[k].payer == p)
  {
    TransferDebtFootprint(s, to, es[0].id, rem);
    NextIds(es);
    LiveTail(s, es);
    TransferDebtKeepsLive(s, to, es[0].id, rem, es[1..]);
    assert forall k :: 0 <= k < |es[1..]| ==> es[1..][k] == es[k + 1];
  }

  lemma ShiftChain(n0: int, n1: int, n2: int, from: UserId, to: UserId, x: int, y: int, z: int, u: UserId)
    requires n1 == n0 + Shift(from, to, x, u) && n2 == n1 + Shift(from, to, y, u) && x + y == z
    ensures n2 == n0 + Shift(from, to, z, u)
  {
  }

  lemma ShiftAdd(from: UserId, to: UserId, x: int, y: int, z: int, u: UserId)
    requires x + y == z
    ensures Shift(from, to, x, u) + Shift(from, to, y, u) == Shift(from, to, z, u)
  {
  }

  /** The first transfer of the list, in the terms `TransferAllMovesNet` needs. */
  lemma TransferStepMovesNet(s: Store, to: UserId, es: seq<Edge>, rem: int, p: UserId, u: UserId)
    requires es != [] && es[0].id in Ids(s) && Live(s, es) && p != to && es[0].payer == p
    ensures var t := TransferDebt(s, to, es[0].id, rem);
      Net(t.store, u) == Net(s, u) + Shift(p, to, rem - t.remaining, u)
  {
    assert Pair(Current(s, es[0].id)) == Pair(es[0]);
    TransferDebtMovesNet(s, to, es[0].id, rem, u);
  }

  /** With no creditor in common, the shared group is empty. */
  lemma NoSharedGroup(s: Store, from: UserId, to: UserId)
    requires NoSharedCreditor(s, from, to)
    ensures Groups(s, from, to).0 == []
  {
    var g := Groups(s, from, to);
    if g.0 != [] {
      var e := g.0[0];
      assert e in g.0;
      EdgeInPairs(s, e);
    }
  }

  lemma NoSharedCreditorSub(s: Store, t: Store, a: UserId, b: UserId)
    requires NoSharedCreditor(s, a, b) && Pairs(t) <= Pairs(s)
    ensures NoSharedCreditor(t, a, b)
  {
    forall c | HasEdge(t, a, c) ensures !HasEdge(t, b, c) {
      assert HasEdge(s, a, c);
    }
  }

  lemma RerouteMovesNet(s: Store, from: UserId, to: UserId, rem: int, u: UserId)
    requires DistinctIds(s) && from != to && NoSharedCreditor(s, from, to)
    ensures var o := Reroute(s, from, to, rem);
      Net(o.store, u) == Net(s, u) + Shift(from, to, rem - o.remaining, u)
  {
    RerouteIsTransferAll(s, from, to, rem);
    if rem != 0 {
      var es := Groups(s, from, to).1;
      UnsharedReady(s, from, to);
      var w := TransferAll(s, to, es, rem);
      TransferAllMovesNet(s, to, es, rem, from, u, w);
    }
  }

  /** The unshared group meets what `TransferAllMovesNet` asks of its list. */
  lemma UnsharedReady(s: Store, from: UserId, to: UserId)
    requires DistinctIds(s)
    ensures var es := Groups(s, from, to).1;
      && (forall k :: 0 <= k < |es| ==> es[k].id in Ids(s))
      && DistinctIds(es) && Live(s, es)
      && forall k :: 0 <= k < |es| ==> es[k].payer == from
  {
    var es := Groups(s, from, to).1;
    LiveOf(s, es);
    forall k | 0 <= k < |es| ensures es[k].payer == from {
      assert es[k] in es;
    }
  }

  /** Without a shared creditor, rerouting is transferring along the
      payer's debts in ascending order. */
  lemma RerouteIsTransferAll(s: Store, from: UserId, to: UserId, rem: int)
    requires DistinctIds(s) && from != to && NoSharedCreditor(s, from, to)
    ensures Reroute(s, from, to, rem)
      == if rem == 0 then Step(s, 0) else TransferAll(s, to, Groups(s, from, to).1, rem)
  {
    var g := Groups(s, from, to);
    NoSharedGroup(s, from, to);
    assert SettleShared(s, to, g.0, rem) == Step(s, rem);
  }

  /** The residual debt of `to` to `from` credits `from` and debits `to`. */
  lemma ResidualMovesNet(s: Store, from: UserId, to: UserId, r: int, u: UserId)
    requires from != to
    ensures Net(Residual(s, from, to, r), u) == Net(s, u) + Shift(from, to, r, u)
  {
    NetAppend(s, Edge(FreshId(s), to, from, r), u);
  }

  /** Without a creditor shared by payer and payee, a payment of `v` moves
      exactly `v` of balance onto `from` and off `to`, and leaves every other
      participant's balance as it was. */
  lemma UpdateBalanceMovesNet(s: Store, from: UserId, to: UserId, v: int, u: UserId)
    requires DistinctIds(s) && from != to && NoSharedCreditor(s, from, to)
    ensures Net(UpdateBalance(s, from, to, v), u) == Net(s, u) + Shift(from, to, v, u)
  {
    var d := ReduceDebt(s, from, to, v);
    ReduceDebtMovesNet(s, from, to, v, u);
    var n0, n1 := Net(s, u), Net(d.store, u);
    if d.remaining == 0 {
      ShiftChain(n0, n1, n1, from, to, v - d.remaining, 0, v, u);
    } else {
      ReduceDebtFootprint(s, from, to, v);
      NoSharedCreditorSub(s, d.store, from, to);
      RedistributeMovesNet(d.store, from, to, d.remaining, u);
      ShiftChain(n0, n1, Net(Redistribute(d.store, from, to, d.remaining), u), from, to, v - d.remaining, d.remaining, v, u);
    }
  }

  /** Rerouting and then the residual debt move exactly the amount left over. */
  lemma RedistributeMovesNet(s: Store, from: UserId, to: UserId, r: int, u: UserId)
    requires DistinctIds(s) && from != to && NoSharedCreditor(s, from, to)
    ensures Net(Redistribute(s, from, to, r), u) == Net(s, u) + Shift(from, to, r, u)
  {
    if ToPay(s, from) == [] {
      if r != 0 {
        ResidualMovesNet(s, from, to, r, u);
      }
    } else {
      RerouteThenResidualMovesNet(s, from, to, r, u);
    }
  }

  lemma RerouteThenResidualMovesNet(s: Store, from: UserId, to: UserId, r: int, u: UserId)
    requires DistinctIds(s) && from != to && NoSharedCreditor(s, from, to)
    ensures var t := Reroute(s, from, to, r);
      Net(if t.remaining == 0 then t.store else Residual(t.store, from, to, t.remaining), u)
        == Net(s, u) + Shift(from, to, r, u)
  {
    var t := Reroute(s, from, to, r);
    RerouteMovesNet(s, from, to, r, u);
    var n0, n1 := Net(s, u), Net(t.store, u);
    if t.remaining == 0 {
      ShiftChain(n0, n1, n1, from, to, r - t.remaining, 0, r, u);
    } else {
      ResidualMovesNet(t.store, from, to, t.remaining, u);
      ShiftChain(n0, n1, Net(Residual(t.store, from, to, t.remaining), u), from, to, r - t.remaining, t.remaining, r, u);
    }
  }

  // ---------------------------------------------------------------------
  // Paths through updateBalance

  /** Lines 67-69: the residual edge is listed in `from.toReturn` and in
      `to.toPay`, behind what was there. */
  lemma ResidualIndexed(s: Store, from: UserId, to: UserId, r: int)
    requires from != to
    ensures var e := Edge(FreshId(s), to, from, r); var o := Residual(s, from, to, r);
      && ToReturn(o, from) == ToReturn(s, from) + [e]
      && ToPay(o, to) == ToPay(s, to) + [e]
      && ToPay(o, from) == ToPay(s, from)
      && ToReturn(o, to) == ToReturn(s, to)
  {
    var e := Edge(FreshId(s), to, from, r);
    ViewsAppend(s, e, from);
    ViewsAppend(s, e, to);
    assert ToPay(s, from) + [] == ToPay(s, from);
    assert ToReturn(s, to) + [] == ToReturn(s, to);
  }

  /** With no relationship between the two and no debts of the payer,
      a positive payment becomes a debt of `to` to `from`, in full. */
  lemma ResidualOnly(s: Store, from: UserId, to: UserId, v: int)
    requires DistinctIds(s) && from != to && v != 0
    requires !HasEdge(s, from, to) && !HasEdge(s, to, from) && ToPay(s, from) == []
    ensures UpdateBalance(s, from, to, v) == s + [Edge(FreshId(s), to, from, v)]
  {
    ReduceDebtUnrelated(s, from, to, v);
  }

  /** With no relationship between the two but debts of the payer, the
      whole payment goes to rerouting, and what rerouting leaves becomes a
      debt of `to` to `from`. */
  lemma RerouteOnly(s: Store, from: UserId, to: UserId, v: int, t: Step)
    requires DistinctIds(s) && from != to && v != 0
    requires ReduceDebt(s, from, to, v) == Step(s, v) && ToPay(s, from) != []
    requires t == Reroute(s, from, to, v)
    ensures UpdateBalance(s, from, to, v) == if t.remaining == 0 then t.store else Residual(t.store, from, to, t.remaining)
  {
  }

  /** A payment between two participants with no relationship, from one
      who owes nobody, is undone by the same payment back: the new debt is
      found and paid off exactly. */
  lemma PaymentThenRefund(s: Store, a: UserId, b: UserId, v: int)
    requires DistinctIds(s) && a != b && v > 0
    requires !HasEdge(s, a, b) && !HasEdge(s, b, a) && ToPay(s, a) == []
    ensures UpdateBalance(s, a, b, v) == s + [Edge(FreshId(s), b, a, v)]
    ensures DistinctIds(UpdateBalance(s, a, b, v))
    ensures UpdateBalance(UpdateBalance(s, a, b, v), b, a, v) == s
  {
    var e := Edge(FreshId(s), b, a, v);
    var t := s + [e];
    ResidualOnly(s, a, b, v);
    DistinctIdsAppend(s, e);
    FindAppend(s, e, b, a);
    DropStep(t, b, a, v);
    assert RemoveAt(t, |s|) == s;
  }

  /** `find` looks only at who owes whom, so an amount changed in place does
      not change what it finds. */
  lemma {:induction false} FindWithAmount(s: Store, i: nat, x: int, p: UserId, q: UserId)
    requires i < |s|
    ensures Find(WithAmount(s, i, x), p, q) == Find(s, p, q)
  {
    var t := WithAmount(s, i, x);
    assert Pair(t[0]) == Pair(s[0]);
    if Pair(s[0]) != (p, q) {
      if i == 0 {
        assert t[1..] == s[1..];
      } else {
        assert t[1..] == WithAmount(s[1..], i - 1, x);
        FindWithAmount(s[1..], i - 1, x, p, q);
      }
    }
  }

  /** With one edge per pair, `find` lands on the edge of that pair. */
  lemma FindUnique(s: Store, k: nat)
    requires UniquePairs(s) && k < |s|
    ensures Find(s, s[k].payer, s[k].receiver) == Some(k)
  {
    FindIsFirst(s, s[k].payer, s[k].receiver);
  }

  /** Without mutual debt, the creditor of a stored edge owes its debtor nothing. */
  lemma NoReverse(s: Store, k: nat)
    requires NoMutualDebt(s) && k < |s|
    ensures !HasEdge(s, s[k].receiver, s[k].payer)
  {
    forall e | e in s ensures Pair(e) != (s[k].receiver, s[k].payer) {
      var j :| 0 <= j < |s| && s[j] == e;
      assert Pair(s[j]) != (s[k].receiver, s[k].payer);
    }
  }

  /** In a minimal store, a payment that only shrinks the payer's debt to the
      payee is undone by the same payment back: the refund grows the same
      relationship back to its old amount. */
  lemma RefundAfterShrink(s: Store, a: UserId, b: UserId, v: int, k: nat)
    requires Minimal(s) && DistinctIds(s) && a != b
    requires k < |s| && Pair(s[k]) == (a, b) && s[k].value > v
    ensures UpdateBalance(s, a, b, v) == WithAmount(s, k, s[k].value - v)
    ensures DistinctIds(UpdateBalance(s, a, b, v))
    ensures UpdateBalance(UpdateBalance(s, a, b, v), b, a, v) == s
  {
    var t := WithAmount(s, k, s[k].value - v);
    FindUnique(s, k);
    NoReverse(s, k);
    ShrinkStep(s, a, b, v);
    DistinctIdsWithAmount(s, k, s[k].value - v);
    FindWithAmount(s, k, s[k].value - v, b, a);
    FindWithAmount(s, k, s[k].value - v, a, b);
    GrowStep(t, b, a, v);
    assert WithAmount(t, k, t[k].value + v) == s;
  }

  /** In a minimal store where the payee owes the payer, the payment grows
      that debt, and the same payment back shrinks it to its old amount. */
  lemma RefundAfterGrow(s: Store, a: UserId, b: UserId, v: int, k: nat)
    requires Minimal(s) && DistinctIds(s) && a != b
    requires k < |s| && Pair(s[k]) == (b, a)
    ensures UpdateBalance(s, a, b, v) == WithAmount(s, k, s[k].value + v)
    ensures DistinctIds(UpdateBalance(s, a, b, v))
    ensures UpdateBalance(UpdateBalance(s, a, b, v), b, a, v) == s
  {
    var t := WithAmount(s, k, s[k].value + v);
    FindUnique(s, k);
    NoReverse(s, k);
    GrowStep(s, a, b, v);
    DistinctIdsWithAmount(s, k, s[k].value + v);
    FindWithAmount(s, k, s[k].value + v, b, a);
    assert t[k].value > v;
    ShrinkStep(t, b, a, v);
    assert WithAmount(t, k, t[k].value - v) == s;
  }

  // ---------------------------------------------------------------------
  // One payment from a minimal store

  /** In a store with one edge per pair, the debts of one participant go to
      distinct creditors. */
  lemma DistinctCreditors(s: Store, es: seq<Edge>, p: UserId)
    requires UniquePairs(s) && DistinctIds(es)
    requires forall e :: e in es ==> e in s && e.payer == p
    ensures forall j, k :: 0 <= j < k < |es| ==> es[j].receiver != es[k].receiver
  {
    forall j, k | 0 <= j < k < |es| ensures es[j].receiver != es[k].receiver {
      assert es[j] in es && es[k] in es;
      var a :| 0 <= a < |s| && s[a] == es[j];
      var b :| 0 <= b < |s| && s[b] == es[k];
      assert s[a].id != s[b].id;
      assert Pair(s[a]) != Pair(s[b]) by {
        if a < b {
          assert Pair(s[a]) != Pair(s[b]);
        } else {
          assert b < a;
        }
      }
    }
  }

  /** A transfer to a creditor that the new debtor does not owe yet, and is
      not, keeps every amount positive, nobody owing themselves, and one
      edge per pair. */
  lemma TransferDebtKeepsWellFormed(s: Store, to: UserId, debt: nat, r: int)
    requires WellFormed(s) && debt in Ids(s) && r > 0
    requires Current(s, debt).receiver != to && !HasEdge(s, to, Current(s, debt).receiver)
    ensures WellFormed(TransferDebt(s, to, debt, r).store)
  {
    var i := IndexOfId(s, debt);
    var e := s[i];
    if r >= e.value {
      var w, n := RemoveAt(s, i), Edge(FreshId(s), to, e.receiver, e.value);
      assert TakeOver(s, i, to, r).store == w + [n];
      WellFormedRemoveAt(s, i);
      PairsRemoveAt(s, i);
      WellFormedAppend(w, n);
    } else {
      var w, n := WithAmount(s, i, e.value - r), Edge(FreshId(s), to, e.receiver, r);
      assert TakeOver(s, i, to, r).store == w + [n];
      WellFormedWithAmount(s, i, e.value - r);
      PairsWithAmount(s, i, e.value - r);
      WellFormedAppend(w, n);
    }
  }

  /** The transfer loop over debts of `p` to distinct creditors, none of
      them `to` or `p` and none owed by `to` yet, keeps the store well
      formed and gives `to` no debt to `p`. */
  lemma {:induction false} TransferAllKeepsWellFormed(s: Store, to: UserId, es: seq<Edge>, rem: int, p: UserId)
    requires WellFormed(s) && DistinctIds(s) && rem > 0
    requires forall k :: 0 <= k < |es| ==> es[k].id in Ids(s)
    requires DistinctIds(es) && Live(s, es)
    requires forall k :: 0 <= k < |es| ==> es[k].payer == p
    requires forall k :: 0 <= k < |es| ==> es[k].receiver != to && es[k].receiver != p
    requires forall k :: 0 <= k < |es| ==> !HasEdge(s, to, es[k].receiver)
    requires forall j, k :: 0 <= j < k < |es| ==> es[j].receiver != es[k].receiver
    requires !HasEdge(s, to, p)
    ensures WellFormed(TransferAll(s, to, es, rem).store)
    ensures !HasEdge(TransferAll(s, to, es, rem).store, to, p)
    decreases |es|
  {
    if es != [] {
      var t := TransferDebt(s, to, es[0].id, rem);
      assert Pair(Current(s, es[0].id)) == Pair(es[0]);
      TransferDebtKeepsWellFormed(s, to, es[0].id, rem);
      TransferDebtFootprint(s, to, es[0].id, rem);
      if t.remaining != 0 {
        var rest := es[1..];
        TransferRestReady(s, to, es, rem, p);
        TransferAllStep(s, to, es, rem);
        forall k | 0 <= k < |rest| ensures rest[k].receiver != to && rest[k].receiver != p && !HasEdge(t.store, to, rest[k].receiver) {
          assert rest[k] == es[k + 1];
        }
        TransferAllKeepsWellFormed(t.store, to, rest, t.remaining, p);
      }
    }
  }

  /** The shared-creditor stage only shrinks, deletes or grows existing
      edges: it keeps the store well formed and adds no pair. */
  lemma {:induction false} SettleSharedKeepsWellFormed(s: Store, to: UserId, es: seq<Edge>, rem: int)
    requires WellFormed(s) && rem >= 0
    ensures WellFormed(SettleShared(s, to, es, rem).store)
    ensures Pairs(SettleShared(s, to, es, rem).store) <= Pairs(s)
    ensures DistinctIds(s) ==> DistinctIds(SettleShared(s, to, es, rem).store)
    decreases |es|
  {
    if es != [] {
      var t := ReduceDebt(s, to, es[0].receiver, rem);
      ReduceDebtKeepsWellFormed(s, to, es[0].receiver, rem);
      ReduceDebtFootprint(s, to, es[0].receiver, rem);
      if t.remaining != 0 {
        SettleSharedKeepsWellFormed(t.store, to, es[1..], t.remaining);
      }
    }
  }

  /** Rerouting between two participants with no edge either way keeps the
      store well formed and gives `to` no debt to `from`. */
  lemma RerouteKeepsWellFormed(s: Store, from: UserId, to: UserId, rem: int)
    requires WellFormed(s) && DistinctIds(s) && from != to && rem > 0
    requires !HasEdge(s, from, to) && !HasEdge(s, to, from)
    ensures WellFormed(Reroute(s, from, to, rem).store)
    ensures !HasEdge(Reroute(s, from, to, rem).store, to, from)
  {
    var g := Groups(s, from, to);
    var a := SettleShared(s, to, g.0, rem);
    SettleSharedKeepsWellFormed(s, to, g.0, rem);
    if a.remaining != 0 {
      var es := g.1;
      SharedStageKeepsOthers(s, from, to, rem);
      DistinctCreditors(s, es, from);
      forall k | 0 <= k < |es|
        ensures es[k].payer == from && es[k].receiver != to && es[k].receiver != from
        ensures !HasEdge(a.store, to, es[k].receiver)
      {
        assert es[k] in es;
        EdgeInPairs(s, es[k]);
        var j :| 0 <= j < |s| && s[j] == es[k];
      }
      TransferAllKeepsWellFormed(a.store, to, es, a.remaining, from);
    }
  }

  /** What reduceDebt leaves, redistributed between two participants with
      no edge either way, keeps the store well formed. */
  lemma RedistributeKeepsWellFormed(s: Store, from: UserId, to: UserId, r: int)
    requires WellFormed(s) && DistinctIds(s) && from != to && r > 0
    requires !HasEdge(s, from, to) && !HasEdge(s, to, from)
    ensures WellFormed(Redistribute(s, from, to, r))
  {
    var t := if ToPay(s, from) != [] then Reroute(s, from, to, r) else Step(s, r);
    if ToPay(s, from) != [] {
      RerouteKeepsWellFormed(s, from, to, r);
    }
    if t.remaining != 0 {
      WellFormedAppend(t.store, Edge(FreshId(t.store), to, from, t.remaining));
    }
  }

  /** From a minimal store, one payment leaves every amount positive,
      nobody owing themselves and at most one edge per ordered pair. Mutual
      debt may appear. */
  lemma UpdateBalanceKeepsWellFormed(s: Store, from: UserId, to: UserId, v: int)
    requires Minimal(s) && DistinctIds(s) && from != to && v >= 0
    ensures WellFormed(UpdateBalance(s, from, to, v))
  {
    var d := ReduceDebt(s, from, to, v);
    ReduceDebtKeepsWellFormed(s, from, to, v);
    if d.remaining != 0 {
      ReduceDebtClears(s, from, to, v);
      ReduceDebtFootprint(s, from, to, v);
      RedistributeKeepsWellFormed(d.store, from, to, d.remaining);
    }
  }
}
