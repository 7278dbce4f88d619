/** `MoneyServiceImpl` as a class over the persisted relationships. Its
    methods change the store step by step as the Kotlin code does, and each
    is proved to produce what the functions of `Settlement` and `Ledger`
    specify. */
module Service {
  import opened Graph
  import opened Creditors
  import opened Settlement
  import opened Ledger

  class MoneyService {
    /** Every `BalanceRelationship` the repository holds. The `toPay` and
        `toReturn` lists of a participant are `ToPay(store, u)` and
        `ToReturn(store, u)`. */
    var store: Store

    /** Amounts stay positive and relationship identities stay distinct. */
    ghost predicate Valid()
      reads this
    {
      Consistent(store)
    }

    /** A service over the relationships the repository already holds. */
    constructor (s: Store)
      requires Consistent(s)
      ensures Valid() && store == s
    {
      store := s;
    }

    /** `getBalance(userName)`: the signed balance list of `user`. */
    method GetBalance(user: UserId) returns (r: seq<BalanceDto>)
      requires Valid()
      ensures r == Balances(store, user)
      ensures Signed(r) == Net(store, user)
    {
      r := Credits(ToReturn(store, user)) + Debits(ToPay(store, user));
      BalancesSumToNet(store, user);
    }

    /** `addMoney(addDto)`: a negative amount is the payment the other way
        round; the normalised payment goes to `updateBalance`. */
    method AddMoney(payment: Payment)
      requires Valid() && payment.from != payment.to
      modifies this
      ensures Valid()
      ensures var n := Normalize(payment);
        store == Settlement.UpdateBalance(old(store), n.from, n.to, n.value)
    {
      var swap := payment.value < 0;
      var from := if swap then payment.to else payment.from;
      var to := if swap then payment.from else payment.to;
      var value := if swap then -payment.value else payment.value;
      assert Payment(from, to, value) == Normalize(payment);
      UpdateBalance(from, to, value);
    }

    /** `reduceDebt(from, to, v)`, lines 80-108. */
    method ReduceDebt(from: UserId, to: UserId, v: int) returns (rest: int)
      requires Valid() && v >= 0
      modifies this
      ensures Valid()
      ensures Step(store, rest) == Settlement.ReduceDebt(old(store), from, to, v)
    {
      ReduceDebtKeepsConsistent(store, from, to, v);
      match Find(store, from, to)
      case Some(i) =>
        if store[i].value > v {
          store := store[i := store[i].(value := store[i].value - v)];
          rest := 0;
        } else {
          rest := v - store[i].value;
          store := RemoveAt(store, i);
        }
      case None =>
        match Find(store, to, from)
        case Some(j) =>
          store := store[j := store[j].(value := store[j].value + v)];
          rest := 0;
        case None =>
          rest := v;
    }

    /** `transferDebt(from, debt, r)`, lines 117-133: `debt` is the listed
        relationship, read with its current amount. */
    method TransferDebt(from: UserId, debt: Edge, r: int) returns (rest: int)
      requires Valid() && debt.id in Ids(store) && r > 0
      modifies this
      ensures Valid()
      ensures Step(store, rest) == Settlement.TransferDebt(old(store), from, debt.id, r)
    {
      TransferDebtKeepsConsistent(store, from, debt.id, r);
      var i := IndexOfId(store, debt.id);
      var current := store[i];
      var bal := Edge(FreshId(store), from, current.receiver, if r >= current.value then current.value else r);
      if r >= current.value {
        store := RemoveAt(store, i) + [bal];
        rest := r - current.value;
      } else {
        store := store[i := current.(value := current.value - r)] + [bal];
        rest := 0;
      }
    }

    /** `updateBalance(from, to, v)`, lines 43-71: settle directly, then
        reroute through the creditors `to` also owes, then through the
        others, then save what is left as a debt of `to` to `from`. */
    method UpdateBalance(from: UserId, to: UserId, v: int)
      requires Valid() && from != to && v >= 0
      modifies this
      ensures Valid()
      ensures store == Settlement.UpdateBalance(old(store), from, to, v)
    {
      ghost var s0 := store;
      var remaining := ReduceDebt(from, to, v);
      if remaining == 0 {
        return;
      }
      ghost var s1, r1 := store, remaining;
      UpdateBalanceRedistributes(s0, from, to, v);
      if ToPay(store, from) != [] {
        var g := Groups(store, from, to);
        remaining := SettleSharedCreditors(to, g.0, remaining);
        if remaining == 0 {
          RerouteUsedUp(s1, from, to, r1, Step(store, 0));
          return;
        }
        UnsharedInOrder(s1, from, to, r1);
        remaining := TransferDebts(from, to, g.1, remaining);
        if remaining == 0 {
          RerouteUsedUp(s1, from, to, r1, Step(store, 0));
          return;
        }
        RerouteLeaves(s1, from, to, r1, Step(store, remaining));
      }
      ResidualKeepsConsistent(store, from, to, remaining);
      var newDebt := Edge(FreshId(store), to, from, remaining);
      store := store + [newDebt];
    }

    /** Lines 52-57: `to` pays each shared creditor in turn what is left,
        until nothing is. */
    method SettleSharedCreditors(to: UserId, shared: seq<Edge>, r: int) returns (rest: int)
      requires Valid() && r > 0
      modifies this
      ensures Valid()
      ensures Step(store, rest) == SettleShared(old(store), to, shared, r)
    {
      ghost var goal := SettleShared(store, to, shared, r);
      rest := r;
      var k := 0;
      while k < |shared|
        invariant k <= |shared|
        invariant Valid() && rest > 0
        invariant SettleShared(store, to, shared[k..], rest) == goal
      {
        assert shared[k..][1..] == shared[k + 1..];
        rest := ReduceDebt(to, shared[k].receiver, rest);
        if rest == 0 {
          return;
        }
        k := k + 1;
      }
    }

    /** Lines 58-63: `to` takes over the listed debts of `from` in turn, as
        far as what is left reaches. */
    method TransferDebts(from: UserId, to: UserId, others: seq<Edge>, r: int) returns (rest: int)
      requires Valid() && r > 0
      requires Live(store, others) && DistinctIds(others)
      requires forall m :: 0 <= m < |others| ==> others[m].payer == from
      modifies this
      ensures Valid()
      ensures Step(store, rest) == TransferAll(old(store), to, others, r)
    {
      ghost var goal := TransferAll(store, to, others, r);
      rest := r;
      var k := 0;
      while k < |others|
        invariant k <= |others|
        invariant Valid() && rest > 0
        invariant Live(store, others[k..]) && DistinctIds(others[k..])
        invariant forall m :: k <= m < |others| ==> others[m].payer == from
        invariant TransferAll(store, to, others[k..], rest) == goal
      {
        TransferNext(store, to, others[k..], rest, from);
        assert others[k..][1..] == others[k + 1..];
        rest := TransferDebt(to, others[k], rest);
        if rest == 0 {
          return;
        }
        k := k + 1;
      }
    }
  }

  /** A payment that the direct settlement does not use up is redistributed. */
  lemma UpdateBalanceRedistributes(s: Store, from: UserId, to: UserId, v: int)
    requires DistinctIds(s) && from != to && ReduceDebt(s, from, to, v).remaining != 0
    ensures var d := ReduceDebt(s, from, to, v);
      DistinctIds(d.store) && UpdateBalance(s, from, to, v) == Redistribute(d.store, from, to, d.remaining)
  {
    ReduceDebtFootprint(s, from, to, v);
  }

  /** Rerouting in `UpdateBalance` ended with nothing left: the store is the
      one `Redistribute` gives. */
  lemma RerouteUsedUp(s: Store, from: UserId, to: UserId, r: int, o: Step)
    requires DistinctIds(s) && from != to && ToPay(s, from) != []
    requires o == Reroute(s, from, to, r) && o.remaining == 0
    ensures o.store == Redistribute(s, from, to, r)
  {
  }

  /** Rerouting in `UpdateBalance` ended with `o.remaining` left over. */
  lemma RerouteLeaves(s: Store, from: UserId, to: UserId, r: int, o: Step)
    requires DistinctIds(s) && from != to && ToPay(s, from) != []
    requires o == Reroute(s, from, to, r) && o.remaining != 0
    ensures Residual(o.store, from, to, o.remaining) == Redistribute(s, from, to, r)
  {
  }

  /** The unshared group lists debts of `from`, live, with distinct
      identities, in the store the shared stage leaves. */
  lemma UnsharedInOrder(s: Store, from: UserId, to: UserId, r: int)
    requires DistinctIds(s) && from != to
    ensures var es := Groups(s, from, to).1; var a := SettleShared(s, to, Groups(s, from, to).0, r);
      && Live(a.store, es) && DistinctIds(es)
      && forall m :: 0 <= m < |es| ==> es[m].payer == from
  {
    SharedStageKeepsOthers(s, from, to, r);
    UnsharedReady(s, from, to);
  }

  /** One round of the transfer loop: the first listed debt is stored, the
      rest stays live and distinct, and the loop's target is unchanged. */
  lemma TransferNext(s: Store, to: UserId, es: seq<Edge>, r: int, p: UserId)
    requires es != [] && DistinctIds(s) && Live(s, es) && DistinctIds(es)
    requires forall m :: 0 <= m < |es| ==> es[m].payer == p
    ensures es[0].id in Ids(s)
    ensures var t := TransferDebt(s, to, es[0].id, r);
      && Live(t.store, es[1..]) && DistinctIds(es[1..])
      && (t.remaining != 0 ==> TransferAll(s, to, es, r) == TransferAll(t.store, to, es[1..], t.remaining))
  {
    TransferRestReady(s, to, es, r, p);
    TransferAllStep(s, to, es, r);
  }
}
