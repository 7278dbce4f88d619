/** Concrete runs of `updateBalance` on small stores: a new debt, partial
    and full repayment, overpayment and rerouting, and the runs in which the
    engine does not keep balances, one edge per pair, the one-direction
    rule, or the store across a payment and its refund. */
module Scenarios {
  import opened Graph
  import opened Creditors
  import opened Settlement
  import opened Ledger

  /** No prior relationship: B ends up owing A the whole payment. */
  lemma NewDebt()
    ensures UpdateBalance([], "A", "B", 10) == [Edge(1, "B", "A", 10)]
  {
    ResidualOnly([], "A", "B", 10);
  }

  /** The balance list of A after `NewDebt`: A is owed 10 by B. */
  lemma NewDebtCreditorBalance()
    ensures Balances([Edge(1, "B", "A", 10)], "A") == [BalanceDto("B", 10)]
  {
    var s := [Edge(1, "B", "A", 10)];
    assert s[..0] == [];
    assert ToReturn(s, "A") == [s[0]] && ToPay(s, "A") == [];
  }

  /** The balance list of B after `NewDebt`: B owes A 10. */
  lemma NewDebtDebtorBalance()
    ensures Balances([Edge(1, "B", "A", 10)], "B") == [BalanceDto("A", -10)]
  {
    var s := [Edge(1, "B", "A", 10)];
    assert s[..0] == [];
    assert ToReturn(s, "B") == [] && ToPay(s, "B") == [s[0]];
  }

  /** A owes B 15 and pays 10: the debt shrinks to 5. */
  lemma PartialRepayment()
    ensures UpdateBalance([Edge(1, "A", "B", 15)], "A", "B", 10) == [Edge(1, "A", "B", 5)]
  {
  }

  /** A owes B 10 and pays 10: the relationship disappears. */
  lemma FullRepayment()
    ensures UpdateBalance([Edge(1, "A", "B", 10)], "A", "B", 10) == []
  {
  }

  /** A owes B 10 and pays 15: the direction flips, B owes A 5. */
  lemma Overpayment()
    ensures UpdateBalance([Edge(1, "A", "B", 10)], "A", "B", 15) == [Edge(1, "B", "A", 5)]
  {
    var s := [Edge(1, "A", "B", 10)];
    assert ReduceDebt(s, "A", "B", 15) == Step([], 5);
    assert ToPay([], "A") == [];
  }

  /** A owes C 8 and pays B 20: B takes over the debt to C and owes A the
      remaining 12. */
  lemma Rerouting()
    ensures UpdateBalance([Edge(1, "A", "C", 8)], "A", "B", 20)
         == [Edge(2, "B", "C", 8), Edge(3, "B", "A", 12)]
  {
    var s := [Edge(1, "A", "C", 8)];
    var t := [Edge(2, "B", "C", 8)];
    assert ReduceDebt(s, "A", "B", 20) == Step(s, 20);
    ReroutingGroups();
    ReroutingTransfer();
    assert TransferAll(s, "B", [s[0]], 20) == Step(t, 12);
    assert Reroute(s, "A", "B", 20) == Step(t, 12);
    assert MaxId(t) == 2 by { assert t[1..] == []; }
  }

  lemma ReroutingGroups()
    ensures var s := [Edge(1, "A", "C", 8)];
      ToPay(s, "A") == [s[0]] && Groups(s, "A", "B") == ([], [s[0]])
  {
    var s := [Edge(1, "A", "C", 8)];
    assert ToPay(s, "A") == [s[0]] by { assert s[..0] == []; }
    assert !HasEdge(s, "B", "C");
    assert SortedByValue(ToPay(s, "A")) == [s[0]];
  }

  lemma ReroutingTransfer()
    ensures TransferDebt([Edge(1, "A", "C", 8)], "B", 1, 20) == Step([Edge(2, "B", "C", 8)], 12)
  {
    var s := [Edge(1, "A", "C", 8)];
    assert IndexOfId(s, 1) == 0;
    assert FreshId(s) == 2 by { assert s[1..] == []; }
    assert RemoveAt(s, 0) == [];
  }

  /** A and B both owe C 5 and A pays B 3: B's debt to C drops to 2 while
      A's debt to C stays. A's balance does not move by the 3 it paid, and
      C is owed 3 less. */
  lemma SharedCreditorLosesBalance()
    ensures var s := [Edge(1, "A", "C", 5), Edge(2, "B", "C", 5)];
      && UpdateBalance(s, "A", "B", 3) == [Edge(1, "A", "C", 5), Edge(2, "B", "C", 2)]
      && Net(UpdateBalance(s, "A", "B", 3), "A") == Net(s, "A")
      && Net(UpdateBalance(s, "A", "B", 3), "C") == Net(s, "C") - 3
  {
    var s := [Edge(1, "A", "C", 5), Edge(2, "B", "C", 5)];
    var o := [Edge(1, "A", "C", 5), Edge(2, "B", "C", 2)];
    SharedRun();
    SharedNets();
  }

  lemma SharedGroups()
    ensures var s := [Edge(1, "A", "C", 5), Edge(2, "B", "C", 5)];
      ToPay(s, "A") == [s[0]] && Groups(s, "A", "B") == ([s[0]], [])
  {
    var s := [Edge(1, "A", "C", 5), Edge(2, "B", "C", 5)];
    assert ToPay(s, "A") == [s[0]] by {
      assert s[..1] == [s[0]];
      assert s[..1][..0] == [];
    }
    assert HasEdge(s, "B", "C") by { EdgeInPairs(s, s[1]); }
    assert SortedByValue(ToPay(s, "A")) == [s[0]];
  }

  lemma SharedRun()
    ensures UpdateBalance([Edge(1, "A", "C", 5), Edge(2, "B", "C", 5)], "A", "B", 3)
         == [Edge(1, "A", "C", 5), Edge(2, "B", "C", 2)]
  {
    var s := [Edge(1, "A", "C", 5), Edge(2, "B", "C", 5)];
    var o := [Edge(1, "A", "C", 5), Edge(2, "B", "C", 2)];
    SharedNoDirect();
    SharedReroute();
    SharedGroups();
    RerouteOnly(s, "A", "B", 3, Step(o, 0));
  }

  lemma SharedNoDirect()
    ensures var s := [Edge(1, "A", "C", 5), Edge(2, "B", "C", 5)];
      DistinctIds(s) && ReduceDebt(s, "A", "B", 3) == Step(s, 3)
  {
    var s := [Edge(1, "A", "C", 5), Edge(2, "B", "C", 5)];
    forall e | e in s ensures Pair(e) != ("A", "B") && Pair(e) != ("B", "A") {
    }
    ReduceDebtUnrelated(s, "A", "B", 3);
  }

  lemma SharedReroute()
    ensures Reroute([Edge(1, "A", "C", 5), Edge(2, "B", "C", 5)], "A", "B", 3)
         == Step([Edge(1, "A", "C", 5), Edge(2, "B", "C", 2)], 0)
  {
    var s := [Edge(1, "A", "C", 5), Edge(2, "B", "C", 5)];
    var o := [Edge(1, "A", "C", 5), Edge(2, "B", "C", 2)];
    SharedGroups();
    SharedReduce();
    assert SettleShared(s, "B", [s[0]], 3) == Step(o, 0);
  }

  lemma SharedReduce()
    ensures ReduceDebt([Edge(1, "A", "C", 5), Edge(2, "B", "C", 5)], "B", "C", 3)
         == Step([Edge(1, "A", "C", 5), Edge(2, "B", "C", 2)], 0)
  {
    var s := [Edge(1, "A", "C", 5), Edge(2, "B", "C", 5)];
    assert Pair(s[0]) != ("B", "C");
    assert Find(s[1..], "B", "C") == Some(0);
    assert Find(s, "B", "C") == Some(1);
    ShrinkStep(s, "B", "C", 3);
  }

  lemma SharedNets()
    ensures Net([Edge(1, "A", "C", 5), Edge(2, "B", "C", 5)], "A") == -5
    ensures Net([Edge(1, "A", "C", 5), Edge(2, "B", "C", 2)], "A") == -5
    ensures Net([Edge(1, "A", "C", 5), Edge(2, "B", "C", 5)], "C") == 10
    ensures Net([Edge(1, "A", "C", 5), Edge(2, "B", "C", 2)], "C") == 7
  {
  }

  /** A owes C 5, C owes B 4, and A pays B 5: B takes over the debt to C
      without looking at C's debt to B, so B and C now owe each other. */
  lemma TransferMakesMutualDebt()
    ensures var s := [Edge(1, "A", "C", 5), Edge(2, "C", "B", 4)];
      && Minimal(s)
      && UpdateBalance(s, "A", "B", 5) == [Edge(2, "C", "B", 4), Edge(3, "B", "C", 5)]
      && !NoMutualDebt(UpdateBalance(s, "A", "B", 5))
  {
    var o := [Edge(2, "C", "B", 4), Edge(3, "B", "C", 5)];
    MutualRun();
    MutualMinimal();
    assert Pair(o[0]) == (o[1].receiver, o[1].payer);
  }

  lemma MutualNoDirect()
    ensures var s := [Edge(1, "A", "C", 5), Edge(2, "C", "B", 4)];
      DistinctIds(s) && ReduceDebt(s, "A", "B", 5) == Step(s, 5)
  {
    var s := [Edge(1, "A", "C", 5), Edge(2, "C", "B", 4)];
    forall e | e in s ensures Pair(e) != ("A", "B") && Pair(e) != ("B", "A") {
    }
    ReduceDebtUnrelated(s, "A", "B", 5);
  }

  lemma MutualGroups()
    ensures var s := [Edge(1, "A", "C", 5), Edge(2, "C", "B", 4)];
      ToPay(s, "A") == [s[0]] && Groups(s, "A", "B") == ([], [s[0]])
  {
    var s := [Edge(1, "A", "C", 5), Edge(2, "C", "B", 4)];
    assert ToPay(s, "A") == [s[0]] by {
      assert s[..1] == [s[0]];
      assert s[..1][..0] == [];
    }
    assert !HasEdge(s, "B", "C");
    assert SortedByValue(ToPay(s, "A")) == [s[0]];
  }

  lemma MutualTransfer()
    ensures TransferDebt([Edge(1, "A", "C", 5), Edge(2, "C", "B", 4)], "B", 1, 5)
         == Step([Edge(2, "C", "B", 4), Edge(3, "B", "C", 5)], 0)
  {
    var s := [Edge(1, "A", "C", 5), Edge(2, "C", "B", 4)];
    assert IndexOfId(s, 1) == 0;
    assert FreshId(s) == 3 by { assert s[1..][1..] == []; }
    assert RemoveAt(s, 0) == [s[1]];
  }

  lemma MutualRun()
    ensures var s := [Edge(1, "A", "C", 5), Edge(2, "C", "B", 4)];
      UpdateBalance(s, "A", "B", 5) == [Edge(2, "C", "B", 4), Edge(3, "B", "C", 5)]
  {
    var s := [Edge(1, "A", "C", 5), Edge(2, "C", "B", 4)];
    var o := [Edge(2, "C", "B", 4), Edge(3, "B", "C", 5)];
    MutualNoDirect();
    MutualGroups();
    MutualTransfer();
    assert TransferAll(s, "B", [s[0]], 5) == Step(o, 0);
    assert Reroute(s, "A", "B", 5) == Step(o, 0);
    RerouteOnly(s, "A", "B", 5, Step(o, 0));
  }

  lemma MutualMinimal()
    ensures Minimal([Edge(1, "A", "C", 5), Edge(2, "C", "B", 4)])
  {
  }

  /** After `TransferMakesMutualDebt`, C pays B 10: C's debt of 4 is paid
      off and B owes C the remaining 6 on a second edge, next to B's earlier
      debt of 5 to C. Two payments from a minimal store leave two edges for
      the same ordered pair. */
  lemma MutualDebtThenDuplicatePair()
    ensures var s := [Edge(2, "C", "B", 4), Edge(3, "B", "C", 5)];
      && UpdateBalance(s, "C", "B", 10) == [Edge(3, "B", "C", 5), Edge(4, "B", "C", 6)]
      && !UniquePairs(UpdateBalance(s, "C", "B", 10))
  {
    var s := [Edge(2, "C", "B", 4), Edge(3, "B", "C", 5)];
    var o := [Edge(3, "B", "C", 5), Edge(4, "B", "C", 6)];
    DuplicateRun();
    assert Pair(o[0]) == Pair(o[1]);
  }

  lemma DuplicateRun()
    ensures UpdateBalance([Edge(2, "C", "B", 4), Edge(3, "B", "C", 5)], "C", "B", 10)
         == [Edge(3, "B", "C", 5), Edge(4, "B", "C", 6)]
  {
    var s := [Edge(2, "C", "B", 4), Edge(3, "B", "C", 5)];
    var t := [Edge(3, "B", "C", 5)];
    assert Find(s, "C", "B") == Some(0);
    DropStep(s, "C", "B", 10);
    assert RemoveAt(s, 0) == t;
    assert ToPay(t, "C") == [] by { assert t[..0] == []; }
    assert FreshId(t) == 4 by { assert t[1..] == []; }
  }

  /** A and B each owe C; A pays B 5, then B pays A 5 back. The first payment
      settles B's debt of 3 to C and leaves B owing A 2; the refund pays that
      off and leaves A owing B 3. The refund does not restore the store: A
      now owes 3 more, and C is owed 3 less. */
  lemma SharedRefundDiffers()
    ensures var s := [Edge(1, "A", "C", 8), Edge(2, "B", "C", 3)];
      && UpdateBalance(s, "A", "B", 5) == [Edge(1, "A", "C", 8), Edge(2, "B", "A", 2)]
      && UpdateBalance([Edge(1, "A", "C", 8), Edge(2, "B", "A", 2)], "B", "A", 5)
         == [Edge(1, "A", "C", 8), Edge(2, "A", "B", 3)]
      && [Edge(1, "A", "C", 8), Edge(2, "A", "B", 3)] != s
  {
    var s := [Edge(1, "A", "C", 8), Edge(2, "B", "C", 3)];
    var o := [Edge(1, "A", "C", 8), Edge(2, "A", "B", 3)];
    SharedPayRun();
    SharedRefundRun();
    assert o[1] != s[1];
  }

  lemma SharedPayGroups()
    ensures var s := [Edge(1, "A", "C", 8), Edge(2, "B", "C", 3)];
      ToPay(s, "A") == [s[0]] && Groups(s, "A", "B") == ([s[0]], [])
  {
    var s := [Edge(1, "A", "C", 8), Edge(2, "B", "C", 3)];
    assert ToPay(s, "A") == [s[0]] by {
      assert s[..1] == [s[0]];
      assert s[..1][..0] == [];
    }
    assert HasEdge(s, "B", "C") by { EdgeInPairs(s, s[1]); }
    assert SortedByValue(ToPay(s, "A")) == [s[0]];
  }

  lemma SharedPayNoDirect()
    ensures var s := [Edge(1, "A", "C", 8), Edge(2, "B", "C", 3)];
      DistinctIds(s) && ReduceDebt(s, "A", "B", 5) == Step(s, 5)
  {
    var s := [Edge(1, "A", "C", 8), Edge(2, "B", "C", 3)];
    forall e | e in s ensures Pair(e) != ("A", "B") && Pair(e) != ("B", "A") {
    }
    ReduceDebtUnrelated(s, "A", "B", 5);
  }

  lemma SharedPayReduce()
    ensures ReduceDebt([Edge(1, "A", "C", 8), Edge(2, "B", "C", 3)], "B", "C", 5)
         == Step([Edge(1, "A", "C", 8)], 2)
  {
    var s := [Edge(1, "A", "C", 8), Edge(2, "B", "C", 3)];
    assert Pair(s[0]) != ("B", "C");
    assert Find(s[1..], "B", "C") == Some(0);
    assert Find(s, "B", "C") == Some(1);
    DropStep(s, "B", "C", 5);
    assert RemoveAt(s, 1) == [s[0]];
  }

  lemma SharedPayReroute()
    ensures Reroute([Edge(1, "A", "C", 8), Edge(2, "B", "C", 3)], "A", "B", 5)
         == Step([Edge(1, "A", "C", 8)], 2)
  {
    var s := [Edge(1, "A", "C", 8), Edge(2, "B", "C", 3)];
    var t := [Edge(1, "A", "C", 8)];
    SharedPayGroups();
    SharedPayReduce();
    assert [s[0]][1..] == [];
    assert SettleShared(s, "B", [s[0]], 5) == Step(t, 2);
    assert TransferAll(t, "B", [], 2) == Step(t, 2);
  }

  lemma SharedPayRun()
    ensures UpdateBalance([Edge(1, "A", "C", 8), Edge(2, "B", "C", 3)], "A", "B", 5)
         == [Edge(1, "A", "C", 8), Edge(2, "B", "A", 2)]
  {
    var s := [Edge(1, "A", "C", 8), Edge(2, "B", "C", 3)];
    var t := [Edge(1, "A", "C", 8)];
    SharedPayNoDirect();
    SharedPayReroute();
    SharedPayGroups();
    RerouteOnly(s, "A", "B", 5, Step(t, 2));
    assert FreshId(t) == 2 by { assert t[1..] == []; }
  }

  lemma SharedRefundRun()
    ensures UpdateBalance([Edge(1, "A", "C", 8), Edge(2, "B", "A", 2)], "B", "A", 5)
         == [Edge(1, "A", "C", 8), Edge(2, "A", "B", 3)]
  {
    var s := [Edge(1, "A", "C", 8), Edge(2, "B", "A", 2)];
    var t := [Edge(1, "A", "C", 8)];
    assert Pair(s[0]) != ("B", "A");
    assert Find(s[1..], "B", "A") == Some(0);
    assert Find(s, "B", "A") == Some(1);
    DropStep(s, "B", "A", 5);
    assert RemoveAt(s, 1) == t;
    assert ToPay(t, "B") == [] by { assert t[..0] == []; }
    assert FreshId(t) == 2 by { assert t[1..] == []; }
  }

  /** After `Rerouting`, B pays A the same 20 back: B's debt of 12 to A is
      paid off, and B's debt of 8 to C goes back to A. A owes C 8 again, as
      before the first payment, on a relationship with a new identity. */
  lemma ReroutingRefund()
    ensures UpdateBalance([Edge(2, "B", "C", 8), Edge(3, "B", "A", 12)], "B", "A", 20)
         == [Edge(3, "A", "C", 8)]
  {
    var s := [Edge(2, "B", "C", 8), Edge(3, "B", "A", 12)];
    var t := [Edge(2, "B", "C", 8)];
    var o := [Edge(3, "A", "C", 8)];
    ReroutingRefundReduce();
    ReroutingRefundGroups();
    ReroutingRefundTransfer();
    assert TransferAll(t, "A", [t[0]], 8) == Step(o, 0);
    assert Reroute(t, "B", "A", 8) == Step(o, 0);
  }

  lemma ReroutingRefundReduce()
    ensures ReduceDebt([Edge(2, "B", "C", 8), Edge(3, "B", "A", 12)], "B", "A", 20)
         == Step([Edge(2, "B", "C", 8)], 8)
  {
    var s := [Edge(2, "B", "C", 8), Edge(3, "B", "A", 12)];
    assert Pair(s[0]) != ("B", "A");
    assert Find(s[1..], "B", "A") == Some(0);
    assert Find(s, "B", "A") == Some(1);
    DropStep(s, "B", "A", 20);
    assert RemoveAt(s, 1) == [s[0]];
  }

  lemma ReroutingRefundGroups()
    ensures var t := [Edge(2, "B", "C", 8)];
      ToPay(t, "B") == [t[0]] && Groups(t, "B", "A") == ([], [t[0]])
  {
    var t := [Edge(2, "B", "C", 8)];
    assert ToPay(t, "B") == [t[0]] by { assert t[..0] == []; }
    assert !HasEdge(t, "A", "C");
    assert SortedByValue(ToPay(t, "B")) == [t[0]];
  }

  lemma ReroutingRefundTransfer()
    ensures TransferDebt([Edge(2, "B", "C", 8)], "A", 2, 8) == Step([Edge(3, "A", "C", 8)], 0)
  {
    var t := [Edge(2, "B", "C", 8)];
    assert IndexOfId(t, 2) == 0;
    assert FreshId(t) == 3 by { assert t[1..] == []; }
    assert RemoveAt(t, 0) == [];
  }
}
