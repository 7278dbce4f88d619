/** The two pure pieces of `MoneyServiceImpl` around the netting engine: the
    sign normalisation of an incoming payment (`addMoney`) and the signed
    balance list of a participant (`UserEntity.getBalance`). */
module Ledger {
  import opened Graph

  /** An `AddDto` as far as the engine reads it: who paid whom how much. */
  datatype Payment = Payment(from: UserId, to: UserId, value: int)

  /** Lines 26-30: a negative amount is the same payment the other way round. */
  function Normalize(p: Payment): (n: Payment)
    ensures n.value >= 0
    ensures p.value < 0 ==> n.from == p.to && n.to == p.from && n.value == -p.value
    ensures p.value >= 0 ==> n == p
  {
    if p.value < 0 then Payment(p.to, p.from, -p.value) else p
  }

  /** A normalised payment is left alone by a second normalisation. */
  lemma NormalizeIdempotent(p: Payment)
    ensures Normalize(Normalize(p)) == Normalize(p)
  {
  }

  /** Paying `-v` from `a` to `b` is paying `v` from `b` to `a`. */
  lemma NormalizeReverse(a: UserId, b: UserId, v: int)
    requires v > 0
    ensures Normalize(Payment(a, b, -v)) == Normalize(Payment(b, a, v))
  {
  }

  /** A `BalanceDto`: the name of the other side and the signed amount. */
  datatype BalanceDto = BalanceDto(name: UserId, value: int)

  /** `toReturn.map { BalanceDto(it.payer.name, it.value) }`. */
  function Credits(es: seq<Edge>): (r: seq<BalanceDto>)
    ensures |r| == |es|
    ensures forall k :: 0 <= k < |es| ==> r[k] == BalanceDto(es[k].payer, es[k].value)
  {
    if es == [] then [] else [BalanceDto(es[0].payer, es[0].value)] + Credits(es[1..])
  }

  /** `toPay.map { BalanceDto(it.receiver.name, -it.value) }`. */
  function Debits(es: seq<Edge>): (r: seq<BalanceDto>)
    ensures |r| == |es|
    ensures forall k :: 0 <= k < |es| ==> r[k] == BalanceDto(es[k].receiver, -es[k].value)
  {
    if es == [] then [] else [BalanceDto(es[0].receiver, -es[0].value)] + Debits(es[1..])
  }

  /** Lines 140-141: one entry per edge touching `u`; first what is owed to
      `u`, named by the debtor and positive, then what `u` owes, named by the
      creditor and negative. */
  function Balances(s: Store, u: UserId): (r: seq<BalanceDto>)
    ensures |r| == |ToReturn(s, u)| + |ToPay(s, u)|
    ensures forall k :: 0 <= k < |ToReturn(s, u)| ==>
      r[k] == BalanceDto(ToReturn(s, u)[k].payer, ToReturn(s, u)[k].value)
    ensures forall k :: 0 <= k < |ToPay(s, u)| ==>
      r[|ToReturn(s, u)| + k] == BalanceDto(ToPay(s, u)[k].receiver, -ToPay(s, u)[k].value)
  {
    Credits(ToReturn(s, u)) + Debits(ToPay(s, u))
  }

  /** Sum of the signed amounts of a balance list. */
  function Signed(bs: seq<BalanceDto>): int {
    if bs == [] then 0 else bs[0].value + Signed(bs[1..])
  }

  lemma {:induction false} SignedConcat(a: seq<BalanceDto>, b: seq<BalanceDto>)
    ensures Signed(a + b) == Signed(a) + Signed(b)
  {
    if a == [] {
      assert a + b == b;
    } else {
      assert (a + b)[1..] == a[1..] + b;
      SignedConcat(a[1..], b);
    }
  }

  /** Sum of the amounts, taken from the front of the list. */
  function SumFront(es: seq<Edge>): int {
    if es == [] then 0 else es[0].value + SumFront(es[1..])
  }

  lemma {:induction false} SumFrontIsSum(es: seq<Edge>)
    ensures SumFront(es) == Sum(es)
  {
    if es != [] {
      var n := |es| - 1;
      SumFrontIsSum(es[1..]);
      if n > 0 {
        assert es[1..][..n - 1] == es[..n][1..];
        assert es[1..][n - 1] == es[n];
        SumFrontIsSum(es[..n][1..]);
        SumFrontIsSum(es[..n]);
      }
    }
  }

  lemma {:induction false} CreditsSigned(es: seq<Edge>)
    ensures Signed(Credits(es)) == SumFront(es)
  {
    if es != [] {
      CreditsSigned(es[1..]);
    }
  }

  lemma {:induction false} DebitsSigned(es: seq<Edge>)
    ensures Signed(Debits(es)) == -SumFront(es)
  {
    if es != [] {
      DebitsSigned(es[1..]);
    }
  }

  /** The entries of `getBalance` add up to the participant's net balance:
      what others owe `u` minus what `u` owes. */
  lemma BalancesSumToNet(s: Store, u: UserId)
    ensures Signed(Balances(s, u)) == Net(s, u)
  {
    SignedConcat(Credits(ToReturn(s, u)), Debits(ToPay(s, u)));
    CreditsSigned(ToReturn(s, u));
    DebitsSigned(ToPay(s, u));
    SumFrontIsSum(ToReturn(s, u));
    SumFrontIsSum(ToPay(s, u));
    CreditIsToReturnSum(s, u);
    DebitIsToPaySum(s, u);
  }

  /** In a store of positive amounts the sign of an entry tells the side:
      positive entries come from `toReturn`, negative ones from `toPay`. */
  lemma BalancesSigns(s: Store, u: UserId)
    requires Positive(s)
    ensures var r := Balances(s, u); var n := |ToReturn(s, u)|;
      forall k :: 0 <= k < |r| ==> (r[k].value > 0 <==> k < n)
  {
    ToPayExact(s, u);
    ToReturnExact(s, u);
    var r := Balances(s, u);
    var n := |ToReturn(s, u)|;
    forall k | 0 <= k < |r| ensures r[k].value > 0 <==> k < n {
      if k < n {
        assert ToReturn(s, u)[k] in ToReturn(s, u);
      } else {
        assert ToPay(s, u)[k - n] in ToPay(s, u);
      }
    }
  }
}
