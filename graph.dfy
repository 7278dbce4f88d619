/** The balance graph: the debt edges ("payer owes receiver value") that the
    repository persists, the per-participant views over them, and the signed
    balance of a participant. */
module Graph {

  /** A participant, identified by the name `getOrCreate` resolves it from. */
  type UserId = string

  /** A `BalanceRelationship`: `payer` owes `receiver` the amount `value`.
      `id` stands for the identity of the relationship object, which the
      engine holds on to while it changes the amount in place. */
  datatype Edge = Edge(id: nat, payer: UserId, receiver: UserId, value: int)

  /** Every persisted edge, in the order the store hands them back. The `toPay`
      and `toReturn` lists of a participant are the views `ToPay` and `ToReturn`. */
  type Store = seq<Edge>

  datatype Option<T> = None | Some(value: T)

  /** The ordered pair (debtor, creditor) of an edge. */
  function Pair(e: Edge): (UserId, UserId) {
    (e.payer, e.receiver)
  }

  /** The ordered pairs that have at least one edge in the store. */
  function Pairs(s: Store): set<(UserId, UserId)> {
    set e | e in s :: Pair(e)
  }

  /** `payer` has at least one debt edge towards `receiver`. */
  predicate HasEdge(s: Store, payer: UserId, receiver: UserId) {
    (payer, receiver) in Pairs(s)
  }

  lemma EdgeInPairs(s: Store, e: Edge)
    requires e in s
    ensures HasEdge(s, e.payer, e.receiver)
  {
  }

  /** Index of the first edge from `payer` to `receiver`: what `find` returns
      when it searches the payer's `toPay` (or the receiver's `toReturn`). */
  function Find(s: Store, payer: UserId, receiver: UserId): (r: Option<nat>)
    ensures r.Some? ==> r.value < |s| && Pair(s[r.value]) == (payer, receiver)
    ensures r.None? <==> !HasEdge(s, payer, receiver)
  {
    if s == [] then None
    else if Pair(s[0]) == (payer, receiver) then Some(0)
    else
      assert forall e :: e in s ==> e == s[0] || e in s[1..];
      match Find(s[1..], payer, receiver)
      case None => None
      case Some(i) => Some(i + 1)
  }

  /** `find` stops at the first match. */
  lemma {:induction false} FindIsFirst(s: Store, payer: UserId, receiver: UserId)
    requires Find(s, payer, receiver).Some?
    ensures forall k :: 0 <= k < Find(s, payer, receiver).value ==> Pair(s[k]) != (payer, receiver)
  {
    if Pair(s[0]) != (payer, receiver) {
      FindIsFirst(s[1..], payer, receiver);
    }
  }

  /** The identities of the stored edges. */
  function Ids(s: Store): set<nat> {
    set e | e in s :: e.id
  }

  /** Position of the stored edge with identity `id`. */
  function IndexOfId(s: Store, id: nat): (i: nat)
    requires id in Ids(s)
    ensures i < |s| && s[i].id == id
  {
    if s[0].id == id then 0
    else
      assert forall e :: e in s ==> e == s[0] || e in s[1..];
      1 + IndexOfId(s[1..], id)
  }

  /** With distinct identities an edge's identity leads back to its position. */
  lemma IndexOfIdUnique(s: Store, k: nat)
    requires DistinctIds(s) && k < |s|
    ensures s[k].id in Ids(s) && IndexOfId(s, s[k].id) == k
  {
    assert s[k] in s;
  }

  /** The current state of the relationship object with identity `id`. */
  function Current(s: Store, id: nat): Edge
    requires id in Ids(s)
  {
    s[IndexOfId(s, id)]
  }

  /** Each listed edge is still stored under its identity, between the same
      two participants; its amount may have changed in place since. */
  ghost predicate Live(s: Store, es: seq<Edge>) {
    forall k :: 0 <= k < |es| ==> es[k].id in Ids(s) && Pair(Current(s, es[k].id)) == Pair(es[k])
  }

  lemma LiveOf(s: Store, es: seq<Edge>)
    requires DistinctIds(s) && forall e :: e in es ==> e in s
    ensures Live(s, es)
  {
    forall m | 0 <= m < |es| ensures es[m].id in Ids(s) && Pair(Current(s, es[m].id)) == Pair(es[m]) {
      assert es[m] in es;
      var k :| 0 <= k < |s| && s[k] == es[m];
      IndexOfIdUnique(s, k);
    }
  }

  /** The largest identity in the store (0 for an empty store). */
  function MaxId(s: Store): nat {
    if s == [] then 0
    else if s[0].id < MaxId(s[1..]) then MaxId(s[1..]) else s[0].id
  }

  lemma MaxIdBounds(s: Store)
    ensures forall e :: e in s ==> e.id <= MaxId(s)
  {
    if s != [] {
      MaxIdBounds(s[1..]);
      assert forall e :: e in s ==> e == s[0] || e in s[1..];
    }
  }

  /** An identity no stored edge has: the one a newly saved relationship gets. */
  function FreshId(s: Store): (n: nat)
    ensures n !in Ids(s)
  {
    MaxIdBounds(s);
    MaxId(s) + 1
  }

  /** The store without its `i`-th edge (`repository.delete`). */
  function RemoveAt(s: Store, i: nat): (r: Store)
    requires i < |s|
    ensures |r| == |s| - 1
    ensures forall k :: 0 <= k < i ==> r[k] == s[k]
    ensures forall k :: i <= k < |r| ==> r[k] == s[k + 1]
  {
    assert s == s[..i] + [s[i]] + s[i+1..];
    s[..i] + s[i+1..]
  }

  /** The store with the amount of its `i`-th edge changed in place. */
  function WithAmount(s: Store, i: nat, v: int): (r: Store)
    requires i < |s|
    ensures |r| == |s| && r[i] == s[i].(value := v)
    ensures forall k :: 0 <= k < |s| && k != i ==> r[k] == s[k]
  {
    s[i := s[i].(value := v)]
  }

  lemma RemoveAtMultiset(s: Store, i: nat)
    requires i < |s|
    ensures multiset(RemoveAt(s, i)) == multiset(s) - multiset{s[i]}
  {
    assert s == s[..i] + [s[i]] + s[i+1..];
  }

  lemma WithAmountMultiset(s: Store, i: nat, v: int)
    requires i < |s|
    ensures multiset(WithAmount(s, i, v)) == multiset(s) - multiset{s[i]} + multiset{s[i].(value := v)}
  {
    var r := WithAmount(s, i, v);
    assert s == s[..i] + [s[i]] + s[i+1..];
    assert r == s[..i] + [r[i]] + s[i+1..];
  }

  /** Every other edge survives the deletion. */
  lemma RemoveAtKeeps(s: Store, i: nat)
    requires i < |s|
    ensures forall x :: x in s && x != s[i] ==> x in RemoveAt(s, i)
  {
    RemoveAtMultiset(s, i);
    forall x | x in s && x != s[i] ensures x in RemoveAt(s, i) {
      assert x in multiset(s);
    }
  }

  lemma PairsRemoveAt(s: Store, i: nat)
    requires i < |s|
    ensures Pairs(RemoveAt(s, i)) <= Pairs(s)
  {
    forall p | p in Pairs(RemoveAt(s, i)) ensures p in Pairs(s) {
      var e :| e in RemoveAt(s, i) && Pair(e) == p;
      assert e in multiset(RemoveAt(s, i));
    }
  }

  lemma PairsWithAmount(s: Store, i: nat, v: int)
    requires i < |s|
    ensures Pairs(WithAmount(s, i, v)) == Pairs(s)
  {
    var r := WithAmount(s, i, v);
    forall p | p in Pairs(r) ensures p in Pairs(s) {
      var e :| e in r && Pair(e) == p;
      var k :| 0 <= k < |r| && r[k] == e;
      assert Pair(s[k]) == p;
    }
    forall p | p in Pairs(s) ensures p in Pairs(r) {
      var e :| e in s && Pair(e) == p;
      var k :| 0 <= k < |s| && s[k] == e;
      assert Pair(r[k]) == p;
    }
  }

  lemma PairsAppend(s: Store, e: Edge)
    ensures Pairs(s + [e]) == Pairs(s) + {Pair(e)}
  {
    forall p | p in Pairs(s + [e]) ensures p in Pairs(s) + {Pair(e)} {
      var x :| x in s + [e] && Pair(x) == p;
      assert x in s || x == e;
    }
  }

  lemma IdsRemoveAt(s: Store, i: nat)
    requires i < |s|
    ensures Ids(s) - {s[i].id} <= Ids(RemoveAt(s, i)) <= Ids(s)
  {
    var r := RemoveAt(s, i);
    forall n | n in Ids(r) ensures n in Ids(s) {
      var e :| e in r && e.id == n;
      assert e in multiset(r);
    }
    forall n | n in Ids(s) - {s[i].id} ensures n in Ids(r) {
      var e :| e in s && e.id == n;
      assert e != s[i] && e in multiset(s);
      assert e in multiset(r);
    }
  }

  lemma IdsWithAmount(s: Store, i: nat, v: int)
    requires i < |s|
    ensures Ids(WithAmount(s, i, v)) == Ids(s)
  {
    var r := WithAmount(s, i, v);
    forall n | n in Ids(r) ensures n in Ids(s) {
      var e :| e in r && e.id == n;
      var k :| 0 <= k < |r| && r[k] == e;
      assert s[k].id == n;
    }
    forall n | n in Ids(s) ensures n in Ids(r) {
      var e :| e in s && e.id == n;
      var k :| 0 <= k < |s| && s[k] == e;
      assert r[k].id == n;
    }
  }

  lemma IdsAppend(s: Store, e: Edge)
    ensures Ids(s + [e]) == Ids(s) + {e.id}
  {
    forall n | n in Ids(s + [e]) ensures n in Ids(s) + {e.id} {
      var x :| x in s + [e] && x.id == n;
      assert x in s || x == e;
    }
  }

  // ---------------------------------------------------------------------
  // Consistency of the store

  /** No edge is persisted with a zero or negative amount. */
  ghost predicate Positive(s: Store) {
    forall k :: 0 <= k < |s| ==> s[k].value > 0
  }

  /** Nobody owes themselves. */
  ghost predicate NoSelfDebt(s: Store) {
    forall k :: 0 <= k < |s| ==> s[k].payer != s[k].receiver
  }

  /** At most one edge per ordered pair (debtor, creditor). */
  ghost predicate UniquePairs(s: Store) {
    forall j, k :: 0 <= j < k < |s| ==> Pair(s[j]) != Pair(s[k])
  }

  /** The invariant every reachable store keeps. */
  ghost predicate WellFormed(s: Store) {
    Positive(s) && NoSelfDebt(s) && UniquePairs(s)
  }

  /** No two participants owe each other at the same time. */
  ghost predicate NoMutualDebt(s: Store) {
    forall j, k :: 0 <= j < |s| && 0 <= k < |s| ==> Pair(s[j]) != (s[k].receiver, s[k].payer)
  }

  /** No two stored edges share an identity. */
  predicate DistinctIds(es: seq<Edge>) {
    forall j, k :: 0 <= j < k < |es| ==> es[j].id != es[k].id
  }

  /** The invariant every store the engine produces keeps. */
  ghost predicate Consistent(s: Store) {
    Positive(s) && DistinctIds(s)
  }

  /** A store with positive amounts, no self debt, at most one edge per
      ordered pair and no participant owing both ways: the fewest edges
      that describe who owes whom. */
  ghost predicate Minimal(s: Store) {
    WellFormed(s) && NoMutualDebt(s)
  }

  /** With distinct identities no edge is stored twice. */
  lemma {:induction false} DistinctIdsOnce(s: Store, e: Edge)
    requires DistinctIds(s)
    ensures multiset(s)[e] <= 1
  {
    if s != [] {
      var n := |s| - 1;
      assert s == s[..n] + [s[n]];
      assert DistinctIds(s[..n]);
      DistinctIdsOnce(s[..n], e);
      assert multiset(s) == multiset(s[..n]) + multiset{s[n]};
    }
  }

  /** An edge at two positions of a list is counted twice. */
  lemma TwiceCounted(es: seq<Edge>, j: nat, k: nat)
    requires j < k < |es| && es[j] == es[k]
    ensures multiset(es)[es[j]] >= 2
  {
    assert es == es[..k] + es[k..];
    assert es[j] in es[..k];
    assert es[k] == es[k..][0];
    assert multiset(es) == multiset(es[..k]) + multiset(es[k..]);
  }

  /** Edges taken from a store with distinct identities have distinct identities. */
  lemma DistinctIdsSub(s: Store, es: seq<Edge>)
    requires DistinctIds(s) && multiset(es) <= multiset(s)
    ensures DistinctIds(es)
  {
    forall j, k | 0 <= j < k < |es| ensures es[j].id != es[k].id {
      if es[j].id == es[k].id {
        assert es[j] in multiset(es) && es[k] in multiset(es);
        var j' :| 0 <= j' < |s| && s[j'] == es[j];
        var k' :| 0 <= k' < |s| && s[k'] == es[k];
        assert j' == k';
        TwiceCounted(es, j, k);
        DistinctIdsOnce(s, es[j]);
      }
    }
  }

  lemma DistinctIdsRemoveAt(s: Store, i: nat)
    requires i < |s| && DistinctIds(s)
    ensures DistinctIds(RemoveAt(s, i))
  {
    var r := RemoveAt(s, i);
    forall j, k | 0 <= j < k < |r| ensures r[j].id != r[k].id {
      var j' := if j < i then j else j + 1;
      var k' := if k < i then k else k + 1;
      assert r[j] == s[j'] && r[k] == s[k'] && j' < k';
    }
  }

  lemma DistinctIdsWithAmount(s: Store, i: nat, v: int)
    requires i < |s| && DistinctIds(s)
    ensures DistinctIds(WithAmount(s, i, v))
  {
  }

  lemma DistinctIdsAppend(s: Store, e: Edge)
    requires DistinctIds(s) && e.id !in Ids(s)
    ensures DistinctIds(s + [e])
  {
    var r := s + [e];
    forall j, k | 0 <= j < k < |r| ensures r[j].id != r[k].id {
      if k == |s| {
        assert r[j] in s;
      }
    }
  }

  lemma LiveWithAmount(s: Store, i: nat, v: int, es: seq<Edge>)
    requires i < |s| && DistinctIds(s) && Live(s, es)
    ensures Live(WithAmount(s, i, v), es)
  {
    var r := WithAmount(s, i, v);
    forall m | 0 <= m < |es| ensures es[m].id in Ids(r) && Pair(Current(r, es[m].id)) == Pair(es[m]) {
      var k := IndexOfId(s, es[m].id);
      assert r[k].id == es[m].id;
      IndexOfIdUnique(r, k);
    }
  }

  lemma LiveRemoveAt(s: Store, i: nat, es: seq<Edge>)
    requires i < |s| && DistinctIds(s) && Live(s, es)
    requires forall k :: 0 <= k < |es| ==> es[k].id != s[i].id
    ensures Live(RemoveAt(s, i), es)
  {
    var r := RemoveAt(s, i);
    DistinctIdsRemoveAt(s, i);
    forall m | 0 <= m < |es| ensures es[m].id in Ids(r) && Pair(Current(r, es[m].id)) == Pair(es[m]) {
      var k := IndexOfId(s, es[m].id);
      var k' := if k < i then k else k - 1;
      assert r[k'] == s[k];
      IndexOfIdUnique(r, k');
    }
  }

  lemma LiveAppend(s: Store, n: Edge, es: seq<Edge>)
    requires DistinctIds(s) && n.id !in Ids(s) && Live(s, es)
    ensures Live(s + [n], es)
  {
    var r := s + [n];
    DistinctIdsAppend(s, n);
    forall m | 0 <= m < |es| ensures es[m].id in Ids(r) && Pair(Current(r, es[m].id)) == Pair(es[m]) {
      var k := IndexOfId(s, es[m].id);
      assert r[k] == s[k];
      IndexOfIdUnique(r, k);
    }
  }

  /** The tail of a live list is live. */
  lemma LiveTail(s: Store, es: seq<Edge>)
    requires es != [] && Live(s, es)
    ensures Live(s, es[1..])
  {
    forall m | 0 <= m < |es[1..]| ensures es[1..][m].id in Ids(s) && Pair(Current(s, es[1..][m].id)) == Pair(es[1..][m]) {
      assert es[1..][m] == es[m + 1];
    }
  }

  lemma ConsistentRemoveAt(s: Store, i: nat)
    requires i < |s| && Consistent(s)
    ensures Consistent(RemoveAt(s, i))
  {
    DistinctIdsRemoveAt(s, i);
  }

  lemma ConsistentWithAmount(s: Store, i: nat, v: int)
    requires i < |s| && Consistent(s) && v > 0
    ensures Consistent(WithAmount(s, i, v))
  {
  }

  lemma ConsistentAppend(s: Store, e: Edge)
    requires Consistent(s) && e.value > 0 && e.id !in Ids(s)
    ensures Consistent(s + [e])
  {
    DistinctIdsAppend(s, e);
  }

  lemma WellFormedRemoveAt(s: Store, i: nat)
    requires i < |s| && WellFormed(s)
    ensures WellFormed(RemoveAt(s, i))
  {
    var r := RemoveAt(s, i);
    forall j, k | 0 <= j < k < |r| ensures Pair(r[j]) != Pair(r[k]) {
      var j' := if j < i then j else j + 1;
      var k' := if k < i then k else k + 1;
      assert r[j] == s[j'] && r[k] == s[k'] && j' < k';
    }
  }

  /** With one edge per pair, deleting it ends the relationship. */
  lemma RemoveAtUnique(s: Store, i: nat)
    requires i < |s| && UniquePairs(s)
    ensures !HasEdge(RemoveAt(s, i), s[i].payer, s[i].receiver)
  {
    var r := RemoveAt(s, i);
    forall e | e in r ensures Pair(e) != Pair(s[i]) {
      var k :| 0 <= k < |r| && r[k] == e;
      var k' := if k < i then k else k + 1;
      assert r[k] == s[k'] && k' != i;
    }
  }

  lemma WellFormedWithAmount(s: Store, i: nat, v: int)
    requires i < |s| && WellFormed(s) && v > 0
    ensures WellFormed(WithAmount(s, i, v))
  {
  }

  lemma WellFormedAppend(s: Store, e: Edge)
    requires WellFormed(s) && e.value > 0 && e.payer != e.receiver
    requires !HasEdge(s, e.payer, e.receiver)
    ensures WellFormed(s + [e])
  {
    var r := s + [e];
    forall j, k | 0 <= j < k < |r| ensures Pair(r[j]) != Pair(r[k]) {
      if k == |s| {
        assert r[j] in s;
        EdgeInPairs(s, r[j]);
      }
    }
  }

  // ---------------------------------------------------------------------
  // Views and balances

  /** The edges in which `u` is the debtor, in store order (`u.toPay`). */
  function ToPay(s: Store, u: UserId): seq<Edge> {
    if s == [] then []
    else
      var n := |s| - 1;
      assert s == s[..n] + [s[n]];
      ToPay(s[..n], u) + (if s[n].payer == u then [s[n]] else [])
  }

  /** The edges in which `u` is the creditor, in store order (`u.toReturn`). */
  function ToReturn(s: Store, u: UserId): seq<Edge> {
    if s == [] then []
    else
      var n := |s| - 1;
      assert s == s[..n] + [s[n]];
      ToReturn(s[..n], u) + (if s[n].receiver == u then [s[n]] else [])
  }

  /** `u.toPay` holds exactly the stored edges whose debtor is `u`, each as
      often as the store does. */
  lemma {:induction false} ToPayExact(s: Store, u: UserId)
    ensures forall e :: e in ToPay(s, u) <==> e in s && e.payer == u
    ensures multiset(ToPay(s, u)) <= multiset(s)
    ensures forall e: Edge :: e.payer == u ==> multiset(ToPay(s, u))[e] == multiset(s)[e]
  {
    if s != [] {
      var n := |s| - 1;
      assert s == s[..n] + [s[n]];
      ToPayExact(s[..n], u);
    }
  }

  /** `u.toReturn` holds exactly the stored edges whose creditor is `u`. */
  lemma {:induction false} ToReturnExact(s: Store, u: UserId)
    ensures forall e :: e in ToReturn(s, u) <==> e in s && e.receiver == u
  {
    if s != [] {
      var n := |s| - 1;
      assert s == s[..n] + [s[n]];
      ToReturnExact(s[..n], u);
    }
  }

  lemma ViewsAppend(s: Store, e: Edge, u: UserId)
    ensures ToPay(s + [e], u) == ToPay(s, u) + (if e.payer == u then [e] else [])
    ensures ToReturn(s + [e], u) == ToReturn(s, u) + (if e.receiver == u then [e] else [])
  {
    assert (s + [e])[..|s|] == s;
  }

  /** `list.find { it.receiver.id == q }`: the first listed edge whose
      creditor is `q`. */
  function FirstTo(es: seq<Edge>, q: UserId): (r: Option<Edge>)
    ensures r.Some? ==> r.value in es && r.value.receiver == q
    ensures r.None? <==> forall e :: e in es ==> e.receiver != q
  {
    if es == [] then None
    else if es[0].receiver == q then Some(es[0])
    else
      assert forall e :: e in es ==> e == es[0] || e in es[1..];
      FirstTo(es[1..], q)
  }

  /** `list.find { it.payer.id == p }`: the first listed edge whose debtor
      is `p`. */
  function FirstFrom(es: seq<Edge>, p: UserId): (r: Option<Edge>)
    ensures r.Some? ==> r.value in es && r.value.payer == p
    ensures r.None? <==> forall e :: e in es ==> e.payer != p
  {
    if es == [] then None
    else if es[0].payer == p then Some(es[0])
    else
      assert forall e :: e in es ==> e == es[0] || e in es[1..];
      FirstFrom(es[1..], p)
  }

  lemma {:induction false} FirstToConcat(a: seq<Edge>, b: seq<Edge>, q: UserId)
    ensures FirstTo(a + b, q) == if FirstTo(a, q).Some? then FirstTo(a, q) else FirstTo(b, q)
  {
    if a == [] {
      assert a + b == b;
    } else {
      assert (a + b)[1..] == a[1..] + b;
      FirstToConcat(a[1..], b, q);
    }
  }

  lemma {:induction false} FirstFromConcat(a: seq<Edge>, b: seq<Edge>, p: UserId)
    ensures FirstFrom(a + b, p) == if FirstFrom(a, p).Some? then FirstFrom(a, p) else FirstFrom(b, p)
  {
    if a == [] {
      assert a + b == b;
    } else {
      assert (a + b)[1..] == a[1..] + b;
      FirstFromConcat(a[1..], b, p);
    }
  }

  /** Searching a store with one more edge at the end: an earlier match
      wins, otherwise the new edge matches if its pair is the one sought. */
  lemma {:induction false} FindAppend(s: Store, e: Edge, payer: UserId, receiver: UserId)
    ensures Find(s + [e], payer, receiver) ==
      if Find(s, payer, receiver).Some? then Find(s, payer, receiver)
      else if Pair(e) == (payer, receiver) then Some(|s|)
      else None
  {
    if s == [] {
      assert [] + [e] == [e];
    } else {
      assert (s + [e])[1..] == s[1..] + [e];
      FindAppend(s[1..], e, payer, receiver);
    }
  }

  /** Line 82: `from.toPay.find { it.receiver.id == to.id }` lands on the
      edge `Find(s, from, to)` locates, and finds nothing when it does. */
  lemma {:induction false} FindInToPay(s: Store, payer: UserId, receiver: UserId)
    ensures var f := Find(s, payer, receiver);
      FirstTo(ToPay(s, payer), receiver) == if f.Some? then Some(s[f.value]) else None
  {
    if s != [] {
      var n := |s| - 1;
      var e := s[n];
      assert s == s[..n] + [e];
      FindInToPay(s[..n], payer, receiver);
      FindAppend(s[..n], e, payer, receiver);
      FirstToConcat(ToPay(s[..n], payer), if e.payer == payer then [e] else [], receiver);
    }
  }

  /** Line 98: `from.toReturn.find { it.payer.id == to.id }` lands on the
      edge `Find(s, to, from)` locates, and finds nothing when it does. */
  lemma {:induction false} FindInToReturn(s: Store, payer: UserId, receiver: UserId)
    ensures var f := Find(s, payer, receiver);
      FirstFrom(ToReturn(s, receiver), payer) == if f.Some? then Some(s[f.value]) else None
  {
    if s != [] {
      var n := |s| - 1;
      var e := s[n];
      assert s == s[..n] + [e];
      FindInToReturn(s[..n], payer, receiver);
      FindAppend(s[..n], e, payer, receiver);
      FirstFromConcat(ToReturn(s[..n], receiver), if e.receiver == receiver then [e] else [], payer);
    }
  }

  predicate Touches(e: Edge, u: UserId) {
    e.payer == u || e.receiver == u
  }

  /** The edges that do not involve `u` on either side, in store order. */
  function Away(s: Store, u: UserId): seq<Edge> {
    if s == [] then []
    else Away(s[..|s|-1], u) + (if Touches(s[|s|-1], u) then [] else [s[|s|-1]])
  }

  lemma {:induction false} AwayConcat(a: Store, b: Store, u: UserId)
    ensures Away(a + b, u) == Away(a, u) + Away(b, u)
  {
    if b == [] {
      assert a + b == a;
    } else {
      var n := |b| - 1;
      assert (a + b)[..|a + b| - 1] == a + b[..n];
      assert (a + b)[|a + b| - 1] == b[n];
      AwayConcat(a, b[..n], u);
    }
  }

  lemma AwaySingle(e: Edge, u: UserId)
    ensures Away([e], u) == if Touches(e, u) then [] else [e]
  {
    assert [e][..0] == [];
  }

  /** Deleting an edge that involves `u` leaves the rest of the graph as it was. */
  lemma AwayRemoveAt(s: Store, i: nat, u: UserId)
    requires i < |s| && Touches(s[i], u)
    ensures Away(RemoveAt(s, i), u) == Away(s, u)
  {
    var pre, mid, post := s[..i], [s[i]], s[i+1..];
    var head := pre + mid;
    assert RemoveAt(s, i) == pre + post;
    assert s == head + post;
    AwaySingle(s[i], u);
    AwayConcat(pre, mid, u);
    assert Away(head, u) == Away(pre, u);
    AwayConcat(head, post, u);
    AwayConcat(pre, post, u);
  }

  /** Changing the amount of an edge that involves `u` leaves the rest as it was. */
  lemma AwayWithAmount(s: Store, i: nat, v: int, u: UserId)
    requires i < |s| && Touches(s[i], u)
    ensures Away(WithAmount(s, i, v), u) == Away(s, u)
  {
    var r := WithAmount(s, i, v);
    assert s == s[..i] + [s[i]] + s[i+1..];
    assert r == s[..i] + [r[i]] + s[i+1..];
    AwayConcat(s[..i] + [s[i]], s[i+1..], u);
    AwayConcat(s[..i], [s[i]], u);
    AwayConcat(s[..i] + [r[i]], s[i+1..], u);
    AwayConcat(s[..i], [r[i]], u);
    AwaySingle(s[i], u);
    AwaySingle(r[i], u);
  }

  /** Which side of an edge is summed: what is owed to `u`, or what `u` owes. */
  datatype Side = Credit | Debit

  function Share(e: Edge, u: UserId, side: Side): int {
    match side
    case Credit => if e.receiver == u then e.value else 0
    case Debit => if e.payer == u then e.value else 0
  }

  /** Total owed to `u` (Credit) or owed by `u` (Debit). */
  function Total(s: Store, u: UserId, side: Side): int {
    TotalOf(s, u, side, |s|)
  }

  /** The same total over the first `n` edges of the store. */
  function TotalOf(s: Store, u: UserId, side: Side, n: nat): int
    requires n <= |s|
  {
    if n == 0 then 0 else TotalOf(s, u, side, n - 1) + Share(s[n - 1], u, side)
  }

  /** The signed balance of `u`: what others owe `u` minus what `u` owes. */
  function Net(s: Store, u: UserId): int {
    Total(s, u, Credit) - Total(s, u, Debit)
  }

  /** How a payment of `x` from `from` to `to` moves the balance of `u`. */
  function Shift(from: UserId, to: UserId, x: int, u: UserId): int {
    if u == from then x else if u == to then -x else 0
  }

  lemma {:induction false} TotalOfAgree(s: Store, t: Store, u: UserId, side: Side, n: nat)
    requires n <= |s| && n <= |t|
    requires forall k :: 0 <= k < n ==> s[k] == t[k]
    ensures TotalOf(s, u, side, n) == TotalOf(t, u, side, n)
  {
    if n > 0 {
      TotalOfAgree(s, t, u, side, n - 1);
    }
  }

  lemma {:induction false} TotalOfConcat(a: Store, b: Store, u: UserId, side: Side, m: nat)
    requires m <= |b|
    ensures TotalOf(a + b, u, side, |a| + m) == Total(a, u, side) + TotalOf(b, u, side, m)
  {
    if m == 0 {
      TotalOfAgree(a + b, a, u, side, |a|);
    } else {
      TotalOfConcat(a, b, u, side, m - 1);
      assert (a + b)[|a| + m - 1] == b[m - 1];
    }
  }

  lemma TotalConcat(a: Store, b: Store, u: UserId, side: Side)
    ensures Total(a + b, u, side) == Total(a, u, side) + Total(b, u, side)
  {
    TotalOfConcat(a, b, u, side, |b|);
  }

  lemma TotalSingle(e: Edge, u: UserId, side: Side)
    ensures Total([e], u, side) == Share(e, u, side)
  {
    assert TotalOf([e], u, side, 1) == TotalOf([e], u, side, 0) + Share([e][0], u, side);
  }

  lemma TotalRemoveAt(s: Store, i: nat, u: UserId, side: Side)
    requires i < |s|
    ensures Total(RemoveAt(s, i), u, side) == Total(s, u, side) - Share(s[i], u, side)
  {
    assert s == s[..i] + [s[i]] + s[i+1..];
    TotalConcat(s[..i] + [s[i]], s[i+1..], u, side);
    TotalConcat(s[..i], [s[i]], u, side);
    TotalConcat(s[..i], s[i+1..], u, side);
    TotalSingle(s[i], u, side);
  }

  lemma TotalWithAmount(s: Store, i: nat, v: int, u: UserId, side: Side)
    requires i < |s|
    ensures Total(WithAmount(s, i, v), u, side)
         == Total(s, u, side) - Share(s[i], u, side) + Share(s[i].(value := v), u, side)
  {
    var r := WithAmount(s, i, v);
    assert s == s[..i] + [s[i]] + s[i+1..];
    assert r == s[..i] + [r[i]] + s[i+1..];
    TotalConcat(s[..i] + [s[i]], s[i+1..], u, side);
    TotalConcat(s[..i], [s[i]], u, side);
    TotalConcat(s[..i] + [r[i]], s[i+1..], u, side);
    TotalConcat(s[..i], [r[i]], u, side);
    TotalSingle(s[i], u, side);
    TotalSingle(r[i], u, side);
  }

  lemma TotalAppend(s: Store, e: Edge, u: UserId, side: Side)
    ensures Total(s + [e], u, side) == Total(s, u, side) + Share(e, u, side)
  {
    TotalOfAgree(s + [e], s, u, side, |s|);
  }

  /** An edge's amount changed, then a new edge appended. */
  lemma TotalWithAmountAppend(s: Store, i: nat, v: int, n: Edge, u: UserId, side: Side)
    requires i < |s|
    ensures Total(WithAmount(s, i, v) + [n], u, side)
         == Total(s, u, side) - Share(s[i], u, side) + Share(s[i].(value := v), u, side) + Share(n, u, side)
  {
    TotalWithAmount(s, i, v, u, side);
    TotalAppend(WithAmount(s, i, v), n, u, side);
  }

  /** An edge deleted, then a new edge appended. */
  lemma TotalRemoveAtAppend(s: Store, i: nat, n: Edge, u: UserId, side: Side)
    requires i < |s|
    ensures Total(RemoveAt(s, i) + [n], u, side) == Total(s, u, side) - Share(s[i], u, side) + Share(n, u, side)
  {
    TotalRemoveAt(s, i, u, side);
    TotalAppend(RemoveAt(s, i), n, u, side);
  }

  lemma NetRemoveAt(s: Store, i: nat, u: UserId)
    requires i < |s|
    ensures Net(RemoveAt(s, i), u) == Net(s, u) - Share(s[i], u, Credit) + Share(s[i], u, Debit)
  {
    TotalRemoveAt(s, i, u, Credit);
    TotalRemoveAt(s, i, u, Debit);
  }

  lemma NetWithAmount(s: Store, i: nat, v: int, u: UserId)
    requires i < |s|
    ensures Net(WithAmount(s, i, v), u)
         == Net(s, u) - Share(s[i], u, Credit) + Share(s[i], u, Debit)
            + Share(s[i].(value := v), u, Credit) - Share(s[i].(value := v), u, Debit)
  {
    TotalWithAmount(s, i, v, u, Credit);
    TotalWithAmount(s, i, v, u, Debit);
  }

  lemma NetAppend(s: Store, e: Edge, u: UserId)
    ensures Net(s + [e], u) == Net(s, u) + Share(e, u, Credit) - Share(e, u, Debit)
  {
    TotalAppend(s, e, u, Credit);
    TotalAppend(s, e, u, Debit);
  }

  /** Sum of the amounts of a list of edges. */
  function Sum(es: seq<Edge>): int {
    if es == [] then 0 else Sum(es[..|es|-1]) + es[|es|-1].value
  }

  lemma SumAppend(es: seq<Edge>, e: Edge)
    ensures Sum(es + [e]) == Sum(es) + e.value
  {
    assert (es + [e])[..|es|] == es;
  }

  /** What is owed to `u` is the sum over `u.toReturn`. */
  lemma {:induction false} CreditIsToReturnSum(s: Store, u: UserId)
    ensures Total(s, u, Credit) == Sum(ToReturn(s, u))
  {
    if s != [] {
      var n := |s| - 1;
      var e := s[n];
      assert s == s[..n] + [e];
      CreditIsToReturnSum(s[..n], u);
      ViewsAppend(s[..n], e, u);
      TotalAppend(s[..n], e, u, Credit);
      if e.receiver == u {
        SumAppend(ToReturn(s[..n], u), e);
      } else {
        assert ToReturn(s, u) == ToReturn(s[..n], u) + [];
        assert ToReturn(s[..n], u) + [] == ToReturn(s[..n], u);
      }
    }
  }

  /** What `u` owes is the sum over `u.toPay`. */
  lemma {:induction false} DebitIsToPaySum(s: Store, u: UserId)
    ensures Total(s, u, Debit) == Sum(ToPay(s, u))
  {
    if s != [] {
      var n := |s| - 1;
      var e := s[n];
      assert s == s[..n] + [e];
      DebitIsToPaySum(s[..n], u);
      ViewsAppend(s[..n], e, u);
      TotalAppend(s[..n], e, u, Debit);
      if e.payer == u {
        SumAppend(ToPay(s[..n], u), e);
      } else {
        assert ToPay(s, u) == ToPay(s[..n], u) + [];
        assert ToPay(s[..n], u) + [] == ToPay(s[..n], u);
      }
    }
  }
}
