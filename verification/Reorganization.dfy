/** One pass of _reorganize over one list (elements/transaction-pool/src/transaction_pool.ts:375-449), without interruption. */
module Reorganization {
  import opened Wrappers
  import opened NonceList
  import opened PoolModel

  /** The transactions whose ids are among `ids`. */
  function WithIds(txs: seq<Tx>, ids: seq<bytes>): seq<Tx> {
    if txs == [] then []
    else if txs[0].id in ids then [txs[0]] + WithIds(txs[1..], ids)
    else WithIds(txs[1..], ids)
  }

  lemma {:induction false} WithIdsPrefix(txs: seq<Tx>, ids: seq<bytes>, m: nat)
    requires m <= |txs| && forall i | 0 <= i < |txs| :: txs[i].id in ids <==> i < m
    ensures WithIds(txs, ids) == txs[..m]
  {
    if txs != [] {
      var k: nat := if m == 0 then 0 else m - 1;
      assert txs[0].id in ids <==> 0 < m;
      assert forall i | 0 <= i < |txs| - 1 :: txs[1..][i] == txs[i + 1];
      WithIdsPrefix(txs[1..], ids, k);
      assert m > 0 ==> txs[..m] == [txs[0]] + txs[1..][..k];
    }
  }

  /** The transactions from a nonce on. */
  function FromNonce(txs: seq<Tx>, nonce: nat): seq<Tx> {
    if txs == [] then []
    else if txs[0].nonce >= nonce then [txs[0]] + FromNonce(txs[1..], nonce)
    else FromNonce(txs[1..], nonce)
  }

  lemma {:induction false} FromNonceSuffix(txs: seq<Tx>, nonce: nat, m: nat)
    requires m <= |txs| && forall i | 0 <= i < |txs| :: txs[i].nonce >= nonce <==> i >= m
    ensures FromNonce(txs, nonce) == txs[m..]
  {
    if txs != [] {
      FromNonceSuffix(txs[1..], nonce, if m == 0 then 0 else m - 1);
    }
  }

  /** How many transactions from the front verify before the loop breaks off. */
  function Successes(txs: seq<Tx>, verify: Tx -> TransactionStatus, i: nat): (k: nat)
    requires i <= |txs|
    ensures i <= k <= |txs|
    ensures forall j | i <= j < k :: verify(txs[j]) != Invalid
    decreases |txs| - i
  {
    if i == |txs| then i
    else
      match verify(txs[i])
      case Invalid => i
      case Unprocessable =>
        if i == 0 || txs[i - 1].nonce + 1 != txs[i].nonce then i else Successes(txs, verify, i + 1)
      case Processable => Successes(txs, verify, i + 1)
  }

  /** The verifier lets the pass go on: processable, or unprocessable but next in line behind one that has passed. */
  predicate Passes(txs: seq<Tx>, verify: Tx -> TransactionStatus, j: nat)
    requires j < |txs|
  {
    verify(txs[j]) == Processable || (verify(txs[j]) == Unprocessable && 0 < j && txs[j].nonce == txs[j - 1].nonce + 1)
  }

  /** The loop goes exactly up to the first transaction that does not pass. */
  lemma {:induction false} SuccessesIff(txs: seq<Tx>, verify: Tx -> TransactionStatus, i: nat, k: nat)
    requires i <= k <= |txs|
    ensures Successes(txs, verify, i) == k <==>
              (forall j | i <= j < k :: Passes(txs, verify, j)) && (k < |txs| ==> !Passes(txs, verify, k))
    decreases |txs| - i
  {
    if i < |txs| && Passes(txs, verify, i) {
      if i < k {
        SuccessesIff(txs, verify, i + 1, k);
      }
    } else if i < |txs| {
      assert Successes(txs, verify, i) == i;
      assert i < k ==> !Passes(txs, verify, i);
    }
  }

  /** On nonces that are consecutive from the q-th on the loop breaks off there at an invalid one, or at once. */
  lemma {:induction false} BreaksAtInvalid(txs: seq<Tx>, verify: Tx -> TransactionStatus, q: nat, i: nat)
    requires i <= |txs| && forall j | 0 < j < |txs| && q <= j :: txs[j].nonce == txs[j - 1].nonce + 1
    ensures var k := Successes(txs, verify, i);
            k == |txs| || verify(txs[k]) == Invalid || (verify(txs[k]) == Unprocessable && (k == 0 || k < q))
    decreases |txs| - i
  {
    if i < |txs| {
      BreaksAtInvalid(txs, verify, q, i + 1);
    }
  }

  ghost predicate EachGenuine(txs: seq<Tx>, content: bytes -> Tx) {
    forall i | 0 <= i < |txs| :: Genuine(txs[i], content)
  }

  lemma EachGenuineRest(txs: seq<Tx>, content: bytes -> Tx)
    requires EachGenuine(txs, content) && txs != []
    ensures Genuine(txs[0], content) && EachGenuine(txs[1..], content)
  {
    hide Genuine;
  }

  /** Removes one transaction after the other. */
  ghost function RemoveEach(s: PoolState, c: PoolConfig, content: bytes -> Tx, txs: seq<Tx>): (t: PoolState)
    requires Inv(s, c, content) && EachGenuine(txs, content)
    ensures Inv(t, c, content)
    decreases |txs|
  {
    hide *;
    if txs == [] then s
    else
      EachGenuineRest(txs, content);
      RemoveKeeps(s, c, content, txs[0]);
      RemoveEach(RemoveTx(s, txs[0]), c, content, txs[1..])
  }

  lemma ListedGenuine(s: PoolState, c: PoolConfig, content: bytes -> Tx, a: bytes)
    requires Inv(s, c, content) && a in s.lists
    ensures Valid(s.lists[a])
    ensures forall n | n in s.lists[a].txs ::
              var tx := s.lists[a].txs[n];
              Genuine(tx, content) && tx.nonce == n && tx.sender == a && tx.id in s.all && s.all[tx.id] == tx
  {
    assert ListKept(s, c, a);
    hide Valid;
    forall n | n in s.lists[a].txs
      ensures Genuine(s.lists[a].txs[n], content) && Filed(s, a, n)
    {
      assert Filed(s, a, n);
    }
  }

  /** The nonces a pass looks at. */
  ghost function Considered(l: ListState): (r: seq<nat>)
    requires Valid(l)
    ensures forall n | n in r :: n in l.txs
  {
    l.processable + PromotableNonces(l)
  }

  function Ids(txs: seq<Tx>): (r: seq<bytes>)
    ensures |r| == |txs| && forall i | 0 <= i < |txs| :: r[i] == txs[i].id
  {
    seq(|txs|, i requires 0 <= i < |txs| => txs[i].id)
  }

  lemma {:induction false} FromNonceGenuine(txs: seq<Tx>, nonce: nat, content: bytes -> Tx)
    requires EachGenuine(txs, content)
    ensures EachGenuine(FromNonce(txs, nonce), content)
  {
    if txs != [] {
      FromNonceGenuine(txs[1..], nonce, content);
    }
  }

  /** The promotable transactions among the first k considered ones. */
  ghost function Promoting(l: ListState, k: nat): seq<Tx>
    requires Valid(l) && k <= |Considered(l)|
  {
    WithIds(TxsOf(l, PromotableNonces(l)), Ids(TxsOf(l, Considered(l))[..k]))
  }

  ghost function Reorganize(
    s: PoolState, c: PoolConfig, content: bytes -> Tx, a: bytes, verify: Tx -> TransactionStatus): (t: PoolState)
    requires Inv(s, c, content) && a in s.lists
    ensures Inv(t, c, content)
  {
    hide Inv, Genuine, Valid, Considered, PromotableNonces;
    ListedGenuine(s, c, content, a);
    var l := s.lists[a];
    if PromotableNonces(l) == [] then s
    else
      var considered := TxsOf(l, Considered(l));
      var k := Successes(considered, verify, 0);
      var promoting := Promoting(l, k);
      PromoteKeeps(s, c, content, a, promoting);
      if k < |considered| && verify(considered[k]) == Invalid then
        FromNonceGenuine(considered, considered[k].nonce, content);
        RemoveEach(PromoteIn(s, a, promoting), c, content, FromNonce(considered, considered[k].nonce))
      else PromoteIn(s, a, promoting)
  }

  /* ---- What a pass does to a list ---- */

  /** The nonces a pass looks at ascend, whatever is processable. */
  lemma ConsideredAscends(l: ListState)
    requires Valid(l)
    ensures Ascending(Considered(l))
  {
    if PromotableNonces(l) == [] {
      assert Considered(l) == l.processable;
    } else {
      PromotableMeansPrefix(l);
    }
  }

  lemma {:induction false} BelowConcat(xs: seq<nat>, ys: seq<nat>, bound: int)
    ensures Below(xs + ys, bound) == Below(xs, bound) + Below(ys, bound)
  {
    if xs == [] {
      assert xs + ys == ys;
    } else {
      assert (xs + ys)[1..] == xs[1..] + ys;
      BelowConcat(xs[1..], ys, bound);
    }
  }

  lemma BelowAt(ns: seq<nat>, k: nat, m: nat)
    requires Ascending(ns) && k < |ns| && k <= m <= |ns|
    ensures Below(ns[..m], ns[k]) == ns[..k]
  {
    hide Below;
    assert ns[..m] == ns[..k] + ns[k..m];
    BelowConcat(ns[..k], ns[k..m], ns[k]);
    AllBelow(ns[..k], ns[k]);
    assert forall i | 0 <= i < |ns[k..m]| :: ns[k..m][i] == ns[k + i] >= ns[k];
    NoneBelow(ns[k..m], ns[k]);
  }

  /** Ids tell the considered transactions apart. */
  lemma DistinctIds(s: PoolState, c: PoolConfig, content: bytes -> Tx, a: bytes, ns: seq<nat>, i: nat, j: nat)
    requires Inv(s, c, content) && a in s.lists && Ascending(ns) && i < |ns| && j < |ns| && i != j
    requires forall n | n in ns :: n in s.lists[a].txs
    ensures s.lists[a].txs[ns[i]].id != s.lists[a].txs[ns[j]].id
  {
    hide Inv;
    ListedGenuine(s, c, content, a);
    assert ns[i] in ns && ns[j] in ns;
    assert ns[i] != ns[j];
  }

  /** Of the promotable transactions the first k considered ones hold a prefix. */
  lemma VerifiedIds(s: PoolState, c: PoolConfig, content: bytes -> Tx, a: bytes, ns: seq<nat>, q: nat, k: nat, i: nat)
    requires Inv(s, c, content) && a in s.lists && Ascending(ns) && k <= |ns| && q + i < |ns|
    requires forall n | n in ns :: n in s.lists[a].txs
    ensures s.lists[a].txs[ns[q + i]].id in Ids(TxsOf(s.lists[a], ns)[..k]) <==> q + i < k
  {
    hide Inv, Ascending;
    var ids := Ids(TxsOf(s.lists[a], ns)[..k]);
    if q + i < k {
      assert ids[q + i] == s.lists[a].txs[ns[q + i]].id;
    } else {
      forall j | 0 <= j < k
        ensures ids[j] != s.lists[a].txs[ns[q + i]].id
      {
        DistinctIds(s, c, content, a, ns, q + i, j);
      }
    }
  }

  /** What a pass promotes is a prefix of the promotable transactions: those that verified. */
  lemma PromotesPrefix(s: PoolState, c: PoolConfig, content: bytes -> Tx, a: bytes, k: nat)
    requires Inv(s, c, content) && a in s.lists && Valid(s.lists[a]) && k <= |Considered(s.lists[a])|
    ensures var l := s.lists[a];
            var m := if k <= |l.processable| then 0 else k - |l.processable|;
            && m <= |PromotableNonces(l)|
            && Promoting(l, k) == TxsOf(l, PromotableNonces(l))[..m]
  {
    hide Inv, Valid, PromotableNonces, Ascending, WithIds, Ids;
    var l := s.lists[a];
    ConsideredAscends(l);
    var ns, q := Considered(l), |l.processable|;
    var promotable := TxsOf(l, PromotableNonces(l));
    var ids := Ids(TxsOf(l, ns)[..k]);
    var m := if k <= q then 0 else k - q;
    forall i | 0 <= i < |promotable|
      ensures promotable[i].id in ids <==> i < m
    {
      assert ns[q + i] == PromotableNonces(l)[i];
      VerifiedIds(s, c, content, a, ns, q, k, i);
    }
    WithIdsPrefix(promotable, ids, m);
  }

  /** Removing ascending nonces of one account, one after the other. */
  lemma {:induction false} RemoveEachRun(s: PoolState, c: PoolConfig, content: bytes -> Tx, a: bytes, ns: seq<nat>)
    requires Inv(s, c, content) && a in s.lists && ns != [] && Ascending(ns) && forall n | n in ns :: n in s.lists[a].txs
    requires EachGenuine(TxsOf(s.lists[a], ns), content)
    ensures var l := s.lists[a];
            var t := RemoveEach(s, c, content, TxsOf(l, ns));
            t.all == s.all - IdsOf(l, ns) && t.lists == PutList(s.lists, a, Trimmed(l, ns))
    decreases |ns|
  {
    hide Inv, Genuine, Valid, Below, Ascending, RemoveTx, PutList, Remove, Trimmed;
    var l := s.lists[a];
    ListedGenuine(s, c, content, a);
    HeadIn(ns);
    var tx, txs := l.txs[ns[0]], TxsOf(l, ns);
    RemoveKeeps(s, c, content, tx);
    RemovedOne(s, tx);
    if |ns| == 1 {
      assert txs == [tx];
      assert txs[1..] == [];
      TrimmedOne(l, ns);
    } else {
      SecondStays(l, ns);
      var s1, l1 := RemoveTx(s, tx), Remove(l, ns[0]);
      PutAt(s.lists, a, l1);
      assert TxsOf(l1, ns[1..]) == txs[1..];
      RemoveEachRun(s1, c, content, a, ns[1..]);
      TrimmedTail(l, ns);
      MinusTwice(s.all, tx.id, IdsOf(l, ns[1..]));
      PutTwice(s.lists, a, l1, Trimmed(l, ns));
    }
  }

  /** A list without `ns`. */
  ghost function Trimmed(l: ListState, ns: seq<nat>): ListState
    requires ns != []
  {
    ListState(l.txs - (set n | n in ns), Below(l.processable, ns[0]))
  }

  ghost function IdsOf(l: ListState, ns: seq<nat>): set<bytes>
    requires forall n | n in ns :: n in l.txs
  {
    set n | n in ns :: l.txs[n].id
  }

  lemma MinusTwice<K, V>(m: map<K, V>, k: K, ks: set<K>)
    ensures (m - {k}) - ks == m - ({k} + ks)
  {
  }

  lemma PutAt(lists: map<bytes, ListState>, a: bytes, l: ListState)
    requires |l.txs| > 0
    ensures a in PutList(lists, a, l) && PutList(lists, a, l)[a] == l
  {
  }

  lemma PutTwice(lists: map<bytes, ListState>, a: bytes, l: ListState, m: ListState)
    requires |l.txs| > 0
    ensures PutList(PutList(lists, a, l), a, m) == PutList(lists, a, m)
  {
  }

  lemma TrimmedOne(l: ListState, ns: seq<nat>)
    requires |ns| == 1 && ns[0] in l.txs
    ensures Trimmed(l, ns) == Remove(l, ns[0]) && IdsOf(l, ns) == {l.txs[ns[0]].id}
  {
    hide Below;
    assert ns == [ns[0]];
    assert (set n | n in ns) == {ns[0]};
  }

  lemma TrimmedTail(l: ListState, ns: seq<nat>)
    requires |ns| > 1 && ns[0] < ns[1] && forall n | n in ns :: n in l.txs
    requires forall n | n in ns[1..] :: n in Remove(l, ns[0]).txs && Remove(l, ns[0]).txs[n] == l.txs[n]
    ensures Trimmed(Remove(l, ns[0]), ns[1..]) == Trimmed(l, ns)
    ensures IdsOf(l, ns) == {l.txs[ns[0]].id} + IdsOf(l, ns[1..]) && IdsOf(Remove(l, ns[0]), ns[1..]) == IdsOf(l, ns[1..])
  {
    HeadIn(ns);
    hide Below;
    assert forall n | n in ns[1..] :: n in ns;
    SetsOfTail(l, ns);
    MinusTwice(l.txs, ns[0], set n | n in ns[1..]);
    BelowTwice(l.processable, ns[0], ns[1]);
  }

  lemma RemovedOne(s: PoolState, tx: Tx)
    requires tx.id in s.all && s.all[tx.id] == tx && tx.sender in s.lists && tx.nonce in s.lists[tx.sender].txs
    ensures var l := s.lists[tx.sender];
            var t := RemoveTx(s, tx);
            && t.all == s.all - {tx.id}
            && t.lists == PutList(s.lists, tx.sender, Remove(l, tx.nonce))
  {
    hide Below, QueueOf;
  }

  lemma {:induction false} BelowTwice(xs: seq<nat>, low: int, high: int)
    requires low <= high
    ensures Below(Below(xs, low), high) == Below(xs, low)
  {
    if xs != [] {
      BelowTwice(xs[1..], low, high);
    }
  }

  lemma SecondStays(l: ListState, ns: seq<nat>)
    requires Ascending(ns) && |ns| > 1 && forall n | n in ns :: n in l.txs
    ensures |Remove(l, ns[0]).txs| > 0 && Ascending(ns[1..]) && ns[0] < ns[1]
    ensures forall n | n in ns[1..] :: n in Remove(l, ns[0]).txs && Remove(l, ns[0]).txs[n] == l.txs[n]
  {
    HeadIn(ns);
    AscendingTail(ns);
    hide Ascending, Below;
    assert ns[1..][0] == ns[1];
    HeadIn(ns[1..]);
    assert ns == [ns[0]] + ns[1..];
    assert ns[1] in Remove(l, ns[0]).txs;
  }

  lemma SetsOfTail(l: ListState, ns: seq<nat>)
    requires ns != [] && forall n | n in ns :: n in l.txs
    ensures (set n | n in ns) == {ns[0]} + (set n | n in ns[1..])
    ensures (set n | n in ns :: l.txs[n].id) == {l.txs[ns[0]].id} + (set n | n in ns[1..] :: l.txs[n].id)
  {
    assert ns == [ns[0]] + ns[1..];
  }

  /** The state after the promotions of a pass: the considered nonces that verified are processable, and no fewer than before. */
  lemma PromotedState(s: PoolState, c: PoolConfig, content: bytes -> Tx, a: bytes, k: nat)
    requires Inv(s, c, content) && a in s.lists && Valid(s.lists[a]) && k <= |Considered(s.lists[a])|
    ensures var l := s.lists[a];
            var ns := Considered(l);
            var q := if k <= |l.processable| then |l.processable| else k;
            && q <= |ns|
            && PromoteIn(s, a, Promoting(l, k)) == s.(lists := s.lists[a := l.(processable := ns[..q])])
  {
    hide Inv, Valid, PromotableNonces, Promote, Promoting, Ascending;
    var l := s.lists[a];
    PromotesPrefix(s, c, content, a, k);
    ConsideredAscends(l);
    var ps := PromotableNonces(l);
    var m := if k <= |l.processable| then 0 else k - |l.processable|;
    var q := |l.processable| + m;
    assert Considered(l)[..q] == l.processable + ps[..m];
    PrefixAscending(Considered(l), Considered(l)[..q]);
    assert forall n | n in ps[..m] :: n in ps;
    assert TxsOf(l, ps)[..m] == TxsOf(l, ps[..m]);
    PromotedValid(l, ps[..m]);
  }

  /** The considered transactions from the k-th on are those with its nonce or a higher one. */
  lemma FromKth(l: ListState, ns: seq<nat>, k: nat)
    requires Valid(l) && Ascending(ns) && k < |ns| && forall n | n in ns :: n in l.txs
    ensures forall n | n in ns[k..] :: n in l.txs
    ensures FromNonce(TxsOf(l, ns), TxsOf(l, ns)[k].nonce) == TxsOf(l, ns[k..])
  {
    var txs := TxsOf(l, ns);
    assert forall n | n in ns[k..] :: n in ns;
    forall i | 0 <= i < |txs|
      ensures txs[i].nonce >= txs[k].nonce <==> i >= k
    {
      assert txs[i].nonce == ns[i] && txs[k].nonce == ns[k] && (i < k ==> ns[i] < ns[k]) && (k < i ==> ns[k] < ns[i]);
    }
    FromNonceSuffix(txs, txs[k].nonce, k);
    assert txs[k..] == TxsOf(l, ns[k..]);
  }

  /**
   What a pass does to a list, ordered or not. If nothing is promotable, nothing happens. If the k-th considered
   transaction is invalid, what is processable afterwards is exactly the considered transactions before it, and it and
   all considered ones after it have left the pool. If all verified they are all processable. Otherwise the loop broke
   off before anything promotable, and nothing happens. Nothing else changes.
   */
  lemma ReorganizeEffect(s: PoolState, c: PoolConfig, content: bytes -> Tx, a: bytes, verify: Tx -> TransactionStatus)
    requires Inv(s, c, content) && a in s.lists
    ensures Valid(s.lists[a])
    ensures var l := s.lists[a];
            var ns, t := Considered(l), Reorganize(s, c, content, a, verify);
            var k := Successes(TxsOf(l, ns), verify, 0);
            if PromotableNonces(l) == [] then t == s
            else if k < |ns| && verify(TxsOf(l, ns)[k]) == Invalid then
              && (forall n | n in ns[k..] :: n in l.txs)
              && t.all == s.all - IdsOf(l, ns[k..])
              && t.lists == PutList(s.lists, a, ListState(l.txs - (set n | n in ns[k..]), ns[..k]))
            else if k == |ns| then t == s.(lists := s.lists[a := l.(processable := ns)])
            else t == s && k <= |l.processable|
  {
    hide Inv, Valid, PromotableNonces, PromoteIn, RemoveEach, Below, FromNonce, Promoting, Successes, Ascending, PutList, IdsOf;
    var l := s.lists[a];
    ListedGenuine(s, c, content, a);
    if PromotableNonces(l) != [] {
      hide Reorganize;
      ConsideredAscends(l);
      var ns := Considered(l);
      var txs := TxsOf(l, ns);
      var k := Successes(txs, verify, 0);
      ConsideredBreaks(l, verify);
      PromotedState(s, c, content, a, k);
      var promoting := Promoting(l, k);
      PromoteKeeps(s, c, content, a, promoting);
      ReorganizeSteps(s, c, content, a, verify);
      if k < |ns| && verify(txs[k]) == Invalid {
        FromKth(l, ns, k);
        RemovedFromKth(s, PromoteIn(s, a, promoting), c, content, a, ns, k, if k <= |l.processable| then |l.processable| else k);
      } else {
        assert ns[..|l.processable|] == l.processable && ns[..|ns|] == ns;
        assert s == s.(lists := s.lists[a := l]);
      }
    }
  }

  /**
   When everything considered becomes processable, when nothing changes and when transactions go: in terms of the answers of
   the verifier alone.
   */
  lemma PassOutcome(s: PoolState, c: PoolConfig, content: bytes -> Tx, a: bytes, verify: Tx -> TransactionStatus, k: nat)
    requires Inv(s, c, content) && a in s.lists && Valid(s.lists[a]) && PromotableNonces(s.lists[a]) != []
    requires var txs := TxsOf(s.lists[a], Considered(s.lists[a]));
             && k <= |txs| && (forall j | 0 <= j < k :: Passes(txs, verify, j)) && (k < |txs| ==> !Passes(txs, verify, k))
    ensures var l := s.lists[a];
            var ns, t := Considered(l), Reorganize(s, c, content, a, verify);
            if k == |ns| then t == s.(lists := s.lists[a := l.(processable := ns)])
            else if verify(TxsOf(l, ns)[k]) == Invalid then
              && (forall n | n in ns[k..] :: n in l.txs)
              && t.all == s.all - (set n | n in ns[k..] :: l.txs[n].id)
              && t.lists == PutList(s.lists, a, ListState(l.txs - (set n | n in ns[k..]), ns[..k]))
            else t == s
  {
    hide Inv, Valid, PromotableNonces, Considered, Reorganize, Successes, PutList, Passes;
    ReorganizeEffect(s, c, content, a, verify);
    SuccessesIff(TxsOf(s.lists[a], Considered(s.lists[a])), verify, 0, k);
  }

  /** A pass never mends an account whose processable nonces are not its lowest, nor touches it at all. */
  lemma UnorderedIsUntouched(s: PoolState, c: PoolConfig, content: bytes -> Tx, a: bytes, verify: Tx -> TransactionStatus)
    requires Inv(s, c, content) && a in s.lists && !(s.lists[a].processable <= Nonces(s.lists[a]))
    ensures Reorganize(s, c, content, a, verify) == s
  {
    hide Inv, Nonces, Valid, Reorganize, PromotableNonces, Considered, Successes;
    ListedGenuine(s, c, content, a);
    if PromotableNonces(s.lists[a]) != [] {
      PromotableMeansPrefix(s.lists[a]);
      assert false;
    }
    ReorganizeEffect(s, c, content, a, verify);
  }

  /** The steps of a pass: promote what verified, then remove from the invalid transaction on. */
  lemma ReorganizeSteps(s: PoolState, c: PoolConfig, content: bytes -> Tx, a: bytes, verify: Tx -> TransactionStatus)
    requires Inv(s, c, content) && a in s.lists && Valid(s.lists[a]) && PromotableNonces(s.lists[a]) != []
    ensures var l := s.lists[a];
            var txs := TxsOf(l, Considered(l));
            var k := Successes(txs, verify, 0);
            var promoted := PromoteIn(s, a, Promoting(l, k));
            Inv(promoted, c, content) &&
            if k < |txs| && verify(txs[k]) == Invalid then
              && EachGenuine(FromNonce(txs, txs[k].nonce), content)
              && Reorganize(s, c, content, a, verify) == RemoveEach(promoted, c, content, FromNonce(txs, txs[k].nonce))
            else Reorganize(s, c, content, a, verify) == promoted
  {
    hide Inv, Genuine, Valid, Considered, PromotableNonces, PromoteIn, RemoveEach, Promoting, Successes;
    ListedGenuine(s, c, content, a);
    var l := s.lists[a];
    var txs := TxsOf(l, Considered(l));
    var k := Successes(txs, verify, 0);
    PromoteKeeps(s, c, content, a, Promoting(l, k));
    if k < |txs| {
      FromNonceGenuine(txs, txs[k].nonce, content);
    }
  }

  lemma ListedUnder(l: ListState, ns: seq<nat>)
    requires Valid(l) && forall n | n in ns :: n in l.txs
    ensures forall i | 0 <= i < |ns| :: TxsOf(l, ns)[i].nonce == ns[i]
  {
  }

  /** Promotable nonces continue the processable ones, so the loop breaks off among them only at an invalid one. */
  lemma ConsideredBreaks(l: ListState, verify: Tx -> TransactionStatus)
    requires Valid(l) && PromotableNonces(l) != []
    ensures var txs := TxsOf(l, Considered(l));
            var k := Successes(txs, verify, 0);
            k == |txs| || verify(txs[k]) == Invalid || (verify(txs[k]) == Unprocessable && (k == 0 || k < |l.processable|))
  {
    PromotableMeansPrefix(l);
    hide Valid, PromotableNonces, Nonces, Ascending, Successes;
    var txs := TxsOf(l, Considered(l));
    ListedUnder(l, Considered(l));
    BreaksAtInvalid(txs, verify, |l.processable|, 0);
  }

  /** On an ordered list it breaks off at an invalid one, or at once. */
  lemma OrderedBreaks(l: ListState, verify: Tx -> TransactionStatus)
    requires Lowest(l)
    ensures Valid(l)
    ensures var txs := TxsOf(l, Considered(l));
            var k := Successes(txs, verify, 0);
            k == |txs| || verify(txs[k]) == Invalid || (k == 0 && verify(txs[0]) == Unprocessable)
  {
    LowestValid(l);
    hide Valid, PromotableNonces, Nonces, Ascending, Successes, Lowest;
    var p := PromotableNonces(l);
    assert p[..|p|] == p;
    PromotableExtends(l, |p|);
    var txs := TxsOf(l, Considered(l));
    ListedUnder(l, Considered(l));
    BreaksAtInvalid(txs, verify, 0, 0);
  }

  lemma RemovedFromKth(
    s: PoolState, s1: PoolState, c: PoolConfig, content: bytes -> Tx, a: bytes, ns: seq<nat>, k: nat, q: nat)
    requires Inv(s1, c, content) && a in s.lists && Valid(s.lists[a])
    requires Ascending(ns) && k < |ns| && forall n | n in ns :: n in s.lists[a].txs
    requires forall n | n in ns[k..] :: n in s.lists[a].txs
    requires k <= q <= |ns| && s1 == s.(lists := s.lists[a := s.lists[a].(processable := ns[..q])])
    requires EachGenuine(TxsOf(s.lists[a], ns[k..]), content)
    ensures var l := s.lists[a];
            var t := RemoveEach(s1, c, content, TxsOf(l, ns[k..]));
            && t.all == s.all - IdsOf(l, ns[k..])
            && t.lists == PutList(s.lists, a, ListState(l.txs - (set n | n in ns[k..]), ns[..k]))
  {
    hide Inv, Valid, RemoveEach, Below, Genuine, PutList, Trimmed, Ascending, IdsOf;
    var l, l1 := s.lists[a], s1.lists[a];
    var rest := ns[k..];
    assert TxsOf(l, rest) == TxsOf(l1, rest);
    assert Ascending(rest) by { DropAscends(ns, k); }
    RemoveEachRun(s1, c, content, a, rest);
    BelowAt(ns, k, q);
    TrimmedKth(l1, ns, k);
    SameIds(l, l1, rest);
    PutOver(s.lists, a, l1, Trimmed(l1, rest));
  }

  lemma SameIds(l: ListState, l1: ListState, ns: seq<nat>)
    requires l.txs == l1.txs && forall n | n in ns :: n in l.txs
    ensures IdsOf(l, ns) == IdsOf(l1, ns)
  {
  }

  lemma PutOver(lists: map<bytes, ListState>, a: bytes, l: ListState, m: ListState)
    ensures PutList(lists[a := l], a, m) == PutList(lists, a, m)
  {
  }

  lemma TrimmedKth(l: ListState, ns: seq<nat>, k: nat)
    requires k < |ns|
    ensures Trimmed(l, ns[k..]) == ListState(l.txs - (set n | n in ns[k..]), Below(l.processable, ns[k]))
  {
    hide Below;
  }

  /** The pass stops at the first transaction the verifier reports invalid, unless it stops at once. */
  lemma {:induction false} FirstInvalidStops(txs: seq<Tx>, verify: Tx -> TransactionStatus, i: nat, k: nat)
    requires i <= k < |txs| && forall j | 0 < j < |txs| :: txs[j].nonce == txs[j - 1].nonce + 1
    requires verify(txs[k]) == Invalid && forall j | 0 <= j < k :: verify(txs[j]) != Invalid
    requires k > 0 ==> verify(txs[0]) != Unprocessable
    ensures Successes(txs, verify, i) == k
    decreases k - i
  {
    if i < k {
      FirstInvalidStops(txs, verify, i + 1, k);
    }
  }

  lemma {:induction false} RemoveEachKeepsAllLowest(s: PoolState, c: PoolConfig, content: bytes -> Tx, txs: seq<Tx>)
    requires Inv(s, c, content) && EachGenuine(txs, content) && AllLowest(s)
    ensures AllLowest(RemoveEach(s, c, content, txs))
    decreases |txs|
  {
    hide Inv, Genuine, AllLowest, RemoveTx;
    if txs != [] {
      RemoveKeeps(s, c, content, txs[0]);
      RemoveKeepsAllLowest(s, txs[0]);
      RemoveEachKeepsAllLowest(RemoveTx(s, txs[0]), c, content, txs[1..]);
    }
  }

  lemma ConsideredLowest(l: ListState, q: nat)
    requires Lowest(l) && Valid(l) && |l.processable| <= q <= |Considered(l)|
    ensures Lowest(l.(processable := Considered(l)[..q]))
  {
    hide Valid, PromotableNonces, Lowest, Promote;
    var m: nat := q - |l.processable|;
    PromoteKeepsLowest(l, m);
    assert Considered(l)[..q] == l.processable + PromotableNonces(l)[..m];
  }

  /** A pass keeps every list ordered. */
  lemma ReorganizeKeepsAllLowest(s: PoolState, c: PoolConfig, content: bytes -> Tx, a: bytes, verify: Tx -> TransactionStatus)
    requires Inv(s, c, content) && a in s.lists && AllLowest(s)
    ensures AllLowest(Reorganize(s, c, content, a, verify))
  {
    hide Inv, Lowest, Valid, PromotableNonces, PromoteIn, RemoveEach, FromNonce, Promoting, Successes;
    ListedGenuine(s, c, content, a);
    var l := s.lists[a];
    var txs := TxsOf(l, Considered(l));
    var k := Successes(txs, verify, 0);
    PromotedState(s, c, content, a, k);
    var promoting := Promoting(l, k);
    PromoteKeeps(s, c, content, a, promoting);
    ConsideredLowest(l, if k <= |l.processable| then |l.processable| else k);
    assert AllLowest(PromoteIn(s, a, promoting));
    if k < |txs| && verify(txs[k]) == Invalid {
      FromNonceGenuine(txs, txs[k].nonce, content);
      RemoveEachKeepsAllLowest(PromoteIn(s, a, promoting), c, content, FromNonce(txs, txs[k].nonce));
    }
  }
}
