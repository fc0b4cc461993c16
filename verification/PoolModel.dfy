/**
 The transaction pool (elements/transaction-pool/src/transaction_pool.ts) as a value, its operations, and what they
 keep. `add` awaits the verifier between its check and its commit, so the two are separate operations.
 */
module PoolModel {
  import opened Wrappers
  import opened MinHeap
  import opened NonceList

  datatype PoolConfig = PoolConfig(
    maxTransactions: nat,
    maxTransactionsPerAccount: nat,
    minEntranceFeePriority: nat,
    minReplacementFeeDifference: nat,
    maxPayloadLength: nat)

  datatype TransactionStatus = Invalid | Unprocessable | Processable

  /** The id map, the per-account lists and the fee-priority queue, which may hold ids that have left the pool. */
  datatype PoolState = PoolState(all: map<bytes, Tx>, lists: map<bytes, ListState>, queue: multiset<Node<bytes>>)

  const EMPTY_POOL: PoolState := PoolState(map[], map[], multiset{})

  function ListConfig(c: PoolConfig): Config {
    Config(c.maxTransactionsPerAccount, c.minReplacementFeeDifference)
  }

  /** _calculateFeePriority */
  function Priority(tx: Tx): nat {
    tx.fee / tx.size
  }

  function Entry(tx: Tx): Node<bytes> {
    Node(Priority(tx), tx.id)
  }

  /* ---- What every operation keeps ---- */

  /** Each pooled transaction sits in its sender's list under its own nonce. */
  ghost predicate Indexed(s: PoolState) {
    forall id | id in s.all ::
      var tx := s.all[id];
      tx.id == id && tx.sender in s.lists && tx.nonce in s.lists[tx.sender].txs && s.lists[tx.sender].txs[tx.nonce] == tx
  }

  ghost predicate Filed(s: PoolState, a: bytes, n: nat)
    requires a in s.lists && n in s.lists[a].txs
  {
    var tx := s.lists[a].txs[n];
    tx.sender == a && tx.nonce == n && tx.id in s.all && s.all[tx.id] == tx
  }

  /** Everything in the lists is pooled, and no list is empty or over its limit. */
  ghost predicate ListKept(s: PoolState, c: PoolConfig, a: bytes)
    requires a in s.lists
  {
    && Valid(s.lists[a]) && 0 < |s.lists[a].txs| <= c.maxTransactionsPerAccount
    && forall n | n in s.lists[a].txs :: Filed(s, a, n)
  }

  ghost predicate Consistent(s: PoolState, c: PoolConfig) {
    Indexed(s) && forall a | a in s.lists :: ListKept(s, c, a)
  }

  /** Every pooled id is queued with its true priority. */
  ghost predicate QueueCovers(s: PoolState) {
    forall id | id in s.all :: Entry(s.all[id]) in s.queue
  }

  /** The id of a transaction is the hash of its bytes: `content` gives the one transaction behind an id. */
  ghost predicate Genuine(tx: Tx, content: bytes -> Tx) {
    content(tx.id) == tx
  }

  ghost predicate AllGenuine(s: PoolState, content: bytes -> Tx) {
    forall id | id in s.all :: Genuine(s.all[id], content)
  }

  ghost predicate Inv(s: PoolState, c: PoolConfig, content: bytes -> Tx) {
    Consistent(s, c) && |s.all| <= c.maxTransactions && QueueCovers(s) && AllGenuine(s, content)
  }

  /* ---- remove ---- */

  ghost function QueueOf(all: map<bytes, Tx>): multiset<Node<bytes>> {
    multiset(set id | id in all :: Entry(all[id]))
  }

  /** Drops a list that has become empty. */
  function PutList(lists: map<bytes, ListState>, a: bytes, l: ListState): map<bytes, ListState> {
    if |l.txs| == 0 then lists - {a} else lists[a := l]
  }

  ghost function RemoveTx(s: PoolState, tx: Tx): PoolState
    requires tx.id in s.all ==> s.all[tx.id].sender in s.lists
  {
    if tx.id !in s.all then s
    else
      var a := s.all[tx.id].sender;
      var all := s.all - {tx.id};
      PoolState(all, PutList(s.lists, a, Remove(s.lists[a], tx.nonce)), QueueOf(all))
  }

  lemma QueueOfCovers(all: map<bytes, Tx>, lists: map<bytes, ListState>)
    ensures QueueCovers(PoolState(all, lists, QueueOf(all)))
  {
  }

  lemma RemoveSizes(s: PoolState, c: PoolConfig, tx: Tx)
    requires Consistent(s, c) && tx.id in s.all
    ensures |RemoveTx(s, tx).all| == |s.all| - 1
  {
    hide ListKept;
    assert s.all.Keys == (s.all - {tx.id}).Keys + {tx.id};
  }

  /** Two pooled transactions never share an account and a nonce. */
  lemma OneTxPerNonce(s: PoolState, c: PoolConfig, id1: bytes, id2: bytes)
    requires Consistent(s, c) && id1 in s.all && id2 in s.all
    requires s.all[id1].sender == s.all[id2].sender && s.all[id1].nonce == s.all[id2].nonce
    ensures id1 == id2
  {
    hide ListKept;
  }

  lemma RemoveIndexed(s: PoolState, c: PoolConfig, tx: Tx)
    requires Consistent(s, c) && tx.id in s.all && s.all[tx.id] == tx
    ensures Indexed(RemoveTx(s, tx))
  {
    hide ListKept;
    var t := RemoveTx(s, tx);
    forall id | id in t.all
      ensures var x := t.all[id];
              x.id == id && x.sender in t.lists && x.nonce in t.lists[x.sender].txs && t.lists[x.sender].txs[x.nonce] == x
    {
      var x := t.all[id];
      assert x == s.all[id];
      if x.sender == tx.sender {
        if x.nonce == tx.nonce {
          OneTxPerNonce(s, c, id, tx.id);
          assert false;
        }
        assert x.nonce in Remove(s.lists[tx.sender], tx.nonce).txs;
      }
    }
  }

  lemma RemoveFiled(s: PoolState, c: PoolConfig, tx: Tx, a: bytes, n: nat)
    requires Consistent(s, c) && tx.id in s.all && s.all[tx.id] == tx
    requires a in s.lists && n in s.lists[a].txs && (a != tx.sender || n != tx.nonce)
    ensures var x := s.lists[a].txs[n];
            x.sender == a && x.nonce == n && x.id in RemoveTx(s, tx).all && RemoveTx(s, tx).all[x.id] == x
  {
    hide Valid, Indexed;
    assert ListKept(s, c, a);
    assert Filed(s, a, n);
    assert tx.sender in s.lists by { SenderListed(s, c, tx.id); }
  }

  lemma SenderListed(s: PoolState, c: PoolConfig, id: bytes)
    requires Consistent(s, c) && id in s.all
    ensures s.all[id].sender in s.lists && s.all[id].nonce in s.lists[s.all[id].sender].txs
  {
    hide ListKept;
  }

  lemma RemoveListKept(s: PoolState, c: PoolConfig, tx: Tx, a: bytes)
    requires Consistent(s, c) && tx.id in s.all && s.all[tx.id] == tx && tx.sender in s.lists && a in RemoveTx(s, tx).lists
    ensures ListKept(RemoveTx(s, tx), c, a)
  {
    hide Valid, Consistent, Remove, RemoveTx, Filed;
    RemoveListSize(s, c, tx, a);
    var t := RemoveTx(s, tx);
    forall n | n in t.lists[a].txs
      ensures Filed(t, a, n)
    {
      RemoveListFiled(s, c, tx, a, n);
    }
  }

  lemma RemoveListFiled(s: PoolState, c: PoolConfig, tx: Tx, a: bytes, n: nat)
    requires Consistent(s, c) && tx.id in s.all && s.all[tx.id] == tx && tx.sender in s.lists && a in RemoveTx(s, tx).lists
    requires n in RemoveTx(s, tx).lists[a].txs
    ensures Filed(RemoveTx(s, tx), a, n)
  {
    hide Consistent, Remove, RemoveTx;
    RemoveLists(s, tx, a);
    RemoveFiled(s, c, tx, a, n);
  }

  lemma RemoveListSize(s: PoolState, c: PoolConfig, tx: Tx, a: bytes)
    requires Consistent(s, c) && tx.id in s.all && s.all[tx.id] == tx && tx.sender in s.lists && a in RemoveTx(s, tx).lists
    ensures Valid(RemoveTx(s, tx).lists[a]) && 0 < |RemoveTx(s, tx).lists[a].txs| <= c.maxTransactionsPerAccount
  {
    hide Valid, Remove, RemoveTx, Filed, Indexed;
    SenderListed(s, c, tx.id);
    RemoveLists(s, tx, a);
    assert ListKept(s, c, a);
    if a == tx.sender {
      RemoveValid(s.lists[a], tx.nonce);
      RemoveSize(s.lists[a], tx.nonce);
    }
  }

  lemma RemoveLists(s: PoolState, tx: Tx, a: bytes)
    requires tx.id in s.all && s.all[tx.id] == tx && tx.sender in s.lists && a in RemoveTx(s, tx).lists
    ensures a in s.lists
    ensures var l := RemoveTx(s, tx).lists[a];
            && (if a == tx.sender then l == Remove(s.lists[a], tx.nonce) && |l.txs| > 0 else l == s.lists[a])
            && forall n | n in l.txs :: n in s.lists[a].txs && l.txs[n] == s.lists[a].txs[n] && (a == tx.sender ==> n != tx.nonce)
  {
    hide QueueOf, Below;
  }

  /** remove keeps the pool consistent and leaves an exact queue. */
  lemma RemoveConsistent(s: PoolState, c: PoolConfig, tx: Tx)
    requires Consistent(s, c) && tx.id in s.all && s.all[tx.id] == tx
    ensures Consistent(RemoveTx(s, tx), c) && QueueCovers(RemoveTx(s, tx))
    ensures RemoveTx(s, tx).queue == QueueOf(RemoveTx(s, tx).all)
  {
    SenderListed(s, c, tx.id);
    RemoveIndexed(s, c, tx);
    QueueOfCovers(RemoveTx(s, tx).all, RemoveTx(s, tx).lists);
    forall a | a in RemoveTx(s, tx).lists
      ensures ListKept(RemoveTx(s, tx), c, a)
    {
      RemoveListKept(s, c, tx, a);
    }
  }

  lemma RemoveKeeps(s: PoolState, c: PoolConfig, content: bytes -> Tx, tx: Tx)
    requires Inv(s, c, content) && Genuine(tx, content)
    ensures tx.id in s.all ==> s.all[tx.id] == tx && s.all[tx.id].sender in s.lists
    ensures Inv(RemoveTx(s, tx), c, content)
  {
    if tx.id in s.all {
      assert Genuine(s.all[tx.id], content);
      assert s.all[tx.id] == tx && tx.sender in s.lists by { hide ListKept; }
      hide ListKept, Indexed, QueueCovers, Remove;
      RemoveConsistent(s, c, tx);
      RemoveSizes(s, c, tx);
    }
  }

  /* ---- Eviction ---- */

  /** What _evictUnprocessable collects from all accounts. */
  ghost predicate IsUnprocessable(s: PoolState, tx: Tx) {
    && tx.sender in s.lists && Valid(s.lists[tx.sender])
    && tx.nonce in UnprocessableNonces(s.lists[tx.sender]) && s.lists[tx.sender].txs[tx.nonce] == tx
  }

  /** The processable transaction with the highest nonce of its account. */
  ghost predicate IsHead(s: PoolState, tx: Tx) {
    && tx.sender in s.lists && tx.nonce in s.lists[tx.sender].txs && s.lists[tx.sender].txs[tx.nonce] == tx
    && var p := s.lists[tx.sender].processable;
    p != [] && p[|p| - 1] == tx.nonce
  }

  ghost predicate LeastUnprocessable(s: PoolState, tx: Tx) {
    IsUnprocessable(s, tx) && forall t | IsUnprocessable(s, t) :: Priority(tx) <= Priority(t)
  }

  ghost predicate LeastHead(s: PoolState, tx: Tx) {
    IsHead(s, tx) && forall t | IsHead(s, t) :: Priority(tx) <= Priority(t)
  }

  ghost predicate CanRemove(s: PoolState, tx: Tx) {
    tx.id in s.all ==> s.all[tx.id].sender in s.lists
  }

  /** _evictUnprocessable, which may choose any transaction of least priority. */
  ghost predicate EvictsUnprocessable(s: PoolState, t: PoolState, evicted: bool) {
    if exists tx :: IsUnprocessable(s, tx) then
      evicted && exists tx :: LeastUnprocessable(s, tx) && CanRemove(s, tx) && t == RemoveTx(s, tx)
    else !evicted && t == s
  }

  /** _evictProcessable */
  ghost predicate EvictsProcessable(s: PoolState, t: PoolState, evicted: bool) {
    if exists tx :: IsHead(s, tx) then
      evicted && exists tx :: LeastHead(s, tx) && CanRemove(s, tx) && t == RemoveTx(s, tx)
    else !evicted && t == s
  }

  lemma ListedIsPooled(s: PoolState, c: PoolConfig, tx: Tx)
    requires Consistent(s, c) && (IsUnprocessable(s, tx) || IsHead(s, tx))
    ensures tx.id in s.all && s.all[tx.id] == tx
  {
    assert ListKept(s, c, tx.sender);
    hide Valid, UnprocessableNonces;
    assert Filed(s, tx.sender, tx.nonce);
  }

  /** A list that is not empty has an unprocessable nonce or a highest processable one. */
  lemma LastOrUnprocessable(l: ListState)
    requires Valid(l) && 0 < |l.txs|
    ensures UnprocessableNonces(l) != [] || l.processable != []
  {
    hide Valid, Ascending, Enumerate;
  }

  /** A pool that is not empty has something to evict. */
  lemma SomethingToEvict(s: PoolState, c: PoolConfig)
    requires Consistent(s, c) && s.all != map[]
    ensures (exists tx :: IsUnprocessable(s, tx)) || exists tx :: IsHead(s, tx)
  {
    var id :| id in s.all;
    var a := s.all[id].sender;
    assert ListKept(s, c, a);
    var l := s.lists[a];
    assert forall n | n in l.processable :: n in l.txs;
    hide Valid, Indexed, UnprocessableNonces;
    LastOrUnprocessable(l);
    if UnprocessableNonces(l) != [] {
      var n := UnprocessableNonces(l)[0];
      assert n in UnprocessableNonces(l) && Filed(s, a, n);
      assert IsUnprocessable(s, l.txs[n]);
    } else {
      var n := l.processable[|l.processable| - 1];
      assert n in l.processable && Filed(s, a, n);
      assert IsHead(s, l.txs[n]);
    }
  }

  lemma EvictionKeeps(s: PoolState, c: PoolConfig, content: bytes -> Tx, t: PoolState, evicted: bool)
    requires Inv(s, c, content) && (EvictsUnprocessable(s, t, evicted) || EvictsProcessable(s, t, evicted))
    ensures Inv(t, c, content) && |t.all| == |s.all| - (if evicted then 1 else 0)
  {
    hide Consistent, QueueCovers, IsUnprocessable, IsHead;
    if evicted {
      var tx :| (IsUnprocessable(s, tx) || IsHead(s, tx)) && CanRemove(s, tx) && t == RemoveTx(s, tx);
      ListedIsPooled(s, c, tx);
      assert Genuine(tx, content);
      RemoveKeeps(s, c, content, tx);
      RemoveSizes(s, c, tx);
    }
  }

  /** Dropping the last of an ascending sequence. */
  lemma {:induction false} BelowLast(p: seq<nat>)
    requires Ascending(p) && p != []
    ensures Below(p, p[|p| - 1]) == p[..|p| - 1]
  {
    if |p| > 1 {
      AscendingTail(p);
      hide Ascending;
      assert p[1..][|p| - 2] in p[1..];
      BelowLast(p[1..]);
      assert p[..|p| - 1] == [p[0]] + p[1..][..|p| - 2];
    }
  }

  /** The processable nonces of an account. */
  function ProcessableOf(s: PoolState, a: bytes): seq<nat> {
    if a in s.lists then s.lists[a].processable else []
  }

  /** Evicting a head takes the highest processable nonce of one account and leaves every other one processable. */
  lemma HeadEvictionKeepsProcessable(s: PoolState, c: PoolConfig, tx: Tx, a: bytes)
    requires Consistent(s, c) && IsHead(s, tx) && CanRemove(s, tx)
    ensures var p := ProcessableOf(s, a);
            ProcessableOf(RemoveTx(s, tx), a) == if a == tx.sender then p[..|p| - 1] else p
  {
    ListedIsPooled(s, c, tx);
    assert ListKept(s, c, tx.sender);
    var l := s.lists[tx.sender];
    BelowLast(l.processable);
    RemoveValid(l, tx.nonce);
    var r := Remove(l, tx.nonce);
    if |r.txs| == 0 {
      assert r.txs == map[];
      NothingProcessable(r);
    }
  }

  lemma NothingProcessable(l: ListState)
    requires Valid(l) && l.txs == map[]
    ensures l.processable == []
  {
    if l.processable != [] {
      HeadIn(l.processable);
      assert false;
    }
  }

  /** A pooled transaction that is not processable. */
  ghost predicate NotProcessable(s: PoolState, tx: Tx) {
    tx.id in s.all && s.all[tx.id] == tx && tx.nonce !in ProcessableOf(s, tx.sender)
  }

  /** What getUnprocessable returns for an account are its transactions that are not processable, if these are the highest. */
  lemma UnprocessableMeans(s: PoolState, c: PoolConfig, tx: Tx)
    requires Consistent(s, c) && (tx.sender in s.lists ==> s.lists[tx.sender].processable <= Nonces(s.lists[tx.sender]))
    ensures IsUnprocessable(s, tx) <==> NotProcessable(s, tx)
  {
    if tx.sender in s.lists {
      assert ListKept(s, c, tx.sender);
      UnprocessableExactIff(s.lists[tx.sender]);
    }
    if IsUnprocessable(s, tx) {
      ListedIsPooled(s, c, tx);
    }
    hide ListKept, Valid, Nonces, UnprocessableNonces;
  }

  /** In every account the processable nonces, consecutive or not, are the lowest ones. */
  ghost predicate AllInFront(s: PoolState) {
    forall a | a in s.lists :: s.lists[a].processable <= Nonces(s.lists[a])
  }

  /** Then _evictUnprocessable takes one of least priority among all that are not processable. */
  lemma EvictionIsLeast(s: PoolState, c: PoolConfig, tx: Tx)
    requires Consistent(s, c) && AllInFront(s) && LeastUnprocessable(s, tx)
    ensures NotProcessable(s, tx) && forall t | NotProcessable(s, t) :: Priority(tx) <= Priority(t)
  {
    hide Consistent, IsUnprocessable, NotProcessable, Priority, Nonces;
    UnprocessableMeans(s, c, tx);
    forall t | NotProcessable(s, t)
      ensures Priority(tx) <= Priority(t)
    {
      UnprocessableMeans(s, c, t);
    }
  }

  /** Removing a nonce keeps the processable nonces of its list if and only if they are all below it. */
  lemma RemovalKeepsProcessableIff(s: PoolState, c: PoolConfig, tx: Tx)
    requires Consistent(s, c) && CanRemove(s, tx) && tx.id in s.all && s.all[tx.id] == tx
    ensures (forall a :: ProcessableOf(RemoveTx(s, tx), a) == ProcessableOf(s, a))
       <==> forall n | n in ProcessableOf(s, tx.sender) :: n < tx.nonce
  {
    hide Consistent, RemoveTx, Below, ProcessableOf;
    forall a
      ensures ProcessableOf(RemoveTx(s, tx), a)
           == if a == tx.sender then Below(ProcessableOf(s, a), tx.nonce) else ProcessableOf(s, a)
    {
      RemovedProcessable(s, c, tx, a);
    }
    BelowAllIff(ProcessableOf(s, tx.sender), tx.nonce);
  }

  lemma RemovedProcessable(s: PoolState, c: PoolConfig, tx: Tx, a: bytes)
    requires Consistent(s, c) && CanRemove(s, tx) && tx.id in s.all && s.all[tx.id] == tx
    ensures ProcessableOf(RemoveTx(s, tx), a)
         == if a == tx.sender then Below(ProcessableOf(s, a), tx.nonce) else ProcessableOf(s, a)
  {
    SenderListed(s, c, tx.id);
    ListsValid(s, c);
    hide Valid, Consistent, QueueOf, Below;
    var l := s.lists[tx.sender];
    RemoveValid(l, tx.nonce);
    var r := Remove(l, tx.nonce);
    if |r.txs| == 0 {
      assert r.txs == map[];
      NothingProcessable(r);
    }
  }

  lemma BelowAllIff(p: seq<nat>, bound: int)
    ensures Below(p, bound) == p <==> forall n | n in p :: n < bound
  {
    if forall n | n in p :: n < bound {
      assert forall i | 0 <= i < |p| :: p[i] in p;
      AllBelow(p, bound);
    }
    hide Below;
  }

  /** With an ordered list, evicting an unprocessable transaction leaves every processable one processable. */
  lemma UnprocessableEvictionKeepsProcessable(s: PoolState, c: PoolConfig, tx: Tx, a: bytes)
    requires Consistent(s, c) && IsUnprocessable(s, tx) && CanRemove(s, tx)
    requires s.lists[tx.sender].processable <= Nonces(s.lists[tx.sender])
    ensures ProcessableOf(RemoveTx(s, tx), a) == ProcessableOf(s, a)
  {
    ListedIsPooled(s, c, tx);
    UnprocessableIsAbove(s.lists[tx.sender], tx.nonce);
    hide Consistent, RemoveTx, Nonces;
    RemovalKeepsProcessableIff(s, c, tx);
  }

  lemma UnprocessableIsAbove(l: ListState, n: nat)
    requires Valid(l) && l.processable <= Nonces(l) && n in UnprocessableNonces(l)
    ensures forall p | p in l.processable :: p < n
  {
    var ns, k := Nonces(l), |l.processable|;
    AscendingSplit(ns, k);
    assert ns[..k] == l.processable && UnprocessableNonces(l) == ns[k..];
  }

  lemma {:induction false} AllBelow(xs: seq<nat>, bound: int)
    requires forall i | 0 <= i < |xs| :: xs[i] < bound
    ensures Below(xs, bound) == xs
  {
    if xs != [] {
      assert xs == [xs[0]] + xs[1..];
      AllBelow(xs[1..], bound);
    }
  }

  /* ---- add, up to the await ---- */

  datatype CheckOutcome = Duplicate | TooLong | LowEntranceFee | LowFeePriority | Continue

  /** The (account, nonce) pairs of the unprocessable transactions. */
  ghost function UnprocessablePairs(s: PoolState): set<(bytes, nat)>
    requires forall a | a in s.lists :: Valid(s.lists[a])
  {
    set a, n | a in s.lists && n in s.lists[a].txs && n in UnprocessableNonces(s.lists[a]) :: (a, n)
  }

  ghost predicate LeastKey(queue: multiset<Node<bytes>>, key: int) {
    (exists nd :: nd in queue && nd.key == key) && forall nd | nd in queue :: key <= nd.key
  }

  /** The pool is full and the queue has nothing of lower priority. */
  ghost predicate BelowQueue(s: PoolState, c: PoolConfig, tx: Tx) {
    |s.all| >= c.maxTransactions && exists key :: LeastKey(s.queue, key) && Priority(tx) <= key
  }

  ghost predicate Checks(s: PoolState, c: PoolConfig, tx: Tx, t: PoolState, outcome: CheckOutcome)
    requires forall a | a in s.lists :: Valid(s.lists[a])
  {
    if tx.size > c.maxPayloadLength then t == s && outcome == TooLong
    else if tx.id in s.all then t == s && outcome == Duplicate
    else if Priority(tx) < c.minEntranceFeePriority then t == s && outcome == LowEntranceFee
    else if !BelowQueue(s, c, tx) then t == s && outcome == Continue
    else if |UnprocessablePairs(s)| >= c.maxTransactions / 2 then
      outcome == Continue && exists evicted :: EvictsUnprocessable(s, t, evicted)
    else t == s && outcome == LowFeePriority
  }

  lemma ListsValid(s: PoolState, c: PoolConfig)
    requires Consistent(s, c)
    ensures forall a | a in s.lists :: Valid(s.lists[a])
  {
    forall a | a in s.lists
      ensures Valid(s.lists[a])
    {
      assert ListKept(s, c, a);
    }
  }

  lemma CheckKeeps(s: PoolState, c: PoolConfig, content: bytes -> Tx, tx: Tx, t: PoolState, outcome: CheckOutcome)
    requires Inv(s, c, content)
    requires forall a | a in s.lists :: Valid(s.lists[a])
    requires Checks(s, c, tx, t, outcome)
    ensures Inv(t, c, content)
  {
    hide Inv, EvictsUnprocessable, UnprocessablePairs, BelowQueue;
    if t != s {
      var evicted :| EvictsUnprocessable(s, t, evicted);
      EvictionKeeps(s, c, content, t, evicted);
    }
  }

  /** A rejection for fee priority means that the pool is full and no pooled transaction has a lower priority. */
  lemma PriorityRejectionIsJust(s: PoolState, c: PoolConfig, content: bytes -> Tx, tx: Tx, t: PoolState)
    requires Inv(s, c, content)
    requires forall a | a in s.lists :: Valid(s.lists[a])
    requires Checks(s, c, tx, t, LowFeePriority)
    ensures |s.all| == c.maxTransactions && tx.id !in s.all
    ensures forall id | id in s.all :: Priority(tx) <= Priority(s.all[id])
    ensures 2 * |UnprocessablePairs(s)| < c.maxTransactions
  {
    hide Consistent, UnprocessablePairs, AllGenuine;
    var key :| LeastKey(s.queue, key) && Priority(tx) <= key;
    forall id | id in s.all
      ensures Priority(tx) <= Priority(s.all[id])
    {
      assert key <= Entry(s.all[id]).key;
    }
  }

  lemma {:induction false} LeastKeyExists(nodes: multiset<Node<bytes>>) returns (key: int)
    requires nodes != multiset{}
    ensures LeastKey(nodes, key)
    decreases |nodes|
  {
    var nd :| nd in nodes;
    var rest := nodes - multiset{nd};
    if rest == multiset{} {
      key := nd.key;
      assert nodes == multiset{nd};
    } else {
      var k := LeastKeyExists(rest);
      key := if k < nd.key then k else nd.key;
      assert forall x | x in nodes :: x in rest || x == nd;
      var y :| y in rest && y.key == k;
      assert y in nodes;
    }
  }

  /** The priority test of a full pool looks at everything in the queue, stale entries included. */
  lemma QueueTestIff(s: PoolState, c: PoolConfig, tx: Tx)
    ensures BelowQueue(s, c, tx) <==>
              |s.all| >= c.maxTransactions && s.queue != multiset{} && forall nd | nd in s.queue :: Priority(tx) <= nd.key
  {
    hide Priority;
    if s.queue != multiset{} {
      var key := LeastKeyExists(s.queue);
    }
  }

  ghost predicate Admissible(s: PoolState, c: PoolConfig, tx: Tx) {
    tx.size <= c.maxPayloadLength && tx.id !in s.all && Priority(tx) >= c.minEntranceFeePriority
  }

  /**
   Exactly when add rejects for fee priority, once the earlier tests are passed: the pool is full, less than half of it
   is unprocessable, and nothing in the queue, pooled or stale, has a lower priority.
   */
  lemma PriorityRejectionIff(s: PoolState, c: PoolConfig, content: bytes -> Tx, tx: Tx)
    requires Inv(s, c, content) && c.maxTransactions >= 1 && Admissible(s, c, tx)
    requires forall a | a in s.lists :: Valid(s.lists[a])
    ensures (exists t :: Checks(s, c, tx, t, LowFeePriority))
       <==> && |s.all| == c.maxTransactions && |UnprocessablePairs(s)| < c.maxTransactions / 2
            && forall nd | nd in s.queue :: Priority(tx) <= nd.key
  {
    assert |s.all| <= c.maxTransactions;
    if |s.all| == c.maxTransactions {
      FullQueue(s, c, content);
    }
    hide Inv, Valid, UnprocessablePairs, Priority, BelowQueue, EvictsUnprocessable;
    QueueTestIff(s, c, tx);
    if Checks(s, c, tx, s, LowFeePriority) {
      assert exists t :: Checks(s, c, tx, t, LowFeePriority);
    }
  }

  lemma FullQueue(s: PoolState, c: PoolConfig, content: bytes -> Tx)
    requires Inv(s, c, content) && |s.all| >= 1
    ensures s.queue != multiset{}
  {
    hide Consistent, AllGenuine;
    var id :| id in s.all;
    assert Entry(s.all[id]) in s.queue;
  }

  /** A replacement leaves the entry of the old transaction in the queue, although its id has left the pool. */
  lemma ReplacementLeavesEntry(s: PoolState, c: PoolConfig, tx: Tx, processable: bool)
    requires Consistent(s, c) && QueueCovers(s) && tx.sender in s.lists && tx.nonce in s.lists[tx.sender].txs
    requires InsertTx(s, c, tx, processable).1 && tx.id != s.lists[tx.sender].txs[tx.nonce].id
    ensures var stale, t := s.lists[tx.sender].txs[tx.nonce], InsertTx(s, c, tx, processable).0;
            Entry(stale) in t.queue && stale.id !in t.all
  {
    assert ListKept(s, c, tx.sender);
    hide Valid, Below;
    assert Filed(s, tx.sender, tx.nonce);
    assert Entry(s.all[s.lists[tx.sender].txs[tx.nonce].id]) in s.queue;
    hide Entry;
  }

  /** An entry of lower priority in the queue, stale or not, lets every admissible transaction pass the check. */
  lemma LowEntryAdmits(s: PoolState, c: PoolConfig, tx: Tx, entry: Node<bytes>, t: PoolState, outcome: CheckOutcome)
    requires Admissible(s, c, tx) && entry in s.queue && entry.key < Priority(tx)
    requires forall a | a in s.lists :: Valid(s.lists[a])
    ensures Checks(s, c, tx, t, outcome) <==> t == s && outcome == Continue
  {
    hide Valid, UnprocessablePairs, Priority, EvictsUnprocessable;
    QueueTestIff(s, c, tx);
  }

  /* ---- add, after the await ---- */

  function ListAt(s: PoolState, a: bytes): ListState {
    if a in s.lists then s.lists[a] else EMPTY
  }

  /** The part of add after the evictions: the list takes the transaction or refuses it. */
  ghost function InsertTx(s: PoolState, c: PoolConfig, tx: Tx, processable: bool): (PoolState, bool) {
    var r := Add(ListAt(s, tx.sender), ListConfig(c), tx, processable);
    var lists := s.lists[tx.sender := r.state];
    if !r.added then (s.(lists := lists), false)
    else
      var rest := if r.removed.Some? then s.all - {r.removed.value} else s.all;
      (PoolState(rest[tx.id := tx], lists, s.queue + multiset{Entry(tx)}), true)
  }

  /** A full pool makes room first. */
  ghost predicate MakesRoom(s: PoolState, c: PoolConfig, t: PoolState) {
    if |s.all| < c.maxTransactions then t == s
    else if exists tx :: IsUnprocessable(s, tx) then EvictsUnprocessable(s, t, true)
    else exists evicted :: EvictsProcessable(s, t, evicted)
  }

  ghost predicate Commits(s: PoolState, c: PoolConfig, tx: Tx, status: TransactionStatus, t: PoolState, added: bool) {
    if status == Invalid then t == s && !added
    else exists room :: MakesRoom(s, c, room) && (t, added) == InsertTx(room, c, tx, status == Processable)
  }

  /** Which nonce of the list makes way for `tx`. */
  ghost function Displaced(l: ListState, cfg: Config, tx: Tx): Option<nat> {
    if tx.nonce in l.txs then Some(tx.nonce)
    else if |l.txs| < cfg.maxSize || Highest(l) < 0 then None
    else Some(Highest(l))
  }

  ghost predicate Places(l: ListState, cfg: Config, tx: Tx, r: AddResult) {
    match Displaced(l, cfg, tx)
    case None => tx.nonce !in l.txs && r.removed == None && r.state.txs == l.txs[tx.nonce := tx]
    case Some(m) =>
      && m in l.txs && (tx.nonce in l.txs ==> m == tx.nonce)
      && r.removed == Some(l.txs[m].id) && r.state.txs == (l.txs - {m})[tx.nonce := tx]
  }

  lemma AddPlaces(l: ListState, cfg: Config, tx: Tx, processable: bool)
    requires Valid(l) && |l.txs| <= cfg.maxSize && cfg.maxSize >= 1
    ensures var r := Add(l, cfg, tx, processable);
            && Valid(r.state)
            && (r.added ==> Places(l, cfg, tx, r) && 0 < |r.state.txs| <= cfg.maxSize)
            && (!r.added ==> r.state == l && l.txs != map[])
  {
    hide Ascending, Nonces, Highest, Below, Valid;
    HighestSpec(l);
    var r := Add(l, cfg, tx, processable);
    if tx.nonce in l.txs {
      ReplaceValid(l, tx);
      assert l.txs[tx.nonce := tx].Keys == l.txs.Keys;
      assert l.txs[tx.nonce := tx] == (l.txs - {tx.nonce})[tx.nonce := tx];
    } else if |l.txs| < cfg.maxSize {
      AppendValid(l, tx, processable);
      AppendSize(l, tx, processable);
    } else if r.added {
      var top: nat := Highest(l);
      RemoveValid(l, top);
      RemoveSize(l, top);
      AppendValid(Remove(l, top), tx, processable);
      AppendSize(Remove(l, top), tx, processable);
    }
  }

  lemma InsertValidList(s: PoolState, c: PoolConfig, a: bytes)
    requires Consistent(s, c)
    ensures Valid(ListAt(s, a)) && |ListAt(s, a).txs| <= c.maxTransactionsPerAccount
    ensures forall n | n in ListAt(s, a).txs :: a in s.lists && Filed(s, a, n)
  {
    if a in s.lists {
      assert ListKept(s, c, a);
    }
  }

  /** An incoming id that is already pooled stands for the very same transaction. */
  ghost predicate NoCollision(s: PoolState, tx: Tx) {
    tx.id in s.all ==> s.all[tx.id] == tx
  }

  /** The pool after its list has placed `tx`. */
  ghost function Placed(s: PoolState, tx: Tx, r: AddResult): PoolState {
    var rest := if r.removed.Some? then s.all - {r.removed.value} else s.all;
    PoolState(rest[tx.id := tx], s.lists[tx.sender := r.state], s.queue + multiset{Entry(tx)})
  }

  lemma IncomingIsNew(s: PoolState, c: PoolConfig, tx: Tx, r: AddResult)
    requires Consistent(s, c) && NoCollision(s, tx) && Places(ListAt(s, tx.sender), ListConfig(c), tx, r)
    ensures tx.id in s.all ==> r.removed == Some(tx.id)
    ensures r.removed.Some? ==> r.removed.value in s.all
  {
    hide Displaced;
    InsertValidList(s, c, tx.sender);
  }

  lemma PlacedSize(s: PoolState, c: PoolConfig, tx: Tx, r: AddResult)
    requires Consistent(s, c) && NoCollision(s, tx) && Places(ListAt(s, tx.sender), ListConfig(c), tx, r)
    ensures |s.all| <= |Placed(s, tx, r).all| <= |s.all| + 1
  {
    IncomingIsNew(s, c, tx, r);
    hide Consistent, Places, NoCollision;
    SwapSize(s.all, r.removed, tx);
  }

  lemma SwapSize(all: map<bytes, Tx>, removed: Option<bytes>, tx: Tx)
    requires removed.Some? ==> removed.value in all
    requires tx.id in all ==> removed == Some(tx.id)
    ensures var rest := if removed.Some? then all - {removed.value} else all;
            |rest[tx.id := tx]| == |all| + if removed.Some? then 0 else 1
  {
    var rest := if removed.Some? then all - {removed.value} else all;
    if removed.Some? {
      assert all.Keys == rest.Keys + {removed.value};
    }
    assert rest[tx.id := tx].Keys == rest.Keys + {tx.id};
  }

  lemma PlacedIndexed(s: PoolState, c: PoolConfig, tx: Tx, r: AddResult)
    requires Consistent(s, c) && NoCollision(s, tx) && Places(ListAt(s, tx.sender), ListConfig(c), tx, r)
    ensures Indexed(Placed(s, tx, r))
  {
    hide Displaced, ListKept;
    var t := Placed(s, tx, r);
    forall id | id in t.all
      ensures var x := t.all[id];
              x.id == id && x.sender in t.lists && x.nonce in t.lists[x.sender].txs && t.lists[x.sender].txs[x.nonce] == x
    {
      if id != tx.id {
        assert t.all[id] == s.all[id];
      }
    }
  }

  /** What stays in the lists stays pooled. */
  lemma PlacedFiled(s: PoolState, c: PoolConfig, tx: Tx, r: AddResult, a: bytes, n: nat)
    requires Consistent(s, c) && NoCollision(s, tx) && Places(ListAt(s, tx.sender), ListConfig(c), tx, r)
    requires a in s.lists && n in s.lists[a].txs && Filed(s, a, n)
    requires a != tx.sender || (n != tx.nonce && n in r.state.txs)
    ensures s.lists[a].txs[n].id in Placed(s, tx, r).all
    ensures Placed(s, tx, r).all[s.lists[a].txs[n].id] == s.lists[a].txs[n]
    ensures a == tx.sender ==> r.state.txs[n] == s.lists[a].txs[n]
  {
    InsertValidList(s, c, tx.sender);
    hide Displaced, Valid, ListKept, Consistent;
    var x := s.lists[a].txs[n];
    assert x.id != tx.id;
    match Displaced(ListAt(s, tx.sender), ListConfig(c), tx)
    case None =>
    case Some(m) =>
      assert Filed(s, tx.sender, m);
  }

  lemma PlacedListKept(s: PoolState, c: PoolConfig, tx: Tx, r: AddResult, a: bytes)
    requires Consistent(s, c) && NoCollision(s, tx) && Places(ListAt(s, tx.sender), ListConfig(c), tx, r)
    requires Valid(r.state) && 0 < |r.state.txs| <= c.maxTransactionsPerAccount
    requires a in Placed(s, tx, r).lists
    ensures ListKept(Placed(s, tx, r), c, a)
  {
    hide Valid, Places;
    InsertValidList(s, c, tx.sender);
    PlacedOwn(s, c, tx, r);
    var t := Placed(s, tx, r);
    if a != tx.sender {
      assert ListKept(s, c, a);
    }
    hide Consistent, NoCollision;
    forall n | n in t.lists[a].txs
      ensures Filed(t, a, n)
    {
      if a != tx.sender || n != tx.nonce {
        PlacedFiled(s, c, tx, r, a, n);
      }
    }
  }

  lemma PlacedOwn(s: PoolState, c: PoolConfig, tx: Tx, r: AddResult)
    requires Places(ListAt(s, tx.sender), ListConfig(c), tx, r)
    ensures tx.nonce in r.state.txs && r.state.txs[tx.nonce] == tx
    ensures forall n | n in r.state.txs && n != tx.nonce :: n in ListAt(s, tx.sender).txs
  {
    hide Displaced;
  }

  lemma PlacedCovers(s: PoolState, tx: Tx, r: AddResult)
    requires QueueCovers(s)
    ensures QueueCovers(Placed(s, tx, r))
  {
    var t := Placed(s, tx, r);
    forall id | id in t.all
      ensures Entry(t.all[id]) in t.queue
    {
      if id != tx.id {
        assert t.all[id] == s.all[id];
      }
    }
  }

  /** Keeping a transaction keeps the pool consistent, whatever the list displaced for it. */
  lemma InsertPlaced(s: PoolState, c: PoolConfig, tx: Tx, r: AddResult)
    requires Consistent(s, c) && NoCollision(s, tx) && Places(ListAt(s, tx.sender), ListConfig(c), tx, r)
    requires Valid(r.state) && 0 < |r.state.txs| <= c.maxTransactionsPerAccount
    ensures Consistent(Placed(s, tx, r), c)
  {
    PlacedIndexed(s, c, tx, r);
    forall a | a in Placed(s, tx, r).lists
      ensures ListKept(Placed(s, tx, r), c, a)
    {
      PlacedListKept(s, c, tx, r, a);
    }
  }

  /** Committing a transaction adds it or leaves everything as it was. */
  lemma InsertConsistent(s: PoolState, c: PoolConfig, tx: Tx, processable: bool)
    requires Consistent(s, c) && NoCollision(s, tx) && c.maxTransactionsPerAccount >= 1
    ensures var (t, added) := InsertTx(s, c, tx, processable);
            && Consistent(t, c)
            && (QueueCovers(s) ==> QueueCovers(t))
            && |s.all| <= |t.all| <= |s.all| + 1
            && (if added then tx.id in t.all && t.all[tx.id] == tx else t == s)
            && (forall id | id in t.all && id != tx.id :: id in s.all && t.all[id] == s.all[id])
  {
    var l, cfg := ListAt(s, tx.sender), ListConfig(c);
    InsertValidList(s, c, tx.sender);
    AddPlaces(l, cfg, tx, processable);
    hide Add, Valid, Places, Consistent, QueueCovers, Filed;
    var r := Add(l, cfg, tx, processable);
    if r.added {
      InsertPlaced(s, c, tx, r);
      PlacedSize(s, c, tx, r);
      if QueueCovers(s) {
        PlacedCovers(s, tx, r);
      }
      PlacedOthers(s, tx, r);
      hide Placed, Entry;
      InsertIsPlaced(s, c, tx, processable);
    } else {
      InsertRefused(s, c, tx, processable);
    }
  }

  lemma PlacedOthers(s: PoolState, tx: Tx, r: AddResult)
    ensures var t := Placed(s, tx, r);
            && tx.id in t.all && t.all[tx.id] == tx
            && forall id | id in t.all && id != tx.id :: id in s.all && t.all[id] == s.all[id]
  {
  }

  lemma InsertIsPlaced(s: PoolState, c: PoolConfig, tx: Tx, processable: bool)
    requires Add(ListAt(s, tx.sender), ListConfig(c), tx, processable).added
    ensures InsertTx(s, c, tx, processable) == (Placed(s, tx, Add(ListAt(s, tx.sender), ListConfig(c), tx, processable)), true)
  {
    hide Add;
  }

  lemma InsertRefused(s: PoolState, c: PoolConfig, tx: Tx, processable: bool)
    requires var r := Add(ListAt(s, tx.sender), ListConfig(c), tx, processable);
             !r.added && r.state == ListAt(s, tx.sender) && r.state.txs != map[]
    ensures InsertTx(s, c, tx, processable) == (s, false)
  {
    hide Add;
    assert tx.sender in s.lists;
    assert s.lists[tx.sender := s.lists[tx.sender]] == s.lists;
  }

  lemma MakesRoomKeeps(s: PoolState, c: PoolConfig, content: bytes -> Tx, t: PoolState)
    requires Inv(s, c, content) && MakesRoom(s, c, t) && c.maxTransactions >= 1
    ensures Inv(t, c, content) && |t.all| < c.maxTransactions
  {
    assert Consistent(s, c) && |s.all| <= c.maxTransactions;
    hide Inv, Consistent, IsUnprocessable, IsHead, EvictsUnprocessable;
    if |s.all| >= c.maxTransactions {
      assert s.all != map[];
      SomethingToEvict(s, c);
      if exists tx :: IsUnprocessable(s, tx) {
        EvictionKeeps(s, c, content, t, true);
      } else {
        var evicted :| EvictsProcessable(s, t, evicted);
        assert evicted;
        EvictionKeeps(s, c, content, t, evicted);
      }
    }
  }

  /** The commit keeps the pool consistent and within its capacity, whatever happened since the check. */
  lemma CommitKeeps(
    s: PoolState, c: PoolConfig, content: bytes -> Tx, tx: Tx, status: TransactionStatus, t: PoolState, added: bool)
    requires Inv(s, c, content) && Genuine(tx, content) && Commits(s, c, tx, status, t, added)
    requires c.maxTransactions >= 1 && c.maxTransactionsPerAccount >= 1
    ensures Inv(t, c, content)
    ensures added ==> tx.id in t.all && t.all[tx.id] == tx
  {
    if status != Invalid {
      hide Inv, MakesRoom, InsertTx;
      var room :| MakesRoom(s, c, room) && (t, added) == InsertTx(room, c, tx, status == Processable);
      MakesRoomKeeps(s, c, content, room);
      InsertKeeps(room, c, content, tx, status == Processable);
    }
  }

  lemma GenuineIsUnique(s: PoolState, c: PoolConfig, content: bytes -> Tx, tx: Tx)
    requires Inv(s, c, content) && Genuine(tx, content)
    ensures NoCollision(s, tx)
  {
    hide ListKept, QueueCovers;
    if tx.id in s.all {
      assert Genuine(s.all[tx.id], content);
    }
  }

  lemma InsertKeeps(s: PoolState, c: PoolConfig, content: bytes -> Tx, tx: Tx, processable: bool)
    requires Inv(s, c, content) && Genuine(tx, content) && |s.all| < c.maxTransactions && c.maxTransactionsPerAccount >= 1
    ensures var (t, added) := InsertTx(s, c, tx, processable);
            Inv(t, c, content) && (added ==> tx.id in t.all && t.all[tx.id] == tx)
  {
    hide Consistent, QueueCovers, InsertTx;
    GenuineIsUnique(s, c, content, tx);
    InsertConsistent(s, c, tx, processable);
    var (t, added) := InsertTx(s, c, tx, processable);
    forall id | id in t.all
      ensures Genuine(t.all[id], content)
    {
      if id != tx.id {
        assert Genuine(s.all[id], content);
      }
    }
  }

  /** The pool holds exactly the ids in the lists, */
  lemma PoolIsUnionOfLists(s: PoolState, c: PoolConfig, id: bytes)
    requires Consistent(s, c)
    ensures id in s.all <==> exists a, n :: a in s.lists && n in s.lists[a].txs && s.lists[a].txs[n].id == id
  {
    if a, n :| a in s.lists && n in s.lists[a].txs && s.lists[a].txs[n].id == id {
      assert ListKept(s, c, a);
      assert Filed(s, a, n);
    }
    if id in s.all {
      hide ListKept;
      var tx := s.all[id];
      assert s.lists[tx.sender].txs[tx.nonce].id == id;
    }
  }

  /** and each of them in one place. */
  lemma UnionIsDisjoint(s: PoolState, c: PoolConfig, a: bytes, n: nat, b: bytes, m: nat)
    requires Consistent(s, c) && a in s.lists && n in s.lists[a].txs && b in s.lists && m in s.lists[b].txs
    requires s.lists[a].txs[n].id == s.lists[b].txs[m].id
    ensures a == b && n == m
  {
    hide Indexed, Valid;
    assert ListKept(s, c, a) && ListKept(s, c, b);
    hide Consistent;
    assert Filed(s, a, n) && Filed(s, b, m);
  }

  /* ---- promote, and the order of the lists ---- */

  ghost function PromoteIn(s: PoolState, a: bytes, txs: seq<Tx>): PoolState
    requires a in s.lists
  {
    s.(lists := s.lists[a := Promote(s.lists[a], txs)])
  }

  lemma PromoteKeeps(s: PoolState, c: PoolConfig, content: bytes -> Tx, a: bytes, txs: seq<Tx>)
    requires Inv(s, c, content) && a in s.lists
    ensures Inv(PromoteIn(s, a, txs), c, content)
  {
    hide Consistent;
    PromoteConsistent(s, c, a, txs);
  }

  lemma PromoteConsistent(s: PoolState, c: PoolConfig, a: bytes, txs: seq<Tx>)
    requires Consistent(s, c) && a in s.lists
    ensures Consistent(PromoteIn(s, a, txs), c)
  {
    hide Valid, Filed, Promote, Indexed;
    assert ListKept(s, c, a) && Valid(s.lists[a]);
    hide ListKept;
    PromoteIndexed(s, a, txs);
    var t := PromoteIn(s, a, txs);
    forall b | b in t.lists
      ensures ListKept(t, c, b)
    {
      PromoteListKept(s, c, a, txs, b);
    }
  }

  lemma PromoteIndexed(s: PoolState, a: bytes, txs: seq<Tx>)
    requires Indexed(s) && a in s.lists && Valid(s.lists[a])
    ensures Indexed(PromoteIn(s, a, txs))
  {
    PromoteValid(s.lists[a], txs);
    hide Promote, Valid;
  }

  lemma PromoteListKept(s: PoolState, c: PoolConfig, a: bytes, txs: seq<Tx>, b: bytes)
    requires a in s.lists && b in s.lists && ListKept(s, c, b) && Valid(s.lists[a])
    ensures ListKept(PromoteIn(s, a, txs), c, b)
  {
    PromoteValid(s.lists[a], txs);
    hide Promote, Valid;
    var t := PromoteIn(s, a, txs);
    forall n | n in t.lists[b].txs
      ensures Filed(t, b, n)
    {
      assert Filed(s, b, n);
    }
  }

  /** Every account's processable nonces are the lowest run of its list. */
  ghost predicate AllLowest(s: PoolState) {
    forall a | a in s.lists :: Lowest(s.lists[a])
  }

  lemma RemoveKeepsAllLowest(s: PoolState, tx: Tx)
    requires AllLowest(s) && CanRemove(s, tx)
    ensures AllLowest(RemoveTx(s, tx))
  {
    if tx.id in s.all {
      hide Lowest, Remove;
      RemoveKeepsLowest(s.lists[s.all[tx.id].sender], tx.nonce);
    }
  }

  /** Exactly when inserting a transaction keeps the lists ordered. */
  lemma InsertKeepsAllLowestIff(s: PoolState, c: PoolConfig, tx: Tx, processable: bool)
    requires AllLowest(s) && Consistent(s, c)
    ensures AllLowest(InsertTx(s, c, tx, processable).0) <==> AddsInOrder(ListAt(s, tx.sender), ListConfig(c), tx, processable)
  {
    hide Add, Lowest, Consistent, Filed, AddsInOrder, Valid;
    InsertValidList(s, c, tx.sender);
    var l := ListAt(s, tx.sender);
    EmptyLowest();
    AddKeepsLowestIff(l, ListConfig(c), tx, processable);
    var t := InsertTx(s, c, tx, processable).0;
    assert tx.sender in t.lists && t.lists[tx.sender] == Add(l, ListConfig(c), tx, processable).state;
  }

  /* ---- Why both limits must be at least one ---- */

  /** With an account limit of zero a commit leaves an empty list behind. */
  lemma ZeroAccountLimitLeavesEmptyList(s: PoolState, c: PoolConfig, tx: Tx, processable: bool)
    requires c.maxTransactionsPerAccount == 0 && tx.sender !in s.lists
    ensures InsertTx(s, c, tx, processable) == (s.(lists := s.lists[tx.sender := EMPTY]), false)
    ensures !Consistent(InsertTx(s, c, tx, processable).0, c)
  {
    assert Highest(EMPTY) == -1;
    hide Highest;
    var t := InsertTx(s, c, tx, processable).0;
    assert !ListKept(t, c, tx.sender);
  }

  /** With a capacity of zero nothing can be evicted from the empty pool, and the commit still adds. */
  lemma ZeroCapacityIsExceeded(c: PoolConfig, tx: Tx, status: TransactionStatus)
    requires c.maxTransactions == 0 && c.maxTransactionsPerAccount >= 1 && status != Invalid
    ensures exists t :: Commits(EMPTY_POOL, c, tx, status, t, true) && |t.all| > c.maxTransactions
  {
    assert EvictsProcessable(EMPTY_POOL, EMPTY_POOL, false);
    assert MakesRoom(EMPTY_POOL, c, EMPTY_POOL);
    var (t, added) := InsertTx(EMPTY_POOL, c, tx, status == Processable);
    assert added && t.all == map[tx.id := tx];
    assert Commits(EMPTY_POOL, c, tx, status, t, true);
  }
}
