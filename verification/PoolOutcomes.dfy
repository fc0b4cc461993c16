/** What the operations of list and pool answer, in terms of fees, sizes and nonces alone. */
module PoolOutcomes {
  import opened Wrappers
  import opened NonceList
  import opened PoolModel
  import opened PoolProtocol

  /* ---- The list ---- */

  /** When a list takes a transaction: over one of the same nonce for a high enough fee, else while there is room or below the highest nonce. */
  lemma AddedIff(s: ListState, cfg: Config, tx: Tx, processable: bool)
    ensures var r := Add(s, cfg, tx, processable);
            && (tx.nonce in s.txs ==> (r.added <==> tx.fee >= s.txs[tx.nonce].fee + cfg.minReplacementFeeDifference))
            && (tx.nonce !in s.txs ==> (r.added <==> |s.txs| < cfg.maxSize || exists n | n in s.txs :: tx.nonce < n))
            && (!r.added ==> r.state == s && r.removed == None)
  {
    hide Highest, Append, Remove, Below;
    HighestSpec(s);
    if tx.nonce !in s.txs && |s.txs| >= cfg.maxSize && tx.nonce <= Highest(s) {
      HighestIsThere(s);
      assert Highest(s) in s.txs && tx.nonce < Highest(s);
    }
  }

  lemma HighestIsThere(s: ListState)
    requires Highest(s) >= 0
    ensures s.txs != map[]
  {
  }

  /** Replacing: the nonce and those above it are no longer processable. */
  lemma ReplaceEffect(s: ListState, cfg: Config, tx: Tx, processable: bool)
    requires tx.nonce in s.txs && Add(s, cfg, tx, processable).added
    ensures var r := Add(s, cfg, tx, processable);
            && r.state.txs == s.txs[tx.nonce := tx] && r.removed == Some(s.txs[tx.nonce].id)
            && forall n :: n in r.state.processable <==> n in s.processable && n < tx.nonce
  {
  }

  /** With room: only the first processable transaction of a list is processable at once. */
  lemma AppendEffect(s: ListState, cfg: Config, tx: Tx, processable: bool)
    requires tx.nonce !in s.txs && |s.txs| < cfg.maxSize
    ensures var r := Add(s, cfg, tx, processable);
            && r.state.txs == s.txs[tx.nonce := tx] && r.removed == None
            && forall n :: n in r.state.processable <==> n in s.processable || (n == tx.nonce && processable && s.processable == [])
  {
    hide Highest, Below;
  }

  /** Without room: the highest nonce makes way. */
  lemma DisplaceEffect(s: ListState, cfg: Config, tx: Tx, processable: bool, top: nat)
    requires tx.nonce !in s.txs && |s.txs| >= cfg.maxSize && Add(s, cfg, tx, processable).added
    requires top in s.txs && (forall n | n in s.txs :: n <= top) && forall n | n in s.processable :: n in s.txs
    ensures var r := Add(s, cfg, tx, processable);
            && r.state.txs == (s.txs - {top})[tx.nonce := tx] && r.removed == Some(s.txs[top].id)
            && forall n :: n in r.state.processable <==>
                             || (n in s.processable && n != top)
                             || (n == tx.nonce && processable && forall m | m in s.processable :: m == top)
  {
    hide Highest, Below;
    HighestSpec(s);
    assert top == Highest(s);
    var p := Remove(s, top).processable;
    if p != [] {
      assert p[0] in p;
    }
    assert p == [] <==> forall m | m in s.processable :: m == top;
  }

  /** One operation on a list either leaves the holder of a nonce, or raises its fee by the difference, or takes it off. */
  lemma HolderStep(s: ListState, cfg: Config, op: Op, n: nat)
    requires n in s.txs && n in Next(s, cfg, op).txs
    ensures var x, y := s.txs[n], Next(s, cfg, op).txs[n];
            y == x || y.fee >= x.fee + cfg.minReplacementFeeDifference
  {
    hide Below;
    match op
    case AddOp(tx, processable) => HighestSpec(s);
    case RemoveOp(_) =>
    case PromoteOp(txs) => hide Enumerate;
  }

  /** As long as a nonce stays in a list, its fee never falls, and a different holder pays at least the difference more. */
  lemma {:induction false} ReplacementsPay(states: seq<ListState>, ops: seq<Op>, cfg: Config, i: nat, j: nat, n: nat)
    requires IsRun(states, ops, cfg) && i <= j < |states| && forall k | i <= k <= j :: n in states[k].txs
    ensures var x, y := states[i].txs[n], states[j].txs[n];
            y.fee >= x.fee && (y == x || y.fee >= x.fee + cfg.minReplacementFeeDifference)
    decreases j - i
  {
    hide Next;
    if i < j {
      ReplacementsPay(states, ops, cfg, i, j - 1, n);
      assert states[j] == Next(states[j - 1], cfg, ops[j - 1]);
      HolderStep(states[j - 1], cfg, ops[j - 1], n);
    }
  }

  /* ---- The pool ---- */

  /** The fee per byte, rounded down. */
  lemma PriorityMeans(tx: Tx)
    ensures Priority(tx) * tx.size <= tx.fee < (Priority(tx) + 1) * tx.size
  {
    var q, r := tx.fee / tx.size, tx.fee % tx.size;
    assert tx.fee == q * tx.size + r && 0 <= r < tx.size;
    assert (q + 1) * tx.size == q * tx.size + tx.size;
  }

  /** When the check of an incoming transaction answers what, in the order of the tests. */
  lemma CheckOutcomes(s: PoolState, c: PoolConfig, tx: Tx, t: PoolState, outcome: CheckOutcome)
    requires AllValid(s) && Checks(s, c, tx, t, outcome)
    ensures outcome == TooLong <==> tx.size > c.maxPayloadLength
    ensures outcome == Duplicate <==> tx.size <= c.maxPayloadLength && tx.id in s.all
    ensures outcome == LowEntranceFee <==>
              tx.size <= c.maxPayloadLength && tx.id !in s.all && tx.fee < c.minEntranceFeePriority * tx.size
    ensures outcome == LowFeePriority || outcome == Continue <==>
              tx.size <= c.maxPayloadLength && tx.id !in s.all && tx.fee >= c.minEntranceFeePriority * tx.size
    ensures outcome != Continue ==> t == s
  {
    hide BelowQueue, UnprocessablePairs, EvictsUnprocessable, Valid;
    PriorityMeans(tx);
    var q, m := Priority(tx), c.minEntranceFeePriority;
    hide Priority;
    if q < m {
      assert (q + 1) * tx.size <= m * tx.size;
    } else {
      assert m * tx.size <= q * tx.size;
    }
  }

  /** Whose fee per byte is not more. */
  predicate Cheapest(tx: Tx, other: Tx) {
    tx.fee / tx.size <= other.fee / other.size
  }

  /** The pooled transaction with the highest processable nonce of its account. */
  ghost predicate HighestProcessable(s: PoolState, tx: Tx) {
    && tx.id in s.all && s.all[tx.id] == tx && tx.nonce in ProcessableOf(s, tx.sender)
    && forall n | n in ProcessableOf(s, tx.sender) :: n <= tx.nonce
  }

  lemma HeadMeans(s: PoolState, c: PoolConfig, tx: Tx)
    requires Consistent(s, c)
    ensures IsHead(s, tx) <==> HighestProcessable(s, tx)
  {
    if tx.sender in s.lists {
      assert ListKept(s, c, tx.sender);
      LastAscending(s.lists[tx.sender]);
    }
    hide Valid, Indexed, ListKept;
    if IsHead(s, tx) {
      ListedIsPooled(s, c, tx);
    }
    if HighestProcessable(s, tx) {
      PooledIsListed(s, c, tx);
    }
  }

  lemma LastAscending(l: ListState)
    requires Valid(l)
    ensures l.processable != [] ==> var last := l.processable[|l.processable| - 1];
              last in l.processable && (forall n | n in l.processable :: n <= last)
    ensures forall n | n in l.processable :: n in l.txs
  {
    if l.processable != [] {
      LastIsGreatest(l.processable);
    }
  }

  lemma PooledIsListed(s: PoolState, c: PoolConfig, tx: Tx)
    requires Consistent(s, c) && tx.id in s.all && s.all[tx.id] == tx
    ensures tx.sender in s.lists && tx.nonce in s.lists[tx.sender].txs && s.lists[tx.sender].txs[tx.nonce] == tx
  {
    hide ListKept;
  }

  /** Who may be evicted: the cheapest per byte of those not processable, or of the highest processable ones when all are processable. */
  ghost predicate RightlyEvicted(s: PoolState, gone: Tx) {
    if exists x :: NotProcessable(s, x) then NotProcessable(s, gone) && forall x | NotProcessable(s, x) :: Cheapest(gone, x)
    else HighestProcessable(s, gone) && forall x | HighestProcessable(s, x) :: Cheapest(gone, x)
  }

  lemma LeastIsRight(s: PoolState, c: PoolConfig, gone: Tx)
    requires Consistent(s, c) && AllInFront(s)
    requires if exists x :: IsUnprocessable(s, x) then LeastUnprocessable(s, gone) else LeastHead(s, gone)
    ensures RightlyEvicted(s, gone)
  {
    hide Consistent, IsUnprocessable, NotProcessable, IsHead, HighestProcessable, Nonces;
    forall x
      ensures IsUnprocessable(s, x) <==> NotProcessable(s, x)
      ensures IsHead(s, x) <==> HighestProcessable(s, x)
    {
      UnprocessableMeans(s, c, x);
      HeadMeans(s, c, x);
    }
  }

  function Without(all: map<bytes, Tx>, gone: Option<Tx>): map<bytes, Tx> {
    if gone.Some? then all - {gone.value.id} else all
  }

  /** From `all` the incoming transaction has been added, or not, and only transactions of its own account are lost to it. */
  ghost predicate TakesIn(all: map<bytes, Tx>, tx: Tx, added: bool, after: map<bytes, Tx>) {
    && (if added then tx.id in after && after[tx.id] == tx else after == all)
    && (forall id | id in after && id != tx.id :: id in all && after[id] == all[id])
    && (forall id | id in all :: (id in after && after[id] == all[id]) || all[id].sender == tx.sender)
  }

  /**
   What a commit does to the pool: a pool with room loses nothing to eviction, a full one exactly one transaction, rightly
   evicted; then the incoming one comes in, or not, and only its own account can lose another to it.
   */
  lemma CommitOutcome(
    s: PoolState, c: PoolConfig, content: bytes -> Tx, tx: Tx, status: TransactionStatus, t: PoolState, added: bool)
    returns (gone: Option<Tx>)
    requires Inv(s, c, content) && AllInFront(s) && Genuine(tx, content) && Commits(s, c, tx, status, t, added)
    requires c.maxTransactions >= 1 && c.maxTransactionsPerAccount >= 1
    ensures status == Invalid ==> t == s && !added
    ensures status != Invalid ==> (gone.Some? <==> |s.all| == c.maxTransactions) && TakesIn(Without(s.all, gone), tx, added, t.all)
    ensures gone.Some? ==> gone.value.id in s.all && s.all[gone.value.id] == gone.value && RightlyEvicted(s, gone.value)
  {
    gone := None;
    hide Inv, InsertTx, MakesRoom, AllInFront, Genuine, RightlyEvicted, TakesIn;
    if status != Invalid {
      var room :| MakesRoom(s, c, room) && (t, added) == InsertTx(room, c, tx, status == Processable);
      gone := CommitInto(s, c, content, tx, status == Processable, room);
    }
  }

  lemma CommitInto(s: PoolState, c: PoolConfig, content: bytes -> Tx, tx: Tx, processable: bool, room: PoolState) returns (gone: Option<Tx>)
    requires Inv(s, c, content) && AllInFront(s) && Genuine(tx, content) && MakesRoom(s, c, room)
    requires c.maxTransactions >= 1 && c.maxTransactionsPerAccount >= 1
    ensures gone.Some? <==> |s.all| == c.maxTransactions
    ensures gone.Some? ==> gone.value.id in s.all && s.all[gone.value.id] == gone.value && RightlyEvicted(s, gone.value)
    ensures var (t, added) := InsertTx(room, c, tx, processable); TakesIn(Without(s.all, gone), tx, added, t.all)
  {
    hide *;
    gone := RoomMade(s, c, content, room);
    InsertLoses(room, c, content, tx, processable);
  }

  lemma InvBounds(s: PoolState, c: PoolConfig, content: bytes -> Tx)
    requires Inv(s, c, content)
    ensures Consistent(s, c) && |s.all| <= c.maxTransactions
  {
  }

  lemma RoomMade(s: PoolState, c: PoolConfig, content: bytes -> Tx, room: PoolState) returns (gone: Option<Tx>)
    requires Inv(s, c, content) && AllInFront(s) && MakesRoom(s, c, room) && c.maxTransactions >= 1
    ensures Inv(room, c, content)
    ensures gone.Some? <==> |s.all| == c.maxTransactions
    ensures gone.Some? ==> gone.value.id in s.all && s.all[gone.value.id] == gone.value && RightlyEvicted(s, gone.value)
    ensures room.all == Without(s.all, gone)
  {
    hide Inv, Consistent, AllInFront, RightlyEvicted, RemoveTx, EvictsUnprocessable, EvictsProcessable, IsUnprocessable, IsHead;
    InvBounds(s, c, content);
    MakesRoomKeeps(s, c, content, room);
    if |s.all| < c.maxTransactions {
      gone := None;
    } else {
      var tx := EvictedBy(s, c, room);
      hide MakesRoom;
      ListedIsPooled(s, c, tx);
      LeastIsRight(s, c, tx);
      gone := Some(tx);
      RemovedAll(s, tx);
    }
  }

  lemma RemovedAll(s: PoolState, tx: Tx)
    requires CanRemove(s, tx) && tx.id in s.all
    ensures RemoveTx(s, tx).all == s.all - {tx.id}
  {
  }

  lemma EvictedBy(s: PoolState, c: PoolConfig, room: PoolState) returns (tx: Tx)
    requires Consistent(s, c) && MakesRoom(s, c, room) && |s.all| >= c.maxTransactions >= 1
    ensures if exists x :: IsUnprocessable(s, x) then LeastUnprocessable(s, tx) else LeastHead(s, tx)
    ensures CanRemove(s, tx) && room == RemoveTx(s, tx)
  {
    assert s.all != map[];
    hide Consistent, IsUnprocessable, IsHead, RemoveTx, CanRemove, LeastUnprocessable, LeastHead, EvictsUnprocessable, EvictsProcessable;
    SomethingToEvict(s, c);
    if exists x :: IsUnprocessable(s, x) {
      tx := EvictedUnprocessable(s, room);
    } else {
      tx := EvictedHead(s, room);
    }
  }

  lemma EvictedUnprocessable(s: PoolState, room: PoolState) returns (tx: Tx)
    requires EvictsUnprocessable(s, room, true)
    ensures LeastUnprocessable(s, tx) && CanRemove(s, tx) && room == RemoveTx(s, tx)
  {
    hide IsUnprocessable, RemoveTx, LeastUnprocessable;
    tx :| LeastUnprocessable(s, tx) && CanRemove(s, tx) && room == RemoveTx(s, tx);
  }

  lemma EvictedHead(s: PoolState, room: PoolState) returns (tx: Tx)
    requires (exists x :: IsHead(s, x)) && exists evicted :: EvictsProcessable(s, room, evicted)
    ensures LeastHead(s, tx) && CanRemove(s, tx) && room == RemoveTx(s, tx)
  {
    hide IsHead, RemoveTx, LeastHead;
    tx :| LeastHead(s, tx) && CanRemove(s, tx) && room == RemoveTx(s, tx);
  }

  /** Inserting loses at most one transaction, of the same account. */
  lemma InsertLoses(s: PoolState, c: PoolConfig, content: bytes -> Tx, tx: Tx, processable: bool)
    requires Inv(s, c, content) && Genuine(tx, content) && c.maxTransactionsPerAccount >= 1
    ensures var (t, added) := InsertTx(s, c, tx, processable);
            TakesIn(s.all, tx, added, t.all)
  {
    hide Inv, Consistent, Genuine, InsertTx, QueueCovers, NoCollision;
    GenuineIsUnique(s, c, content, tx);
    InvBounds(s, c, content);
    InsertConsistent(s, c, tx, processable);
    OnlyOwnLost(s, c, tx, processable);
  }

  lemma OnlyOwnLost(s: PoolState, c: PoolConfig, tx: Tx, processable: bool)
    requires Consistent(s, c) && NoCollision(s, tx) && c.maxTransactionsPerAccount >= 1
    ensures var (t, added) := InsertTx(s, c, tx, processable);
            forall id | id in s.all :: (id in t.all && t.all[id] == s.all[id]) || s.all[id].sender == tx.sender
  {
    var l := ListAt(s, tx.sender);
    var r := Add(l, ListConfig(c), tx, processable);
    if r.added && r.removed.Some? {
      RemovedIsOwn(s, c, tx, processable);
    }
    hide Add, Consistent;
  }

  lemma RemovedIsOwn(s: PoolState, c: PoolConfig, tx: Tx, processable: bool)
    requires Consistent(s, c) && c.maxTransactionsPerAccount >= 1
    requires var r := Add(ListAt(s, tx.sender), ListConfig(c), tx, processable); r.added && r.removed.Some?
    ensures var id := Add(ListAt(s, tx.sender), ListConfig(c), tx, processable).removed.value;
            id in s.all && s.all[id].sender == tx.sender
  {
    hide Consistent, Valid, Add;
    var l := ListAt(s, tx.sender);
    InsertValidList(s, c, tx.sender);
    AddPlaces(l, ListConfig(c), tx, processable);
    var r := Add(l, ListConfig(c), tx, processable);
    var m :| m in l.txs && r.removed == Some(l.txs[m].id);
    assert Filed(s, tx.sender, m);
  }

  /**
   What a check does to the pool: it evicts, rightly, if and only if the incoming transaction passes the first tests, the pool is
   full, nothing in the queue has a lower priority, half of the pool is unprocessable and there is something unprocessable.
   */
  lemma CheckLoses(s: PoolState, c: PoolConfig, content: bytes -> Tx, tx: Tx, t: PoolState, outcome: CheckOutcome)
    requires Inv(s, c, content) && AllInFront(s) && AllValid(s) && Checks(s, c, tx, t, outcome)
    ensures t != s <==>
              && Admissible(s, c, tx) && BelowQueue(s, c, tx) && |UnprocessablePairs(s)| >= c.maxTransactions / 2
              && SomeNotProcessable(s)
    ensures t != s ==> outcome == Continue && LosesRightly(s, t)
  {
    InvBounds(s, c, content);
    hide Inv, BelowQueue, UnprocessablePairs, EvictsUnprocessable, Consistent, AllInFront, Valid, SomeNotProcessable, LosesRightly, Priority;
    if evicted :| EvictsUnprocessable(s, t, evicted) {
      EvictsIff(s, c, t, evicted);
    }
  }

  ghost predicate SomeNotProcessable(s: PoolState) {
    exists x :: NotProcessable(s, x)
  }

  /** An unprocessable transaction, rightly evicted, has left the pool. */
  ghost predicate LosesRightly(s: PoolState, t: PoolState) {
    exists gone :: NotProcessable(s, gone) && RightlyEvicted(s, gone) && t.all == s.all - {gone.id}
  }

  lemma EvictsIff(s: PoolState, c: PoolConfig, t: PoolState, evicted: bool)
    requires Consistent(s, c) && AllInFront(s) && EvictsUnprocessable(s, t, evicted)
    ensures t != s <==> SomeNotProcessable(s)
    ensures t != s ==> LosesRightly(s, t)
  {
    hide EvictsUnprocessable, Consistent, AllInFront, SomeNotProcessable, LosesRightly, IsUnprocessable;
    UnprocessableThere(s, c);
    if exists x :: IsUnprocessable(s, x) {
      CheckEvicted(s, c, t, evicted);
    } else {
      NothingEvicted(s, t, evicted);
    }
  }

  lemma UnprocessableThere(s: PoolState, c: PoolConfig)
    requires Consistent(s, c) && AllInFront(s)
    ensures (exists x :: IsUnprocessable(s, x)) <==> SomeNotProcessable(s)
  {
    hide Consistent, IsUnprocessable, NotProcessable, Nonces;
    forall x
      ensures IsUnprocessable(s, x) <==> NotProcessable(s, x)
    {
      UnprocessableMeans(s, c, x);
    }
  }

  lemma NothingEvicted(s: PoolState, t: PoolState, evicted: bool)
    requires EvictsUnprocessable(s, t, evicted) && !exists x :: IsUnprocessable(s, x)
    ensures t == s
  {
    hide IsUnprocessable;
  }

  lemma CheckEvicted(s: PoolState, c: PoolConfig, t: PoolState, evicted: bool)
    requires Consistent(s, c) && AllInFront(s) && EvictsUnprocessable(s, t, evicted) && exists x :: IsUnprocessable(s, x)
    ensures t != s && LosesRightly(s, t)
  {
    hide Consistent, AllInFront, NotProcessable, RightlyEvicted, RemoveTx, LeastUnprocessable, IsUnprocessable;
    var gone := EvictedUnprocessable(s, t);
    assert IsUnprocessable(s, gone) by { LeastIs(s, gone); }
    ListedIsPooled(s, c, gone);
    RemovedAll(s, gone);
    LeastIsRight(s, c, gone);
    RightIsUnprocessable(s, c, gone);
  }

  lemma LeastIs(s: PoolState, gone: Tx)
    requires LeastUnprocessable(s, gone)
    ensures IsUnprocessable(s, gone)
  {
    hide IsUnprocessable;
  }

  lemma RightIsUnprocessable(s: PoolState, c: PoolConfig, gone: Tx)
    requires Consistent(s, c) && AllInFront(s) && IsUnprocessable(s, gone)
    ensures NotProcessable(s, gone)
  {
    hide Consistent, IsUnprocessable, NotProcessable, Nonces;
    UnprocessableMeans(s, c, gone);
  }

  /* ---- Replacement across the pool ---- */

  /**
   A commit that changes the holder of a nonce pays the difference, unless the pool was full and the old holder was evicted
   to make room for the new one.
   */
  lemma CommitPays(s: PoolState, c: PoolConfig, content: bytes -> Tx, tx: Tx, status: TransactionStatus, t: PoolState, added: bool,
                   a: bytes, n: nat)
    requires Inv(s, c, content) && Commits(s, c, tx, status, t, added) && c.maxTransactions >= 1
    requires a in s.lists && n in s.lists[a].txs && a in t.lists && n in t.lists[a].txs
    ensures var x, y := s.lists[a].txs[n], t.lists[a].txs[n];
            || y == x || y.fee >= x.fee + c.minReplacementFeeDifference
            || (|s.all| == c.maxTransactions && y == tx && exists room :: MakesRoom(s, c, room) && x.id !in room.all)
  {
    if status != Invalid {
      InvBounds(s, c, content);
      hide Inv, InsertTx, MakesRoom, Consistent;
      var room :| MakesRoom(s, c, room) && (t, added) == InsertTx(room, c, tx, status == Processable);
      MakesRoomKeeps(s, c, content, room);
      InvBounds(room, c, content);
      RoomLists(s, c, room, a, n);
      InsertHolder(room, c, tx, status == Processable, a, n);
      if n !in ListAt(room, a).txs {
        LeftPool(s, c, room, a, n);
      }
    }
  }

  lemma RoomLists(s: PoolState, c: PoolConfig, room: PoolState, a: bytes, n: nat)
    requires Consistent(s, c) && MakesRoom(s, c, room) && a in s.lists && n in s.lists[a].txs
    ensures n in ListAt(room, a).txs ==> ListAt(room, a).txs[n] == s.lists[a].txs[n]
    ensures |s.all| < c.maxTransactions ==> room == s
    ensures forall id | id in room.all :: id in s.all && room.all[id] == s.all[id]
  {
    hide Consistent, IsUnprocessable, IsHead, LeastHead, LeastUnprocessable;
    if room != s {
      var gone := Evicted(s, c, room);
    }
  }

  /** Inserting gives a nonce a new holder only for the incoming transaction, and over an old one only for the difference. */
  lemma InsertHolder(s: PoolState, c: PoolConfig, tx: Tx, processable: bool, a: bytes, n: nat)
    requires var t := InsertTx(s, c, tx, processable).0; a in t.lists && n in t.lists[a].txs
    ensures var y := InsertTx(s, c, tx, processable).0.lists[a].txs[n];
            if n in ListAt(s, a).txs then y == ListAt(s, a).txs[n] || y.fee >= ListAt(s, a).txs[n].fee + c.minReplacementFeeDifference
            else y == tx
  {
    hide Add;
    if a == tx.sender {
      AddHolder(ListAt(s, a), ListConfig(c), tx, processable, n);
    }
  }

  lemma AddHolder(l: ListState, cfg: Config, tx: Tx, processable: bool, n: nat)
    requires n in Add(l, cfg, tx, processable).state.txs
    ensures var y := Add(l, cfg, tx, processable).state.txs[n];
            if n in l.txs then y == l.txs[n] || y.fee >= l.txs[n].fee + cfg.minReplacementFeeDifference else y == tx
  {
    hide Below;
    HighestSpec(l);
  }

  lemma LeftPool(s: PoolState, c: PoolConfig, room: PoolState, a: bytes, n: nat)
    requires Consistent(s, c) && Consistent(room, c) && a in s.lists && n in s.lists[a].txs && n !in ListAt(room, a).txs
    requires forall id | id in room.all :: id in s.all && room.all[id] == s.all[id]
    ensures s.lists[a].txs[n].id !in room.all
  {
    hide Consistent;
    var x := s.lists[a].txs[n];
    Places(s, c, a, n);
    if x.id in room.all {
      PooledIsListed(room, c, x);
      assert false;
    }
  }

  /** The transactions the pool counts as unprocessable are those that are not processable, if these are the highest of their accounts. */
  lemma UnprocessableCount(s: PoolState, c: PoolConfig)
    requires Consistent(s, c) && AllInFront(s)
    ensures AllValid(s)
    ensures |UnprocessablePairs(s)| == |set id | id in s.all && NotProcessable(s, s.all[id])|
  {
    ListsValid(s, c);
    var pairs, ids := UnprocessablePairs(s), set id | id in s.all && NotProcessable(s, s.all[id]);
    forall p | p in pairs
      ensures IdAt(s, p) in ids && PairOf(s, IdAt(s, p)) == p
    {
      PairIsId(s, c, p.0, p.1);
    }
    forall id | id in ids
      ensures PairOf(s, id) in pairs && IdAt(s, PairOf(s, id)) == id
    {
      IdIsPair(s, c, id);
    }
    hide *;
    SameSize(pairs, ids, p => IdAt(s, p), id => PairOf(s, id));
  }

  function IdAt(s: PoolState, p: (bytes, nat)): bytes {
    if p.0 in s.lists && p.1 in s.lists[p.0].txs then s.lists[p.0].txs[p.1].id else []
  }

  function PairOf(s: PoolState, id: bytes): (bytes, nat) {
    if id in s.all then (s.all[id].sender, s.all[id].nonce) else ([], 0)
  }

  lemma PairIsId(s: PoolState, c: PoolConfig, a: bytes, n: nat)
    requires Consistent(s, c) && AllInFront(s) && a in s.lists && Valid(s.lists[a]) && n in s.lists[a].txs
    requires n in UnprocessableNonces(s.lists[a])
    ensures var id := IdAt(s, (a, n)); id in s.all && NotProcessable(s, s.all[id]) && PairOf(s, id) == (a, n)
  {
    hide Consistent, AllInFront, Valid, UnprocessableNonces, NotProcessable, Nonces;
    Places(s, c, a, n);
    var tx := s.lists[a].txs[n];
    assert s.lists[a].processable <= Nonces(s.lists[a]) by { InFront(s, a); }
    UnprocessableMeans(s, c, tx);
  }

  lemma InFront(s: PoolState, a: bytes)
    requires AllInFront(s) && a in s.lists
    ensures s.lists[a].processable <= Nonces(s.lists[a])
  {
  }

  lemma IdIsPair(s: PoolState, c: PoolConfig, id: bytes)
    requires Consistent(s, c) && AllInFront(s) && AllValid(s) && id in s.all && NotProcessable(s, s.all[id])
    ensures PairOf(s, id) in UnprocessablePairs(s) && IdAt(s, PairOf(s, id)) == id
  {
    hide Consistent, AllInFront, Valid, UnprocessableNonces, NotProcessable, Nonces;
    var tx := s.all[id];
    PooledHasId(s, c, id);
    PooledIsListed(s, c, tx);
    assert s.lists[tx.sender].processable <= Nonces(s.lists[tx.sender]) by { InFront(s, tx.sender); }
    UnprocessableMeans(s, c, tx);
  }

  lemma {:induction false} SameSize<A(!new), B(!new)>(xs: set<A>, ys: set<B>, f: A -> B, g: B -> A)
    requires forall x | x in xs :: f(x) in ys && g(f(x)) == x
    requires forall y | y in ys :: g(y) in xs && f(g(y)) == y
    ensures |xs| == |ys|
    decreases xs
  {
    if xs == {} {
      assert forall y | y in ys :: g(y) in xs;
      assert ys == {};
    } else {
      var x :| x in xs;
      var y := f(x);
      assert xs == (xs - {x}) + {x} && ys == (ys - {y}) + {y};
      SameSize(xs - {x}, ys - {y}, f, g);
    }
  }

  lemma Places(s: PoolState, c: PoolConfig, a: bytes, n: nat)
    requires Consistent(s, c) && a in s.lists && n in s.lists[a].txs
    ensures Filed(s, a, n)
  {
    assert ListKept(s, c, a);
  }

  lemma PooledHasId(s: PoolState, c: PoolConfig, id: bytes)
    requires Consistent(s, c) && id in s.all
    ensures s.all[id].id == id
  {
    hide ListKept;
  }
}
