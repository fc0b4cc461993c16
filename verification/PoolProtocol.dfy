/**
 The pool as a protocol. Every `await` lets other calls run, so a run is any interleaving of checks, commits, removals
 (from callers, the expiry job and the reorganisation) and promotions.
 */
module PoolProtocol {
  import opened Wrappers
  import opened NonceList
  import opened PoolModel

  /** `inFlight` are the transactions whose `add` waits for the verifier. */
  datatype System = System(pool: PoolState, inFlight: multiset<Tx>)

  const START: System := System(EMPTY_POOL, multiset{})

  datatype Step =
    | CheckStep(incoming: Tx, outcome: CheckOutcome)
    | CommitStep(verified: Tx, status: TransactionStatus, added: bool)
    | RemoveStep(removed: Tx)
    | PromoteStep(account: bytes, promoted: seq<Tx>)

  ghost predicate AllValid(s: PoolState) {
    forall a | a in s.lists :: Valid(s.lists[a])
  }

  /** A promotion can also do nothing: it compares id buffers by identity, so a transaction received anew differs from the old one. */
  ghost predicate Takes(s: System, c: PoolConfig, content: bytes -> Tx, step: Step, t: System) {
    match step
    case CheckStep(tx, outcome) =>
      && Genuine(tx, content) && AllValid(s.pool) && Checks(s.pool, c, tx, t.pool, outcome)
      && t.inFlight == if outcome == Continue then s.inFlight + multiset{tx} else s.inFlight
    case CommitStep(tx, status, added) =>
      && tx in s.inFlight && t.inFlight == s.inFlight - multiset{tx} && Commits(s.pool, c, tx, status, t.pool, added)
    case RemoveStep(tx) =>
      Genuine(tx, content) && t.inFlight == s.inFlight && CanRemove(s.pool, tx) && t.pool == RemoveTx(s.pool, tx)
    case PromoteStep(a, txs) =>
      && t.inFlight == s.inFlight
      && (t.pool == s.pool || (a in s.pool.lists && t.pool == PromoteIn(s.pool, a, txs)))
  }

  ghost predicate Safe(s: System, c: PoolConfig, content: bytes -> Tx) {
    Inv(s.pool, c, content) && forall tx | tx in s.inFlight :: Genuine(tx, content)
  }

  lemma StepKeepsSafe(s: System, c: PoolConfig, content: bytes -> Tx, step: Step, t: System)
    requires Safe(s, c, content) && Takes(s, c, content, step, t)
    requires c.maxTransactions >= 1 && c.maxTransactionsPerAccount >= 1
    ensures Safe(t, c, content)
  {
    hide Inv, Checks, Commits, RemoveTx, PromoteIn, Genuine, CanRemove;
    match step
    case CheckStep(tx, outcome) => CheckKeeps(s.pool, c, content, tx, t.pool, outcome);
    case CommitStep(tx, status, added) => CommitKeeps(s.pool, c, content, tx, status, t.pool, added);
    case RemoveStep(tx) => RemoveKeeps(s.pool, c, content, tx);
    case PromoteStep(a, txs) =>
      if a in s.pool.lists {
        PromoteKeeps(s.pool, c, content, a, txs);
      }
  }

  /** No step ever waits on a pool it cannot handle: the conditions under which the code does not throw always hold. */
  lemma SafeNeverThrows(s: System, c: PoolConfig, content: bytes -> Tx, tx: Tx)
    requires Safe(s, c, content)
    ensures AllValid(s.pool) && CanRemove(s.pool, tx)
  {
    ListsValid(s.pool, c);
    hide ListKept, QueueCovers;
  }

  ghost predicate IsPoolRun(states: seq<System>, steps: seq<Step>, c: PoolConfig, content: bytes -> Tx) {
    && |states| == |steps| + 1 && states[0] == START
    && forall i | 0 <= i < |steps| :: Takes(states[i], c, content, steps[i], states[i + 1])
  }

  /**
   In every state of every interleaving the ids of the pool are the disjoint union of those in the lists, no list is
   empty, the pool is within its capacity and the queue holds every pooled id with its true priority.
   */
  lemma {:induction false} RunsAreSafe(states: seq<System>, steps: seq<Step>, c: PoolConfig, content: bytes -> Tx, i: nat)
    requires IsPoolRun(states, steps, c, content) && i < |states|
    requires c.maxTransactions >= 1 && c.maxTransactionsPerAccount >= 1
    ensures Safe(states[i], c, content)
    decreases i
  {
    if i == 0 {
      StartIsSafe(c, content);
      hide Takes, Safe;
    } else {
      hide Takes, Safe;
      RunsAreSafe(states, steps, c, content, i - 1);
      StepKeepsSafe(states[i - 1], c, content, steps[i - 1], states[i]);
    }
  }

  lemma {:induction false} CapacityOverRuns(states: seq<System>, steps: seq<Step>, c: PoolConfig, content: bytes -> Tx, i: nat)
    requires IsPoolRun(states, steps, c, content) && i < |states|
    requires c.maxTransactions >= 1 && c.maxTransactionsPerAccount >= 1
    ensures |states[i].pool.all| <= c.maxTransactions
    ensures forall a | a in states[i].pool.lists :: 0 < |states[i].pool.lists[a].txs| <= c.maxTransactionsPerAccount
  {
    hide IsPoolRun, QueueCovers, Indexed, AllGenuine;
    RunsAreSafe(states, steps, c, content, i);
    var s := states[i].pool;
    forall a | a in s.lists
      ensures 0 < |s.lists[a].txs| <= c.maxTransactionsPerAccount
    {
      assert ListKept(s, c, a);
    }
  }

  /** Whenever a run rejects for fee priority, the pool is full and every pooled transaction has at least that priority. */
  lemma RejectionsAreJust(states: seq<System>, steps: seq<Step>, c: PoolConfig, content: bytes -> Tx, i: nat)
    requires IsPoolRun(states, steps, c, content) && i < |steps|
    requires c.maxTransactions >= 1 && c.maxTransactionsPerAccount >= 1
    requires steps[i].CheckStep? && steps[i].outcome == LowFeePriority
    ensures |states[i].pool.all| == c.maxTransactions && states[i + 1] == states[i]
    ensures forall id | id in states[i].pool.all :: Priority(steps[i].incoming) <= Priority(states[i].pool.all[id])
  {
    RunsAreSafe(states, steps, c, content, i);
    assert Takes(states[i], c, content, steps[i], states[i + 1]);
    hide IsPoolRun, Inv, Safe, Priority, UnprocessablePairs;
    assert Safe(states[i], c, content);
    SafeIsInv(states[i], c, content);
    PriorityRejectionIsJust(states[i].pool, c, content, steps[i].incoming, states[i + 1].pool);
  }

  /** Exactly when a check of a run rejects for fee priority, once the earlier tests are passed. */
  lemma RejectionsIff(states: seq<System>, steps: seq<Step>, c: PoolConfig, content: bytes -> Tx, i: nat)
    requires IsPoolRun(states, steps, c, content) && i < |steps|
    requires c.maxTransactions >= 1 && c.maxTransactionsPerAccount >= 1
    requires steps[i].CheckStep? && Admissible(states[i].pool, c, steps[i].incoming)
    ensures AllValid(states[i].pool)
    ensures var s, tx := states[i].pool, steps[i].incoming;
            steps[i].outcome == LowFeePriority
            <==> && |s.all| == c.maxTransactions && |UnprocessablePairs(s)| < c.maxTransactions / 2
                 && forall nd | nd in s.queue :: Priority(tx) <= nd.key
  {
    RunsAreSafe(states, steps, c, content, i);
    var s, tx, t := states[i].pool, steps[i].incoming, states[i + 1].pool;
    assert Takes(states[i], c, content, steps[i], states[i + 1]);
    assert AllValid(s) && Checks(s, c, tx, t, steps[i].outcome);
    hide IsPoolRun, Inv, Takes, Safe, Checks, Priority, UnprocessablePairs, Valid, Admissible;
    SafeIsInv(states[i], c, content);
    PriorityRejectionIff(s, c, content, tx);
    if u :| Checks(s, c, tx, u, LowFeePriority) {
      OneOutcome(s, c, tx, u, t, steps[i].outcome);
    }
  }

  lemma OneOutcome(s: PoolState, c: PoolConfig, tx: Tx, t: PoolState, u: PoolState, outcome: CheckOutcome)
    requires AllValid(s) && Checks(s, c, tx, t, LowFeePriority) && Checks(s, c, tx, u, outcome)
    ensures outcome == LowFeePriority
  {
    hide EvictsUnprocessable, UnprocessablePairs, BelowQueue, Valid;
  }

  lemma SafeIsInv(s: System, c: PoolConfig, content: bytes -> Tx)
    requires Safe(s, c, content)
    ensures Inv(s.pool, c, content)
  {
  }

  /* ---- The order of the lists over runs ---- */

  /** What a commit inserts is in order for the list it meets after the evictions. */
  ghost predicate InsertsInOrder(s: PoolState, c: PoolConfig, tx: Tx, processable: bool, t: PoolState, added: bool) {
    exists room ::
      && MakesRoom(s, c, room) && (t, added) == InsertTx(room, c, tx, processable)
      && AddsInOrder(ListAt(room, tx.sender), ListConfig(c), tx, processable)
  }

  /**
   What a commit or a promotion must respect for the lists to stay ordered. A promotion may be of transactions read long
   ago, as long as, beside nonces that are processable already, they are the first few of what is promotable now.
   */
  ghost predicate Orderly(s: System, c: PoolConfig, step: Step, t: System) {
    match step
    case CommitStep(tx, status, added) =>
      status == Invalid || InsertsInOrder(s.pool, c, tx, status == Processable, t.pool, added)
    case PromoteStep(a, txs) =>
      || t.pool == s.pool
      || (a in s.pool.lists && StillThere(s.pool.lists[a], txs) ==>
            Valid(s.pool.lists[a]) && exists k: nat :: FillsUp(s.pool.lists[a], k, txs))
    case _ => true
  }

  /** A legal addition stays legal when a transaction leaves the list. */
  lemma LegalAfterRemove(l: ListState, nonce: nat, tx: Tx, processable: bool)
    requires Valid(l) && LegalAdd(l, tx, processable)
    ensures LegalAdd(Remove(l, nonce), tx, processable)
  {
    BelowIsPrefix(l.processable, nonce);
  }

  lemma LegalAfterRemoveTx(s: PoolState, gone: Tx, tx: Tx, processable: bool)
    requires CanRemove(s, gone) && AllValid(s) && LegalAdd(ListAt(s, tx.sender), tx, processable)
    ensures LegalAdd(ListAt(RemoveTx(s, gone), tx.sender), tx, processable)
  {
    if gone.id in s.all {
      var a := s.all[gone.id].sender;
      if a == tx.sender {
        LegalAfterRemove(s.lists[a], gone.nonce, tx, processable);
      }
      hide Valid, Remove, LegalAdd, QueueOf;
      LegalForEmpty(tx, processable);
    }
  }

  lemma LegalForEmpty(tx: Tx, processable: bool)
    ensures LegalAdd(EMPTY, tx, processable)
  {
  }

  lemma RoomKeepsOrder(s: PoolState, c: PoolConfig, t: PoolState)
    requires MakesRoom(s, c, t) && AllValid(s) && AllLowest(s)
    ensures AllLowest(t)
  {
    hide RemoveTx, CanRemove, AllLowest, IsUnprocessable, IsHead;
    if t != s {
      var gone := Evicted(s, c, t);
      RemoveKeepsAllLowest(s, gone);
    }
  }

  lemma RoomKeepsLegal(s: PoolState, c: PoolConfig, t: PoolState, tx: Tx, processable: bool)
    requires MakesRoom(s, c, t) && AllValid(s) && LegalAdd(ListAt(s, tx.sender), tx, processable)
    ensures LegalAdd(ListAt(t, tx.sender), tx, processable)
  {
    hide RemoveTx, CanRemove, LegalAdd, IsUnprocessable, IsHead;
    if t != s {
      var gone := Evicted(s, c, t);
      LegalAfterRemoveTx(s, gone, tx, processable);
    }
  }

  lemma Evicted(s: PoolState, c: PoolConfig, t: PoolState) returns (gone: Tx)
    requires MakesRoom(s, c, t) && t != s
    ensures CanRemove(s, gone) && t == RemoveTx(s, gone)
  {
    hide RemoveTx, IsUnprocessable, IsHead, LeastHead, LeastUnprocessable;
    gone :| CanRemove(s, gone) && t == RemoveTx(s, gone);
  }

  /** Exactly when a step keeps every list ordered. */
  lemma StepKeepsOrderIff(s: System, c: PoolConfig, content: bytes -> Tx, step: Step, t: System)
    requires Safe(s, c, content) && Takes(s, c, content, step, t) && AllLowest(s.pool)
    requires c.maxTransactions >= 1 && c.maxTransactionsPerAccount >= 1
    ensures AllLowest(t.pool) <==> Orderly(s, c, step, t)
  {
    hide Safe, AllLowest, Checks, Commits, InsertsInOrder, RemoveTx, Promote, FillsUp;
    match step
    case CheckStep(tx, outcome) => CheckKeepsOrder(s.pool, c, tx, t.pool, outcome);
    case CommitStep(tx, status, added) =>
      SafeIsInv(s, c, content);
      CommitKeepsOrderIff(s.pool, c, content, tx, status, t.pool, added);
    case RemoveStep(tx) =>
      SafeIsInv(s, c, content);
      RemoveKeepsAllLowest(s.pool, tx);
    case PromoteStep(a, txs) =>
      if t.pool != s.pool {
        PromoteKeepsOrderIff(s.pool, a, txs);
      }
  }

  lemma CheckKeepsOrder(s: PoolState, c: PoolConfig, tx: Tx, t: PoolState, outcome: CheckOutcome)
    requires AllLowest(s) && AllValid(s) && Checks(s, c, tx, t, outcome)
    ensures AllLowest(t)
  {
    hide AllLowest, RemoveTx, IsUnprocessable, UnprocessablePairs, BelowQueue, LeastUnprocessable;
    if t != s {
      var gone :| CanRemove(s, gone) && t == RemoveTx(s, gone);
      RemoveKeepsAllLowest(s, gone);
    }
  }

  /** Whatever room it makes: a commit keeps the lists ordered if and only if it inserts in order. */
  lemma CommitKeepsOrderIff(
    s: PoolState, c: PoolConfig, content: bytes -> Tx, tx: Tx, status: TransactionStatus, t: PoolState, added: bool)
    requires Inv(s, c, content) && AllLowest(s) && Commits(s, c, tx, status, t, added) && c.maxTransactions >= 1
    ensures AllLowest(t) <==> status == Invalid || InsertsInOrder(s, c, tx, status == Processable, t, added)
  {
    if status != Invalid {
      hide Inv, AllLowest, MakesRoom, InsertTx, AddsInOrder, ListAt, ListConfig;
      var processable := status == Processable;
      forall room | MakesRoom(s, c, room)
        ensures AllLowest(InsertTx(room, c, tx, processable).0)
           <==> AddsInOrder(ListAt(room, tx.sender), ListConfig(c), tx, processable)
      {
        RoomInserts(s, c, content, tx, processable, room);
      }
    }
  }

  lemma RoomInserts(s: PoolState, c: PoolConfig, content: bytes -> Tx, tx: Tx, processable: bool, room: PoolState)
    requires Inv(s, c, content) && AllLowest(s) && MakesRoom(s, c, room) && c.maxTransactions >= 1
    ensures AllLowest(InsertTx(room, c, tx, processable).0)
       <==> AddsInOrder(ListAt(room, tx.sender), ListConfig(c), tx, processable)
  {
    InvIsConsistent(s, c, content);
    ListsValid(s, c);
    hide Inv, AllLowest, MakesRoom, InsertTx, AddsInOrder, Consistent, AllValid;
    RoomKeepsOrder(s, c, room);
    MakesRoomKeeps(s, c, content, room);
    InvIsConsistent(room, c, content);
    InsertKeepsAllLowestIff(room, c, tx, processable);
  }

  /** Seen from before the evictions: a commit that flags only a lowest nonce, of none below the processable ones, is in order. */
  lemma LegalCommitIsOrderly(
    s: PoolState, c: PoolConfig, content: bytes -> Tx, tx: Tx, processable: bool, room: PoolState)
    requires Inv(s, c, content) && AllLowest(s) && MakesRoom(s, c, room)
    requires LegalAdd(ListAt(s, tx.sender), tx, processable)
    ensures AddsInOrder(ListAt(room, tx.sender), ListConfig(c), tx, processable)
  {
    InvIsConsistent(s, c, content);
    ListsValid(s, c);
    RoomKeepsOrder(s, c, room);
    EmptyLowest();
    hide Inv, MakesRoom, Lowest, AddsInOrder, LegalAdd;
    RoomKeepsLegal(s, c, room, tx, processable);
    LegalIsInOrder(ListAt(room, tx.sender), ListConfig(c), tx, processable);
  }

  lemma InvIsConsistent(s: PoolState, c: PoolConfig, content: bytes -> Tx)
    requires Inv(s, c, content)
    ensures Consistent(s, c)
  {
  }

  /** So for a promotion the condition is exact: with it every list stays ordered, without it the account's does not. */
  lemma PromoteKeepsOrderIff(s: PoolState, a: bytes, txs: seq<Tx>)
    requires AllLowest(s) && a in s.lists
    ensures Valid(s.lists[a])
    ensures AllLowest(PromoteIn(s, a, txs))
       <==> (StillThere(s.lists[a], txs) ==> exists k: nat :: FillsUp(s.lists[a], k, txs))
  {
    AllLowestIn(s, a, txs);
    var l := s.lists[a];
    hide *;
    LowestValid(l);
    PromoteKeepsLowestIff(l, txs);
  }

  lemma AllLowestIn(s: PoolState, a: bytes, txs: seq<Tx>)
    requires AllLowest(s) && a in s.lists
    ensures Lowest(s.lists[a]) && (AllLowest(PromoteIn(s, a, txs)) <==> Lowest(Promote(s.lists[a], txs)))
  {
    hide Lowest, Promote;
    var t := PromoteIn(s, a, txs);
    assert t.lists[a] == Promote(s.lists[a], txs);
  }

  /** As long as every step was orderly, every account's processable nonces are a consecutive run, the lowest of its list. */
  lemma {:induction false} OrderlyRunsKeepOrder(
    states: seq<System>, steps: seq<Step>, c: PoolConfig, content: bytes -> Tx, i: nat)
    requires IsPoolRun(states, steps, c, content) && i < |states|
    requires c.maxTransactions >= 1 && c.maxTransactionsPerAccount >= 1
    requires forall j | 0 <= j < i :: Orderly(states[j], c, steps[j], states[j + 1])
    ensures AllLowest(states[i].pool)
    decreases i
  {
    hide Takes, Orderly, Lowest, Safe;
    if i > 0 {
      OrderlyRunsKeepOrder(states, steps, c, content, i - 1);
      RunsAreSafe(states, steps, c, content, i - 1);
      StepKeepsOrderIff(states[i - 1], c, content, steps[i - 1], states[i]);
    }
  }

  /** An interleaving keeps every list ordered throughout if and only if every step of it is orderly. */
  lemma RunsKeepOrderIff(states: seq<System>, steps: seq<Step>, c: PoolConfig, content: bytes -> Tx)
    requires IsPoolRun(states, steps, c, content)
    requires c.maxTransactions >= 1 && c.maxTransactionsPerAccount >= 1
    ensures (forall i | 0 <= i < |states| :: AllLowest(states[i].pool))
       <==> forall i | 0 <= i < |steps| :: Orderly(states[i], c, steps[i], states[i + 1])
  {
    hide Takes, Orderly, AllLowest, Safe;
    if forall i | 0 <= i < |steps| :: Orderly(states[i], c, steps[i], states[i + 1]) {
      forall i | 0 <= i < |states|
        ensures AllLowest(states[i].pool)
      {
        OrderlyRunsKeepOrder(states, steps, c, content, i);
      }
    } else {
      var i := FirstDisorderly(states, steps, c, |steps|);
      OrderlyRunsKeepOrder(states, steps, c, content, i);
      RunsAreSafe(states, steps, c, content, i);
      StepKeepsOrderIff(states[i], c, content, steps[i], states[i + 1]);
      assert !AllLowest(states[i + 1].pool);
    }
  }

  lemma {:induction false} FirstDisorderly(states: seq<System>, steps: seq<Step>, c: PoolConfig, n: nat) returns (i: nat)
    requires |states| == |steps| + 1 && n <= |steps|
    requires exists j | 0 <= j < n :: !Orderly(states[j], c, steps[j], states[j + 1])
    ensures i < n && !Orderly(states[i], c, steps[i], states[i + 1])
    ensures forall j | 0 <= j < i :: Orderly(states[j], c, steps[j], states[j + 1])
    decreases n
  {
    hide Orderly;
    if exists j | 0 <= j < n - 1 :: !Orderly(states[j], c, steps[j], states[j + 1]) {
      i := FirstDisorderly(states, steps, c, n - 1);
    } else {
      i := n - 1;
    }
  }

  /* ---- No step is ever stuck ---- */

  lemma {:induction false} LeastOf(txs: set<Tx>) returns (tx: Tx)
    requires txs != {}
    ensures tx in txs && forall t | t in txs :: Priority(tx) <= Priority(t)
    decreases |txs|
  {
    hide Priority;
    var x :| x in txs;
    if txs == {x} {
      tx := x;
    } else {
      var rest := txs - {x};
      assert txs == rest + {x};
      var y := LeastOf(rest);
      tx := if Priority(x) <= Priority(y) then x else y;
    }
  }

  ghost function UnprocessableTxs(s: PoolState): set<Tx> {
    set id | id in s.all && IsUnprocessable(s, s.all[id]) :: s.all[id]
  }

  lemma InUnprocessableTxs(s: PoolState, c: PoolConfig, tx: Tx)
    requires Consistent(s, c)
    ensures tx in UnprocessableTxs(s) <==> IsUnprocessable(s, tx)
    ensures IsUnprocessable(s, tx) ==> CanRemove(s, tx)
  {
    hide Consistent;
    if IsUnprocessable(s, tx) {
      ListedIsPooled(s, c, tx);
    }
  }

  lemma EvictUnprocessableEnabled(s: PoolState, c: PoolConfig)
    requires Consistent(s, c)
    ensures exists t, evicted :: EvictsUnprocessable(s, t, evicted)
  {
    hide IsUnprocessable, Consistent, CanRemove, UnprocessableTxs, RemoveTx, Priority;
    if exists tx :: IsUnprocessable(s, tx) {
      forall tx
        ensures tx in UnprocessableTxs(s) <==> IsUnprocessable(s, tx)
      {
        InUnprocessableTxs(s, c, tx);
      }
      var least := LeastOf(UnprocessableTxs(s));
      InUnprocessableTxs(s, c, least);
      EvictsLeast(s, least);
    } else {
      assert EvictsUnprocessable(s, s, false);
    }
  }

  lemma EvictsLeast(s: PoolState, least: Tx)
    requires LeastUnprocessable(s, least) && CanRemove(s, least)
    ensures EvictsUnprocessable(s, RemoveTx(s, least), true)
  {
    hide IsUnprocessable, RemoveTx, Priority;
  }

  ghost function Heads(s: PoolState): set<Tx> {
    set id | id in s.all && IsHead(s, s.all[id]) :: s.all[id]
  }

  lemma InHeads(s: PoolState, c: PoolConfig, tx: Tx)
    requires Consistent(s, c)
    ensures tx in Heads(s) <==> IsHead(s, tx)
    ensures IsHead(s, tx) ==> CanRemove(s, tx)
  {
    hide Consistent;
    if IsHead(s, tx) {
      ListedIsPooled(s, c, tx);
    }
  }

  lemma EvictProcessableEnabled(s: PoolState, c: PoolConfig)
    requires Consistent(s, c)
    ensures exists t, evicted :: EvictsProcessable(s, t, evicted)
  {
    hide IsHead, Consistent, CanRemove, Heads, RemoveTx, Priority;
    if exists tx :: IsHead(s, tx) {
      forall tx
        ensures tx in Heads(s) <==> IsHead(s, tx)
      {
        InHeads(s, c, tx);
      }
      var least := LeastOf(Heads(s));
      InHeads(s, c, least);
      EvictsLeastHead(s, least);
    } else {
      assert EvictsProcessable(s, s, false);
    }
  }

  lemma EvictsLeastHead(s: PoolState, least: Tx)
    requires LeastHead(s, least) && CanRemove(s, least)
    ensures EvictsProcessable(s, RemoveTx(s, least), true)
  {
    hide IsHead, RemoveTx, Priority;
  }

  lemma RoomEnabled(s: PoolState, c: PoolConfig)
    requires Consistent(s, c)
    ensures exists t :: MakesRoom(s, c, t)
  {
    hide Consistent, IsUnprocessable, IsHead, RemoveTx, CanRemove;
    if |s.all| < c.maxTransactions {
      assert MakesRoom(s, c, s);
    } else if exists tx :: IsUnprocessable(s, tx) {
      EvictUnprocessableEnabled(s, c);
      var t, evicted :| EvictsUnprocessable(s, t, evicted);
      assert MakesRoom(s, c, t);
    } else {
      EvictProcessableEnabled(s, c);
      var t, evicted :| EvictsProcessable(s, t, evicted);
      assert MakesRoom(s, c, t);
    }
  }

  lemma ChecksEnabled(s: PoolState, c: PoolConfig, tx: Tx)
    requires Consistent(s, c) && AllValid(s)
    ensures exists t, outcome :: Checks(s, c, tx, t, outcome)
  {
    hide Consistent, EvictsUnprocessable, UnprocessablePairs, BelowQueue, Valid;
    EvictUnprocessableEnabled(s, c);
    var t, evicted :| EvictsUnprocessable(s, t, evicted);
    assert Checks(s, c, tx, t, Continue) || Checks(s, c, tx, s, Continue) || Checks(s, c, tx, s, TooLong)
        || Checks(s, c, tx, s, Duplicate) || Checks(s, c, tx, s, LowEntranceFee) || Checks(s, c, tx, s, LowFeePriority);
  }

  lemma CommitsEnabled(s: PoolState, c: PoolConfig, tx: Tx, status: TransactionStatus)
    requires Consistent(s, c)
    ensures exists t, added :: Commits(s, c, tx, status, t, added)
  {
    hide Consistent, MakesRoom, InsertTx;
    if status == Invalid {
      assert Commits(s, c, tx, status, s, false);
    } else {
      RoomEnabled(s, c);
      var room :| MakesRoom(s, c, room);
      var (t, added) := InsertTx(room, c, tx, status == Processable);
      assert Commits(s, c, tx, status, t, added);
    }
  }

  lemma CheckEnabled(s: System, c: PoolConfig, content: bytes -> Tx, tx: Tx)
    requires Consistent(s.pool, c) && AllValid(s.pool) && Genuine(tx, content)
    ensures exists t, outcome :: Takes(s, c, content, CheckStep(tx, outcome), t)
  {
    hide Consistent, Checks, Genuine, Valid;
    ChecksEnabled(s.pool, c, tx);
    var p, outcome :| Checks(s.pool, c, tx, p, outcome);
    var checked := System(p, if outcome == Continue then s.inFlight + multiset{tx} else s.inFlight);
    assert Takes(s, c, content, CheckStep(tx, outcome), checked);
  }

  lemma CommitEnabled(s: System, c: PoolConfig, content: bytes -> Tx, tx: Tx, status: TransactionStatus)
    requires Consistent(s.pool, c) && tx in s.inFlight
    ensures exists t, added :: Takes(s, c, content, CommitStep(tx, status, added), t)
  {
    hide Consistent, Commits;
    CommitsEnabled(s.pool, c, tx, status);
    var q, added :| Commits(s.pool, c, tx, status, q, added);
    assert Takes(s, c, content, CommitStep(tx, status, added), System(q, s.inFlight - multiset{tx}));
  }

  /** In a safe state every call can take its next step: any transaction can be checked or removed, any in flight committed. */
  lemma StepsAreEnabled(s: System, c: PoolConfig, content: bytes -> Tx, tx: Tx, status: TransactionStatus)
    requires Safe(s, c, content) && Genuine(tx, content)
    ensures exists t, outcome :: Takes(s, c, content, CheckStep(tx, outcome), t)
    ensures tx in s.inFlight ==> exists t, added :: Takes(s, c, content, CommitStep(tx, status, added), t)
    ensures exists t :: Takes(s, c, content, RemoveStep(tx), t)
  {
    hide *;
    SafeIsInv(s, c, content);
    InvIsConsistent(s.pool, c, content);
    SafeNeverThrows(s, c, content, tx);
    CheckEnabled(s, c, content, tx);
    if tx in s.inFlight {
      CommitEnabled(s, c, content, tx, status);
    }
    RemoveEnabled(s, c, content, tx);
  }

  lemma RemoveEnabled(s: System, c: PoolConfig, content: bytes -> Tx, tx: Tx)
    requires CanRemove(s.pool, tx) && Genuine(tx, content)
    ensures exists t :: Takes(s, c, content, RemoveStep(tx), t)
  {
    hide Genuine, RemoveTx;
    assert Takes(s, c, content, RemoveStep(tx), System(RemoveTx(s.pool, tx), s.inFlight));
  }

  /** The empty pool is safe, so runs exist. */
  lemma StartIsSafe(c: PoolConfig, content: bytes -> Tx)
    ensures Safe(START, c, content) && AllLowest(START.pool) && IsPoolRun([START], [], c, content)
  {
  }

  /* ---- Reachable states ---- */

  ghost predicate Reachable(s: System, c: PoolConfig, content: bytes -> Tx) {
    exists states, steps :: IsPoolRun(states, steps, c, content) && states[|steps|] == s
  }

  lemma StartIsReachable(c: PoolConfig, content: bytes -> Tx)
    ensures Reachable(START, c, content)
  {
    var states, steps: seq<Step> := [START], [];
    assert IsPoolRun(states, steps, c, content) && states[|steps|] == START;
  }

  lemma StepReaches(s: System, c: PoolConfig, content: bytes -> Tx, step: Step, t: System)
    requires Reachable(s, c, content) && Takes(s, c, content, step, t)
    ensures Reachable(t, c, content)
  {
    hide Takes;
    var states, steps :| IsPoolRun(states, steps, c, content) && states[|steps|] == s;
    var longer, more := states + [t], steps + [step];
    forall i | 0 <= i < |more|
      ensures Takes(longer[i], c, content, more[i], longer[i + 1])
    {
      if i < |steps| {
        assert Takes(states[i], c, content, steps[i], states[i + 1]);
      }
    }
    assert IsPoolRun(longer, more, c, content) && longer[|more|] == t;
  }

  lemma ReachableIsSafe(s: System, c: PoolConfig, content: bytes -> Tx)
    requires Reachable(s, c, content) && c.maxTransactions >= 1 && c.maxTransactionsPerAccount >= 1
    ensures Safe(s, c, content)
  {
    hide Takes, Safe;
    var states, steps :| IsPoolRun(states, steps, c, content) && states[|steps|] == s;
    RunsAreSafe(states, steps, c, content, |steps|);
  }
}
