/** The class of elements/transaction-pool/src/transaction_pool.ts, proved against the values of PoolModel. */
module TransactionPool {
  import opened Wrappers
  import opened MinHeap
  import opened NonceList
  import opened PoolModel
  import opened Reorganization
  import Lists = TransactionList

  type AccountList = Lists.TransactionList

  /** The queue entries of some of the ids. */
  ghost function EntriesOf(all: map<bytes, Tx>, ids: set<bytes>): multiset<Node<bytes>>
    requires ids <= all.Keys
  {
    multiset(set id | id in ids :: Entry(all[id]))
  }

  lemma EntriesGrow(all: map<bytes, Tx>, ids: set<bytes>, id: bytes)
    requires ids <= all.Keys && id in all && id !in ids && forall i | i in all :: all[i].id == i
    ensures EntriesOf(all, ids + {id}) == EntriesOf(all, ids) + multiset{Entry(all[id])}
  {
    var before := set i | i in ids :: Entry(all[i]);
    var after := set i | i in ids + {id} :: Entry(all[i]);
    assert Entry(all[id]) !in before;
    assert after == before + {Entry(all[id])};
  }

  class TransactionPool {
    var allTransactions: map<bytes, Tx>
    var transactionList: map<bytes, AccountList>
    const feePriorityQueue: MinHeap<bytes>
    const c: PoolConfig

    /** The lists and their heaps. */
    ghost function ListRepr(): set<object>
      reads this`transactionList
    {
      transactionList.Values + (set l | l in transactionList.Values :: l.nonceHeap)
    }

    ghost function Repr(): set<object>
      reads this`transactionList
    {
      {this, feePriorityQueue} + ListRepr()
    }

    /** Each list is the one of its address and shares nothing with the others. */
    ghost predicate Separate()
      reads this`transactionList
    {
      && this !in ListRepr() && feePriorityQueue !in ListRepr()
      && (forall a | a in transactionList :: transactionList[a].address == a && transactionList[a].cfg == ListConfig(c))
      && forall a, b | a in transactionList && b in transactionList && a != b ::
           transactionList[a].nonceHeap != transactionList[b].nonceHeap
    }

    ghost predicate ListsValid()
      reads this`transactionList, ListRepr()
    {
      Separate() && forall a | a in transactionList :: transactionList[a].Valid()
    }

    ghost predicate Valid()
      reads this, Repr()
    {
      ListsValid() && feePriorityQueue.Valid()
    }

    ghost function ListStates(): (r: map<bytes, ListState>)
      reads this`transactionList, ListRepr()
      ensures r.Keys == transactionList.Keys && forall a | a in r :: r[a] == transactionList[a].State()
    {
      map a | a in transactionList :: transactionList[a].State()
    }

    ghost function State(): PoolState
      reads this, Repr()
    {
      PoolState(allTransactions, ListStates(), multiset(feePriorityQueue.nodes))
    }

    /** A call that changed one list left the others alone. */
    twostate lemma ListChanged(a: bytes)
      requires old(ListsValid()) && a in transactionList && transactionList == old(transactionList)
      requires transactionList[a].Valid()
      requires forall b | b in transactionList && b != a :: unchanged(transactionList[b]) && unchanged(transactionList[b].nonceHeap)
      ensures ListsValid() && ListStates() == old(ListStates())[a := transactionList[a].State()]
    {
      hide Lists.TransactionList.Valid;
      forall b | b in transactionList
        ensures transactionList[b].Valid()
      {
        if b != a {
          assert old(transactionList[b].Valid());
        }
      }
    }

    lemma KeysOfStates()
      ensures ListStates().Keys == transactionList.Keys
    {
    }

    /** Two accounts have different lists. */
    lemma ListsApart(a: bytes)
      requires ListsValid() && a in transactionList
      ensures forall b | b in transactionList && b != a ::
                transactionList[b] != transactionList[a] && transactionList[b].nonceHeap != transactionList[a].nonceHeap
      ensures transactionList[a] in ListRepr() && transactionList[a].nonceHeap in ListRepr()
      ensures this !in ListRepr() && feePriorityQueue !in ListRepr() && transactionList[a].Valid()
    {
    }

    constructor (c: PoolConfig)
      ensures Valid() && fresh(Repr()) && State() == EMPTY_POOL && this.c == c
    {
      this.c := c;
      allTransactions, transactionList := map[], map[];
      feePriorityQueue := new MinHeap();
    }

    /** Pushes every pooled transaction onto the cleared queue. */
    method RebuildQueue()
      requires forall id | id in allTransactions :: allTransactions[id].id == id
      modifies feePriorityQueue
      ensures feePriorityQueue.Valid() && multiset(feePriorityQueue.nodes) == QueueOf(allTransactions)
    {
      hide HeapOrdered, EntriesOf;
      feePriorityQueue.Clear();
      var todo := allTransactions.Keys;
      assert EntriesOf(allTransactions, allTransactions.Keys - todo) == multiset{} by { NoEntries(allTransactions, allTransactions.Keys - todo); }
      while todo != {}
        invariant todo <= allTransactions.Keys && feePriorityQueue.Valid()
        invariant multiset(feePriorityQueue.nodes) == EntriesOf(allTransactions, allTransactions.Keys - todo)
        decreases |todo|
      {
        var id :| id in todo;
        EntriesGrow(allTransactions, allTransactions.Keys - todo, id);
        assert allTransactions.Keys - todo + {id} == allTransactions.Keys - (todo - {id});
        var tx := allTransactions[id];
        feePriorityQueue.Push(Priority(tx), tx.id);
        todo := todo - {id};
      }
      assert allTransactions.Keys - todo == allTransactions.Keys;
      AllEntries(allTransactions);
    }

    /** The same, seen from the pool. */
    method Requeue()
      requires ListsValid() && forall id | id in allTransactions :: allTransactions[id].id == id
      modifies feePriorityQueue
      ensures Valid() && State() == old(State()).(queue := QueueOf(allTransactions))
    {
      hide QueueOf, HeapOrdered, Lists.TransactionList.Valid;
      RebuildQueue();
    }

    /** Takes a nonce out of an account's list, and the list out of the pool when it becomes empty. */
    method RemoveFromList(a: bytes, nonce: nat)
      requires ListsValid() && a in transactionList
      modifies this`transactionList, transactionList[a], transactionList[a].nonceHeap
      ensures ListsValid() && Repr() <= old(Repr())
      ensures ListStates() == PutList(old(ListStates()), a, NonceList.Remove(old(ListStates())[a], nonce))
    {
      hide NonceList.Remove, ListsValid, ListStates, ListRepr;
      var size := ShrinkList(a, nonce);
      if size == 0 {
        DropList(a);
      }
    }

    method ShrinkList(a: bytes, nonce: nat) returns (size: nat)
      requires ListsValid() && a in transactionList
      modifies transactionList[a], transactionList[a].nonceHeap
      ensures ListsValid() && ListStates() == old(ListStates())[a := NonceList.Remove(old(ListStates())[a], nonce)]
      ensures size == |ListStates()[a].txs|
    {
      hide Lists.TransactionList.Valid, NonceList.Remove, ListsValid, ListRepr;
      ListsApart(a);
      var list := transactionList[a];
      var _ := list.Remove(nonce);
      size := list.Size();
      ListChanged(a);
    }

    method DropList(a: bytes)
      requires ListsValid() && a in transactionList
      modifies this`transactionList
      ensures ListsValid() && Repr() <= old(Repr()) && ListStates() == old(ListStates()) - {a}
    {
      hide Lists.TransactionList.Valid;
      transactionList := transactionList - {a};
    }

    method Remove(tx: Tx) returns (removed: bool)
      requires Valid() && Consistent(State(), c) && NoCollision(State(), tx)
      modifies Repr()
      ensures Valid() && Repr() <= old(Repr())
      ensures CanRemove(old(State()), tx) && State() == RemoveTx(old(State()), tx) && removed == (tx.id in old(allTransactions))
    {
      hide Consistent, PutList, NonceList.Remove, HeapOrdered, ListStates, QueueOf, ListsValid, ListRepr;
      ghost var before := State();
      if tx.id !in allTransactions {
        return false;
      }
      PooledIsListed(before, c, tx.id);
      var foundTx := allTransactions[tx.id];
      assert foundTx.sender in transactionList by { KeysOfStates(); }
      ListsApart(foundTx.sender);
      allTransactions := allTransactions - {tx.id};
      RemoveFromList(foundTx.sender, tx.nonce);
      Requeue();
      return true;
    }

    /* ---- Eviction ---- */

    /** Reading the pool leaves it as it is. */
    twostate lemma Untouched()
      requires old(Valid()) && unchanged(this) && unchanged(feePriorityQueue)
      requires forall a | a in transactionList :: unchanged(transactionList[a]) && unchanged(transactionList[a].nonceHeap)
      ensures Valid() && State() == old(State()) && Repr() == old(Repr())
    {
      hide Lists.TransactionList.Valid;
    }

    /** The first loop of _evictUnprocessable. */
    method CollectUnprocessable() returns (heap: MinHeap<Tx>)
      requires Valid() && Consistent(State(), c)
      ensures fresh(heap) && heap.Valid() && CollectedUnprocessable(NodesOf(heap.nodes), old(State()), transactionList.Keys)
    {
      hide HeapOrdered, Consistent, CollectedUnprocessable, Lists.TransactionList.Valid, NodesOf, NodeOf, ListsValid, ListStates, ListRepr;
      EachList();
      ghost var s := State();
      heap := new MinHeap();
      var todo := transactionList.Keys;
      ghost var done: set<bytes> := {};
      NothingCollected(s);
      while todo != {}
        invariant done + todo == transactionList.Keys && fresh(heap) && heap.Valid()
        invariant CollectedUnprocessable(NodesOf(heap.nodes), s, done)
        decreases |todo|
      {
        var a :| a in todo;
        CollectFrom(transactionList[a], heap, a, s, c, done);
        todo, done := todo - {a}, done + {a};
      }
    }

    lemma EachList()
      requires ListsValid()
      ensures ListStates().Keys == transactionList.Keys
      ensures forall a | a in transactionList :: transactionList[a].Valid() && transactionList[a].State() == ListStates()[a]
    {
      hide Lists.TransactionList.Valid;
    }

    method LeastUnprocessableTx() returns (r: Option<Tx>)
      requires Valid() && Consistent(State(), c)
      ensures Valid() && State() == old(State()) && Repr() == old(Repr())
      ensures r.None? ==> !exists tx :: IsUnprocessable(State(), tx)
      ensures r.Some? ==> LeastUnprocessable(State(), r.value) && CanRemove(State(), r.value)
      ensures r.Some? ==> r.value.id in allTransactions && allTransactions[r.value.id] == r.value
    {
      hide HeapOrdered, Consistent, IsUnprocessable, LeastUnprocessable, NodesOf;
      ghost var s := State();
      var unprocessableFeePriorityHeap := CollectUnprocessable();
      ghost var nodes := unprocessableFeePriorityHeap.nodes;
      if unprocessableFeePriorityHeap.Count() < 1 {
        NoneCollected(nodes, s, c);
        Untouched();
        return None;
      }
      var evictedTransaction := unprocessableFeePriorityHeap.Pop();
      LeastCollected(nodes, s, c, evictedTransaction.value);
      Untouched();
      return Some(evictedTransaction.value.value);
    }

    /** _evictUnprocessable */
    method EvictUnprocessable() returns (evicted: bool)
      requires Valid() && Consistent(State(), c)
      modifies Repr()
      ensures Valid() && Repr() <= old(Repr()) && EvictsUnprocessable(old(State()), State(), evicted)
    {
      hide HeapOrdered, Consistent, ListsValid, ListStates, ListRepr, RemoveTx, IsUnprocessable;
      var evictedTransaction := LeastUnprocessableTx();
      if evictedTransaction == None {
        return false;
      }
      assert LeastUnprocessable(State(), evictedTransaction.value);
      evicted := Remove(evictedTransaction.value);
    }

    /** The first loop of _evictProcessable. */
    method CollectHeads() returns (heap: MinHeap<Tx>)
      requires Valid() && Consistent(State(), c)
      ensures fresh(heap) && heap.Valid() && CollectedHeads(NodesOf(heap.nodes), old(State()), transactionList.Keys)
    {
      hide HeapOrdered, Consistent, CollectedHeads, Lists.TransactionList.Valid, NodesOf, NodeOf, ListsValid, ListStates, ListRepr;
      EachList();
      ghost var s := State();
      heap := new MinHeap();
      var todo := transactionList.Keys;
      ghost var done: set<bytes> := {};
      NoHeadsCollected(s);
      while todo != {}
        invariant done + todo == transactionList.Keys && fresh(heap) && heap.Valid()
        invariant CollectedHeads(NodesOf(heap.nodes), s, done)
        decreases |todo|
      {
        var a :| a in todo;
        CollectHead(transactionList[a], heap, a, s, c, done);
        todo, done := todo - {a}, done + {a};
      }
    }

    method LeastHeadTx() returns (r: Option<Tx>)
      requires Valid() && Consistent(State(), c)
      ensures Valid() && State() == old(State()) && Repr() == old(Repr())
      ensures r.None? ==> !exists tx :: IsHead(State(), tx)
      ensures r.Some? ==> LeastHead(State(), r.value) && CanRemove(State(), r.value)
      ensures r.Some? ==> r.value.id in allTransactions && allTransactions[r.value.id] == r.value
    {
      hide HeapOrdered, Consistent, IsHead, LeastHead, NodesOf;
      ghost var s := State();
      var processableFeePriorityHeap := CollectHeads();
      ghost var nodes := processableFeePriorityHeap.nodes;
      if processableFeePriorityHeap.Count() < 1 {
        NoHeads(nodes, s);
        Untouched();
        return None;
      }
      var evictedTransaction := processableFeePriorityHeap.Pop();
      LeastHeadCollected(nodes, s, c, evictedTransaction.value);
      Untouched();
      return Some(evictedTransaction.value.value);
    }

    /** _evictProcessable */
    method EvictProcessable() returns (evicted: bool)
      requires Valid() && Consistent(State(), c)
      modifies Repr()
      ensures Valid() && Repr() <= old(Repr()) && EvictsProcessable(old(State()), State(), evicted)
    {
      hide HeapOrdered, Consistent, ListsValid, ListStates, ListRepr, RemoveTx, IsHead;
      var evictedTransaction := LeastHeadTx();
      if evictedTransaction == None {
        return false;
      }
      assert LeastHead(State(), evictedTransaction.value);
      evicted := Remove(evictedTransaction.value);
    }

    /* ---- add ---- */

    method CountUnprocessable(ghost s: PoolState) returns (total: nat)
      requires forall a | a in s.lists :: NonceList.Valid(s.lists[a])
      requires transactionList.Keys == s.lists.Keys
      requires forall a | a in transactionList :: transactionList[a].Valid() && transactionList[a].State() == s.lists[a]
      ensures total == |UnprocessablePairs(s)|
    {
      hide Lists.TransactionList.Valid, PairsOf, UnprocessablePairs, UnprocessableNonces, NonceList.Valid;
      total := 0;
      var todo := transactionList.Keys;
      ghost var done: set<bytes> := {};
      NoPairs(s);
      while todo != {}
        invariant todo <= transactionList.Keys && done == transactionList.Keys - todo
        invariant total == |PairsOf(s, done)|
        decreases |todo|
      {
        var a :| a in todo;
        PairsGrow(s, done, a);
        var txs := transactionList[a].GetUnprocessable();
        assert |txs| == |UnprocessableNonces(s.lists[a])|;
        total := total + |txs|;
        todo, done := todo - {a}, done + {a};
      }
      AllPairs(s, done);
    }

    /** How many transactions of the pool are unprocessable. */
    method TotalUnprocessable() returns (total: nat)
      requires Valid()
      ensures Valid() && State() == old(State()) && Repr() == old(Repr())
      ensures (forall a | a in State().lists :: NonceList.Valid(State().lists[a])) && total == |UnprocessablePairs(State())|
    {
      hide HeapOrdered, Lists.TransactionList.Valid, ListsValid, ListStates, ListRepr, UnprocessablePairs;
      EachList();
      ListStatesValid();
      total := CountUnprocessable(State());
      Untouched();
    }

    lemma ListStatesValid()
      requires ListsValid()
      ensures forall a | a in ListStates() :: NonceList.Valid(ListStates()[a])
    {
      hide NonceList.Valid, HeapOrdered, Lists.HeapOf;
    }

    /** add, up to the await */
    method AddCheck(incomingTx: Tx) returns (outcome: CheckOutcome)
      requires Valid() && Consistent(State(), c)
      modifies Repr()
      ensures Valid() && Repr() <= old(Repr())
      ensures (forall a | a in old(State()).lists :: NonceList.Valid(old(State()).lists[a]))
      ensures Checks(old(State()), c, incomingTx, State(), outcome)
    {
      hide HeapOrdered, ListsValid, ListStates, ListRepr, Consistent, EvictsUnprocessable, UnprocessablePairs, Priority, NonceList.Valid;
      ListStatesValid();
      if incomingTx.size > c.maxPayloadLength {
        return TooLong;
      }
      if incomingTx.id in allTransactions {
        return Duplicate;
      }
      if Priority(incomingTx) < c.minEntranceFeePriority {
        return LowEntranceFee;
      }
      var lowestFeePriorityTrx := feePriorityQueue.Peek();
      Untouched();
      LeastOfQueue(feePriorityQueue.nodes, lowestFeePriorityTrx);
      if |allTransactions| >= c.maxTransactions && lowestFeePriorityTrx.Some? && Priority(incomingTx) <= lowestFeePriorityTrx.value.key {
        assert LeastKey(State().queue, lowestFeePriorityTrx.value.key);
        assert BelowQueue(State(), c, incomingTx);
        var totalUnprocessable := TotalUnprocessable();
        if totalUnprocessable >= c.maxTransactions / 2 {
          var evicted := EvictUnprocessable();
        } else {
          return LowFeePriority;
        }
      }
      return Continue;
    }

    /** Gives a new account its list. */
    method EnsureList(a: bytes)
      requires ListsValid()
      modifies this`transactionList
      ensures ListsValid() && a in transactionList && fresh(Repr() - old(Repr()))
      ensures ListStates() == old(ListStates())[a := ListAt(old(State()), a)]
    {
      hide Lists.TransactionList.Valid, ListsValid, ListStates, ListRepr;
      KeysOfStates();
      if a !in transactionList {
        var list := new Lists.TransactionList(a, ListConfig(c));
        Listing();
        AddList(a, list);
      } else {
        SameList(ListStates(), a);
      }
    }

    /** Creating an object changes nothing. */
    twostate lemma Listing()
      requires old(ListsValid()) && transactionList == old(transactionList)
      requires forall a | a in transactionList :: unchanged(transactionList[a]) && unchanged(transactionList[a].nonceHeap)
      ensures ListsValid() && ListStates() == old(ListStates()) && Repr() == old(Repr())
      ensures forall o: object {:trigger o in Repr()} | o in Repr() :: !fresh(o)
    {
      hide Lists.TransactionList.Valid;
    }

    method AddList(a: bytes, list: AccountList)
      requires ListsValid() && a !in transactionList && list.Valid() && list.address == a && list.cfg == ListConfig(c)
      requires list !in Repr() && list.nonceHeap !in Repr()
      modifies this`transactionList
      ensures ListsValid() && transactionList == old(transactionList)[a := list]
      ensures Repr() <= old(Repr()) + {list, list.nonceHeap}
      ensures ListStates() == old(ListStates())[a := list.State()]
    {
      hide Lists.TransactionList.Valid, ListsValid, ListStates, ListRepr;
      transactionList := transactionList[a := list];
      ListReprGrows(a, list);
      ListAdded(a, list);
    }

    twostate lemma ListReprGrows(a: bytes, new list: AccountList)
      requires transactionList == old(transactionList)[a := list]
      ensures ListRepr() <= old(ListRepr()) + {list, list.nonceHeap}
    {
    }

    twostate lemma ListAdded(a: bytes, new list: AccountList)
      requires old(ListsValid()) && a !in old(transactionList) && transactionList == old(transactionList)[a := list]
      requires list.Valid() && list.address == a && list.cfg == ListConfig(c)
      requires list !in old(Repr()) && list.nonceHeap !in old(Repr()) && list as object != this && list.nonceHeap as object != this
      requires forall b | b in old(transactionList) :: unchanged(transactionList[b]) && unchanged(transactionList[b].nonceHeap)
      ensures ListsValid() && ListStates() == old(ListStates())[a := list.State()]
    {
      hide Lists.TransactionList.Valid;
      ListReprGrows(a, list);
    }

    /** Adds to the list of an account. */
    method AddToList(a: bytes, tx: Tx, flag: bool) returns (added: bool, removedID: Option<bytes>)
      requires ListsValid() && a in transactionList
      modifies transactionList[a], transactionList[a].nonceHeap
      ensures ListsValid()
      ensures var r := NonceList.Add(old(ListStates())[a], ListConfig(c), tx, flag);
              ListStates() == old(ListStates())[a := r.state] && added == r.added && removedID == r.removed
    {
      hide Lists.TransactionList.Valid, NonceList.Add, ListRepr;
      ListsApart(a);
      added, removedID := transactionList[a].Add(tx, flag);
      ListChanged(a);
    }

    method InsertIntoList(tx: Tx, flag: bool) returns (added: bool, removedID: Option<bytes>)
      requires Valid()
      modifies this`transactionList, ListRepr()
      ensures Valid() && fresh(Repr() - old(Repr()))
      ensures var r := NonceList.Add(ListAt(old(State()), tx.sender), ListConfig(c), tx, flag);
              && State() == old(State()).(lists := old(State()).lists[tx.sender := r.state])
              && added == r.added && removedID == r.removed
    {
      hide ListsValid, ListStates, NonceList.Add, HeapOrdered;
      var a := tx.sender;
      ghost var s := State();
      EnsureList(a);
      added, removedID := AddToList(a, tx, flag);
      Overwrite(s.lists, a, ListAt(s, a), NonceList.Add(ListAt(s, a), ListConfig(c), tx, flag).state);
    }

    /** add, from the list on */
    method Insert(incomingTx: Tx, flag: bool) returns (added: bool)
      requires Valid()
      modifies Repr()
      ensures Valid() && fresh(Repr() - old(Repr()))
      ensures (State(), added) == InsertTx(old(State()), c, incomingTx, flag)
    {
      hide ListStates, ListsValid, ListRepr, NonceList.Add, HeapOrdered;
      var removedID;
      added, removedID := InsertIntoList(incomingTx, flag);
      if added {
        Record(incomingTx, removedID);
      }
    }

    /** The id map and the queue of an added transaction. */
    method Record(tx: Tx, removedID: Option<bytes>)
      requires Valid()
      modifies this`allTransactions, feePriorityQueue
      ensures Valid()
      ensures var s := old(State());
              var rest := if removedID.Some? then s.all - {removedID.value} else s.all;
              State() == PoolState(rest[tx.id := tx], s.lists, s.queue + multiset{Entry(tx)})
    {
      hide ListStates, ListsValid, ListRepr, HeapOrdered;
      EachApart();
      if removedID.Some? {
        allTransactions := allTransactions - {removedID.value};
      }
      allTransactions := allTransactions[tx.id := tx];
      feePriorityQueue.Push(Priority(tx), tx.id);
      Listing();
    }

    /** The lists are neither the pool nor its queue. */
    lemma EachApart()
      requires ListsValid()
      ensures forall a | a in transactionList ::
                && transactionList[a] as object != this && transactionList[a].nonceHeap as object != this
                && transactionList[a] as object != feePriorityQueue && transactionList[a].nonceHeap as object != feePriorityQueue
    {
      forall a | a in transactionList
        ensures transactionList[a] in ListRepr() && transactionList[a].nonceHeap in ListRepr()
      {
        assert transactionList[a] in transactionList.Values;
      }
    }

    /** Evicts an unprocessable transaction from a full pool, or else a processable one. */
    method MakeRoom()
      requires Valid() && Consistent(State(), c)
      modifies Repr()
      ensures Valid() && Repr() <= old(Repr()) && MakesRoom(old(State()), c, State())
    {
      hide ListStates, ListsValid, ListRepr, HeapOrdered, Consistent, RemoveTx, IsUnprocessable, IsHead, EvictsProcessable;
      var exceededTransactionsCount := |allTransactions| - c.maxTransactions;
      if exceededTransactionsCount >= 0 {
        var isEvicted := EvictUnprocessable();
        if !isEvicted {
          var _ := EvictProcessable();
        }
      }
    }

    /** add, after the await */
    method AddCommit(incomingTx: Tx, txStatus: TransactionStatus) returns (added: bool)
      requires Valid() && Consistent(State(), c)
      modifies Repr()
      ensures Valid() && fresh(Repr() - old(Repr()))
      ensures Commits(old(State()), c, incomingTx, txStatus, State(), added)
    {
      hide ListStates, ListsValid, HeapOrdered, Consistent, MakesRoom, InsertTx;
      if txStatus == Invalid {
        return false;
      }
      MakeRoom();
      added := Insert(incomingTx, txStatus == Processable);
    }

    /* ---- _reorganize ---- */

    method PromoteList(a: bytes, txs: seq<Tx>)
      requires Valid() && a in transactionList
      modifies Repr()
      ensures Valid() && Repr() == old(Repr())
      ensures a in old(State()).lists && State() == PromoteIn(old(State()), a, txs)
    {
      hide Lists.TransactionList.Valid, Promote, HeapOrdered;
      ListsApart(a);
      var _ := transactionList[a].Promote(txs);
      ListChanged(a);
    }

    /** Removes the considered transactions from a nonce on. */
    method RemoveFromNonce(txs: seq<Tx>, nonce: nat, ghost content: bytes -> Tx)
      requires Valid() && Inv(State(), c, content) && EachGenuine(txs, content)
      modifies Repr()
      ensures Valid() && Repr() <= old(Repr())
      ensures EachGenuine(FromNonce(txs, nonce), content)
      ensures State() == RemoveEach(old(State()), c, content, FromNonce(txs, nonce))
    {
      hide ListStates, ListsValid, ListRepr, HeapOrdered, Inv, Genuine, FromNonce, RemoveTx, RemoveEach;
      FromNonceGenuine(txs, nonce, content);
      ghost var s := State();
      assert txs[0..] == txs;
      for i := 0 to |txs|
        invariant Valid() && Repr() <= old(Repr()) && Inv(State(), c, content)
        invariant EachGenuine(FromNonce(txs[i..], nonce), content)
        invariant RemoveEach(State(), c, content, FromNonce(txs[i..], nonce)) == RemoveEach(s, c, content, FromNonce(txs, nonce))
      {
        FromNonceStep(txs, i, nonce);
        FromNonceGenuine(txs[i + 1..], nonce, content);
        if txs[i].nonce >= nonce {
          ghost var todo := FromNonce(txs[i..], nonce);
          assert todo[0] == txs[i] && todo[1..] == FromNonce(txs[i + 1..], nonce);
          RemoveSteps(State(), c, content, txs[i]);
          RemoveEachCons(State(), c, content, todo);
          RemoveGenuine(txs[i], content);
        }
      }
      RemoveEachNone(State(), c, content, txs, nonce);
    }

    method RemoveGenuine(tx: Tx, ghost content: bytes -> Tx)
      requires Valid() && Inv(State(), c, content) && Genuine(tx, content)
      modifies Repr()
      ensures Valid() && Repr() <= old(Repr())
      ensures CanRemove(old(State()), tx) && State() == RemoveTx(old(State()), tx) && Inv(State(), c, content)
    {
      hide ListStates, ListsValid, ListRepr, HeapOrdered, Consistent, Genuine, RemoveTx;
      GenuineIsUnique(State(), c, content, tx);
      RemoveKeeps(State(), c, content, tx);
      var _ := Remove(tx);
    }

    /** The transactions a pass considers, and how the verifier judges them. */
    method Consider(a: bytes, verify: Tx -> TransactionStatus)
      returns (promotable: seq<Tx>, considered: seq<Tx>, ids: seq<bytes>, invalid: Option<Tx>)
      requires Valid() && a in transactionList && NonceList.Valid(transactionList[a].State())
      ensures Valid() && State() == old(State()) && Repr() == old(Repr())
      ensures var l := transactionList[a].State();
              && NonceList.Valid(l) && promotable == TxsOf(l, PromotableNonces(l)) && considered == TxsOf(l, Considered(l))
      ensures var k := Successes(considered, verify, 0);
              && ids == Ids(considered[..k])
              && invalid == if k < |considered| && verify(considered[k]) == Invalid then Some(considered[k]) else None
    {
      hide HeapOrdered, Lists.TransactionList.Valid, ListsValid, ListStates, ListRepr, NonceList.Valid, PromotableNonces, Successes, Ids;
      EachList();
      promotable := transactionList[a].GetPromotable();
      var processable := transactionList[a].GetProcessable();
      considered := processable + promotable;
      ids, invalid := VerifyInTurn(considered, verify);
      Untouched();
    }

    /** One pass of _reorganize over one account. */
    method ReorganizeList(a: bytes, verify: Tx -> TransactionStatus, ghost content: bytes -> Tx)
      requires Valid() && Inv(State(), c, content) && a in transactionList
      modifies Repr()
      ensures Valid() && Repr() <= old(Repr())
      ensures a in old(State()).lists && State() == Reorganize(old(State()), c, content, a, verify)
    {
      hide HeapOrdered, Lists.TransactionList.Valid, ListsValid, ListStates, ListRepr, NonceList.Valid, PromotableNonces, Considered, Successes,
           Ids, WithIds, FromNonce, RemoveEach, PromoteIn, Inv, Genuine;
      EachList();
      ghost var s := State();
      ListedGenuine(s, c, content, a);
      var promotable, considered, ids, invalid := Consider(a, verify);
      if |promotable| == 0 {
        return;
      }
      PromoteKeeps(s, c, content, a, WithIds(promotable, ids));
      PromoteList(a, WithIds(promotable, ids));
      if invalid.Some? {
        RemoveFromNonce(considered, invalid.value.nonce, content);
      }
    }
  }

  lemma FromNonceStep(txs: seq<Tx>, i: nat, nonce: nat)
    requires i < |txs|
    ensures var rest := FromNonce(txs[i + 1..], nonce);
            FromNonce(txs[i..], nonce) == if txs[i].nonce >= nonce then [txs[i]] + rest else rest
  {
    assert txs[i..] == [txs[i]] + txs[i + 1..];
  }

  lemma RemoveSteps(s: PoolState, c: PoolConfig, content: bytes -> Tx, tx: Tx)
    requires Inv(s, c, content) && Genuine(tx, content)
    ensures CanRemove(s, tx) && Inv(RemoveTx(s, tx), c, content)
  {
    hide Inv, Genuine, RemoveTx;
    RemoveKeeps(s, c, content, tx);
  }

  lemma RemoveEachCons(s: PoolState, c: PoolConfig, content: bytes -> Tx, txs: seq<Tx>)
    requires Inv(s, c, content) && txs != [] && EachGenuine(txs, content)
    requires CanRemove(s, txs[0]) && Inv(RemoveTx(s, txs[0]), c, content)
    ensures RemoveEach(s, c, content, txs) == RemoveEach(RemoveTx(s, txs[0]), c, content, txs[1..])
  {
    hide Inv, Genuine, RemoveTx;
  }

  lemma RemoveEachNone(s: PoolState, c: PoolConfig, content: bytes -> Tx, txs: seq<Tx>, nonce: nat)
    requires Inv(s, c, content)
    ensures FromNonce(txs[|txs|..], nonce) == [] && RemoveEach(s, c, content, FromNonce(txs[|txs|..], nonce)) == s
  {
    hide Inv;
  }

  /** The verification loop of a pass. */
  method VerifyInTurn(txs: seq<Tx>, verify: Tx -> TransactionStatus) returns (ids: seq<bytes>, invalid: Option<Tx>)
    ensures var k := Successes(txs, verify, 0);
            && ids == Ids(txs[..k])
            && invalid == if k < |txs| && verify(txs[k]) == Invalid then Some(txs[k]) else None
  {
    ids, invalid := [], None;
    var i := 0;
    while i < |txs|
      invariant i <= |txs| && ids == Ids(txs[..i]) && invalid == None
      invariant Successes(txs, verify, 0) == Successes(txs, verify, i)
    {
      var status := verify(txs[i]);
      if status == Invalid {
        invalid := Some(txs[i]);
        break;
      }
      if status == Unprocessable {
        if |ids| == 0 {
          break;
        }
        if txs[i - 1].nonce + 1 != txs[i].nonce {
          break;
        }
      }
      ids := ids + [txs[i].id];
      i := i + 1;
    }
  }

  lemma SameList(lists: map<bytes, ListState>, a: bytes)
    requires a in lists
    ensures lists[a := lists[a]] == lists
  {
  }

  lemma Overwrite(lists: map<bytes, ListState>, a: bytes, l: ListState, m: ListState)
    ensures lists[a := l][a := m] == lists[a := m]
  {
  }

  /* ---- The heaps of the evictions ---- */

  ghost function NodesOf(nodes: seq<Node<Tx>>): set<Node<Tx>> {
    set nd | nd in nodes
  }

  ghost function NodeOf(tx: Tx): Node<Tx> {
    Node(Priority(tx), tx)
  }

  /** Pushes the unprocessable transactions of one account. */
  method CollectFrom(list: AccountList, heap: MinHeap<Tx>, ghost a: bytes, ghost s: PoolState, ghost c: PoolConfig, ghost done: set<bytes>)
    requires heap.Valid() && list.Valid() && Consistent(s, c) && a in s.lists && list.State() == s.lists[a]
    requires CollectedUnprocessable(NodesOf(heap.nodes), s, done)
    modifies heap
    ensures heap.Valid() && CollectedUnprocessable(NodesOf(heap.nodes), s, done + {a})
  {
    hide HeapOrdered, Consistent, CollectedUnprocessable, NodesOf, NodeOf, Lists.HeapOf;
    var unprocessableTransactions := list.GetUnprocessable();
    CollectOneMore(NodesOf(heap.nodes), s, c, done, a);
    PushAll(heap, unprocessableTransactions);
  }

  method PushAll(heap: MinHeap<Tx>, txs: seq<Tx>)
    requires heap.Valid()
    modifies heap
    ensures heap.Valid() && NodesOf(heap.nodes) == old(NodesOf(heap.nodes)) + NodeSet(txs)
  {
    hide HeapOrdered;
    for i := 0 to |txs|
      invariant heap.Valid() && NodesOf(heap.nodes) == old(NodesOf(heap.nodes)) + set j | 0 <= j < i :: NodeOf(txs[j])
    {
      ghost var nodes := heap.nodes;
      heap.Push(Priority(txs[i]), txs[i]);
      PushedNode(nodes, heap.nodes, NodeOf(txs[i]));
    }
  }

  lemma PushedNode(before: seq<Node<Tx>>, after: seq<Node<Tx>>, nd: Node<Tx>)
    requires multiset(after) == multiset(before) + multiset{nd}
    ensures NodesOf(after) == NodesOf(before) + {nd}
  {
    forall x
      ensures x in after <==> x in before || x == nd
    {
      assert x in after <==> x in multiset(after);
      assert x in before <==> x in multiset(before);
    }
  }

  /** The nodes are those of the unprocessable transactions of the accounts in `done`. */
  ghost predicate CollectedUnprocessable(nodes: set<Node<Tx>>, s: PoolState, done: set<bytes>) {
    && (forall nd | nd in nodes :: nd == NodeOf(nd.value) && IsUnprocessable(s, nd.value))
    && forall tx | IsUnprocessable(s, tx) && tx.sender in done :: NodeOf(tx) in nodes
  }

  /** The nodes are those of the highest processable transactions of the accounts in `done`. */
  ghost predicate CollectedHeads(nodes: set<Node<Tx>>, s: PoolState, done: set<bytes>) {
    && (forall nd | nd in nodes :: nd == NodeOf(nd.value) && IsHead(s, nd.value))
    && forall tx | IsHead(s, tx) && tx.sender in done :: NodeOf(tx) in nodes
  }

  lemma NoHeadsCollected(s: PoolState)
    ensures CollectedHeads(NodesOf([]), s, {})
  {
  }

  ghost function HeadNodes(l: ListState): set<Node<Tx>>
    requires Valid(l)
  {
    if l.processable == [] then {}
    else
      assert l.processable[|l.processable| - 1] in l.processable;
      {NodeOf(l.txs[l.processable[|l.processable| - 1]])}
  }

  lemma HeadOfAccount(s: PoolState, c: PoolConfig, a: bytes)
    requires Consistent(s, c) && a in s.lists && Valid(s.lists[a])
    ensures forall nd | nd in HeadNodes(s.lists[a]) :: nd == NodeOf(nd.value) && IsHead(s, nd.value)
    ensures forall tx | IsHead(s, tx) && tx.sender == a :: NodeOf(tx) in HeadNodes(s.lists[a])
  {
    hide Indexed, Ascending;
    assert ListKept(s, c, a);
    hide Consistent;
    var l := s.lists[a];
    if l.processable != [] {
      var n := l.processable[|l.processable| - 1];
      assert n in l.processable && Filed(s, a, n);
    }
  }

  lemma HeadOneMore(nodes: set<Node<Tx>>, s: PoolState, c: PoolConfig, done: set<bytes>, a: bytes)
    requires CollectedHeads(nodes, s, done) && Consistent(s, c) && a in s.lists && Valid(s.lists[a])
    ensures CollectedHeads(nodes + HeadNodes(s.lists[a]), s, done + {a})
  {
    hide Consistent, Valid, IsHead, HeadNodes;
    HeadOfAccount(s, c, a);
  }

  lemma NoHeads(nodes: seq<Node<Tx>>, s: PoolState)
    requires CollectedHeads(NodesOf(nodes), s, s.lists.Keys) && nodes == []
    ensures !exists tx :: IsHead(s, tx)
  {
    assert forall tx | IsHead(s, tx) :: NodeOf(tx) in NodesOf(nodes);
  }

  lemma LeastHeadCollected(nodes: seq<Node<Tx>>, s: PoolState, c: PoolConfig, top: Node<Tx>)
    requires CollectedHeads(NodesOf(nodes), s, s.lists.Keys) && Consistent(s, c)
    requires top in nodes && forall nd | nd in nodes :: top.key <= nd.key
    ensures LeastHead(s, top.value) && CanRemove(s, top.value) && top.value.id in s.all && s.all[top.value.id] == top.value
  {
    hide Consistent;
    assert top in NodesOf(nodes);
    ListedIsPooled(s, c, top.value);
    forall tx | IsHead(s, tx)
      ensures Priority(top.value) <= Priority(tx)
    {
      assert NodeOf(tx) in NodesOf(nodes);
    }
  }

  /** Pushes the highest processable transaction of one account. */
  method CollectHead(list: AccountList, heap: MinHeap<Tx>, ghost a: bytes, ghost s: PoolState, ghost c: PoolConfig, ghost done: set<bytes>)
    requires heap.Valid() && list.Valid() && Consistent(s, c) && a in s.lists && list.State() == s.lists[a]
    requires CollectedHeads(NodesOf(heap.nodes), s, done)
    modifies heap
    ensures heap.Valid() && CollectedHeads(NodesOf(heap.nodes), s, done + {a})
  {
    hide HeapOrdered, Consistent, CollectedHeads, NodesOf, Lists.HeapOf;
    var processableTransactions := list.GetProcessable();
    HeadOneMore(NodesOf(heap.nodes), s, c, done, a);
    if |processableTransactions| > 0 {
      var tx := processableTransactions[|processableTransactions| - 1];
      ghost var nodes := heap.nodes;
      heap.Push(Priority(tx), tx);
      PushedNode(nodes, heap.nodes, NodeOf(tx));
    } else {
      assert NodesOf(heap.nodes) + HeadNodes(s.lists[a]) == NodesOf(heap.nodes);
    }
  }

  /* ---- Counting the unprocessable transactions ---- */

  ghost function PairsOf(s: PoolState, done: set<bytes>): set<(bytes, nat)>
    requires forall a | a in s.lists :: Valid(s.lists[a])
  {
    set a, n | a in s.lists && a in done && n in s.lists[a].txs && n in UnprocessableNonces(s.lists[a]) :: (a, n)
  }

  lemma NoPairs(s: PoolState)
    requires forall a | a in s.lists :: Valid(s.lists[a])
    ensures |PairsOf(s, {})| == 0
  {
    hide Valid, UnprocessableNonces;
  }

  lemma AllPairs(s: PoolState, done: set<bytes>)
    requires (forall a | a in s.lists :: Valid(s.lists[a])) && done == s.lists.Keys
    ensures PairsOf(s, done) == UnprocessablePairs(s)
  {
    hide Valid, UnprocessableNonces;
  }

  ghost function Paired(a: bytes, ns: seq<nat>): set<(bytes, nat)> {
    set n | n in ns :: (a, n)
  }

  lemma {:induction false} PairedSize(a: bytes, ns: seq<nat>)
    requires Ascending(ns)
    ensures |Paired(a, ns)| == |ns|
  {
    if ns != [] {
      AscendingTail(ns);
      hide Ascending;
      PairedSize(a, ns[1..]);
      assert ns == [ns[0]] + ns[1..];
      assert Paired(a, ns) == {(a, ns[0])} + Paired(a, ns[1..]);
    }
  }

  lemma PairsGrow(s: PoolState, done: set<bytes>, a: bytes)
    requires (forall a | a in s.lists :: Valid(s.lists[a])) && a in s.lists && a !in done
    ensures |PairsOf(s, done + {a})| == |PairsOf(s, done)| + |UnprocessableNonces(s.lists[a])|
  {
    var ns := UnprocessableNonces(s.lists[a]);
    assert Ascending(ns) by { UnprocessableAscends(s.lists[a]); }
    PairedSize(a, ns);
    PairsSplit(s, done, a);
    hide Valid, UnprocessableNonces, PairsOf, Paired;
  }

  lemma PairsSplit(s: PoolState, done: set<bytes>, a: bytes)
    requires (forall a | a in s.lists :: Valid(s.lists[a])) && a in s.lists && a !in done
    ensures PairsOf(s, done + {a}) == PairsOf(s, done) + Paired(a, UnprocessableNonces(s.lists[a]))
    ensures PairsOf(s, done) !! Paired(a, UnprocessableNonces(s.lists[a]))
  {
    hide Valid, UnprocessableNonces;
    var ns := UnprocessableNonces(s.lists[a]);
    forall p
      ensures p in PairsOf(s, done + {a}) <==> p in PairsOf(s, done) || p in Paired(a, ns)
    {
    }
  }

  lemma UnprocessableAscends(l: ListState)
    requires Valid(l)
    ensures Ascending(UnprocessableNonces(l))
  {
    hide Enumerate;
    ProcessableFits(l);
  }

  lemma LeastOfQueue(nodes: seq<Node<bytes>>, top: Option<Node<bytes>>)
    requires nodes == [] ==> top == None
    requires nodes != [] ==> top.Some? && top.value in nodes && forall n | n in nodes :: top.value.key <= n.key
    ensures forall key :: LeastKey(multiset(nodes), key) <==> top.Some? && key == top.value.key
  {
    if nodes != [] {
      assert top.value in multiset(nodes);
      forall nd | nd in multiset(nodes)
        ensures top.value.key <= nd.key
      {
        assert nd in nodes;
      }
    }
  }

  lemma NothingCollected(s: PoolState)
    ensures CollectedUnprocessable(NodesOf([]), s, {})
  {
  }

  ghost function NodeSet(txs: seq<Tx>): set<Node<Tx>> {
    set i | 0 <= i < |txs| :: NodeOf(txs[i])
  }

  /** What one account has to offer is its unprocessable transactions. */
  lemma OfAccount(s: PoolState, c: PoolConfig, a: bytes)
    requires Consistent(s, c) && a in s.lists && Valid(s.lists[a])
    ensures var txs := TxsOf(s.lists[a], UnprocessableNonces(s.lists[a]));
            && (forall i | 0 <= i < |txs| :: IsUnprocessable(s, txs[i]))
            && forall tx | IsUnprocessable(s, tx) && tx.sender == a :: NodeOf(tx) in NodeSet(txs)
  {
    hide Indexed;
    assert ListKept(s, c, a);
    hide Valid, UnprocessableNonces, Consistent;
    var l := s.lists[a];
    var ns := UnprocessableNonces(l);
    var txs := TxsOf(l, ns);
    forall i | 0 <= i < |txs|
      ensures IsUnprocessable(s, txs[i])
    {
      assert ns[i] in ns && Filed(s, a, ns[i]);
    }
    forall tx | IsUnprocessable(s, tx) && tx.sender == a
      ensures NodeOf(tx) in NodeSet(txs)
    {
      var i :| 0 <= i < |ns| && ns[i] == tx.nonce;
      assert txs[i] == tx;
    }
  }

  lemma CollectOneMore(nodes: set<Node<Tx>>, s: PoolState, c: PoolConfig, done: set<bytes>, a: bytes)
    requires CollectedUnprocessable(nodes, s, done) && Consistent(s, c) && a in s.lists && Valid(s.lists[a])
    ensures var txs := TxsOf(s.lists[a], UnprocessableNonces(s.lists[a]));
            CollectedUnprocessable(nodes + NodeSet(txs), s, done + {a})
  {
    hide Consistent, Valid, UnprocessableNonces, IsUnprocessable;
    OfAccount(s, c, a);
  }

  lemma NoneCollected(nodes: seq<Node<Tx>>, s: PoolState, c: PoolConfig)
    requires CollectedUnprocessable(NodesOf(nodes), s, s.lists.Keys) && nodes == []
    ensures !exists tx :: IsUnprocessable(s, tx)
  {
    assert forall tx | IsUnprocessable(s, tx) :: NodeOf(tx) in NodesOf(nodes);
  }

  lemma LeastCollected(nodes: seq<Node<Tx>>, s: PoolState, c: PoolConfig, top: Node<Tx>)
    requires CollectedUnprocessable(NodesOf(nodes), s, s.lists.Keys) && Consistent(s, c)
    requires top in nodes && forall nd | nd in nodes :: top.key <= nd.key
    ensures LeastUnprocessable(s, top.value) && CanRemove(s, top.value) && top.value.id in s.all && s.all[top.value.id] == top.value
  {
    hide Consistent, UnprocessableNonces, Valid;
    assert top in NodesOf(nodes);
    ListedIsPooled(s, c, top.value);
    forall tx | IsUnprocessable(s, tx)
      ensures Priority(top.value) <= Priority(tx)
    {
      assert NodeOf(tx) in NodesOf(nodes);
    }
  }

  lemma PooledIsListed(s: PoolState, c: PoolConfig, id: bytes)
    requires Consistent(s, c) && id in s.all
    ensures s.all[id].sender in s.lists && forall i | i in s.all :: s.all[i].id == i
  {
    hide ListKept;
  }

  lemma NoEntries(all: map<bytes, Tx>, ids: set<bytes>)
    requires ids == {}
    ensures EntriesOf(all, ids) == multiset{}
  {
  }

  lemma AllEntries(all: map<bytes, Tx>)
    ensures EntriesOf(all, all.Keys) == QueueOf(all)
  {
    assert (set id | id in all.Keys :: Entry(all[id])) == (set id | id in all :: Entry(all[id]));
  }
}
