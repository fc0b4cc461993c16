/** The class of elements/transaction-pool/src/transaction_list.ts, proved against the values of NonceList. */
module TransactionList {
  import opened Wrappers
  import opened MinHeap
  import Sorting
  import opened NonceList

  /* ---- The nonce heap holds each nonce once ---- */

  ghost function HeapOf(nonces: set<nat>): multiset<Node<()>> {
    multiset(set n: nat | n in nonces :: Node(n, ()))
  }

  lemma HeapGrows(nonces: set<nat>, n: nat)
    requires n !in nonces
    ensures HeapOf(nonces + {n}) == HeapOf(nonces) + multiset{Node(n, ())}
  {
  }

  lemma HeapShrinks(nonces: set<nat>, n: nat)
    requires n in nonces
    ensures HeapOf(nonces - {n}) == HeapOf(nonces) - multiset{Node(n, ())}
  {
  }

  lemma HeapMembers(nodes: seq<Node<()>>, nonces: set<nat>)
    requires multiset(nodes) == HeapOf(nonces)
    ensures forall nd | nd in nodes :: nd.key >= 0 && nd.key in nonces
    ensures forall n | n in nonces :: Node(n, ()) in nodes
    ensures |nodes| == |nonces|
  {
    forall nd | nd in nodes
      ensures nd.key >= 0 && nd.key in nonces
    {
      assert nd in multiset(nodes);
    }
    forall n | n in nonces
      ensures Node(n, ()) in nodes
    {
      assert Node(n, ()) in multiset(nodes);
    }
    HeapSize(nonces);
    assert |multiset(nodes)| == |nodes|;
  }

  lemma {:induction false} HeapSize(nonces: set<nat>)
    ensures |HeapOf(nonces)| == |nonces|
    decreases |nonces|
  {
    if nonces == {} {
      assert HeapOf(nonces) == multiset{};
    } else {
      var n :| n in nonces;
      HeapSize(nonces - {n});
      HeapShrinks(nonces, n);
      assert Node(n, ()) in HeapOf(nonces);
    }
  }

  ghost function Elements(ns: seq<nat>): set<nat> {
    set n | n in ns
  }

  /** The heap holds exactly the nonces of `ns`. */
  ghost predicate Holds(nodes: seq<Node<()>>, ns: seq<nat>) {
    multiset(nodes) == HeapOf(Elements(ns))
  }

  /** The least node of a heap over `ns` is the one of `ns[0]`. */
  lemma TopIsFirst(nodes: seq<Node<()>>, ns: seq<nat>, top: Node<()>)
    requires Ascending(ns) && ns != [] && Holds(nodes, ns)
    requires top in nodes && forall nd | nd in nodes :: top.key <= nd.key
    ensures top.key == ns[0]
  {
    hide HeapOf;
    HeapMembers(nodes, Elements(ns));
    HeadIn(ns);
    assert Node(ns[0], ()) in nodes;
    assert top.key in ns;
    AscendingTail(ns);
    assert ns == [ns[0]] + ns[1..];
  }

  lemma ElementsTail(ns: seq<nat>)
    requires Ascending(ns) && ns != []
    ensures Elements(ns[1..]) == Elements(ns) - {ns[0]} && ns[0] in Elements(ns)
  {
    AscendingTail(ns);
    hide Ascending;
    assert ns == [ns[0]] + ns[1..];
  }

  lemma UnitNode(nd: Node<()>)
    ensures nd == Node(nd.key, ())
  {
    match nd.value
    case () => 
  }

  /** Popping a heap over `ns` gives `ns[0]` and leaves a heap over the rest. */
  method PopNonce(heap: MinHeap<()>, ghost ns: seq<nat>) returns (key: nat)
    requires heap.Valid() && Ascending(ns) && ns != [] && Holds(heap.nodes, ns)
    modifies heap
    ensures heap.Valid() && key == ns[0] && Holds(heap.nodes, ns[1..])
  {
    hide HeapOf, Ascending, HeapOrdered;
    HeapMembers(heap.nodes, Elements(ns));
    HeadIn(ns);
    ghost var nodes := heap.nodes;
    assert Node(ns[0], ()) in nodes;
    var top := heap.Pop();
    TopIsFirst(nodes, ns, top.value);
    UnitNode(top.value);
    ElementsTail(ns);
    HeapShrinks(Elements(ns), ns[0]);
    key := top.value.key;
  }

  /* ---- Array.prototype.sort on nonces ---- */

  predicate NonceLe(a: nat, b: nat) {
    a <= b
  }

  lemma {:induction false} SortedDistinctAscends(xs: seq<nat>)
    requires Sorting.Sorted(xs, NonceLe) && forall x | x in xs :: multiset(xs)[x] == 1
    ensures Ascending(xs)
  {
    forall i, j | 0 <= i < j < |xs|
      ensures xs[i] < xs[j]
    {
      assert NonceLe(xs[i], xs[j]) && xs[i] in xs;
      if xs[i] == xs[j] {
        Sorting.TwiceInSequence(xs, i, j);
        assert false;
      }
    }
  }

  lemma {:induction false} AscendingDistinct(xs: seq<nat>)
    requires Ascending(xs)
    ensures forall x | x in xs :: multiset(xs)[x] == 1
  {
    if xs != [] {
      AscendingTail(xs);
      AscendingDistinct(xs[1..]);
      assert xs == [xs[0]] + xs[1..];
      assert multiset(xs) == multiset{xs[0]} + multiset(xs[1..]);
      assert xs[0] !in multiset(xs[1..]);
    }
  }

  /** Sorting distinct nonces enumerates them. */
  lemma SortEnumerates(xs: seq<nat>)
    requires forall x | x in xs :: multiset(xs)[x] == 1
    ensures Sorting.Sort(xs, NonceLe) == Enumerate(Elements(xs))
  {
    var r := Sorting.Sort(xs, NonceLe);
    Sorting.SortPermutes(xs, NonceLe);
    Sorting.SortSorted(xs, NonceLe);
    Sorting.SameElements(r, xs);
    hide Sorting.Sort, Sorting.Sorted;
    SortedDistinctAscends(r);
    EnumerateIs(r, Elements(xs));
  }

  lemma SortKeepsAscending(xs: seq<nat>)
    requires Ascending(xs)
    ensures Sorting.Sort(xs, NonceLe) == xs
  {
    AscendingDistinct(xs);
    SortEnumerates(xs);
    EnumerateIs(xs, Elements(xs));
  }

  /** Array.from(new Set(xs)): each element where it first occurs. */
  function Distinct(xs: seq<nat>): (r: seq<nat>)
    ensures forall x :: x in r <==> x in xs
    ensures forall x | x in r :: multiset(r)[x] == 1
  {
    if xs == [] then []
    else
      assert xs == xs[..|xs| - 1] + [xs[|xs| - 1]];
      var front := Distinct(xs[..|xs| - 1]);
      if xs[|xs| - 1] in front then front else front + [xs[|xs| - 1]]
  }

  /** The next scanned nonce joins the run or starts a gap that nothing later closes. */
  lemma {:induction false} RunSnoc(xs: seq<nat>, x: nat)
    requires Ascending(xs + [x]) && xs != []
    ensures Run(xs) != []
    ensures var run := Run(xs);
            Run(xs + [x]) == if run[|run| - 1] + 1 == x then run + [x] else run
  {
    var ys := xs + [x];
    if |xs| == 1 {
      assert ys[1..] == [x];
    } else {
      assert ys[1..] == xs[1..] + [x] && ys[0] == xs[0] && ys[1] == xs[1];
      if xs[1] == xs[0] + 1 {
        assert Ascending(ys[1..]);
        hide Ascending;
        RunSnoc(xs[1..], x);
      } else {
        assert xs[0] < xs[1] < ys[|xs|];
      }
    }
  }

  /* ---- Steps of the loops ---- */

  /** The nodes with another key. */
  ghost function Other(nodes: multiset<Node<()>>, key: int): multiset<Node<()>> {
    nodes[Node(key, ()) := 0]
  }

  lemma OtherOfNone(nodes: seq<Node<()>>, key: int)
    ensures Other(multiset(nodes[..0]), key) == multiset([])
  {
  }

  lemma OtherGrows(nodes: seq<Node<()>>, i: nat, key: int)
    requires i < |nodes|
    ensures var before := Other(multiset(nodes[..i]), key);
            Other(multiset(nodes[..i + 1]), key) == if nodes[i].key == key then before else before + multiset{nodes[i]}
  {
    assert nodes[..i + 1] == nodes[..i] + [nodes[i]];
    UnitNode(nodes[i]);
  }

  lemma OtherIsRest(nonces: set<nat>, n: nat)
    requires n in nonces
    ensures Other(HeapOf(nonces), n) == HeapOf(nonces - {n})
  {
  }

  /** Sorting the de-duplicated nonces sets the union. */
  lemma PromoteSorts(s: ListState, txs: seq<Tx>, nonces: seq<nat>)
    requires NonceList.Valid(s) && StillThere(s, txs)
    requires |nonces| == |txs| && forall i | 0 <= i < |txs| :: nonces[i] == txs[i].nonce
    ensures Sorting.Sort(Distinct(s.processable + nonces), NonceLe) == NonceList.Promote(s, txs).processable
    ensures NonceList.Valid(NonceList.Promote(s, txs))
  {
    hide Enumerate, Sorting.Sort, Ascending;
    var all := Distinct(s.processable + nonces);
    SortEnumerates(all);
    var both := (set n | n in s.processable) + (set i | 0 <= i < |txs| :: txs[i].nonce);
    SameNonces(s, s.processable, nonces, txs, both);
    assert Elements(all) == both;
  }

  lemma PromotableIs(s: ListState, run: seq<nat>, txs: seq<Tx>)
    requires NonceList.Valid(s) && UnprocessableNonces(s) != [] && run == Run(UnprocessableNonces(s))
    requires s.processable != [] ==> UnprocessableNonces(s)[0] == s.processable[|s.processable| - 1] + 1
    requires |txs| == |run| && forall j | 0 <= j < |run| :: run[j] in s.txs && txs[j] == s.txs[run[j]]
    ensures txs == TxsOf(s, PromotableNonces(s))
  {
    hide Enumerate, Run, UnprocessableNonces, NonceList.Valid;
    assert PromotableNonces(s) == run;
  }

  lemma RestSpec(s: ListState, nodes: seq<Node<()>>)
    requires NonceList.Valid(s) && multiset(nodes) == HeapOf(s.txs.Keys)
    ensures Ascending(UnprocessableNonces(s)) && |nodes| == |s.txs|
    ensures |UnprocessableNonces(s)| == |s.txs| - |s.processable|
  {
    HeapMembers(nodes, s.txs.Keys);
    hide Enumerate, HeapOf;
    ProcessableFits(s);
  }

  lemma HoldsAll(nodes: seq<Node<()>>, s: ListState)
    requires multiset(nodes) == HeapOf(s.txs.Keys)
    ensures Holds(nodes, Nonces(s))
  {
    hide HeapOf, Enumerate, Nonces;
    assert Elements(Nonces(s)) == s.txs.Keys;
  }

  lemma HoldsCount(nodes: seq<Node<()>>, ns: seq<nat>)
    requires Holds(nodes, ns) && Ascending(ns)
    ensures |nodes| == |ns|
  {
    hide HeapOf, Ascending;
    ElementsSize(ns);
    HeapMembers(nodes, Elements(ns));
  }

  lemma ElementsSize(ns: seq<nat>)
    requires Ascending(ns)
    ensures |Elements(ns)| == |ns|
  {
    hide Enumerate, Ascending;
    EnumerateIs(ns, Elements(ns));
  }

  lemma RunOfOne(ns: seq<nat>)
    requires ns != []
    ensures Run(ns[..1]) == [ns[0]]
  {
    assert ns[..1] == [ns[0]];
  }

  lemma ScanOne(ns: seq<nat>, i: nat)
    requires Ascending(ns) && 0 < i < |ns|
    ensures Run(ns[..i]) != []
    ensures var run := Run(ns[..i]);
            Run(ns[..i + 1]) == if run[|run| - 1] + 1 == ns[i] then run + [ns[i]] else run
  {
    assert ns[..i + 1] == ns[..i] + [ns[i]];
    hide Run;
    RunSnoc(ns[..i], ns[i]);
  }

  lemma KeysAre(nodes: seq<Node<()>>, keys: seq<int>, nonces: set<nat>)
    requires multiset(nodes) == HeapOf(nonces)
    requires |keys| == |nodes| && forall i | 0 <= i < |keys| :: keys[i] == nodes[i].key
    ensures forall n: nat | n in nonces :: n in keys
    ensures forall k | k in keys :: k >= 0 && k in nonces
  {
    HeapMembers(nodes, nonces);
    hide HeapOf;
    forall n: nat | n in nonces
      ensures n in keys
    {
      var i :| 0 <= i < |nodes| && nodes[i] == Node(n, ());
      assert keys[i] == n;
    }
    forall k | k in keys
      ensures k >= 0 && k in nonces
    {
      var i :| 0 <= i < |keys| && keys[i] == k;
      assert nodes[i] in nodes;
    }
  }

  lemma IsHighest(s: ListState, keys: seq<int>, highest: int)
    requires forall n | n in s.txs :: n in keys
    requires forall n | n in keys :: 0 <= n <= highest && n in s.txs
    requires if keys == [] then highest == -1 else highest in keys
    ensures highest == Highest(s)
  {
    HighestSpec(s);
    hide Enumerate, Nonces, Ascending;
    if keys == [] {
      assert s.txs.Keys == {};
    } else {
      assert highest in s.txs;
    }
  }

  class TransactionList {
    const address: bytes
    const cfg: Config
    const nonceHeap: MinHeap<()>
    var processable: seq<nat>
    var transactions: map<nat, Tx>

    ghost function State(): ListState
      reads this
    {
      ListState(transactions, processable)
    }

    ghost predicate Valid()
      reads this, nonceHeap
    {
      && nonceHeap.Valid()
      && multiset(nonceHeap.nodes) == HeapOf(transactions.Keys)
      && NonceList.Valid(State())
    }

    constructor (address: bytes, cfg: Config)
      ensures Valid() && fresh(nonceHeap) && State() == EMPTY && this.address == address && this.cfg == cfg
    {
      this.address, this.cfg := address, cfg;
      nonceHeap := new MinHeap();
      processable, transactions := [], map[];
    }

    /** size */
    method Size() returns (n: nat)
      requires Valid()
      ensures n == |transactions|
    {
      HeapMembers(nonceHeap.nodes, transactions.Keys);
      n := nonceHeap.Count();
    }

    method Add(incomingTx: Tx, flag: bool) returns (added: bool, removedID: Option<bytes>)
      requires Valid()
      modifies this, nonceHeap
      ensures Valid() && AddResult(State(), added, removedID) == NonceList.Add(old(State()), cfg, incomingTx, flag)
    {
      hide Enumerate, Ascending, HeapOf, HeapOrdered, Nonces, Below;
      if incomingTx.nonce in transactions {
        var existingTx := transactions[incomingTx.nonce];
        if incomingTx.fee < existingTx.fee + cfg.minReplacementFeeDifference {
          return false, None;
        }
        ReplaceValid(State(), incomingTx);
        DemoteAfter(incomingTx.nonce);
        assert transactions[incomingTx.nonce := incomingTx].Keys == transactions.Keys;
        transactions := transactions[incomingTx.nonce := incomingTx];
        return true, Some(existingTx.id);
      }
      var highestNonce := HighestNonce();
      removedID := None;
      HeapMembers(nonceHeap.nodes, transactions.Keys);
      if nonceHeap.Count() >= cfg.maxSize {
        if incomingTx.nonce > highestNonce {
          return false, None;
        }
        HighestSpec(State());
        removedID := Remove(highestNonce);
      }
      AddNew(incomingTx, flag);
      return true, removedID;
    }

    /** The last part of add: a transaction with a new nonce. */
    method AddNew(incomingTx: Tx, flag: bool)
      requires Valid() && incomingTx.nonce !in transactions
      modifies this, nonceHeap
      ensures Valid() && State() == Append(old(State()), incomingTx, flag)
    {
      hide Ascending, HeapOf, HeapOrdered;
      AppendValid(State(), incomingTx, flag);
      ghost var appended := Append(State(), incomingTx, flag);
      HeapGrows(transactions.Keys, incomingTx.nonce);
      assert transactions[incomingTx.nonce := incomingTx].Keys == transactions.Keys + {incomingTx.nonce};
      transactions := transactions[incomingTx.nonce := incomingTx];
      nonceHeap.Push(incomingTx.nonce, ());
      if flag && |processable| == 0 {
        assert processable == [];
        processable := processable + [incomingTx.nonce];
      }
      assert State() == appended;
    }

    method Remove(nonce: nat) returns (removedID: Option<bytes>)
      requires Valid()
      modifies this, nonceHeap
      ensures Valid() && State() == NonceList.Remove(old(State()), nonce)
      ensures removedID == if nonce in old(transactions) then Some(old(transactions)[nonce].id) else None
    {
      hide HeapOrdered, HeapOf, Below, Ascending;
      if nonce !in transactions {
        return None;
      }
      RemoveValid(State(), nonce);
      var removingTx := transactions[nonce];
      ghost var nonces := transactions.Keys;
      transactions := transactions - {nonce};
      RecreateHeap(nonce, nonces);
      assert transactions.Keys == nonces - {nonce};
      DemoteAfter(nonce);
      return Some(removingTx.id);
    }

    /** Recreates the heap, since the nonce can be anywhere in it. */
    method RecreateHeap(nonce: nat, ghost nonces: set<nat>)
      requires nonceHeap.Valid() && multiset(nonceHeap.nodes) == HeapOf(nonces) && nonce in nonces
      modifies nonceHeap
      ensures nonceHeap.Valid() && multiset(nonceHeap.nodes) == HeapOf(nonces - {nonce})
    {
      hide HeapOrdered, HeapOf, Other;
      ghost var nodes := nonceHeap.nodes;
      var keys := nonceHeap.Keys();
      nonceHeap.Clear();
      OtherOfNone(nodes, nonce);
      for i := 0 to |keys|
        invariant nonceHeap.Valid()
        invariant multiset(nonceHeap.nodes) == Other(multiset(nodes[..i]), nonce)
      {
        OtherGrows(nodes, i, nonce);
        UnitNode(nodes[i]);
        if keys[i] != nonce {
          nonceHeap.Push(keys[i], ());
        }
      }
      assert nodes[..|keys|] == nodes;
      OtherIsRest(nonces, nonce);
    }

    method Promote(txs: seq<Tx>) returns (ok: bool)
      requires Valid()
      modifies this
      ensures Valid() && State() == NonceList.Promote(old(State()), txs) && ok == StillThere(old(State()), txs)
    {
      hide HeapOf, HeapOrdered, Enumerate, Ascending;
      var promotingNonces: seq<nat> := [];
      for i := 0 to |txs|
        invariant |promotingNonces| == i && forall j | 0 <= j < i :: promotingNonces[j] == txs[j].nonce
        invariant StillThere(State(), txs[..i])
      {
        var tx := txs[i];
        if tx.nonce !in transactions {
          return false;
        }
        if tx.id != transactions[tx.nonce].id {
          return false;
        }
        promotingNonces := promotingNonces + [tx.nonce];
      }
      assert txs[..|txs|] == txs;
      PromoteSorts(State(), txs, promotingNonces);
      processable := Sorting.Sort(Distinct(processable + promotingNonces), NonceLe);
      return true;
    }

    method GetProcessable() returns (txs: seq<Tx>)
      requires Valid()
      ensures txs == TxsOf(State(), State().processable)
    {
      hide HeapOf, HeapOrdered, Ascending;
      txs := [];
      for i := 0 to |processable|
        invariant |txs| == i && forall j | 0 <= j < i :: txs[j] == transactions[processable[j]]
      {
        txs := txs + [transactions[processable[i]]];
      }
    }

    /** A clone of the heap without its first |processable| nonces. */
    method SkipProcessable() returns (clonedHeap: MinHeap<()>)
      requires Valid()
      ensures fresh(clonedHeap) && clonedHeap.Valid()
      ensures Holds(clonedHeap.nodes, UnprocessableNonces(State()))
    {
      ProcessableFits(State());
      hide HeapOf, HeapOrdered, Enumerate, Ascending, Holds;
      ghost var ns := Nonces(State());
      clonedHeap := nonceHeap.Clone();
      assert ns[0..] == ns;
      HoldsAll(nonceHeap.nodes, State());
      for i := 0 to |processable|
        invariant fresh(clonedHeap) && clonedHeap.Valid()
        invariant Holds(clonedHeap.nodes, ns[i..])
      {
        DropAscends(ns, i);
        var _ := PopNonce(clonedHeap, ns[i..]);
      }
    }

    method GetUnprocessable() returns (txs: seq<Tx>)
      requires Valid()
      ensures txs == TxsOf(State(), UnprocessableNonces(State()))
    {
      hide HeapOf, HeapOrdered, Enumerate, Ascending, Holds, UnprocessableNonces;
      RestSpec(State(), nonceHeap.nodes);
      if nonceHeap.Count() == 0 || |processable| == nonceHeap.Count() {
        return [];
      }
      ghost var rest := UnprocessableNonces(State());
      var clonedHeap := SkipProcessable();
      HoldsCount(clonedHeap.nodes, rest);
      var remainingCount := clonedHeap.Count();
      txs := [];
      assert rest[0..] == rest;
      for i := 0 to remainingCount
        invariant fresh(clonedHeap) && clonedHeap.Valid()
        invariant Holds(clonedHeap.nodes, rest[i..])
        invariant |txs| == i && forall j | 0 <= j < i :: txs[j] == transactions[rest[j]]
      {
        DropAscends(rest, i);
        var key := PopNonce(clonedHeap, rest[i..]);
        txs := txs + [transactions[key]];
      }
    }

    method GetPromotable() returns (txs: seq<Tx>)
      requires Valid()
      ensures txs == TxsOf(State(), PromotableNonces(State()))
    {
      hide HeapOf, HeapOrdered, Enumerate, Ascending, Holds, UnprocessableNonces, Run;
      RestSpec(State(), nonceHeap.nodes);
      if nonceHeap.Count() == 0 || |processable| == nonceHeap.Count() {
        return [];
      }
      ghost var rest := UnprocessableNonces(State());
      var clonedHeap := SkipProcessable();
      var firstUnprocessable := PopNonce(clonedHeap, rest);
      HeadIn(rest);
      if |processable| != 0 && firstUnprocessable != processable[|processable| - 1] + 1 {
        return [];
      }
      txs := ScanRun(clonedHeap, firstUnprocessable, rest);
      PromotableIs(State(), Run(rest), txs);
    }

    /** The loop of getPromotable: it goes on past the first gap, but takes nothing more. */
    method ScanRun(clonedHeap: MinHeap<()>, first: nat, ghost rest: seq<nat>) returns (txs: seq<Tx>)
      requires clonedHeap != nonceHeap && clonedHeap.Valid() && rest != [] && Ascending(rest) && first == rest[0]
      requires Holds(clonedHeap.nodes, rest[1..]) && forall n | n in rest :: n in transactions && transactions[n].nonce == n
      modifies clonedHeap
      ensures |txs| == |Run(rest)|
      ensures forall j | 0 <= j < |txs| :: Run(rest)[j] in transactions && txs[j] == transactions[Run(rest)[j]]
    {
      hide HeapOf, HeapOrdered, Ascending, Holds, Run;
      HeadIn(rest);
      txs := [transactions[first]];
      DropAscends(rest, 0);
      HoldsCount(clonedHeap.nodes, rest[1..]);
      var remainingNonces := clonedHeap.Count();
      var lastPromotedNonce := transactions[first].nonce;
      ghost var run := [rest[0]];
      RunOfOne(rest);
      for i := 0 to remainingNonces
        invariant clonedHeap.Valid() && Holds(clonedHeap.nodes, rest[i + 1..])
        invariant run == Run(rest[..i + 1]) && run != [] && lastPromotedNonce == run[|run| - 1]
        invariant |txs| == |run| && forall j | 0 <= j < |run| :: run[j] in transactions && txs[j] == transactions[run[j]]
      {
        DropAscends(rest, i + 1);
        ScanOne(rest, i + 1);
        var key := PopNonce(clonedHeap, rest[i + 1..]);
        if lastPromotedNonce + 1 == key {
          run := run + [rest[i + 1]];
          txs := txs + [transactions[key]];
          lastPromotedNonce := transactions[key].nonce;
        }
      }
      assert rest[..remainingNonces + 1] == rest;
    }

    /** _demoteAfter */
    method DemoteAfter(nonce: nat)
      requires Ascending(processable)
      modifies this`processable
      ensures processable == Below(old(processable), nonce)
    {
      BelowIsPrefix(processable, nonce);
      SortKeepsAscending(Below(processable, nonce));
      processable := Below(processable, nonce);
      processable := Sorting.Sort(processable, NonceLe);
    }

    /** _highestNonce */
    method HighestNonce() returns (highestNonce: int)
      requires Valid()
      ensures highestNonce == Highest(State())
    {
      hide HeapOrdered, HeapOf, Highest;
      highestNonce := -1;
      var keys := nonceHeap.Keys();
      for i := 0 to |keys|
        invariant highestNonce == -1 || highestNonce in keys
        invariant i > 0 ==> highestNonce in keys
        invariant forall j | 0 <= j < i :: keys[j] <= highestNonce
      {
        HeapMembers(nonceHeap.nodes, transactions.Keys);
        assert nonceHeap.nodes[i] in nonceHeap.nodes;
        if keys[i] > highestNonce {
          highestNonce := keys[i];
        }
      }
      HeapMembers(nonceHeap.nodes, transactions.Keys);
      KeysAre(nonceHeap.nodes, keys, transactions.Keys);
      IsHighest(State(), keys, highestNonce);
    }
  }
}
