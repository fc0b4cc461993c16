/** The binary heap of elements/utils/src/data_structures/min_heap.ts: a multiset whose least key is on top. */
module MinHeap {
  import opened Wrappers

  datatype Node<V> = Node(key: int, value: V)

  function Parent(i: nat): nat
    requires i > 0
  {
    (i - 1) / 2
  }

  ghost predicate HeapOrdered<V>(nodes: seq<Node<V>>) {
    forall i | 0 < i < |nodes| :: nodes[Parent(i)].key <= nodes[i].key
  }

  /** Ordered everywhere except, possibly, between `hole` and its parent. */
  ghost predicate OrderedAbove<V>(nodes: seq<Node<V>>, hole: nat) {
    && hole < |nodes|
    && (forall i | 0 < i < |nodes| && i != hole :: nodes[Parent(i)].key <= nodes[i].key)
    && (forall i | 0 < i < |nodes| && Parent(i) == hole && hole > 0 :: nodes[Parent(hole)].key <= nodes[i].key)
  }

  /** Ordered everywhere except, possibly, between `hole` and its children. */
  ghost predicate OrderedBelow<V>(nodes: seq<Node<V>>, hole: nat) {
    && hole < |nodes|
    && (forall i | 0 < i < |nodes| && Parent(i) != hole :: nodes[Parent(i)].key <= nodes[i].key)
    && (forall i | 0 < i < |nodes| && Parent(i) == hole && hole > 0 :: nodes[Parent(hole)].key <= nodes[i].key)
  }

  ghost predicate LeastChild<V>(nodes: seq<Node<V>>, index: nat, child: nat) {
    && 0 < child < |nodes| && Parent(child) == index
    && forall i | 0 < i < |nodes| && Parent(i) == index :: nodes[child].key <= nodes[i].key
  }

  ghost predicate NoSmallerChild<V>(nodes: seq<Node<V>>, index: nat) {
    && index < |nodes|
    && forall i | 0 < i < |nodes| && Parent(i) == index :: nodes[index].key <= nodes[i].key
  }

  lemma SwapKeepsMultiset<T>(s: seq<T>, i: nat, j: nat)
    requires i < |s| && j < |s|
    ensures multiset(s[i := s[j]][j := s[i]]) == multiset(s)
  {
  }

  /** The least key is on top. */
  lemma {:induction false} TopIsLeast<V>(nodes: seq<Node<V>>, i: nat)
    requires HeapOrdered(nodes) && i < |nodes|
    ensures nodes[0].key <= nodes[i].key
  {
    if i > 0 {
      TopIsLeast(nodes, Parent(i));
    }
  }

  class MinHeap<V> {
    var nodes: seq<Node<V>>

    ghost predicate Valid()
      reads this
    {
      HeapOrdered(nodes)
    }

    constructor ()
      ensures Valid() && nodes == []
    {
      nodes := [];
    }

    /** The copying constructor behind clone(). */
    constructor Copy(heap: MinHeap<V>)
      requires heap.Valid()
      ensures Valid() && nodes == heap.nodes
    {
      nodes := heap.nodes;
    }

    method Clone() returns (copy: MinHeap<V>)
      requires Valid()
      ensures fresh(copy) && copy.Valid() && copy.nodes == nodes
    {
      copy := new MinHeap.Copy(this);
    }

    method Clear()
      modifies this
      ensures Valid() && nodes == []
    {
      nodes := [];
    }

    function Count(): nat
      reads this
    {
      |nodes|
    }

    /** The keys in heap order. */
    function Keys(): (r: seq<int>)
      reads this
      ensures |r| == |nodes| && forall i | 0 <= i < |r| :: r[i] == nodes[i].key
    {
      seq(|nodes|, i requires 0 <= i < |nodes| reads this => nodes[i].key)
    }

    method Push(key: int, value: V)
      requires Valid()
      modifies this
      ensures Valid() && multiset(nodes) == old(multiset(nodes)) + multiset{Node(key, value)}
    {
      nodes := nodes + [Node(key, value)];
      MoveUp(|nodes| - 1);
    }

    method Pop() returns (r: Option<Node<V>>)
      requires Valid()
      modifies this
      ensures Valid()
      ensures old(nodes) == [] ==> r == None && nodes == []
      ensures old(nodes) != [] ==>
                && r.Some? && r.value in old(nodes) && multiset(nodes) == old(multiset(nodes)) - multiset{r.value}
                && |nodes| == old(|nodes|) - 1
                && forall n | n in old(nodes) :: r.value.key <= n.key
    {
      if |nodes| == 0 {
        return None;
      }
      ghost var before := nodes;
      forall n | n in before
        ensures before[0].key <= n.key
      {
        var i :| 0 <= i < |before| && before[i] == n;
        TopIsLeast(before, i);
      }
      var root := nodes[0];
      if |nodes| == 1 {
        nodes := [];
        assert before == [root];
        return Some(root);
      }
      var last := |nodes| - 1;
      nodes := [nodes[last]] + nodes[1..last];
      LastToTop(before);
      MoveDown();
      assert |multiset(nodes)| == |nodes|;
      return Some(root);
    }

    method Peek() returns (r: Option<Node<V>>)
      requires Valid()
      ensures nodes == [] ==> r == None
      ensures nodes != [] ==> r.Some? && r.value in nodes && forall n | n in nodes :: r.value.key <= n.key
    {
      if |nodes| == 0 {
        return None;
      }
      forall n | n in nodes
        ensures nodes[0].key <= n.key
      {
        var i :| 0 <= i < |nodes| && nodes[i] == n;
        TopIsLeast(nodes, i);
      }
      return Some(nodes[0]);
    }

    /** The moving node is kept in the hole, where the source writes it only at the end. */
    method MoveUp(originalIndex: nat)
      requires OrderedAbove(nodes, originalIndex)
      modifies this
      ensures Valid() && multiset(nodes) == old(multiset(nodes))
    {
      assert originalIndex < |nodes|;
      hide Parent, OrderedAbove;
      var index: nat := originalIndex;
      while index > 0
        invariant OrderedAbove(nodes, index) && index < |nodes|
        invariant multiset(nodes) == old(multiset(nodes))
      {
        ParentBelow(index);
        var parentIndex := Parent(index);
        if nodes[parentIndex].key <= nodes[index].key {
          break;
        }
        RaiseHole(nodes, index);
        SwapKeepsMultiset(nodes, index, parentIndex);
        nodes := nodes[index := nodes[parentIndex]][parentIndex := nodes[index]];
        index := parentIndex;
      }
      Settled(nodes, index);
    }

    method MoveDown()
      requires nodes != [] && OrderedBelow(nodes, 0)
      modifies this
      ensures Valid() && multiset(nodes) == old(multiset(nodes))
    {
      hide Parent, OrderedBelow, LeastChild, NoSmallerChild, HeapOrdered;
      var index: nat := 0;
      var halfCount := |nodes| / 2;
      while index < halfCount
        invariant OrderedBelow(nodes, index) && index < |nodes| && halfCount == |nodes| / 2
        invariant multiset(nodes) == old(multiset(nodes))
        decreases |nodes| - index
      {
        var leftChild, rightChild := index * 2 + 1, index * 2 + 2;
        var nextPath := if rightChild < |nodes| && nodes[rightChild].key < nodes[leftChild].key then rightChild else leftChild;
        SmallerChild(nodes, index, nextPath);
        if nodes[nextPath].key > nodes[index].key {
          BottomReached(nodes, index, nextPath);
          break;
        }
        LowerHole(nodes, index, nextPath);
        SwapKeepsMultiset(nodes, index, nextPath);
        nodes := nodes[index := nodes[nextPath]][nextPath := nodes[index]];
        index := nextPath;
      }
      NoChildren(nodes, index, halfCount);
    }
  }

  lemma ParentBelow(i: nat)
    requires i > 0
    ensures Parent(i) < i
  {
  }

  /** A hole that is not below a greater parent is no hole. */
  lemma Settled<V>(view: seq<Node<V>>, index: nat)
    requires OrderedAbove(view, index) && (index > 0 ==> view[Parent(index)].key <= view[index].key)
    ensures HeapOrdered(view)
  {
  }

  lemma LastToTop<V>(nodes: seq<Node<V>>)
    requires |nodes| >= 2 && HeapOrdered(nodes)
    ensures var last := |nodes| - 1;
            var moved := [nodes[last]] + nodes[1..last];
            && OrderedBelow(moved, 0) && multiset(moved) == multiset(nodes) - multiset{nodes[0]}
  {
    var last := |nodes| - 1;
    var moved := [nodes[last]] + nodes[1..last];
    assert nodes == [nodes[0]] + nodes[1..last] + [nodes[last]];
    forall i | 0 < i < |moved| && Parent(i) != 0
      ensures moved[Parent(i)].key <= moved[i].key
    {
      assert moved[i] == nodes[i] && moved[Parent(i)] == nodes[Parent(i)];
    }
  }

  /** Moving the parent down and the hole up. */
  lemma RaiseHole<V>(view: seq<Node<V>>, index: nat)
    requires 0 < index && OrderedAbove(view, index) && view[Parent(index)].key > view[index].key
    ensures var p := Parent(index); OrderedAbove(view[index := view[p]][p := view[index]], p)
  {
    var p := Parent(index);
    var after := view[index := view[p]][p := view[index]];
    forall i | 0 < i < |after| && i != p
      ensures after[Parent(i)].key <= after[i].key
    {
    }
    forall i | 0 < i < |after| && Parent(i) == p && p > 0
      ensures after[Parent(p)].key <= after[i].key
    {
      assert view[Parent(p)].key <= view[p].key;
    }
  }

  /** Moving the smaller child up and the hole down. */
  lemma LowerHole<V>(view: seq<Node<V>>, index: nat, child: nat)
    requires OrderedBelow(view, index) && LeastChild(view, index, child) && view[child].key <= view[index].key
    ensures OrderedBelow(view[index := view[child]][child := view[index]], child)
  {
    var after := view[index := view[child]][child := view[index]];
    forall i | 0 < i < |after| && Parent(i) != child
      ensures after[Parent(i)].key <= after[i].key
    {
    }
    forall i | 0 < i < |after| && Parent(i) == child
      ensures after[Parent(child)].key <= after[i].key
    {
      assert view[Parent(i)].key <= view[i].key;
    }
  }

  lemma SmallerChild<V>(view: seq<Node<V>>, index: nat, child: nat)
    requires index * 2 + 1 < |view|
    requires child == if index * 2 + 2 < |view| && view[index * 2 + 2].key < view[index * 2 + 1].key then index * 2 + 2 else index * 2 + 1
    ensures index < child < |view| && LeastChild(view, index, child)
  {
  }

  lemma BottomReached<V>(view: seq<Node<V>>, index: nat, child: nat)
    requires LeastChild(view, index, child) && index < |view| && view[child].key > view[index].key
    ensures NoSmallerChild(view, index)
  {
  }

  lemma NoChildren<V>(view: seq<Node<V>>, index: nat, halfCount: nat)
    requires OrderedBelow(view, index) && halfCount == |view| / 2
    requires index >= halfCount || NoSmallerChild(view, index)
    ensures HeapOrdered(view)
  {
    forall i | 0 < i < |view|
      ensures view[Parent(i)].key <= view[i].key
    {
      if Parent(i) == index && index >= halfCount {
        assert false;
      }
    }
  }
}
