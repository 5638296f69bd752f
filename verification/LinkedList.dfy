/** The doubly linked list of core/list.c, on the heap. */
module LinkedList {

  class LlNode<T> {
    var next: LlNode?<T>
    var prev: LlNode?<T>
    var data: T

    constructor (data: T)
      ensures this.data == data && next == null && prev == null
    {
      this.data := data;
      next, prev := null, null;
    }
  }

  function Before<T>(ns: seq<LlNode<T>>, i: nat): LlNode?<T>
    requires i <= |ns|
  {
    if i == 0 then null else ns[i - 1]
  }

  function From<T>(ns: seq<LlNode<T>>, i: nat): LlNode?<T>
    requires i <= |ns|
  {
    if i == |ns| then null else ns[i]
  }

  ghost predicate Distinct<T>(ns: seq<LlNode<T>>) {
    forall i, j :: 0 <= i < j < |ns| ==> ns[i] != ns[j]
  }

  ghost predicate LinkedAt<T>(ns: seq<LlNode<T>>, i: nat)
    requires i < |ns|
    reads ns[i]
  {
    ns[i].prev == Before(ns, i) && ns[i].next == From(ns, i + 1)
  }

  /** The nodes, each once, are linked both ways in this order, and to nothing else. */
  ghost predicate Linked<T>(ns: seq<LlNode<T>>)
    reads ns
  {
    Distinct(ns) && forall i :: 0 <= i < |ns| ==> LinkedAt(ns, i)
  }

  /** The next links, as the loops follow them. */
  lemma NextLinks<T>(ns: seq<LlNode<T>>)
    requires Linked(ns)
    ensures Distinct(ns) && forall i :: 0 <= i < |ns| ==> ns[i].next == From(ns, i + 1)
  {
    forall i | 0 <= i < |ns| ensures ns[i].next == From(ns, i + 1) {
      assert LinkedAt(ns, i);
    }
  }

  /** Forwards and backwards the links are inverse, and lead to nodes of the list only. */
  lemma LinksInverse<T>(ns: seq<LlNode<T>>, i: nat)
    requires Linked(ns) && i < |ns|
    ensures if i == 0 then ns[i].prev == null else ns[i].prev == ns[i - 1] && ns[i - 1].next == ns[i]
    ensures if i == |ns| - 1 then ns[i].next == null else ns[i].next == ns[i + 1] && ns[i + 1].prev == ns[i]
  {
    assert LinkedAt(ns, i);
    if i > 0 {
      assert LinkedAt(ns, i - 1);
    }
    if i < |ns| - 1 {
      assert LinkedAt(ns, i + 1);
    }
  }

  function Datas<T>(ns: seq<LlNode<T>>): (ds: seq<T>)
    reads ns
    ensures |ds| == |ns| && forall i :: 0 <= i < |ns| ==> ds[i] == ns[i].data
  {
    seq(|ns|, i requires 0 <= i < |ns| reads ns => ns[i].data)
  }

  lemma OneMore<T>(a: seq<T>, s: seq<T>, i: nat)
    requires i < |s|
    ensures a + s[..i] + [s[i]] == a + s[..i + 1]
  {
  }

  /** What free does to a block: it is on record, and its content is lost. */
  class Heap<T(0)> {
    ghost var freed: seq<LlNode<T>>

    constructor ()
      ensures freed == []
    {
      freed := [];
    }

    method Free(n: LlNode<T>)
      requires n !in freed
      modifies this, n
      ensures freed == old(freed) + [n]
    {
      n.next := *;
      n.prev := *;
      n.data := *;
      freed := freed + [n];
    }
  }

  /** The function list_foreach calls, with a record of its calls. If it `frees`, it may do with the node what
      it likes, free it included; else it only reads it. */
  class Callback<T(0)> {
    const frees: bool
    ghost var visited: seq<LlNode<T>>
    var seen: seq<T>   // the data of the nodes, at the time of each call

    constructor (frees: bool)
      ensures this.frees == frees && visited == [] && seen == []
    {
      this.frees := frees;
      visited, seen := [], [];
    }

    method Call(n: LlNode<T>)
      modifies this, if frees then {n} else {}
      ensures visited == old(visited) + [n] && seen == old(seen) + [old(n.data)]
    {
      seen := seen + [n.data];
      visited := visited + [n];
      if frees {
        n.next := *;
        n.prev := *;
        n.data := *;
      }
    }
  }

  /** The first node of the list that `node` is in. */
  method ListHead<T>(node: LlNode<T>, ghost ns: seq<LlNode<T>>, ghost k: nat) returns (head: LlNode<T>)
    requires Linked(ns) && k < |ns| && ns[k] == node
    ensures head == ns[0]
  {
    head := node;
    ghost var i: int := k;
    while head.prev != null
      invariant 0 <= i < |ns| && head == ns[i]
      decreases i
    {
      assert LinkedAt(ns, i);
      head := head.prev;
      i := i - 1;
    }
    assert LinkedAt(ns, i);
  }

  /** A new node in front of `node`; on its own if there is none. */
  method ListInsertBefore<T>(node: LlNode?<T>, data: T, ghost ns: seq<LlNode<T>>, ghost k: nat) returns (n: LlNode<T>)
    requires Linked(ns)
    requires if node == null then ns == [] && k == 0 else k < |ns| && ns[k] == node
    modifies ns
    ensures fresh(n)
    ensures Linked(ns[..k] + [n] + ns[k..])
    ensures Datas(ns[..k] + [n] + ns[k..]) == old(Datas(ns))[..k] + [data] + old(Datas(ns))[k..]
  {
    n := new LlNode(data);
    if node != null {
      assert LinkedAt(ns, k);
      n.prev := node.prev;
      if node.prev != null {
        node.prev.next := n;
      }
      node.prev := n;
    } else {
      n.prev := null;
    }
    n.next := node;
    ghost var ns' := ns[..k] + [n] + ns[k..];
    forall i | 0 <= i < |ns'| ensures LinkedAt(ns', i) {
      if i < k {
        assert ns'[i] == ns[i] && old(LinkedAt(ns, i));
      } else if i > k {
        assert ns'[i] == ns[i - 1] && old(LinkedAt(ns, i - 1));
      } else if k < |ns| {
        assert old(LinkedAt(ns, k));
      }
    }
  }

  /** The list without the node, and its new head. */
  method ListDelete<T(0)>(heap: Heap<T>, head: LlNode<T>, n: LlNode<T>, ghost ns: seq<LlNode<T>>, ghost k: nat) returns (head': LlNode?<T>)
    requires Linked(ns) && k < |ns| && ns[k] == n && head == ns[0] && n !in heap.freed
    modifies ns, heap
    ensures Linked(ns[..k] + ns[k + 1..])
    ensures Datas(ns[..k] + ns[k + 1..]) == old(Datas(ns))[..k] + old(Datas(ns))[k + 1..]
    ensures head' == From(ns[..k] + ns[k + 1..], 0)
    ensures heap.freed == old(heap.freed) + [n]
  {
    head' := head;
    assert LinkedAt(ns, k);
    if n.prev != null {
      n.prev.next := n.next;
    } else {
      head' := n.next;
    }
    if n.next != null {
      n.next.prev := n.prev;
    }
    heap.Free(n);
    ghost var ns' := ns[..k] + ns[k + 1..];
    forall i | 0 <= i < |ns'| ensures LinkedAt(ns', i) {
      if i < k {
        assert ns'[i] == ns[i] && old(LinkedAt(ns, i));
      } else {
        assert ns'[i] == ns[i + 1] && old(LinkedAt(ns, i + 1));
      }
    }
  }

  lemma NotYetFreed<T>(freed: seq<LlNode<T>>, ns: seq<LlNode<T>>, i: nat)
    requires i < |ns| && Distinct(ns) && forall n :: n in ns ==> n !in freed
    ensures ns[i] !in freed + ns[..i]
  {}

  /** Frees every node once, and reads none after it is freed. */
  method ListCleanup<T(0)>(heap: Heap<T>, head: LlNode?<T>, ghost ns: seq<LlNode<T>>) returns (head': LlNode?<T>)
    requires Linked(ns) && head == From(ns, 0) && forall n :: n in ns ==> n !in heap.freed
    modifies ns, heap
    ensures heap.freed == old(heap.freed) + ns
    ensures head' == null
  {
    NextLinks(ns);
    hide Linked, LinkedAt;
    var cur := head;
    ghost var i := 0;
    while cur != null
      invariant i <= |ns| && cur == From(ns, i)
      invariant forall j :: i <= j < |ns| ==> ns[j].next == From(ns, j + 1)
      invariant heap.freed == old(heap.freed) + ns[..i]
      decreases |ns| - i
    {
      var n := cur;
      cur := cur.next;
      NotYetFreed(old(heap.freed), ns, i);
      heap.Free(n);
      assert forall j :: i < j < |ns| ==> ns[j].next == From(ns, j + 1);
      OneMore(old(heap.freed), ns, i);
      i := i + 1;
    }
    return null;
  }

  method ListCount<T>(head: LlNode?<T>, ghost ns: seq<LlNode<T>>) returns (num: nat)
    requires Linked(ns) && head == From(ns, 0)
    ensures num == |ns|
  {
    NextLinks(ns);
    num := 0;
    var cur := head;
    while cur != null
      invariant num <= |ns| && cur == From(ns, num)
      decreases |ns| - num
    {
      num := num + 1;
      cur := cur.next;
    }
  }

  /** Calls back for each node once and in order, whatever the callback does to the node it is given. */
  method ListForeach<T(0)>(head: LlNode?<T>, callback: Callback?<T>, ghost ns: seq<LlNode<T>>)
    requires Linked(ns) && head == From(ns, 0)
    modifies callback, if callback != null && callback.frees then ns else []
    ensures callback != null ==> callback.visited == old(callback.visited) + ns
    ensures callback != null ==> callback.seen == old(callback.seen) + old(Datas(ns))
  {
    if callback == null {
      return;
    }
    NextLinks(ns);
    hide LinkedAt, Linked;
    ghost var datas := Datas(ns);
    hide Datas;
    var cur := head;
    ghost var i := 0;
    while cur != null
      invariant i <= |ns| && cur == From(ns, i)
      invariant forall j :: i <= j < |ns| ==> ns[j].next == From(ns, j + 1) && ns[j].data == datas[j]
      invariant callback.visited == old(callback.visited) + ns[..i] && callback.seen == old(callback.seen) + datas[..i]
      decreases |ns| - i
    {
      var n := cur;
      cur := cur.next;
      callback.Call(n);
      assert forall j :: i < j < |ns| ==> ns[j].next == From(ns, j + 1) && ns[j].data == datas[j];
      OneMore(old(callback.visited), ns, i);
      OneMore(old(callback.seen), datas, i);
      i := i + 1;
    }
  }
}
