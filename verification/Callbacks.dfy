/** Teardown callbacks, core/callbacks.c, on top of the linked list. */
module Callbacks {
  import opened Basics
  import opened LinkedList

  /** `struct callback`: a function, by its identity, and the argument to call it with. */
  datatype Registration = Registration(func: nat, arg: int)

  class DestroyCallbacks {
    var head: LlNode?<Registration>        // destroy_callback_head
    ghost var nodes: seq<LlNode<Registration>>
    ghost var registered: seq<Registration>   // in the order of registration
    var called: seq<Registration>          // the calls made
    var released: seq<Registration>        // the `struct callback`s freed

    /** The list holds what was registered, the last first. */
    ghost predicate Valid()
      reads this, nodes
    {
      && Linked(nodes) && head == From(nodes, 0)
      && Datas(nodes) == Reverse(registered)
    }

    constructor ()
      ensures Valid() && registered == [] && called == [] && released == []
    {
      head, nodes, registered := null, [], [];
      called, released := [], [];
    }

    /** add_destroy_callback; a null function is ignored. */
    method Add(func: Option<nat>, arg: int)
      requires Valid()
      modifies this`head, this`nodes, this`registered, nodes
      ensures Valid()
      ensures registered == old(registered) + if func.Some? then [Registration(func.value, arg)] else []
      ensures func.Some? ==> exists n :: fresh(n) && nodes == [n] + old(nodes)
      ensures func.None? ==> nodes == old(nodes)
    {
      if func.None? {
        return;
      }
      var cb := Registration(func.value, arg);
      var n := ListInsertBefore(head, cb, nodes, 0);
      assert nodes[..0] + [n] + nodes[0..] == [n] + nodes;
      assert old(Datas(nodes))[..0] + [cb] + old(Datas(nodes))[0..] == [cb] + old(Datas(nodes));
      head := n;
      nodes := [n] + nodes;
      ReverseConcat(registered, [cb]);
      assert Reverse([cb]) == [cb];
      registered := registered + [cb];
    }

    /** invoke_destroy_callbacks: list_foreach with a callback that calls the function of its node. Each is
        called once with its argument, the last registered first. */
    method Invoke()
      requires Valid()
      modifies this`called
      ensures Valid() && called == old(called) + Reverse(registered)
    {
      hide Reverse;
      var single := new Callback(false);
      ListForeach(head, single, nodes);
      called := called + single.seen;
    }

    /** cleanup_destroy_callbacks: every registration and every node is freed once, and the list is empty. */
    method Cleanup(heap: Heap<Registration>)
      requires Valid() && forall n :: n in nodes ==> n !in heap.freed
      modifies this`head, this`nodes, this`registered, this`released, nodes, heap
      ensures Valid() && registered == []
      ensures released == old(released) + Reverse(old(registered))
      ensures heap.freed == old(heap.freed) + old(nodes)
    {
      hide Reverse, Linked, Datas;
      var single := new Callback(false);
      ListForeach(head, single, nodes);
      released := released + single.seen;
      head := ListCleanup(heap, head, nodes);
      nodes, registered := [], [];
      NothingToReverse();
    }
  }

  lemma NothingToReverse()
    ensures Linked<Registration>([]) && Datas<Registration>([]) == Reverse([])
  {
  }
}
