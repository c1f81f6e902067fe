/**
 * The sentinel-headed singly linked list of threadsafe_list.hpp, run
 * sequentially: each operation is one atomic step (the per-node mutexes
 * are not modelled). Every traversal walks a `current` pointer from the
 * sentinel as threadsafe_list.hpp does; the ghost sequence `Nodes`
 * names the chain and `Contents` the payloads it carries.
 */
module ThreadsafeList {
  import opened ListSpec

  /** A list cell: its payload (absent in the sentinel) and the link to the next cell. */
  class Node<T> {
    var data: Option<T>
    var next: Node?<T>

    /** The payload-less sentinel head. */
    constructor Sentinel()
      ensures data == None && next == null
    {
      data := None;
      next := null;
    }

    constructor (value: T)
      ensures data == Some(value) && next == null
    {
      data := Some(value);
      next := null;
    }
  }

  class List<T> {
    const head: Node<T>
    // the chain head -> n1 -> ... -> nk, sentinel first
    ghost var Nodes: seq<Node<T>>
    // the payloads of n1 .. nk, front to back
    ghost var Contents: seq<T>
    ghost var Repr: set<object>

    /** The chain from `head` is finite, acyclic, ends in null and carries `Contents`. */
    ghost predicate Valid()
      reads this, Repr
      ensures Valid() ==> this in Repr
    {
      && this in Repr
      && head in Repr
      && |Nodes| == |Contents| + 1
      && Nodes[0] == head
      && (forall i :: 0 <= i < |Nodes| ==> Nodes[i] in Repr)
      && (forall i, j :: 0 <= i < j < |Nodes| ==> Nodes[i] != Nodes[j])
      && head.data == None
      && (forall i :: 0 <= i < |Nodes| - 1 ==> Nodes[i].next == Nodes[i + 1])
      && Nodes[|Nodes| - 1].next == null
      && (forall i :: 0 <= i < |Contents| ==> Nodes[i + 1].data == Some(Contents[i]))
    }

    /** Following `next` from the i-th cell of the chain: null exactly at the tail. */
    lemma ChainStep(i: nat)
      requires Valid() && i < |Nodes|
      ensures Nodes[i].next == null <==> i == |Contents|
      ensures i < |Contents| ==> Nodes[i].next == Nodes[i + 1] && Nodes[i + 1].data == Some(Contents[i])
    {
    }

    constructor ()
      ensures Valid() && fresh(Repr)
      ensures Contents == []
    {
      head := new Node.Sentinel();
      new;
      Nodes := [head];
      Contents := [];
      Repr := {this, head};
    }

    /** Splices a new cell holding `value` in right after the sentinel. */
    method PushFront(value: T)
      requires Valid()
      modifies Repr
      ensures Valid() && fresh(Repr - old(Repr))
      ensures head.next != null && fresh(head.next) && Repr == old(Repr) + {head.next}
      ensures Contents == [value] + old(Contents)
    {
      var newNode := new Node(value);
      newNode.next := head.next;
      head.next := newNode;
      Nodes := [head, newNode] + Nodes[1..];
      Contents := [value] + Contents;
      Repr := Repr + {newNode};
    }

    /** Applies `f` to every element, front to back; the results come back in visiting order. */
    method ForEach<U>(f: T -> U) returns (results: seq<U>)
      requires Valid()
      ensures |results| == |Contents|
      ensures forall i :: 0 <= i < |Contents| ==> results[i] == f(Contents[i])
    {
      var current := head;
      ghost var i := 0;
      results := [];
      while current.next != null
        invariant 0 <= i < |Nodes| && current == Nodes[i]
        invariant |results| == i
        invariant forall j :: 0 <= j < i ==> results[j] == f(Contents[j])
        decreases |Nodes| - i
      {
        var next := current.next;
        ChainStep(i);
        results := results + [f(next.data.value)];
        current := next;
        i := i + 1;
      }
      ChainStep(i);
    }

    /** The first element satisfying `p`, or None when no element does. */
    method FindFirstIf(p: T -> bool) returns (r: Option<T>)
      requires Valid()
      ensures r == FirstMatch(p, Contents)
    {
      var current := head;
      ghost var i := 0;
      while current.next != null
        invariant 0 <= i < |Nodes| && current == Nodes[i]
        invariant forall j :: 0 <= j < i ==> !p(Contents[j])
        decreases |Nodes| - i
      {
        var next := current.next;
        ChainStep(i);
        if p(next.data.value) {
          return next.data;
        }
        current := next;
        i := i + 1;
      }
      ChainStep(i);
      return None;
    }

    /** Overwrites the first element satisfying `p` with `newData`; reports whether there was one. */
    method UpdateIf(newData: T, p: T -> bool) returns (found: bool)
      requires Valid()
      modifies Repr
      ensures Valid() && Repr == old(Repr) && Nodes == old(Nodes)
      ensures found <==> FirstIndex(p, old(Contents)).Some?
      ensures Contents == match FirstIndex(p, old(Contents))
                          case None => old(Contents)
                          case Some(i) => old(Contents)[i := newData]
    {
      var current := head;
      ghost var i := 0;
      while current.next != null
        invariant Valid() && Repr == old(Repr) && Nodes == old(Nodes) && Contents == old(Contents)
        invariant 0 <= i < |Nodes| && current == Nodes[i]
        invariant forall j :: 0 <= j < i ==> !p(Contents[j])
        decreases |Nodes| - i
      {
        var next := current.next;
        ChainStep(i);
        if p(next.data.value) {
          next.data := Some(newData);
          Contents := Contents[i := newData];
          return true;
        }
        current := next;
        i := i + 1;
      }
      ChainStep(i);
      return false;
    }

    /** Repoints `current.next` (the i-th cell's link) past its successor, dropping that cell from the chain. */
    method Unlink(current: Node<T>, ghost i: nat)
      requires Valid() && i < |Contents| && current == Nodes[i]
      modifies this, current
      ensures Valid() && Repr == old(Repr) - {old(Nodes[i + 1])}
      ensures Nodes == old(Nodes[..i + 1] + Nodes[i + 2..])
      ensures Contents == old(Contents[..i] + Contents[i + 1..])
    {
      var next := current.next;
      ChainStep(i);
      current.next := next.next;
      Nodes := Nodes[..i + 1] + Nodes[i + 2..];
      Contents := Contents[..i] + Contents[i + 1..];
      Repr := Repr - {next};
    }

    /** Unlinks every element satisfying `p` in one pass; `current` stays put after an unlink. */
    method RemoveIf(p: T -> bool)
      requires Valid()
      modifies Repr
      ensures Valid() && Repr <= old(Repr)
      ensures Contents == Without(p, old(Contents))
    {
      var current := head;
      ghost var i := 0;
      assert Contents[0..] == Contents;
      while current.next != null
        invariant Valid() && Repr <= old(Repr)
        invariant 0 <= i < |Nodes| && current == Nodes[i]
        invariant Contents[..i] + Without(p, Contents[i..]) == Without(p, old(Contents))
        decreases |Nodes| - i
      {
        var next := current.next;
        ChainStep(i);
        ghost var done, rest := Contents[..i], Contents[i..];
        assert rest[0] == Contents[i] && rest[1..] == Contents[i + 1..];
        WithoutStep(p, done, rest);
        if p(next.data.value) {
          Unlink(current, i);
          assert Contents[..i] == done && Contents[i..] == rest[1..];
        } else {
          assert Contents[..i + 1] == done + [rest[0]];
          current := next;
          i := i + 1;
          assert Contents[i..] == rest[1..];
        }
      }
      ChainStep(i);
      assert Contents[..i] == Contents;
    }
  }
}
