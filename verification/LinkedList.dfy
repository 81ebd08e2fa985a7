/** The doubly linked list of packages/utils/src/array.ts. */
module LinkedLists {
  import opened Wrappers

  class Node<T> {
    var data: T
    var next: Node?<T>
    var prev: Node?<T>

    constructor (data: T)
      ensures this.data == data && next == null && prev == null
    {
      this.data := data;
      next, prev := null, null;
    }
  }

  /** `chain` is the sequence of nodes that the pointers spell out, `contents` the data in them. */
  class LinkedList<T> {
    var length: nat
    var head: Node?<T>
    var tail: Node?<T>
    ghost var chain: seq<Node<T>>
    ghost var contents: seq<T>

    /** `head`, `tail`, `prev`, `next` and `length` all describe the same acyclic chain. */
    ghost predicate Valid()
      reads this, chain
    {
      && length == |chain| == |contents|
      && (chain == [] ==> head == null && tail == null)
      && (chain != [] ==>
            && head == chain[0] && chain[0].prev == null
            && tail == chain[|chain| - 1] && chain[|chain| - 1].next == null)
      && (forall i, j :: 0 <= i < j < |chain| ==> chain[i] != chain[j])
      && (forall i {:trigger chain[i].next} :: 0 <= i < |chain| - 1 ==> chain[i].next == chain[i + 1])
      && (forall i {:trigger chain[i].prev} :: 1 <= i < |chain| ==> chain[i].prev == chain[i - 1])
      && (forall i :: 0 <= i < |chain| ==> chain[i].data == contents[i])
    }

    constructor ()
      ensures Valid() && contents == [] && chain == []
    {
      length := 0;
      head, tail := null, null;
      chain, contents := [], [];
    }

    method Push(data: T)
      requires Valid()
      modifies this, chain
      ensures Valid()
      ensures contents == old(contents) + [data]
      ensures |chain| == |old(chain)| + 1 && chain[..|old(chain)|] == old(chain)
      ensures fresh(chain[|old(chain)|])
    {
      var newTail := new Node(data);
      if length == 0 {
        head, tail := newTail, newTail;
      } else {
        tail.next := newTail;
        newTail.prev := tail;
        tail := newTail;
      }
      length := length + 1;
      chain, contents := chain + [newTail], contents + [data];
    }

    /** Takes the last item; answers `None` exactly on the empty list. */
    method Pop() returns (r: Option<T>)
      requires Valid()
      modifies this, chain
      ensures Valid()
      ensures old(contents) == [] ==> r == None && contents == [] && chain == old(chain)
      ensures old(contents) != [] ==>
                && r == Some(old(contents)[|old(contents)| - 1])
                && contents == old(contents)[..|old(contents)| - 1]
                && chain == old(chain)[..|old(chain)| - 1]
    {
      if tail == null {
        return None;
      }
      var oldTail := tail;
      length := length - 1;
      if length == 0 {
        head, tail := null, null;
      } else {
        tail := oldTail.prev;
        tail.next := null;
        oldTail.prev, oldTail.next := null, null;
      }
      chain, contents := chain[..|chain| - 1], contents[..|contents| - 1];
      return Some(oldTail.data);
    }

    /** Takes the first item; answers `None` exactly on the empty list. */
    method Shift() returns (r: Option<T>)
      requires Valid()
      modifies this, chain
      ensures Valid()
      ensures old(contents) == [] ==> r == None && contents == [] && chain == old(chain)
      ensures old(contents) != [] ==>
                && r == Some(old(contents)[0])
                && contents == old(contents)[1..]
                && chain == old(chain)[1..]
    {
      if head == null {
        return None;
      }
      var oldHead := head;
      length := length - 1;
      if length == 0 {
        head, tail := null, null;
      } else {
        head := oldHead.next;
        head.prev := null;
        oldHead.prev, oldHead.next := null, null;
      }
      chain, contents := chain[1..], contents[1..];
      return Some(oldHead.data);
    }

    method Clear()
      modifies this
      ensures Valid() && contents == [] && chain == []
    {
      head, tail := null, null;
      length := 0;
      chain, contents := [], [];
    }

    /** Walks the `next` pointers from `head` to the end. */
    method ToArray() returns (arr: seq<T>)
      requires Valid()
      ensures arr == contents
    {
      var node := head;
      arr := [];
      while node != null
        invariant |arr| <= |chain| && arr == contents[..|arr|]
        invariant node == if |arr| < |chain| then chain[|arr|] else null
        decreases |chain| - |arr|
      {
        arr := arr + [node.data];
        node := node.next;
      }
    }

    method Map<U>(fn: T -> U) returns (arr: seq<U>)
      requires Valid()
      ensures |arr| == |contents|
      ensures forall i :: 0 <= i < |arr| ==> arr[i] == fn(contents[i])
    {
      var node := head;
      arr := [];
      while node != null
        invariant |arr| <= |chain|
        invariant node == if |arr| < |chain| then chain[|arr|] else null
        invariant forall i :: 0 <= i < |arr| ==> arr[i] == fn(contents[i])
        decreases |chain| - |arr|
      {
        arr := arr + [fn(node.data)];
        node := node.next;
      }
    }
  }
}
