/**
 The recency list: doubly linked nodes in a ring closed by a sentinel. A node is also the iterator
 that the cache stores.
 */
module KeyList {

  /** s without its element i. */
  function Without<T>(s: seq<T>, i: nat): seq<T>
    requires i < |s|
  {
    s[..i] + s[i + 1..]
  }

  class Node<K(0)> {
    var key: K
    var prev: Node?<K>
    var next: Node?<K>
  }

  class KeyList<K(0)> {
    const end: Node<K>
    var size: nat
    ghost var nodes: seq<Node<K>>
    /** The keys of the nodes, in order. */
    ghost var keys: seq<K>
    /** The sentinel and every node that is or was in the list. */
    ghost var repr: set<Node<K>>

    /** The ring at position i: the sentinel, the nodes in order, the sentinel again. */
    ghost function At(i: nat): Node<K>
      reads this
      requires i <= |nodes| + 1
    {
      if i == 0 || i == |nodes| + 1 then end else nodes[i - 1]
    }

    ghost predicate Valid()
      reads this, repr
    {
      && end in repr && (forall i :: 0 <= i < |nodes| ==> nodes[i] in repr && nodes[i] != end)
      && size == |nodes| == |keys|
      && (forall i :: 0 <= i < |nodes| ==> nodes[i].key == keys[i])
      && (forall i, j :: 0 <= i < j < |nodes| ==> nodes[i] != nodes[j])
      && (forall i :: 0 <= i <= |nodes| ==> At(i).next == At(i + 1))
      && (forall i :: 0 < i <= |nodes| + 1 ==> At(i).prev == At(i - 1))
    }

    constructor ()
      ensures Valid() && nodes == [] && keys == [] && fresh(repr)
    {
      var e := new Node<K>;
      end := e;
      size := 0;
      nodes := [];
      keys := [];
      repr := {e};
      new;
      end.next := end;
      end.prev := end;
    }

    /** Takes node i out of the ring. */
    method Unlink(n: Node<K>, ghost i: nat)
      requires Valid() && i < |nodes| && nodes[i] == n
      modifies this, repr
      ensures Valid() && nodes == Without(old(nodes), i)
      ensures keys == Without(old(keys), i) && repr == old(repr)
      ensures n.key == old(n.key)
    {
      assert At(i + 1) == n && At(i) == n.prev && At(i + 2) == n.next;
      var p, q := n.prev, n.next;
      p.next := q;
      q.prev := p;
      size := size - 1;
      nodes := Without(nodes, i);
      keys := Without(keys, i);
      forall j | 0 <= j < |nodes|
        ensures nodes[j].key == keys[j]
      {
        assert keys[j] == old(keys[if j < i then j else j + 1]);
      }
      forall j | 0 <= j <= |nodes|
        ensures At(j).next == At(j + 1) && At(j + 1).prev == At(j)
      {
        assert At(j) == old(At(if j <= i then j else j + 1));
        assert At(j + 1) == old(At(if j < i then j + 1 else j + 2));
        assert j > i ==> old(At(j + 1).next == At(j + 2) && At(j + 2).prev == At(j + 1));
      }
    }

    /** Links a node that is not in the list at the front. */
    method LinkFront(n: Node<K>)
      requires Valid() && n !in nodes && n != end
      modifies this, repr, n
      ensures Valid() && nodes == [n] + old(nodes) && keys == [n.key] + old(keys)
      ensures repr == old(repr) + {n}
      ensures n.key == old(n.key)
    {
      assert At(0).next == At(1) == end.next;
      var first := end.next;
      n.next := first;
      n.prev := end;
      first.prev := n;
      end.next := n;
      size := size + 1;
      nodes := [n] + nodes;
      keys := [n.key] + keys;
      repr := repr + {n};
      assert forall j :: 2 <= j <= |nodes| + 1 ==> At(j) == old(At(j - 1));
    }

    method PushFront(key: K) returns (n: Node<K>)
      requires Valid()
      modifies this, repr
      ensures Valid() && fresh(n) && nodes == [n] + old(nodes) && keys == [key] + old(keys)
      ensures repr == old(repr) + {n}
    {
      n := new Node<K>;
      n.key := key;
      LinkFront(n);
    }

    /** splice(begin(), list, n): moves n to the front; nothing happens when it is there. */
    method SpliceFront(n: Node<K>, ghost i: nat)
      requires Valid() && i < |nodes| && nodes[i] == n
      modifies this, repr
      ensures Valid() && nodes == [n] + Without(old(nodes), i)
      ensures keys == [old(keys)[i]] + Without(old(keys), i) && repr == old(repr)
    {
      assert At(0).next == At(1) == end.next;
      if end.next == n {
        assert i == 0;
      } else {
        Unlink(n, i);
        LinkFront(n);
      }
    }

    /** splice(begin(), list, n) and then begin(). */
    method SpliceAndBegin(n: Node<K>, ghost i: nat) returns (begin: Node<K>)
      requires Valid() && i < |nodes| && nodes[i] == n
      modifies this, repr
      ensures Valid() && begin == n && nodes == [begin] + Without(old(nodes), i)
      ensures keys == [old(keys)[i]] + Without(old(keys), i) && repr == old(repr)
    {
      SpliceFront(n, i);
      begin := Begin();
    }

    /** splice(begin(), list, n) and then *n = front(). */
    method SpliceAndAssign(n: Node<K>, ghost i: nat)
      requires Valid() && i < |nodes| && nodes[i] == n
      modifies this, repr
      ensures Valid() && nodes == [n] + Without(old(nodes), i)
      ensures keys == [old(keys)[i]] + Without(old(keys), i) && repr == old(repr)
    {
      SpliceFront(n, i);
      AssignFront(n);
    }

    method Erase(n: Node<K>, ghost i: nat)
      requires Valid() && i < |nodes| && nodes[i] == n
      modifies this, repr
      ensures Valid() && nodes == Without(old(nodes), i)
      ensures keys == Without(old(keys), i) && repr == old(repr)
    {
      Unlink(n, i);
    }

    /** The assignment *n = front(), for a node that is at the front: nothing changes. */
    method AssignFront(n: Node<K>)
      requires Valid() && nodes != [] && nodes[0] == n
      modifies n
      ensures Valid() && n.key == old(n.key) && n.prev == old(n.prev) && n.next == old(n.next)
    {
      assert At(0).next == At(1) == end.next;
      n.key := end.next.key;
    }

    method Begin() returns (n: Node<K>)
      requires Valid() && nodes != []
      ensures n == nodes[0]
    {
      assert At(0).next == At(1) == end.next;
      n := end.next;
    }

    /** The last node: std::prev(end()). */
    method Last() returns (n: Node<K>)
      requires Valid() && nodes != []
      ensures n == nodes[|nodes| - 1] && n.key == keys[|keys| - 1]
    {
      assert At(|nodes| + 1) == end && At(|nodes|) == end.prev;
      n := end.prev;
    }

    method Clear()
      requires Valid()
      modifies this, repr
      ensures Valid() && nodes == [] && keys == [] && repr == old(repr)
    {
      end.next := end;
      end.prev := end;
      size := 0;
      nodes := [];
      keys := [];
    }
  }
}
