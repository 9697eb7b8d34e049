/**
 The cache as it is stored: a hash map whose entries hold a value and the list node of their key.
 Its methods refine the operations on values in LruSpec.
 */
module Cache {
  import opened Common
  import opened KeyList
  import opened LruSpec

  datatype IndexedValue<K(0), V> = IndexedValue(value: V, node: Node<K>)

  /** Map entries, list nodes and abstract value agree: every stored iterator points at the node
      that holds its key's place in the list. */
  ghost predicate Consistent<K(!new, 0), V>(nodes: seq<Node<K>>, index: map<K, IndexedValue<K, V>>,
                                            m: Lru<K, V>) {
    && |m.order| == |nodes|
    && (forall i :: 0 <= i < |nodes| ==> m.order[i] in index && index[m.order[i]].node == nodes[i])
    && (forall k :: k in index <==> k in m.order)
    && (forall k :: k in m.values <==> k in index)
    && (forall k :: k in index ==> m.values[k] == index[k].value)
  }

  lemma ConsistentIndexed<K(!new, 0), V>(nodes: seq<Node<K>>, index: map<K, IndexedValue<K, V>>,
                                         m: Lru<K, V>)
    requires Consistent(nodes, index, m)
    requires forall i, j :: 0 <= i < j < |nodes| ==> nodes[i] != nodes[j]
    ensures Indexed(m) && |index| == |m.order|
  {
    KeysCount(m.order);
    assert index.Keys == Keys(m.order);
  }

  /** m with its entry i moved to the front. */
  function Fronted<K(!new), V>(m: Lru<K, V>, i: nat): Lru<K, V>
    requires i < |m.order|
  {
    m.(order := [m.order[i]] + Without(m.order, i))
  }

  lemma ConsistentToFront<K(!new, 0), V>(nodes: seq<Node<K>>, index: map<K, IndexedValue<K, V>>,
                                         m: Lru<K, V>, i: nat)
    requires Consistent(nodes, index, m) && Indexed(m) && i < |nodes|
    ensures Consistent([nodes[i]] + Without(nodes, i), index, Fronted(m, i))
    ensures Fronted(m, i) == m.(order := ToFront(m.order, m.order[i]))
  {
    RemoveAt(m.order, i);
  }

  /** m with the value of k set. */
  function Set<K(!new), V>(m: Lru<K, V>, k: K, v: V): Lru<K, V> {
    m.(values := m.values[k := v])
  }

  lemma ConsistentSet<K(!new, 0), V>(nodes: seq<Node<K>>, index: map<K, IndexedValue<K, V>>,
                                     m: Lru<K, V>, k: K, v: V)
    requires Consistent(nodes, index, m) && k in index
    ensures Consistent(nodes, index[k := IndexedValue(v, index[k].node)], Set(m, k, v))
  {
  }

  /** m with a new entry at the front. */
  function Pushed<K(!new), V>(m: Lru<K, V>, k: K, v: V): Lru<K, V> {
    m.(order := [k] + m.order, values := m.values[k := v])
  }

  lemma ConsistentPush<K(!new, 0), V>(nodes: seq<Node<K>>, index: map<K, IndexedValue<K, V>>,
                                      m: Lru<K, V>, n: Node<K>, k: K, v: V)
    requires Consistent(nodes, index, m) && k !in index
    ensures Consistent([n] + nodes, index[k := IndexedValue(v, n)], Pushed(m, k, v))
  {
  }

  lemma ConsistentErase<K(!new, 0), V>(nodes: seq<Node<K>>, index: map<K, IndexedValue<K, V>>,
                                       m: Lru<K, V>, i: nat)
    requires Consistent(nodes, index, m) && Indexed(m) && i < |nodes|
    ensures Consistent(Without(nodes, i), index - {m.order[i]}, Erased(m, i))
    ensures Remove(m.order, m.order[i]) == Without(m.order, i)
  {
    RemoveAt(m.order, i);
    RemoveMembers(m.order, m.order[i]);
  }

  /** m without its entry i. */
  function Erased<K(!new), V>(m: Lru<K, V>, i: nat): Lru<K, V>
    requires i < |m.order|
  {
    m.(order := Without(m.order, i), values := m.values - {m.order[i]})
  }

  lemma EvictErased<K(!new), V>(m: Lru<K, V>)
    requires |m.order| > m.capacity
    ensures Evict(Erased(m, |m.order| - 1)) == Evict(m)
  {
    assert Without(m.order, |m.order| - 1) == m.order[..|m.order| - 1];
  }

  class Cache<K(==, !new, 0), V> {
    var index: map<K, IndexedValue<K, V>>
    const list: KeyList<K>
    var capacity: nat
    /** The abstract value that the fields represent. */
    ghost var model: Lru<K, V>

    /** Map and list agree, whatever the size. */
    ghost predicate Agrees()
      reads this, list, list.repr
    {
      && list.Valid()
      && list.keys == model.order && capacity == model.capacity
      && Consistent(list.nodes, index, model)
    }

    ghost predicate Valid()
      reads this, list, list.repr
    {
      Agrees() && |list.nodes| <= capacity
    }

    lemma ValidModel()
      requires Agrees()
      ensures Indexed(model) && |index| == |model.order|
      ensures Valid() ==> LruSpec.Valid(model)
    {
      ConsistentIndexed(list.nodes, index, model);
    }

    /** The position of a cached key in the list. */
    lemma Position(k: K) returns (i: nat)
      requires Agrees() && k in index
      ensures i < |list.nodes| && model.order[i] == k && index[k].node == list.nodes[i]
    {
      i :| 0 <= i < |model.order| && model.order[i] == k;
    }

    constructor (capacity: nat)
      ensures Valid() && model == Empty(capacity)
      ensures fresh(list) && fresh(list.repr)
    {
      index := map[];
      list := new KeyList<K>();
      this.capacity := capacity;
      model := Empty(capacity);
    }

    /** find: the value the returned iterator points to, None for end(). */
    method Find(key: K) returns (r: Option<V>)
      requires Valid()
      modifies this, list, list.repr
      ensures Valid() && model == Apply(old(model), LruSpec.Find(key))
      ensures r == Lookup(old(model), key) == Lookup(model, key)
      ensures index == old(index) && list.repr == old(list.repr)
    {
      if key in index {
        var node := index[key].node;
        ghost var i := Position(key);
        ghost var nodes, m := list.nodes, Fronted(model, i);
        assert Consistent([node] + Without(nodes, i), index, m)
            && m == Apply(model, LruSpec.Find(key)) by {
          ValidModel();
          ConsistentToFront(nodes, index, model, i);
        }
        r := Some(index[key].value);
        list.SpliceAndAssign(node, i);
        model := m;
      } else {
        r := None;
      }
    }

    /** insert: a key value pair becomes the most recent entry; then the least recent entries go
        until the rest fits. The returned iterator points to the entry of the key, and to nothing
        when that entry went too. */
    method Insert(key: K, value: V) returns (r: Option<V>)
      requires Valid()
      modifies this, list, list.repr
      ensures Valid() && model == Apply(old(model), LruSpec.Insert(key, value))
      ensures r == Lookup(model, key)
      ensures fresh(list.repr - old(list.repr))
    {
      if key !in index {
        InsertNew(key, value);
        EvictAll();
      } else {
        Renew(key, value);
      }
      r := Peek(key);
    }

    /** What the map holds for a key. */
    method Peek(key: K) returns (r: Option<V>)
      requires Valid()
      ensures r == Lookup(model, key)
    {
      r := if key in index then Some(index[key].value) else None;
    }

    /** What is cached when the key at position i is in front and has the new value. */
    lemma RenewedIs(key: K, value: V, i: nat)
      requires Valid() && key in index
      requires i < |list.nodes| && model.order[i] == key && index[key].node == list.nodes[i]
      ensures i < |model.order| && key in Fronted(model, i).values
      ensures Consistent([list.nodes[i]] + Without(list.nodes, i),
                         index[key := IndexedValue(value, list.nodes[i])], Set(Fronted(model, i), key, value))
      ensures Set(Fronted(model, i), key, value) == Apply(model, LruSpec.Insert(key, value))
    {
      ValidModel();
      ConsistentToFront(list.nodes, index, model, i);
      ConsistentSet([list.nodes[i]] + Without(list.nodes, i), index, Fronted(model, i), key, value);
    }

    /** The entry of a cached key gets its new value and moves to the front. */
    method Renew(key: K, value: V)
      requires Valid() && key in index
      modifies this, list, list.repr
      ensures Valid() && model == Apply(old(model), LruSpec.Insert(key, value))
      ensures list.repr == old(list.repr)
    {
      var node := index[key].node;
      ghost var i := Position(key);
      ghost var nodes, m := list.nodes, Set(Fronted(model, i), key, value);
      RenewedIs(key, value, i);
      var begin := list.SpliceAndBegin(node, i);
      index := index[key := IndexedValue(value, begin)];
      model := m;
    }

    /** The new entry of insert, before anything is evicted. */
    method InsertNew(key: K, value: V)
      requires Valid() && key !in index
      modifies this, list, list.repr
      ensures Agrees() && model == Pushed(old(model), key, value)
      ensures fresh(list.repr - old(list.repr))
    {
      ghost var nodes, m := list.nodes, Pushed(model, key, value);
      var node := list.PushFront(key);
      ConsistentPush(nodes, index, model, node, key, value);
      var begin := list.Begin();
      index := index[key := IndexedValue(value, begin)];
      model := m;
    }

    /** The eviction loop of insert. */
    method EvictAll()
      requires Agrees()
      modifies this, list, list.repr
      ensures Valid() && model == Evict(old(model))
      ensures list.repr == old(list.repr)
    {
      ValidModel();
      while |index| > capacity
        invariant Agrees() && |index| == |model.order|
        invariant Evict(model) == Evict(old(model))
        invariant list.repr == old(list.repr)
        decreases |index|
      {
        EvictErased(model);
        EvictLast();
        ValidModel();
      }
    }

    /** One turn of the eviction loop. */
    method EvictLast()
      requires Agrees() && list.nodes != []
      modifies this, list, list.repr
      ensures Agrees() && model == Erased(old(model), |old(model).order| - 1)
      ensures list.repr == old(list.repr)
    {
      ghost var i := |list.nodes| - 1;
      ghost var nodes, m := list.nodes, Erased(model, i);
      var last := list.Last();
      var deleted := last.key;
      assert Consistent(Without(nodes, i), index - {deleted}, m) by {
        ValidModel();
        ConsistentErase(nodes, index, model, i);
      }
      index := index - {deleted};
      list.Erase(last, i);
      model := m;
    }

    method DeleteKey(key: K)
      requires Valid()
      modifies this, list, list.repr
      ensures Valid() && model == Apply(old(model), LruSpec.Delete(key))
      ensures list.repr == old(list.repr)
    {
      if key in index {
        var node := index[key].node;
        ghost var i := Position(key);
        ghost var nodes, m := list.nodes, Erased(model, i);
        assert Consistent(Without(nodes, i), index - {key}, m) && m == Apply(model, LruSpec.Delete(key)) by {
          ValidModel();
          ConsistentErase(nodes, index, model, i);
        }
        list.Erase(node, i);
        index := index - {key};
        model := m;
      }
    }

    method Size() returns (n: nat)
      requires Valid()
      ensures n == |model.order| && n <= model.capacity
    {
      ValidModel();
      n := |index|;
    }

    method Clear()
      requires Valid()
      modifies this, list, list.repr
      ensures Valid() && model == Apply(old(model), LruSpec.Clear) && list.repr == old(list.repr)
      ensures list.keys == [] && index == map[] && capacity == 100
    {
      list.Clear();
      index := map[];
      capacity := DEFAULT_CACHE_SIZE;
      model := Lru([], map[], DEFAULT_CACHE_SIZE);
    }

    /** Any sequence of calls: the cache goes through the states of LruSpec.Run. */
    method Perform(ops: seq<Op<K, V>>)
      requires Valid()
      modifies this, list, list.repr
      ensures Valid() && model == Run(old(model), ops)
    {
      var rest := ops;
      while rest != []
        invariant Valid() && fresh(list.repr - old(list.repr))
        invariant Run(model, rest) == Run(old(model), ops)
        decreases |rest|
      {
        match rest[0] {
          case Find(k) => var _ := Find(k);
          case Insert(k, v) => var _ := Insert(k, v);
          case Delete(k) => DeleteKey(k);
          case Clear => Clear();
        }
        rest := rest[1..];
      }
    }
  }
}
