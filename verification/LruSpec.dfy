/**
 The cache as a value: keys in order of recency, most recent first, and their values.
 */
module LruSpec {
  import opened Common

  datatype Lru<K(==), V> = Lru(order: seq<K>, values: map<K, V>, capacity: nat)

  datatype Op<K(==), V> = Find(key: K) | Insert(key: K, value: V) | Delete(key: K) | Clear

  const DEFAULT_CACHE_SIZE: nat := 100

  function Remove<K(==)>(s: seq<K>, k: K): seq<K> {
    if s == [] then []
    else if s[0] == k then Remove(s[1..], k)
    else [s[0]] + Remove(s[1..], k)
  }

  lemma {:induction false} RemoveMembers<K(!new)>(s: seq<K>, k: K)
    ensures forall x :: x in Remove(s, k) <==> x in s && x != k
    ensures k !in s ==> Remove(s, k) == s
  {
    if s != [] {
      RemoveMembers(s[1..], k);
      assert s == [s[0]] + s[1..];
    }
  }

  ghost predicate NoDup<K>(s: seq<K>) {
    forall i, j :: 0 <= i < j < |s| ==> s[i] != s[j]
  }

  function ToFront<K(==, !new)>(s: seq<K>, k: K): seq<K> {
    [k] + Remove(s, k)
  }

  /** Drops least recent entries until the rest fits. */
  function Evict<K(==, !new), V>(c: Lru<K, V>): Lru<K, V>
    decreases |c.order|
  {
    if |c.order| > c.capacity then
      var last := |c.order| - 1;
      Evict(c.(order := c.order[..last], values := c.values - {c.order[last]}))
    else c
  }

  function Apply<K(==, !new), V>(c: Lru<K, V>, op: Op<K, V>): Lru<K, V> {
    match op
    case Find(k) =>
      if k in c.order then c.(order := ToFront(c.order, k)) else c
    case Insert(k, v) =>
      if k in c.order then c.(order := ToFront(c.order, k), values := c.values[k := v])
      else Evict(c.(order := [k] + c.order, values := c.values[k := v]))
    case Delete(k) =>
      if k in c.order then c.(order := Remove(c.order, k), values := c.values - {k}) else c
    case Clear =>
      Lru([], map[], DEFAULT_CACHE_SIZE)
  }

  function Run<K(==, !new), V>(c: Lru<K, V>, ops: seq<Op<K, V>>): Lru<K, V>
    decreases ops
  {
    if ops == [] then c else Run(Apply(c, ops[0]), ops[1..])
  }

  function Lookup<K(==, !new), V>(c: Lru<K, V>, k: K): Option<V> {
    if k in c.values then Some(c.values[k]) else None
  }

  function Empty<K(==, !new), V>(capacity: nat): Lru<K, V> {
    Lru([], map[], capacity)
  }

  // ------------------------------------------------------------- validity

  /** The list has no key twice and the index has exactly its keys. */
  ghost predicate Indexed<K(!new), V>(c: Lru<K, V>) {
    NoDup(c.order) && forall k :: k in c.values <==> k in c.order
  }

  ghost predicate Valid<K(!new), V>(c: Lru<K, V>) {
    Indexed(c) && |c.order| <= c.capacity
  }

  lemma NoDupPush<K(!new)>(s: seq<K>, x: K)
    ensures x !in s && NoDup(s) ==> NoDup([x] + s)
  {
  }

  lemma NoDupTail<K(!new)>(s: seq<K>)
    requires NoDup(s) && s != []
    ensures NoDup(s[1..]) && s[0] !in s[1..]
  {
  }

  function Keys<K(==, !new)>(s: seq<K>): set<K> {
    set x | x in s
  }

  lemma {:induction false} KeysCount<K(!new)>(s: seq<K>)
    requires NoDup(s)
    ensures |Keys(s)| == |s|
  {
    if s != [] {
      KeysCount(s[1..]);
      assert s[0] !in s[1..];
      assert Keys(s) == {s[0]} + Keys(s[1..]);
    }
  }

  lemma {:induction false} RemoveNoDup<K(!new)>(s: seq<K>, k: K)
    requires NoDup(s)
    ensures NoDup(Remove(s, k))
    ensures |Remove(s, k)| == if k in s then |s| - 1 else |s|
    ensures forall x :: x in Remove(s, k) <==> x in s && x != k
    ensures k !in s ==> Remove(s, k) == s
  {
    RemoveMembers(s, k);
    if s != [] {
      RemoveMembers(s[1..], k);
      RemoveNoDup(s[1..], k);
      NoDupTail(s);
      NoDupPush(Remove(s[1..], k), s[0]);
    }
  }

  lemma {:induction false} RemoveAt<K(!new)>(s: seq<K>, i: nat)
    requires NoDup(s) && i < |s|
    ensures Remove(s, s[i]) == s[..i] + s[i + 1..]
  {
    if i == 0 {
      NoDupTail(s);
      RemoveMembers(s[1..], s[0]);
    } else {
      RemoveAt(s[1..], i - 1);
      assert s[1..][..i - 1] == s[1..i];
      assert s[1..][i..] == s[i + 1..];
      assert [s[0]] + s[1..i] == s[..i];
    }
  }

  lemma {:induction false} RemoveConcat<K(!new)>(a: seq<K>, b: seq<K>, k: K)
    ensures Remove(a + b, k) == Remove(a, k) + Remove(b, k)
  {
    if a == [] {
      assert a + b == b;
    } else {
      RemoveConcat(a[1..], b, k);
      assert (a + b)[1..] == a[1..] + b;
    }
  }

  /** Dropping the last key of a list without duplicates removes just that key. */
  lemma DropLast<K(!new)>(s: seq<K>)
    requires NoDup(s) && s != []
    ensures NoDup(s[..|s| - 1])
    ensures forall k :: k in s[..|s| - 1] <==> k in s && k != s[|s| - 1]
  {
    assert s == s[..|s| - 1] + [s[|s| - 1]];
  }

  lemma EvictOnce<K(!new), V>(c: Lru<K, V>)
    requires Indexed(c) && |c.order| <= c.capacity + 1
    ensures Valid(Evict(c))
    ensures Evict(c) == if |c.order| <= c.capacity then c
                        else c.(order := c.order[..|c.order| - 1],
                                values := c.values - {c.order[|c.order| - 1]})
  {
    if |c.order| > c.capacity {
      var last := |c.order| - 1;
      var c' := c.(order := c.order[..last], values := c.values - {c.order[last]});
      assert Evict(c') == c';
      DropLast(c.order);
    }
  }

  /** Every operation keeps the list free of duplicates, the index in step with it, and the size
      within the capacity. */
  lemma ApplyValid<K(!new), V>(c: Lru<K, V>, op: Op<K, V>)
    requires Valid(c)
    ensures Valid(Apply(c, op))
    ensures !op.Clear? ==> Apply(c, op).capacity == c.capacity
  {
    match op
    case Find(k) => RemoveNoDup(c.order, k);
    case Insert(k, v) =>
      if k in c.order {
        RemoveNoDup(c.order, k);
      } else {
        EvictOnce(c.(order := [k] + c.order, values := c.values[k := v]));
      }
    case Delete(k) => RemoveNoDup(c.order, k);
    case Clear =>
  }

  lemma {:induction false} RunValid<K(!new), V>(c: Lru<K, V>, ops: seq<Op<K, V>>)
    requires Valid(c)
    ensures Valid(Run(c, ops))
    decreases ops
  {
    if ops != [] {
      ApplyValid(c, ops[0]);
      RunValid(Apply(c, ops[0]), ops[1..]);
    }
  }

  /** An insert makes its key the most recent one, and evicts at most one other key: the least
      recent one, and only when the cache is full. A cache without room stays empty. */
  lemma InsertEvictsLeastRecent<K(!new), V>(c: Lru<K, V>, k: K, v: V)
    requires Valid(c)
    ensures var c' := Apply(c, Insert(k, v));
            && (if c.capacity == 0 then c'.order == []
                else c'.order != [] && c'.order[0] == k && Lookup(c', k) == Some(v))
            && (forall x :: x != k && x in c.order && x !in c'.order ==>
                  |c.order| == c.capacity && k !in c.order && x == c.order[|c.order| - 1])
            && (forall x :: x != k && x in c'.order ==> x in c.order && Lookup(c', x) == Lookup(c, x))
  {
    ApplyValid(c, Insert(k, v));
    if k !in c.order {
      var c1 := c.(order := [k] + c.order, values := c.values[k := v]);
      EvictOnce(c1);
      var c' := Apply(c, Insert(k, v));
      forall i | 0 <= i < |c.order| && (i < |c.order| - 1 || |c.order| < c.capacity)
        ensures c.order[i] in c'.order
      {
        assert c'.order[i + 1] == c1.order[i + 1] == c.order[i];
      }
    }
  }

  // ------------------------------------------------------------- what each operation does

  /** find moves a cached key to the front and changes nothing else; a miss changes nothing. */
  lemma FindIs<K(!new), V>(c: Lru<K, V>, k: K)
    requires Valid(c)
    ensures k !in c.order ==> Lookup(c, k) == None && Apply(c, Find(k)) == c
    ensures forall i | 0 <= i < |c.order| && c.order[i] == k ::
              Apply(c, Find(k)) == Lru([k] + c.order[..i] + c.order[i + 1..], c.values, c.capacity)
  {
    forall i | 0 <= i < |c.order| && c.order[i] == k
      ensures Apply(c, Find(k)) == Lru([k] + c.order[..i] + c.order[i + 1..], c.values, c.capacity)
    {
      RemoveAt(c.order, i);
      assert [k] + (c.order[..i] + c.order[i + 1..]) == [k] + c.order[..i] + c.order[i + 1..];
    }
  }

  /** insert of a cached key moves it to the front with its new value; a new key goes to the front,
      and what does not fit any more goes from the back. */
  lemma InsertIs<K(!new), V>(c: Lru<K, V>, k: K, v: V)
    requires Valid(c)
    ensures forall i | 0 <= i < |c.order| && c.order[i] == k ::
              Apply(c, Insert(k, v)) == Lru([k] + c.order[..i] + c.order[i + 1..], c.values[k := v], c.capacity)
    ensures k !in c.order && |c.order| < c.capacity ==>
              Apply(c, Insert(k, v)) == Lru([k] + c.order, c.values[k := v], c.capacity)
    ensures k !in c.order && |c.order| == c.capacity > 0 ==>
              var last := |c.order| - 1;
              Apply(c, Insert(k, v))
              == Lru([k] + c.order[..last], c.values[k := v] - {c.order[last]}, c.capacity)
  {
    forall i | 0 <= i < |c.order| && c.order[i] == k
      ensures Apply(c, Insert(k, v)) == Lru([k] + c.order[..i] + c.order[i + 1..], c.values[k := v], c.capacity)
    {
      RemoveAt(c.order, i);
      assert [k] + (c.order[..i] + c.order[i + 1..]) == [k] + c.order[..i] + c.order[i + 1..];
    }
    if k !in c.order {
      EvictOnce(c.(order := [k] + c.order, values := c.values[k := v]));
      if |c.order| == c.capacity > 0 {
        assert ([k] + c.order)[..|c.order|] == [k] + c.order[..|c.order| - 1];
      }
    }
  }

  /** delete_key takes out its key and nothing else. */
  lemma DeleteIs<K(!new), V>(c: Lru<K, V>, k: K)
    requires Valid(c)
    ensures Lookup(Apply(c, Delete(k)), k) == None && k !in Apply(c, Delete(k)).order
    ensures k !in c.order ==> Apply(c, Delete(k)) == c
    ensures forall i | 0 <= i < |c.order| && c.order[i] == k ::
              Apply(c, Delete(k)) == Lru(c.order[..i] + c.order[i + 1..], c.values - {k}, c.capacity)
  {
    RemoveMembers(c.order, k);
    forall i | 0 <= i < |c.order| && c.order[i] == k
      ensures Apply(c, Delete(k)) == Lru(c.order[..i] + c.order[i + 1..], c.values - {k}, c.capacity)
    {
      RemoveAt(c.order, i);
    }
  }

  /** clear forgets everything, and the capacity too. */
  lemma ClearIs<K(!new), V>(c: Lru<K, V>, k: K)
    ensures var c' := Apply(c, Clear);
            c'.order == [] && c'.values == map[] && c'.capacity == 100 && Lookup(c', k) == None
  {
  }

  lemma {:induction false} RunBoth<K(!new), V>(c: Lru<K, V>, a: seq<Op<K, V>>, b: seq<Op<K, V>>)
    ensures Run(c, a + b) == Run(Run(c, a), b)
    decreases a
  {
    if a == [] {
      assert a + b == b;
    } else {
      assert (a + b)[1..] == a[1..] + b;
      RunBoth(Apply(c, a[0]), a[1..], b);
    }
  }

  /** Whatever was called before a clear, the cache goes on like a new one of the default size. */
  lemma ClearForgets<K(!new), V>(c: Lru<K, V>, a: seq<Op<K, V>>, b: seq<Op<K, V>>)
    ensures Run(c, a + [Clear] + b) == Run(Empty(100), b)
  {
    RunBoth(c, a + [Clear], b);
    RunBoth(c, a, [Clear]);
    assert [Op<K, V>.Clear][1..] == [];
  }
}
