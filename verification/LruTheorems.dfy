/**
 Whole-run theorems about the cache: inclusion of a smaller cache in a larger one, and how long
 a key survives.
 */
module LruTheorems {
  import opened Common
  import opened LruSpec

  // ------------------------------------------------------------- subsequences

  predicate Subseq<K(==, !new)>(s: seq<K>, l: seq<K>) {
    s == [] || (l != [] && ((s[0] == l[0] && Subseq(s[1..], l[1..])) || Subseq(s, l[1..])))
  }

  lemma {:induction false} SubseqIn<K(!new)>(s: seq<K>, l: seq<K>)
    requires Subseq(s, l)
    ensures |s| <= |l| && forall x :: x in s ==> x in l
  {
    if s != [] {
      assert s == [s[0]] + s[1..] && l == [l[0]] + l[1..];
      if s[0] == l[0] && Subseq(s[1..], l[1..]) {
        SubseqIn(s[1..], l[1..]);
      } else {
        SubseqIn(s, l[1..]);
      }
    }
  }

  lemma SubseqPush<K(!new)>(s: seq<K>, l: seq<K>, k: K)
    requires Subseq(s, l)
    ensures Subseq([k] + s, [k] + l)
  {
    assert ([k] + s)[1..] == s && ([k] + l)[1..] == l;
  }

  lemma SubseqSkip<K(!new)>(s: seq<K>, l: seq<K>, k: K)
    requires Subseq(s, l)
    ensures Subseq(s, [k] + l)
  {
    assert ([k] + l)[1..] == l;
  }

  lemma {:induction false} SubseqRemove<K(!new)>(s: seq<K>, l: seq<K>, k: K)
    requires Subseq(s, l)
    ensures Subseq(Remove(s, k), Remove(l, k))
  {
    if s != [] {
      if s[0] == l[0] && Subseq(s[1..], l[1..]) {
        SubseqRemove(s[1..], l[1..], k);
        SubseqPush(Remove(s[1..], k), Remove(l[1..], k), s[0]);
      } else {
        SubseqRemove(s, l[1..], k);
        SubseqSkip(Remove(s, k), Remove(l[1..], k), l[0]);
      }
    }
  }

  lemma {:induction false} SubseqDropSmall<K(!new)>(s: seq<K>, l: seq<K>)
    requires Subseq(s, l) && s != []
    ensures Subseq(s[..|s| - 1], l)
  {
    if |s| > 1 {
      if s[0] == l[0] && Subseq(s[1..], l[1..]) {
        SubseqDropSmall(s[1..], l[1..]);
        assert s[..|s| - 1][1..] == s[1..][..|s| - 2];
      } else {
        SubseqDropSmall(s, l[1..]);
      }
    }
  }

  lemma {:induction false} SubseqDropBoth<K(!new)>(s: seq<K>, l: seq<K>)
    requires Subseq(s, l) && s != []
    ensures l != [] && Subseq(s[..|s| - 1], l[..|l| - 1])
  {
    if |s| > 1 {
      if s[0] == l[0] && Subseq(s[1..], l[1..]) {
        SubseqDropBoth(s[1..], l[1..]);
        assert s[..|s| - 1][1..] == s[1..][..|s| - 2];
        assert l[..|l| - 1][1..] == l[1..][..|l| - 2];
      } else {
        SubseqDropBoth(s, l[1..]);
        assert l[..|l| - 1][1..] == l[1..][..|l| - 2];
      }
    }
  }

  // ------------------------------------------------------------- inclusion

  /** s is a smaller cache that l contains. */
  ghost predicate Included<K(!new), V>(s: Lru<K, V>, l: Lru<K, V>) {
    && Valid(s) && Valid(l) && s.capacity <= l.capacity
    && Subseq(s.order, l.order)
    && (forall k :: k in s.order ==> Lookup(s, k) == Lookup(l, k))
    && |l.order| - |s.order| <= l.capacity - s.capacity
  }

  lemma IncludedFind<K(!new), V>(s: Lru<K, V>, l: Lru<K, V>, k: K)
    requires Included(s, l)
    ensures Included(Apply(s, Find(k)), Apply(l, Find(k)))
  {
    ApplyValid(s, Find(k));
    ApplyValid(l, Find(k));
    SubseqIn(s.order, l.order);
    SubseqRemove(s.order, l.order, k);
    RemoveNoDup(s.order, k);
    RemoveNoDup(l.order, k);
    if k in s.order {
      SubseqPush(Remove(s.order, k), Remove(l.order, k), k);
    } else if k in l.order {
      SubseqSkip(s.order, Remove(l.order, k), k);
    }
  }

  lemma IncludedDelete<K(!new), V>(s: Lru<K, V>, l: Lru<K, V>, k: K)
    requires Included(s, l)
    ensures Included(Apply(s, Delete(k)), Apply(l, Delete(k)))
  {
    ApplyValid(s, Delete(k));
    ApplyValid(l, Delete(k));
    SubseqIn(s.order, l.order);
    SubseqRemove(s.order, l.order, k);
    RemoveNoDup(s.order, k);
    RemoveNoDup(l.order, k);
  }

  /** The keys after an insert. */
  lemma InsertOrder<K(!new), V>(c: Lru<K, V>, k: K, v: V)
    requires Valid(c)
    ensures var front := ToFront(c.order, k);
            var c' := Apply(c, Insert(k, v));
            && c'.order == (if |front| <= c.capacity then front else front[..|front| - 1])
            && |front| == (if k in c.order then |c.order| else |c.order| + 1)
            && (forall x :: x in c'.order ==> x == k || x in c.order)
            && (forall x :: x in c'.order ==> Lookup(c', x) == if x == k then Some(v) else Lookup(c, x))
  {
    ApplyValid(c, Insert(k, v));
    RemoveNoDup(c.order, k);
    if k !in c.order {
      EvictOnce(c.(order := [k] + c.order, values := c.values[k := v]));
    }
  }

  lemma IncludedInsert<K(!new), V>(s: Lru<K, V>, l: Lru<K, V>, k: K, v: V)
    requires Included(s, l)
    ensures Included(Apply(s, Insert(k, v)), Apply(l, Insert(k, v)))
  {
    ApplyValid(s, Insert(k, v));
    ApplyValid(l, Insert(k, v));
    InsertOrder(s, k, v);
    InsertOrder(l, k, v);
    SubseqIn(s.order, l.order);
    var fs, fl := ToFront(s.order, k), ToFront(l.order, k);
    SubseqRemove(s.order, l.order, k);
    SubseqPush(Remove(s.order, k), Remove(l.order, k), k);
    SubseqDropSmall(fs, fl);
    SubseqDropBoth(fs, fl);
    SubseqIn(Apply(s, Insert(k, v)).order, Apply(l, Insert(k, v)).order);
  }

  /** Inclusion is kept by every find, insert and delete_key. */
  lemma {:induction false} InclusionRun<K(!new), V>(s: Lru<K, V>, l: Lru<K, V>, ops: seq<Op<K, V>>)
    requires Included(s, l) && Clear !in ops
    ensures Included(Run(s, ops), Run(l, ops))
    decreases ops
  {
    if ops != [] {
      match ops[0] {
        case Find(k) => IncludedFind(s, l, k);
        case Insert(k, v) => IncludedInsert(s, l, k, v);
        case Delete(k) => IncludedDelete(s, l, k);
        case Clear => assert false;
      }
      InclusionRun(Apply(s, ops[0]), Apply(l, ops[0]), ops[1..]);
    }
  }

  /** LRU inclusion: run from empty on the same operations, the list of the smaller cache is a
      subsequence of the larger one's, the sizes differ by no more than the capacities, and every
      hit in the small cache is the same hit in the large one. */
  lemma LruInclusion<K(!new), V>(c: nat, d: nat, ops: seq<Op<K, V>>, k: K)
    requires c <= d && Clear !in ops
    ensures var s, l := Run(Empty<K, V>(c), ops), Run(Empty<K, V>(d), ops);
            && Subseq(s.order, l.order) && |l.order| - |s.order| <= d - c
            && (Lookup(s, k).Some? ==> Lookup(l, k) == Lookup(s, k))
  {
    InclusionRun(Empty<K, V>(c), Empty<K, V>(d), ops);
    RunCapacity(Empty<K, V>(c), ops);
    RunCapacity(Empty<K, V>(d), ops);
    var s, l := Run(Empty<K, V>(c), ops), Run(Empty<K, V>(d), ops);
    SubseqIn(s.order, l.order);
  }

  lemma {:induction false} RunCapacity<K(!new), V>(c: Lru<K, V>, ops: seq<Op<K, V>>)
    requires Valid(c) && Clear !in ops
    ensures Run(c, ops).capacity == c.capacity
    decreases ops
  {
    if ops != [] {
      ApplyValid(c, ops[0]);
      RunCapacity(Apply(c, ops[0]), ops[1..]);
    }
  }

  // ------------------------------------------------------------- survival

  /** The key other than k that one operation inserts or hits. */
  function TouchedBy<K(==, !new), V>(c: Lru<K, V>, op: Op<K, V>, k: K): set<K> {
    match op
    case Find(x) => if x != k && x in c.order then {x} else {}
    case Insert(x, _) => if x != k then {x} else {}
    case _ => {}
  }

  /** The keys other than k that a run inserts or hits. */
  function Touched<K(==, !new), V>(c: Lru<K, V>, ops: seq<Op<K, V>>, k: K): set<K>
    decreases ops
  {
    if ops == [] then {}
    else TouchedBy(c, ops[0], k) + Touched(Apply(c, ops[0]), ops[1..], k)
  }

  function ValueAfter<K(==, !new), V>(v: V, op: Op<K, V>, k: K): V {
    if op.Insert? && op.key == k then op.value else v
  }

  /** The value k has after the run, when it had v before. */
  function Latest<K(==, !new), V>(v: V, ops: seq<Op<K, V>>, k: K): V
    decreases ops
  {
    if ops == [] then v else Latest(ValueAfter(v, ops[0], k), ops[1..], k)
  }

  /** The keys of the list, cut at k. */
  ghost predicate SplitAt<K(!new), V>(c: Lru<K, V>, k: K, before: seq<K>, after: seq<K>) {
    Valid(c) && c.order == before + [k] + after
  }

  lemma SplitParts<K(!new), V>(c: Lru<K, V>, k: K, before: seq<K>, after: seq<K>)
    requires SplitAt(c, k, before, after)
    ensures NoDup(before) && NoDup(after) && k !in before && k !in after && k in c.order
    ensures forall x :: x in before ==> x !in after
    ensures forall x :: x in c.order <==> x in before || x == k || x in after
    ensures |before| < c.capacity
  {
    assert forall i :: 0 <= i < |before| ==> before[i] == c.order[i];
    assert c.order[|before|] == k;
    assert forall j :: 0 <= j < |after| ==> after[j] == c.order[|before| + 1 + j];
    forall i, j | 0 <= i < |before| && 0 <= j < |after|
      ensures before[i] != after[j]
    {
      assert c.order[i] == before[i] && c.order[|before| + 1 + j] == after[j];
    }
  }

  /** Moving x to the front puts exactly x, and what was there, before k. */
  lemma TouchOther<K(!new), V>(c: Lru<K, V>, k: K, before: seq<K>, after: seq<K>, x: K)
    returns (before': seq<K>, after': seq<K>)
    requires SplitAt(c, k, before, after) && x != k
    ensures ToFront(c.order, x) == before' + [k] + after' && after' == Remove(after, x)
    ensures Keys(before') == Keys(before) + {x}
  {
    before', after' := [x] + Remove(before, x), Remove(after, x);
    RemoveMembers(before, x);
    RemoveAround(before, k, after, x);
    assert [x] + (Remove(before, x) + [k] + after') == before' + [k] + after';
  }

  lemma RemoveAround<K(!new)>(before: seq<K>, k: K, after: seq<K>, x: K)
    requires x != k
    ensures Remove(before + [k] + after, x) == Remove(before, x) + [k] + Remove(after, x)
  {
    RemoveConcat(before + [k], after, x);
    RemoveConcat(before, [k], x);
    assert Remove([k], x) == [k];
  }

  lemma CutLast<K>(before: seq<K>, k: K, after: seq<K>)
    ensures var s := before + [k] + after;
            s[..|s| - 1] == if after == [] then before else before + [k] + after[..|after| - 1]
  {
  }

  /** When a new key pushes k out, the keys before k and the new one fill the cache. */
  lemma PushedOut<K(!new), V>(c: Lru<K, V>, k: K, before: seq<K>, x: K)
    requires SplitAt(c, k, before, []) && x !in c.order && |c.order| == c.capacity
    ensures |Keys(before) + {x}| == c.capacity
  {
    SplitParts(c, k, before, []);
    KeysCount(before);
  }

  /** After an insert of another key, k is still there unless that key is new and k was the last
      of a full list. */
  lemma InsertOther<K(!new), V>(c: Lru<K, V>, k: K, before: seq<K>, after: seq<K>, x: K, v: V)
    returns (before': seq<K>, after': seq<K>)
    requires SplitAt(c, k, before, after) && x != k
    ensures var c' := Apply(c, Insert(x, v));
            if k in c'.order then
              && SplitAt(c', k, before', after') && Keys(before') == Keys(before) + {x}
              && Lookup(c', k) == Lookup(c, k)
            else
              |Keys(before) + {x}| == c.capacity
  {
    ApplyValid(c, Insert(x, v));
    InsertOrder(c, x, v);
    before', after' := TouchOther(c, k, before, after, x);
    assert k !in before' by {
      SplitParts(c, k, before, after);
      assert k !in Keys(before');
    }
    CutLast(before', k, after');
    if |ToFront(c.order, x)| > c.capacity {
      if after' == [] {
        assert after == [] by {
          SplitParts(c, k, before, after);
          RemoveMembers(after, x);
        }
        PushedOut(c, k, before, x);
      } else {
        after' := after'[..|after'| - 1];
      }
    }
  }

  lemma FindOther<K(!new), V>(c: Lru<K, V>, k: K, before: seq<K>, after: seq<K>, x: K)
    returns (before': seq<K>, after': seq<K>)
    requires SplitAt(c, k, before, after) && x != k && x in c.order
    ensures SplitAt(Apply(c, Find(x)), k, before', after') && Keys(before') == Keys(before) + {x}
  {
    ApplyValid(c, Find(x));
    before', after' := TouchOther(c, k, before, after, x);
  }

  lemma TouchSelf<K(!new), V>(c: Lru<K, V>, k: K, before: seq<K>, after: seq<K>)
    requires SplitAt(c, k, before, after)
    ensures ToFront(c.order, k) == [] + [k] + (before + after)
  {
    SplitParts(c, k, before, after);
    RemoveConcat(before + [k], after, k);
    RemoveConcat(before, [k], k);
    RemoveMembers(before, k);
    RemoveMembers(after, k);
  }

  lemma DeleteOther<K(!new), V>(c: Lru<K, V>, k: K, before: seq<K>, after: seq<K>, x: K)
    requires SplitAt(c, k, before, after) && x != k
    ensures SplitAt(Apply(c, Delete(x)), k, Remove(before, x), Remove(after, x))
    ensures Lookup(Apply(c, Delete(x)), k) == Lookup(c, k)
  {
    ApplyValid(c, Delete(x));
    RemoveNoDup(c.order, x);
    RemoveAround(before, k, after, x);
  }

  lemma SubsetCount<K(!new)>(a: set<K>, b: set<K>)
    requires a <= b
    ensures |a| <= |b|
  {
    assert b == a + (b - a);
  }

  /** k is in c, and only keys of ahead are more recent. */
  ghost predicate Behind<K(!new), V>(c: Lru<K, V>, k: K, ahead: set<K>, v: V) {
    && (exists before, after :: SplitAt(c, k, before, after) && Keys(before) <= ahead)
    && Lookup(c, k) == Some(v)
  }

  lemma SurviveSelf<K(!new), V>(c: Lru<K, V>, k: K, ahead: set<K>, v: V, op: Op<K, V>)
    requires Behind(c, k, ahead, v) && (op.Find? || op.Insert?) && op.key == k
    ensures Behind(Apply(c, op), k, ahead, if op.Insert? then op.value else v)
  {
    var before, after :| SplitAt(c, k, before, after) && Keys(before) <= ahead;
    ApplyValid(c, op);
    SplitParts(c, k, before, after);
    TouchSelf(c, k, before, after);
    assert SplitAt(Apply(c, op), k, [], before + after);
  }

  lemma SurviveInsert<K(!new), V>(c: Lru<K, V>, k: K, ahead: set<K>, v: V, x: K, w: V)
    requires Behind(c, k, ahead, v) && x != k && |ahead + {x}| < c.capacity
    ensures Behind(Apply(c, Insert(x, w)), k, ahead + {x}, v)
  {
    var before, after :| SplitAt(c, k, before, after) && Keys(before) <= ahead;
    var before', after' := InsertOther(c, k, before, after, x, w);
    SubsetCount(Keys(before) + {x}, ahead + {x});
  }

  lemma SurviveFind<K(!new), V>(c: Lru<K, V>, k: K, ahead: set<K>, v: V, x: K)
    requires Behind(c, k, ahead, v) && x != k && x in c.order
    ensures Behind(Apply(c, Find(x)), k, ahead + {x}, v)
  {
    var before, after :| SplitAt(c, k, before, after) && Keys(before) <= ahead;
    var before', after' := FindOther(c, k, before, after, x);
    assert Keys(before') <= ahead + {x};
  }

  lemma SurviveDelete<K(!new), V>(c: Lru<K, V>, k: K, ahead: set<K>, v: V, x: K)
    requires Behind(c, k, ahead, v) && x != k
    ensures Behind(Apply(c, Delete(x)), k, ahead, v)
  {
    var before, after :| SplitAt(c, k, before, after) && Keys(before) <= ahead;
    DeleteOther(c, k, before, after, x);
    RemoveMembers(before, x);
    assert Keys(Remove(before, x)) <= ahead;
  }

  lemma SurviveStep<K(!new), V>(c: Lru<K, V>, k: K, ahead: set<K>, v: V, op: Op<K, V>)
    requires Behind(c, k, ahead, v) && op != Delete(k) && op != Clear
    requires |ahead + TouchedBy(c, op, k)| < c.capacity
    ensures Behind(Apply(c, op), k, ahead + TouchedBy(c, op, k), ValueAfter(v, op, k))
  {
    assert ahead + {} == ahead;
    match op
    case Find(x) =>
      if x == k {
        SurviveSelf(c, k, ahead, v, op);
      } else if x in c.order {
        SurviveFind(c, k, ahead, v, x);
      }
    case Insert(x, w) =>
      if x == k {
        SurviveSelf(c, k, ahead, v, op);
      } else {
        SurviveInsert(c, k, ahead, v, x, w);
      }
    case Delete(x) =>
      SurviveDelete(c, k, ahead, v, x);
  }

  lemma {:induction false} SurviveRun<K(!new), V>(c: Lru<K, V>, k: K, ahead: set<K>, v: V,
                                                  ops: seq<Op<K, V>>)
    requires Behind(c, k, ahead, v) && Delete(k) !in ops && Clear !in ops
    requires |ahead + Touched(c, ops, k)| < c.capacity
    ensures Lookup(Run(c, ops), k) == Some(Latest(v, ops, k))
    decreases ops
  {
    if ops != [] {
      var op, more := ops[0], TouchedBy(c, ops[0], k);
      assert op in ops;
      var rest := Touched(Apply(c, op), ops[1..], k);
      UnionAssoc(ahead, more, rest);
      SubsetCount(ahead + more, ahead + more + rest);
      SurviveStep(c, k, ahead, v, op);
      ApplyCapacity(c, op);
      SurviveRun(Apply(c, op), k, ahead + more, ValueAfter(v, op, k), ops[1..]);
    }
  }

  lemma UnionAssoc<K>(a: set<K>, b: set<K>, c: set<K>)
    ensures a + (b + c) == a + b + c
  {
  }

  lemma ApplyCapacity<K(!new), V>(c: Lru<K, V>, op: Op<K, V>)
    requires op != Clear
    ensures Apply(c, op).capacity == c.capacity
  {
    if op.Insert? {
      EvictCapacity(c.(order := [op.key] + c.order, values := c.values[op.key := op.value]));
    }
  }

  lemma {:induction false} EvictCapacity<K(!new), V>(c: Lru<K, V>)
    ensures Evict(c).capacity == c.capacity
    decreases |c.order|
  {
    if |c.order| > c.capacity {
      var last := |c.order| - 1;
      EvictCapacity(c.(order := c.order[..last], values := c.values - {c.order[last]}));
    }
  }

  /** Survival: a key just inserted or found stays cached, with its latest value, through any run
      in which fewer than capacity other keys are inserted or hit and which neither deletes the
      key nor clears. */
  lemma LruSurvival<K(!new), V>(c: Lru<K, V>, k: K, ops: seq<Op<K, V>>)
    requires Valid(c) && c.order != [] && c.order[0] == k
    requires Delete(k) !in ops && Clear !in ops
    requires |Touched(c, ops, k)| < c.capacity
    ensures Lookup(Run(c, ops), k) == Some(Latest(c.values[k], ops, k))
  {
    assert c.order == [] + [k] + c.order[1..];
    assert SplitAt(c, k, [], c.order[1..]);
    assert {} + Touched(c, ops, k) == Touched(c, ops, k);
    SurviveRun(c, k, {}, c.values[k], ops);
  }

  // ------------------------------------------------------------- the bound is exact

  /** The run leaves k alone and deletes nothing. */
  ghost predicate OnlyOthers<K(!new), V>(ops: seq<Op<K, V>>, k: K) {
    forall op :: op in ops ==> (op.Find? || op.Insert?) && op.key != k
  }

  lemma {:induction false} GoneStaysGone<K(!new), V>(c: Lru<K, V>, k: K, ops: seq<Op<K, V>>)
    requires Valid(c) && k !in c.order && OnlyOthers(ops, k)
    ensures k !in Run(c, ops).order
    decreases ops
  {
    if ops != [] {
      var op := ops[0];
      assert op in ops;
      ApplyValid(c, op);
      if op.Insert? {
        InsertOrder(c, op.key, op.value);
      }
      GoneStaysGone(Apply(c, op), k, ops[1..]);
    }
  }

  lemma {:induction false} ExactRun<K(!new), V>(c: Lru<K, V>, k: K, before: seq<K>, after: seq<K>,
                                                ops: seq<Op<K, V>>)
    requires SplitAt(c, k, before, after) && OnlyOthers(ops, k)
    ensures k in Run(c, ops).order <==> |Keys(before) + Touched(c, ops, k)| < c.capacity
    decreases ops, 1
  {
    SplitParts(c, k, before, after);
    KeysCount(before);
    if ops == [] {
      assert Keys(before) + {} == Keys(before);
    } else {
      var op := ops[0];
      assert op in ops;
      if op.Insert? {
        ExactInsert(c, k, before, after, ops);
      } else if op.key in c.order {
        var before', after' := FindOther(c, k, before, after, op.key);
        UnionAssoc(Keys(before), {op.key}, Touched(Apply(c, op), ops[1..], k));
        ExactRun(Apply(c, op), k, before', after', ops[1..]);
      } else {
        UnionAssoc(Keys(before), {}, Touched(c, ops[1..], k));
        assert Keys(before) + {} == Keys(before);
        ExactRun(c, k, before, after, ops[1..]);
      }
    }
  }

  lemma {:induction false} ExactInsert<K(!new), V>(c: Lru<K, V>, k: K, before: seq<K>, after: seq<K>,
                                                   ops: seq<Op<K, V>>)
    requires SplitAt(c, k, before, after) && OnlyOthers(ops, k) && ops != [] && ops[0].Insert?
    ensures k in Run(c, ops).order <==> |Keys(before) + Touched(c, ops, k)| < c.capacity
    decreases ops, 0
  {
    var op, rest := ops[0], ops[1..];
    assert op in ops;
    var c' := Apply(c, op);
    var touched := Touched(c', rest, k);
    ApplyValid(c, op);
    var before', after' := InsertOther(c, k, before, after, op.key, op.value);
    UnionAssoc(Keys(before), {op.key}, touched);
    if k in c'.order {
      ExactRun(c', k, before', after', rest);
    } else {
      GoneStaysGone(c', k, rest);
      SubsetCount(Keys(before) + {op.key}, Keys(before) + {op.key} + touched);
    }
  }

  /** The bound is exact: as long as the run leaves k alone and deletes nothing, k is still cached
      if and only if fewer than capacity other keys were inserted or hit. */
  lemma LruExact<K(!new), V>(c: Lru<K, V>, k: K, ops: seq<Op<K, V>>)
    requires Valid(c) && c.order != [] && c.order[0] == k && OnlyOthers(ops, k)
    ensures k in Run(c, ops).order <==> |Touched(c, ops, k)| < c.capacity
  {
    assert c.order == [] + [k] + c.order[1..];
    assert Keys<K>([]) + Touched(c, ops, k) == Touched(c, ops, k);
    ExactRun(c, k, [], c.order[1..], ops);
  }
}
