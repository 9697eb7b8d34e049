/**
 The elastic log buffer: a record is appended whole or rejected, and only an empty buffer grows.
 */
module LogBuffer {
  import opened RingArithmetic

  /** One more than the largest size_t. */
  const SIZE_T: nat := 0x1_0000_0000_0000_0000

  // ------------------------------------------------------------- the buffer as a value

  datatype Buf = Buf(contents: seq<char>, capacity: nat)

  datatype Op = Write(record: seq<char>) | Reset

  /** The capacity after the doubling loop. */
  function Grow(capacity: nat, len: nat): nat
    requires capacity > 0
    decreases len - capacity
  {
    if len > capacity then Grow(capacity * 2, len) else capacity
  }

  predicate Accepts(b: Buf, record: seq<char>) {
    b.contents == [] || |b.contents| + |record| <= b.capacity
  }

  function Apply(b: Buf, op: Op): Buf
    requires b.capacity > 0
  {
    match op
    case Reset => b.(contents := [])
    case Write(r) =>
      if !Accepts(b, r) then b
      else Buf(b.contents + r, if b.contents == [] then Grow(b.capacity, |r|) else b.capacity)
  }

  lemma {:induction false} GrowIs(capacity: nat, len: nat)
    requires capacity > 0
    ensures Grow(capacity, len) >= len && Grow(capacity, len) >= capacity
    ensures Grow(capacity, len) == capacity || Grow(capacity, len) < 2 * len
    ensures exists k: nat :: Grow(capacity, len) == capacity * Pow2(k)
    decreases len - capacity
  {
    if len > capacity {
      GrowIs(capacity * 2, len);
      var k: nat :| Grow(capacity * 2, len) == capacity * 2 * Pow2(k);
      MulAssoc(capacity, 2, Pow2(k));
      assert Grow(capacity, len) == capacity * Pow2(k + 1);
    } else {
      assert capacity == capacity * Pow2(0);
    }
  }

  ghost predicate Fits(b: Buf) {
    0 < b.capacity && |b.contents| <= b.capacity
  }

  lemma ApplyFits(b: Buf, op: Op)
    requires Fits(b)
    ensures Fits(Apply(b, op))
  {
    if op.Write? {
      GrowIs(b.capacity, |op.record|);
    }
  }

  // ------------------------------------------------------------- the buffer as it is stored

  class LogBuffer {
    var size: nat
    var capacity: nat
    var data: array<char>

    ghost predicate Valid()
      reads this, data
    {
      size <= capacity == data.Length && 0 < capacity < SIZE_T
    }

    ghost function Value(): Buf
      reads this, data
      requires Valid()
    {
      Buf(data[..size], capacity)
    }

    constructor (capacity: nat)
      requires 0 < capacity < SIZE_T
      ensures Valid() && Value() == Buf([], capacity) && fresh(data)
    {
      size := 0;
      this.capacity := capacity;
      data := new char[capacity];
    }

    /** Appends the record or leaves everything as it is. No sum or product here reaches 2^64: a
        record is an object in memory, so it is no longer than 2^63. */
    method WriteData(record: seq<char>) returns (ok: bool)
      requires Valid() && 0 < |record| <= SIZE_T / 2 && size + |record| < SIZE_T
      modifies this, data
      ensures Valid() && (data == old(data) || fresh(data))
      ensures Value() == Apply(old(Value()), Write(record)) && ok == Accepts(old(Value()), record)
      ensures ok <==> old(size) == 0 || old(size) + |record| <= old(capacity)
      ensures ok ==> size == old(size) + |record| <= data.Length && data[..size] == old(data[..size]) + record
      ensures old(size) > 0 || |record| <= old(capacity) ==> capacity == old(capacity)
      ensures !ok ==> data == old(data) && data[..] == old(data[..]) && size == old(size)
    {
      var len := |record|;
      while len + size > capacity
        invariant 0 < capacity < SIZE_T && capacity == data.Length && size == old(size)
        invariant (data == old(data) && capacity == old(capacity)) || (size == 0 && fresh(data))
        invariant data == old(data) ==> data[..] == old(data[..])
        invariant size == 0 ==> Grow(capacity, len) == Grow(old(capacity), len)
        invariant size <= capacity
        decreases len - capacity
      {
        if size == 0 {
          capacity := capacity * 2;
          data := new char[capacity];
        } else {
          return false;
        }
      }
      forall i | 0 <= i < len {
        data[size + i] := record[i];
      }
      assert data[..size + len] == old(data[..size]) + record;
      size := size + len;
      return true;
    }

    method ResetData()
      requires Valid()
      modifies this`size
      ensures Valid() && Value() == Apply(old(Value()), Reset) && size == 0
    {
      size := 0;
    }
  }

  // ------------------------------------------------------------- whole runs

  function Run(b: Buf, ops: seq<Op>): Buf
    requires Fits(b)
    decreases |ops|
  {
    if ops == [] then b
    else
      ApplyFits(b, ops[0]);
      Run(Apply(b, ops[0]), ops[1..])
  }

  /** What each operation returns; a reset always succeeds. */
  function Results(b: Buf, ops: seq<Op>): (r: seq<bool>)
    requires Fits(b)
    ensures |r| == |ops|
    decreases |ops|
  {
    if ops == [] then []
    else
      ApplyFits(b, ops[0]);
      [ops[0].Reset? || Accepts(b, ops[0].record)] + Results(Apply(b, ops[0]), ops[1..])
  }

  /** The records written successfully since the last reset, put together. It looks only at the
      operations and their results, from the last to the first. */
  function Written(ops: seq<Op>, results: seq<bool>): seq<char>
    requires |ops| == |results|
    decreases |ops|
  {
    if ops == [] then []
    else
      var n := |ops| - 1;
      if ops[n].Reset? then []
      else Written(ops[..n], results[..n]) + (if results[n] then ops[n].record else [])
  }

  function Longest(ops: seq<Op>): nat
    decreases |ops|
  {
    if ops == [] then 0
    else
      var rest := Longest(ops[1..]);
      if ops[0].Write? && |ops[0].record| > rest then |ops[0].record| else rest
  }

  lemma {:induction false} RunSnoc(b: Buf, ops: seq<Op>, op: Op)
    requires Fits(b)
    ensures Fits(Run(b, ops))
    ensures Run(b, ops + [op]) == Apply(Run(b, ops), op)
    ensures Results(b, ops + [op]) == Results(b, ops) + [op.Reset? || Accepts(Run(b, ops), op.record)]
    decreases |ops|
  {
    if ops == [] {
      assert [] + [op] == [op] && [op][1..] == [];
      ApplyFits(b, op);
    } else {
      ApplyFits(b, ops[0]);
      assert (ops + [op])[1..] == ops[1..] + [op];
      RunSnoc(Apply(b, ops[0]), ops[1..], op);
    }
  }

  /** Conservation: after any run of writes and resets, the buffer holds exactly the records that
      were accepted since the last reset, in order and whole. */
  lemma {:induction false} Conservation(capacity: nat, ops: seq<Op>)
    requires capacity > 0
    ensures Run(Buf([], capacity), ops).contents == Written(ops, Results(Buf([], capacity), ops))
    decreases |ops|
  {
    var b := Buf([], capacity);
    if ops != [] {
      var n := |ops| - 1;
      assert ops == ops[..n] + [ops[n]];
      RunSnoc(b, ops[..n], ops[n]);
      Conservation(capacity, ops[..n]);
      assert Results(b, ops)[..n] == Results(b, ops[..n]);
    }
  }

  /** A write is rejected exactly when the buffer holds something, and what has been written since the
      last reset and the record are together longer than the capacity then is. */
  lemma RejectedExactly(capacity: nat, ops: seq<Op>, i: nat)
    requires capacity > 0 && i < |ops|
    ensures var results := Results(Buf([], capacity), ops);
            var written := Written(ops[..i], results[..i]);
            !results[i] <==> ops[i].Write? && written != []
                             && |written| + |ops[i].record| > Run(Buf([], capacity), ops[..i]).capacity
  {
    ResultsPrefix(Buf([], capacity), ops, i);
    Conservation(capacity, ops[..i]);
  }

  /** The first i results, and the next one. */
  lemma {:induction false} ResultsPrefix(b: Buf, ops: seq<Op>, i: nat)
    requires Fits(b) && i < |ops|
    ensures Fits(Run(b, ops[..i])) && Results(b, ops)[..i] == Results(b, ops[..i])
    ensures Results(b, ops)[i] == (ops[i].Reset? || Accepts(Run(b, ops[..i]), ops[i].record))
    decreases i
  {
    if i > 0 {
      ApplyFits(b, ops[0]);
      ResultsPrefix(Apply(b, ops[0]), ops[1..], i - 1);
      assert ops[..i][1..] == ops[1..][..i - 1];
    }
  }

  /** The capacity after a run is the first one doubled some number of times, and stays below twice
      the longest record once it has grown. */
  lemma {:induction false} CapacityBound(b: Buf, ops: seq<Op>)
    requires Fits(b)
    ensures exists k: nat :: Run(b, ops).capacity == b.capacity * Pow2(k)
    ensures Run(b, ops).capacity == b.capacity || Run(b, ops).capacity < 2 * Longest(ops)
    ensures |Run(b, ops).contents| <= Run(b, ops).capacity
    decreases |ops|
  {
    if ops == [] {
      assert b.capacity == b.capacity * Pow2(0);
    } else {
      var b' := Apply(b, ops[0]);
      ApplyFits(b, ops[0]);
      CapacityBound(b', ops[1..]);
      StepCapacity(b, ops[0]);
      var j: nat :| b'.capacity == b.capacity * Pow2(j);
      var k: nat :| Run(b', ops[1..]).capacity == b'.capacity * Pow2(k);
      Pow2Divides(j, j + k);
      MulAssoc(b.capacity, Pow2(j), Pow2(k));
      assert Run(b, ops).capacity == b.capacity * Pow2(j + k);
    }
  }

  lemma StepCapacity(b: Buf, op: Op)
    requires Fits(b)
    ensures exists k: nat :: Apply(b, op).capacity == b.capacity * Pow2(k)
    ensures Apply(b, op).capacity == b.capacity || (op.Write? && Apply(b, op).capacity < 2 * |op.record|)
  {
    assert b.capacity == b.capacity * Pow2(0);
    if op.Write? {
      GrowIs(b.capacity, |op.record|);
    }
  }

  /** A rejected record is accepted after a reset, so no record is ever too long. */
  lemma ResetMakesRoom(b: Buf, record: seq<char>)
    requires Fits(b) && !Accepts(b, record)
    ensures Apply(b, Write(record)) == b
    ensures Apply(Apply(b, Reset), Write(record)).contents == record
  {
    assert [] + record == record;
  }

  // ------------------------------------------------------------- why the length is bounded

  /** The capacity after n doublings in size_t arithmetic. */
  function Doubled(capacity: nat, n: nat): nat
    decreases n
  {
    if n == 0 then capacity else Doubled(capacity * 2 % SIZE_T, n - 1)
  }

  lemma {:induction false} NeverLong(k: nat, n: nat, len: nat)
    requires len > SIZE_T / 2
    ensures k <= 63 ==> Doubled(Pow2(k), n) < len
    ensures Doubled(0, n) < len
    decreases n
  {
    if n > 0 {
      NeverLong(k + 1, n - 1, len);
    }
    if k <= 63 {
      Pow2Doubled(k);
    }
  }

  lemma {:induction false} DoublesTo63(k: nat)
    requires k <= 63
    ensures Doubled(Pow2(k), 63 - k) == SIZE_T / 2
    decreases 63 - k
  {
    if k == 63 {
      Pow2At63();
    } else {
      Pow2Doubled(k);
      DoublesTo63(k + 1);
    }
  }

  /** From any capacity the loop ends for records of up to 2^63 bytes. */
  lemma {:induction false} LoopEnds(capacity: nat, len: nat)
    requires 0 < capacity < SIZE_T && len <= SIZE_T / 2
    ensures exists n: nat :: Doubled(capacity, n) >= len
    decreases SIZE_T - capacity
  {
    if capacity >= len {
      assert Doubled(capacity, 0) >= len;
    } else {
      LoopEnds(capacity * 2, len);
      var n: nat :| Doubled(capacity * 2, n) >= len;
      assert Doubled(capacity, n + 1) >= len;
    }
  }

  /** The loop could not end for more than 2^63 bytes and ends for all others: from a capacity that
      is a power of two, as the default one is, some number of doublings in size_t arithmetic is
      enough exactly for these. */
  lemma LoopEndsExactly(k: nat, len: nat)
    requires k <= 63
    ensures (exists n: nat :: Doubled(Pow2(k), n) >= len) <==> len <= SIZE_T / 2
  {
    if len <= SIZE_T / 2 {
      DoublesTo63(k);
      assert Doubled(Pow2(k), 63 - k) >= len;
    } else {
      forall n: nat
        ensures Doubled(Pow2(k), n) < len
      {
        NeverLong(k, n, len);
      }
    }
  }

  lemma Pow2Doubled(k: nat)
    requires k <= 63
    ensures Pow2(k) <= SIZE_T / 2
    ensures Pow2(k) * 2 % SIZE_T == if k == 63 then 0 else Pow2(k + 1)
  {
    Pow2At63();
    Pow2Divides(k, 63);
    MulGe(Pow2(k), Pow2(63 - k));
    if k < 63 {
      Pow2Divides(k + 1, 63);
      MulGe(Pow2(k + 1), Pow2(63 - (k + 1)));
    }
  }

  lemma Pow2At63()
    ensures Pow2(63) == SIZE_T / 2
  {
    Pow2Of32();
    Pow2Divides(31, 63);
    assert Pow2(32) == 2 * Pow2(31);
  }
}
