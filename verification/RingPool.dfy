/**
 CircularBufferPool::Put and CircularBufferPool::Get as atomic steps of a protocol with any
 number of putting threads and one getting thread, in every interleaving.
 */
module RingPool {
  import opened Common
  import opened RingArithmetic

  /** The pool size is 2^k. clears says whether Get wipes the slot once more after the move. */
  datatype Config = Config(k: nat, clears: bool) {
    function Size(): nat {
      Pow2(k)
    }

    predicate Valid() {
      k <= 32
    }
  }

  /** A Put that has its index and has not stored yet. */
  datatype Storing<B> = Storing(index: nat, buffer: B)

  /** The program counter of the getting thread, with its local variables. */
  datatype Getter<B> =
    | Idle
    | Waiting(index: nat)
    | Seen(index: nat)
    | Moved(index: nat, result: Option<B>)

  /** head and tail are the 32-bit counters. puts and gets are history: the buffers in the order
      of the tickets that their Puts drew, and the values the finished Gets returned. storing is
      keyed by the ticket, which no thread can read. */
  datatype Ring<B> = Ring(
    head: nat,
    tail: nat,
    slots: seq<Option<B>>,
    storing: map<nat, Storing<B>>,
    getter: Getter<B>,
    puts: seq<B>,
    gets: seq<Option<B>>)

  datatype Step<B> =
    | BeginPut(buffer: B)
    | Store(ticket: nat)
    | BeginGet
    | See
    | Move
    | Return

  ghost predicate Init<B>(c: Config, r: Ring<B>) {
    && r.head == 0 && r.tail == 0
    && |r.slots| == c.Size() && (forall i :: 0 <= i < |r.slots| ==> r.slots[i] == None)
    && r.storing == map[] && r.getter == Idle && r.puts == [] && r.gets == []
  }

  ghost predicate Next<B>(c: Config, r: Ring<B>, step: Step<B>, r': Ring<B>) {
    match step
    case BeginPut(b) =>
      r' == r.(head := (r.head + 1) % TWO32,
               storing := r.storing[|r.puts| := Storing(Index(r.head, c.Size()), b)],
               puts := r.puts + [b])
    case Store(t) =>
      && t in r.storing && r.storing[t].index < |r.slots|
      && r' == r.(slots := r.slots[r.storing[t].index := Some(r.storing[t].buffer)],
                  storing := r.storing - {t})
    case BeginGet =>
      && r.getter == Idle
      && r' == r.(tail := (r.tail + 1) % TWO32, getter := Waiting(Index(r.tail, c.Size())))
    case See =>
      && r.getter.Waiting? && r.getter.index < |r.slots|
      && r.slots[r.getter.index].Some?
      && r' == r.(getter := Seen(r.getter.index))
    case Move =>
      && r.getter.Seen? && r.getter.index < |r.slots|
      && r' == r.(getter := Moved(r.getter.index, r.slots[r.getter.index]),
                  slots := r.slots[r.getter.index := None])
    case Return =>
      && r.getter.Moved? && r.getter.index < |r.slots|
      && r' == r.(getter := Idle, gets := r.gets + [r.getter.result],
                  slots := if c.clears then r.slots[r.getter.index := None] else r.slots)
  }

  /** "Assume enough place for put a buffer": fewer than 2^k Puts have started beyond the Gets that
      have finished. */
  ghost predicate Room<B>(c: Config, r: Ring<B>) {
    |r.puts| < |r.gets| + c.Size()
  }

  ghost predicate GuardedNext<B>(c: Config, r: Ring<B>, step: Step<B>, r': Ring<B>) {
    Next(c, r, step, r') && (step.BeginPut? ==> Room(c, r))
  }

  ghost predicate Follows<B(!new)>(c: Config, r: Ring<B>, r': Ring<B>) {
    exists step :: GuardedNext(c, r, step, r')
  }

  ghost predicate IsRun<B(!new)>(c: Config, run: seq<Ring<B>>) {
    && run != [] && Init(c, run[0])
    && forall i :: 0 <= i < |run| - 1 ==> Follows(c, run[i], run[i + 1])
  }

  // ------------------------------------------------------------- invariant

  /** The oldest ticket whose buffer is still in the ring or on its way into it. */
  function Oldest<B>(r: Ring<B>): nat {
    if r.getter.Moved? then |r.gets| + 1 else |r.gets|
  }

  function SlotOf(t: nat, n: nat): nat
    requires n > 0
  {
    t % n
  }

  /** What the slot of a ticket in the current window holds. */
  function Held<B>(r: Ring<B>, t: nat): Option<B> {
    if t < |r.puts| && t !in r.storing then Some(r.puts[t]) else None
  }

  ghost predicate CountersOk<B>(c: Config, r: Ring<B>) {
    && |r.slots| == c.Size()
    && r.head == |r.puts| % TWO32
    && r.tail == (if r.getter.Idle? then |r.gets| else |r.gets| + 1) % TWO32
    && |r.gets| <= |r.puts| <= |r.gets| + c.Size()
  }

  ghost predicate SlotsOk<B>(c: Config, r: Ring<B>) {
    && |r.slots| == c.Size()
    && forall t: nat :: Oldest(r) <= t < Oldest(r) + c.Size() ==>
      SlotOf(t, c.Size()) < |r.slots| && r.slots[SlotOf(t, c.Size())] == Held(r, t)
  }

  ghost predicate ThreadsOk<B>(c: Config, r: Ring<B>) {
    && (forall t :: t in r.storing ==>
      && Oldest(r) <= t < |r.puts|
      && r.storing[t] == Storing(SlotOf(t, c.Size()), r.puts[t]))
    && (!r.getter.Idle? ==> r.getter.index == SlotOf(|r.gets|, c.Size()))
    && (r.getter.Seen? ==> |r.gets| < |r.puts| && |r.gets| !in r.storing)
    && (r.getter.Moved? ==> |r.gets| < |r.puts| && r.getter.result == Some(r.puts[|r.gets|]))
  }

  ghost predicate HistoryOk<B>(r: Ring<B>) {
    && |r.gets| <= |r.puts|
    && forall i :: 0 <= i < |r.gets| ==> r.gets[i] == Some(r.puts[i])
  }

  ghost predicate Inv<B>(c: Config, r: Ring<B>) {
    c.Valid() && CountersOk(c, r) && SlotsOk(c, r) && ThreadsOk(c, r) && HistoryOk(r)
  }

  lemma InitInv<B>(c: Config, r: Ring<B>)
    requires c.Valid() && Init(c, r)
    ensures Inv(c, r)
  {
  }

  lemma BeginPutSlots<B>(c: Config, r: Ring<B>, b: B, r': Ring<B>)
    requires Inv(c, r) && GuardedNext(c, r, BeginPut(b), r')
    ensures SlotsOk(c, r')
  {
    forall u: nat | Oldest(r) <= u < Oldest(r) + c.Size()
      ensures Held(r', u) == Held(r, u)
    {
    }
  }

  lemma BeginPutInv<B>(c: Config, r: Ring<B>, b: B, r': Ring<B>)
    requires Inv(c, r) && GuardedNext(c, r, BeginPut(b), r')
    ensures Inv(c, r')
  {
    WrapKeepsIndex(|r.puts|, c.k);
    WrapSucc(|r.puts|);
    BeginPutSlots(c, r, b, r');
  }

  lemma BeginGetInv<B>(c: Config, r: Ring<B>, r': Ring<B>)
    requires Inv(c, r) && Next(c, r, BeginGet, r')
    ensures Inv(c, r')
  {
    WrapKeepsIndex(|r.gets|, c.k);
    WrapSucc(|r.gets|);
    forall u: nat | Oldest(r) <= u < Oldest(r) + c.Size()
      ensures Held(r', u) == Held(r, u)
    {
    }
  }

  lemma SeeInv<B>(c: Config, r: Ring<B>, r': Ring<B>)
    requires Inv(c, r) && Next(c, r, See, r')
    ensures Inv(c, r')
  {
    assert r.slots[SlotOf(|r.gets|, c.Size())] == Held(r, |r.gets|);
    forall u: nat | Oldest(r) <= u < Oldest(r) + c.Size()
      ensures Held(r', u) == Held(r, u)
    {
    }
  }

  lemma StoreInv<B>(c: Config, r: Ring<B>, t: nat, r': Ring<B>)
    requires Inv(c, r) && Next(c, r, Store(t), r')
    ensures Inv(c, r')
  {
    var n := c.Size();
    forall u: nat | Oldest(r) <= u < Oldest(r) + n
      ensures SlotOf(u, n) < |r'.slots| && r'.slots[SlotOf(u, n)] == Held(r', u)
    {
      if u < t {
        IndexInjective(u, t, n);
      } else if t < u {
        IndexInjective(t, u, n);
      }
    }
  }

  lemma MoveInv<B>(c: Config, r: Ring<B>, r': Ring<B>)
    requires Inv(c, r) && Next(c, r, Move, r')
    ensures Inv(c, r')
  {
    var n, g := c.Size(), |r.gets|;
    assert r.slots[SlotOf(g, n)] == Held(r, g);
    forall u: nat | g + 1 <= u < g + 1 + n
      ensures SlotOf(u, n) < |r'.slots| && r'.slots[SlotOf(u, n)] == Held(r', u)
    {
      if u < g + n {
        IndexInjective(g, u, n);
        assert r.slots[SlotOf(u, n)] == Held(r, u);
      } else {
        NextRound(g, n);
      }
    }
  }

  lemma NextRound(t: nat, n: nat)
    requires n > 0
    ensures SlotOf(t + n, n) == SlotOf(t, n)
  {
    ModUnique(t + n, n, t / n + 1, t % n);
  }

  lemma ReturnInv<B>(c: Config, r: Ring<B>, r': Ring<B>)
    requires Inv(c, r) && Next(c, r, Return, r')
    ensures Inv(c, r')
  {
    NextRound(|r.gets|, c.Size());
    assert r.slots[SlotOf(|r.gets| + c.Size(), c.Size())] == Held(r, |r.gets| + c.Size()) == None;
    assert r'.slots == r.slots;
  }

  lemma NextInv<B>(c: Config, r: Ring<B>, step: Step<B>, r': Ring<B>)
    requires Inv(c, r) && GuardedNext(c, r, step, r')
    ensures Inv(c, r')
  {
    match step
    case BeginPut(b) => BeginPutInv(c, r, b, r');
    case Store(t) => StoreInv(c, r, t, r');
    case BeginGet => BeginGetInv(c, r, r');
    case See => SeeInv(c, r, r');
    case Move => MoveInv(c, r, r');
    case Return => ReturnInv(c, r, r');
  }

  lemma FollowsInv<B(!new)>(c: Config, r: Ring<B>, r': Ring<B>)
    requires Inv(c, r) && Follows(c, r, r')
    ensures Inv(c, r')
  {
    var step :| GuardedNext(c, r, step, r');
    NextInv(c, r, step, r');
  }

  lemma {:induction false} RunInv<B(!new)>(c: Config, run: seq<Ring<B>>, i: nat)
    requires c.Valid() && IsRun(c, run) && i < |run|
    ensures Inv(c, run[i])
  {
    if i == 0 {
      InitInv(c, run[0]);
    } else {
      RunInv(c, run, i - 1);
      assert Follows(c, run[i - 1], run[i - 1 + 1]);
      FollowsInv(c, run[i - 1], run[i]);
    }
  }

  // ------------------------------------------------------------- what it means

  /** No step of r leaves the slot array, loses a buffer or returns none. */
  ghost predicate Safe<B>(r: Ring<B>) {
    // every store lands on an empty slot
    && (forall t :: t in r.storing ==>
      r.storing[t].index < |r.slots| && r.slots[r.storing[t].index] == None)
    // no two stores in flight go to the same slot
    && (forall t, u :: t in r.storing && u in r.storing && t != u ==>
      r.storing[t].index != r.storing[u].index)
    // the slot a Get has seen is still full when it moves
    && (!r.getter.Idle? ==> r.getter.index < |r.slots|)
    && (r.getter.Seen? ==> r.slots[r.getter.index].Some?)
    // the Get with ticket t returns the buffer whose Put drew ticket t
    && |r.gets| <= |r.puts|
    && (forall t :: 0 <= t < |r.gets| ==> r.gets[t] == Some(r.puts[t]))
  }

  /** A waiting Get can go on exactly when the Put with its own ticket has stored. */
  ghost predicate Responsive<B>(r: Ring<B>) {
    r.getter.Waiting? && r.getter.index < |r.slots| ==>
      (r.slots[r.getter.index].Some? <==> |r.gets| < |r.puts| && |r.gets| !in r.storing)
  }

  lemma InvSafe<B>(c: Config, r: Ring<B>)
    requires Inv(c, r)
    ensures Safe(r) && Responsive(r)
  {
    var n := c.Size();
    forall t | t in r.storing
      ensures r.storing[t].index < |r.slots| && r.slots[r.storing[t].index] == None
    {
      assert r.slots[SlotOf(t, n)] == Held(r, t);
    }
    forall t, u | t in r.storing && u in r.storing && t != u
      ensures r.storing[t].index != r.storing[u].index
    {
      if t < u { IndexInjective(t, u, n); } else { IndexInjective(u, t, n); }
    }
    if !r.getter.Moved? {
      assert r.slots[SlotOf(|r.gets|, n)] == Held(r, |r.gets|);
    }
    if !r.getter.Idle? {
      assert SlotOf(|r.gets|, n) < n;
    }
  }

  ghost predicate Enabled<B(!new)>(c: Config, r: Ring<B>, step: Step<B>) {
    exists r' :: Next(c, r, step, r')
  }

  /** When which thread can go on: Put and the start of Get at any time, a waiting Get exactly when
      the Put with its ticket has stored, and a Get that has seen its buffer to the end. */
  lemma EnabledExactly<B(!new)>(c: Config, r: Ring<B>, b: B, t: nat)
    requires Inv(c, r)
    ensures Enabled(c, r, BeginPut(b))
    ensures Enabled(c, r, Store(t)) <==> t in r.storing
    ensures Enabled(c, r, BeginGet) <==> r.getter.Idle?
    ensures Enabled(c, r, See) <==> r.getter.Waiting? && |r.gets| < |r.puts| && |r.gets| !in r.storing
    ensures Enabled(c, r, Move) <==> r.getter.Seen?
    ensures Enabled(c, r, Return) <==> r.getter.Moved?
  {
    InvSafe(c, r);
    PutEnabled(c, r, b, t);
    GetEnabled(c, r);
  }

  lemma PutEnabled<B(!new)>(c: Config, r: Ring<B>, b: B, t: nat)
    requires Inv(c, r) && Safe(r)
    ensures Enabled(c, r, BeginPut(b))
    ensures Enabled(c, r, Store(t)) <==> t in r.storing
  {
    var s := Storing(Index(r.head, c.Size()), b);
    assert Next(c, r, BeginPut(b), r.(head := (r.head + 1) % TWO32, storing := r.storing[|r.puts| := s],
                                      puts := r.puts + [b]));
    if t in r.storing {
      assert Next(c, r, Store(t), r.(slots := r.slots[r.storing[t].index := Some(r.storing[t].buffer)],
                                     storing := r.storing - {t}));
    }
  }

  lemma GetEnabled<B(!new)>(c: Config, r: Ring<B>)
    requires Inv(c, r) && Safe(r) && Responsive(r)
    ensures Enabled(c, r, BeginGet) <==> r.getter.Idle?
    ensures Enabled(c, r, See) <==> r.getter.Waiting? && |r.gets| < |r.puts| && |r.gets| !in r.storing
    ensures Enabled(c, r, Move) <==> r.getter.Seen?
    ensures Enabled(c, r, Return) <==> r.getter.Moved?
  {
    match r.getter
    case Idle =>
      assert Next(c, r, BeginGet, r.(tail := (r.tail + 1) % TWO32, getter := Waiting(Index(r.tail, c.Size()))));
    case Waiting(i) =>
      if r.slots[i].Some? {
        assert Next(c, r, See, r.(getter := Seen(i)));
      }
    case Seen(i) =>
      assert Next(c, r, Move, r.(getter := Moved(i, r.slots[i]), slots := r.slots[i := None]));
    case Moved(i, x) =>
      assert Next(c, r, Return, r.(getter := Idle, gets := r.gets + [x],
                                   slots := if c.clears then r.slots[i := None] else r.slots));
  }

  /** Ring safety: over every interleaving, also after the counters have wrapped. */
  lemma RingSafety<B(!new)>(c: Config, run: seq<Ring<B>>)
    requires c.Valid() && IsRun(c, run)
    ensures forall i :: 0 <= i < |run| ==> Safe(run[i]) && Responsive(run[i])
  {
    forall i | 0 <= i < |run|
      ensures Safe(run[i]) && Responsive(run[i])
    {
      RunInv(c, run, i);
      InvSafe(c, run[i]);
    }
  }

  // ------------------------------------------------------------- the assumption is needed

  /** A Put that starts is safe exactly when fewer than 2^k buffers are in the ring or on their way
      into it. That is one more than Room says only while a Get has moved and not returned. */
  lemma PutIsSafeExactly<B>(c: Config, r: Ring<B>, b: B, r': Ring<B>)
    requires Inv(c, r) && Next(c, r, BeginPut(b), r')
    ensures Safe(r') <==> |r.puts| < Oldest(r) + c.Size()
  {
    var n, p := c.Size(), |r.puts|;
    WrapKeepsIndex(p, c.k);
    if p < Oldest(r) + n {
      NewSlotFree(c, r, b, r');
    } else {
      OldestInTheWay(c, r, b, r');
    }
  }

  lemma NewSlotFree<B>(c: Config, r: Ring<B>, b: B, r': Ring<B>)
    requires Inv(c, r) && Next(c, r, BeginPut(b), r') && |r.puts| < Oldest(r) + c.Size()
    ensures Safe(r')
  {
    var n, p := c.Size(), |r.puts|;
    InvSafe(c, r);
    WrapKeepsIndex(p, c.k);
    assert r.slots[SlotOf(p, n)] == Held(r, p) == None;
    forall t | t in r.storing
      ensures r.storing[t].index != SlotOf(p, n)
    {
      IndexInjective(t, p, n);
    }
  }

  /** The slot that the Put is to use is that of the oldest buffer. */
  lemma OldestInTheWay<B>(c: Config, r: Ring<B>, b: B, r': Ring<B>)
    requires Inv(c, r) && Next(c, r, BeginPut(b), r') && |r.puts| >= Oldest(r) + c.Size()
    ensures !Safe(r')
  {
    var n, p := c.Size(), |r.puts|;
    var t := Oldest(r);
    WrapKeepsIndex(p, c.k);
    NextRound(t, n);
    assert p == t + n && r.slots[SlotOf(t, n)] == Held(r, t);
    assert p in r'.storing && r'.storing[p].index == SlotOf(t, n);
    if t in r.storing {
      assert t in r'.storing && r'.storing[t].index == SlotOf(t, n);
    }
  }

  /** A Put that starts and stores while a Get has moved and not returned: when that Get wipes its
      slot, as one of the two versions does, the new buffer is lost. */
  lemma EarlyPut<B>(c: Config, r: Ring<B>, b: B, r1: Ring<B>, r2: Ring<B>, r3: Ring<B>)
    requires Inv(c, r) && r.getter.Moved? && |r.puts| == |r.gets| + c.Size()
    requires Next(c, r, BeginPut(b), r1) && Next(c, r1, Store(|r.puts|), r2) && Next(c, r2, Return, r3)
    ensures Safe(r1)
    ensures var i := SlotOf(|r.puts|, c.Size());
            && i < |r2.slots| && r2.slots[i] == Some(b)
            && i < |r3.slots| && r3.slots[i] == if c.clears then None else Some(b)
  {
    PutIsSafeExactly(c, r, b, r1);
    WrapKeepsIndex(|r.puts|, c.k);
    NextRound(|r.gets|, c.Size());
  }

  lemma Extend<B(!new)>(c: Config, run: seq<Ring<B>>, step: Step<B>, r': Ring<B>) returns (run': seq<Ring<B>>)
    requires IsRun(c, run) && GuardedNext(c, run[|run| - 1], step, r')
    ensures IsRun(c, run') && run'[|run'| - 1] == r'
  {
    run' := run + [r'];
    forall i | 0 <= i < |run'| - 1
      ensures Follows(c, run'[i], run'[i + 1])
    {
      if i < |run| - 1 {
        assert Follows(c, run[i], run[i + 1]);
      }
    }
  }

  /** A run in which n Puts have finished and no Get has started. */
  lemma {:induction false} Fill<B(!new)>(c: Config, b: B, n: nat) returns (run: seq<Ring<B>>)
    requires c.Valid() && n <= c.Size()
    ensures IsRun(c, run)
    ensures var r := run[|run| - 1];
            |r.puts| == n && r.gets == [] && r.storing == map[] && r.getter == Idle
  {
    if n == 0 {
      run := [Ring(0, 0, seq(c.Size(), _ => None), map[], Idle, [], [])];
    } else {
      run := Fill(c, b, n - 1);
      var r := run[|run| - 1];
      var s := Storing(Index(r.head, c.Size()), b);
      var r1 := r.(head := (r.head + 1) % TWO32, storing := r.storing[|r.puts| := s], puts := r.puts + [b]);
      run := Extend(c, run, BeginPut(b), r1);
      RunInv(c, run, |run| - 1);
      IndexBelow(c, r1, n - 1);
      var r2 := r1.(slots := r1.slots[s.index := Some(b)], storing := r1.storing - {n - 1});
      run := Extend(c, run, Store(n - 1), r2);
    }
  }

  lemma IndexBelow<B>(c: Config, r: Ring<B>, t: nat)
    requires Inv(c, r) && t in r.storing
    ensures r.storing[t].index < |r.slots|
  {
    assert SlotOf(t, c.Size()) < c.Size();
  }

  /** Without the assumption a run can go wrong: 2^k Puts and no Get, and one Put more. */
  lemma RoomIsNeeded<B(!new)>(c: Config, b: B) returns (run: seq<Ring<B>>, r': Ring<B>)
    requires c.Valid()
    ensures IsRun(c, run) && Next(c, run[|run| - 1], BeginPut(b), r')
    ensures !Room(c, run[|run| - 1]) && !Safe(r')
  {
    run := Fill(c, b, c.Size());
    var r := run[|run| - 1];
    RunInv(c, run, |run| - 1);
    r' := r.(head := (r.head + 1) % TWO32,
             storing := r.storing[|r.puts| := Storing(Index(r.head, c.Size()), b)], puts := r.puts + [b]);
    PutIsSafeExactly(c, r, b, r');
  }
}
