/**
 LogBufferPool: Put looks at the size without the latch, then takes the latch, an index and the
 slot; GetAllBuffers empties the pool under the latch. Any number of threads of both kinds, in
 every interleaving of their atomic steps.
 */
module LatchedPool {
  import opened Common

  type Buffer = int

  /** Where a putting thread is. */
  datatype Producer =
    | Idle
    | Checked(buffer: Buffer)
    | Locked(buffer: Buffer)
    | HasIndex(buffer: Buffer, index: nat)
    | Stored

  /** Who holds the latch, and how far a draining thread has come. */
  datatype Latch =
    | Free
    | HeldBy(producer: nat)
    | Draining(i: nat, batch: seq<Option<Buffer>>)
    | Emptied(batch: seq<Option<Buffer>>)

  /** puts and drained are history: the stored buffers in order, and all batches in order. broken
      says that a thread has used an index outside the array; what the program does then is not
      defined, and nothing is said of it. */
  datatype Pool = Pool(
    size: nat,
    slots: seq<Option<Buffer>>,
    producers: seq<Producer>,
    latch: Latch,
    puts: seq<Buffer>,
    drained: seq<Option<Buffer>>,
    broken: bool)

  datatype Step =
    | Check(p: nat, buffer: Buffer)
    | Lock(p: nat)
    | TakeIndex(p: nat)
    | Store(p: nat)
    | Unlock(p: nat)
    | DrainLock
    | DrainOne
    | DrainReset
    | DrainUnlock
    | StoreOutside(p: nat)
    | ReadOutside

  ghost predicate Init(capacity: nat, producers: nat, s: Pool) {
    && s.size == 0 && |s.slots| == capacity && (forall i :: 0 <= i < capacity ==> s.slots[i] == None)
    && |s.producers| == producers && (forall p :: 0 <= p < producers ==> s.producers[p] == Idle)
    && s.latch == Free && s.puts == [] && s.drained == [] && !s.broken
  }

  predicate Next(s: Pool, step: Step, s': Pool) {
    !s.broken &&
    match step
    case Check(p, b) =>
      && p < |s.producers| && s.producers[p] == Idle && s.size < |s.slots|
      && s' == s.(producers := s.producers[p := Checked(b)])
    case Lock(p) =>
      && p < |s.producers| && s.producers[p].Checked? && s.latch == Free
      && s' == s.(producers := s.producers[p := Locked(s.producers[p].buffer)], latch := HeldBy(p))
    case TakeIndex(p) =>
      && p < |s.producers| && s.producers[p].Locked?
      && s' == s.(producers := s.producers[p := HasIndex(s.producers[p].buffer, s.size)], size := s.size + 1)
    case Store(p) =>
      && p < |s.producers| && s.producers[p].HasIndex? && s.producers[p].index < |s.slots|
      && s' == s.(producers := s.producers[p := Stored],
                  slots := s.slots[s.producers[p].index := Some(s.producers[p].buffer)],
                  puts := s.puts + [s.producers[p].buffer])
    case Unlock(p) =>
      && p < |s.producers| && s.producers[p].Stored?
      && s' == s.(producers := s.producers[p := Idle], latch := Free)
    case DrainLock =>
      && s.latch == Free
      && s' == s.(latch := Draining(0, []))
    case DrainOne =>
      && s.latch.Draining? && s.latch.i < s.size && s.latch.i < |s.slots|
      && s' == s.(latch := Draining(s.latch.i + 1, s.latch.batch + [s.slots[s.latch.i]]),
                  slots := s.slots[s.latch.i := None])
    case DrainReset =>
      && s.latch.Draining? && s.latch.i >= s.size
      && s' == s.(latch := Emptied(s.latch.batch), size := 0)
    case DrainUnlock =>
      && s.latch.Emptied?
      && s' == s.(latch := Free, drained := s.drained + s.latch.batch)
    case StoreOutside(p) =>
      && p < |s.producers| && s.producers[p].HasIndex? && s.producers[p].index >= |s.slots|
      && s' == s.(producers := s.producers[p := Stored], puts := s.puts + [s.producers[p].buffer],
                  broken := true)
    case ReadOutside =>
      && s.latch.Draining? && |s.slots| <= s.latch.i < s.size
      && s' == s.(broken := true)
  }

  ghost predicate Follows(s: Pool, s': Pool) {
    exists step :: Next(s, step, s')
  }

  ghost predicate IsRun(capacity: nat, producers: nat, run: seq<Pool>) {
    && run != [] && Init(capacity, producers, run[0])
    && forall i :: 0 <= i < |run| - 1 ==> Follows(run[i], run[i + 1])
  }

  // ------------------------------------------------------------- conservation

  function Somes(s: seq<Buffer>): seq<Option<Buffer>> {
    seq(|s|, i requires 0 <= i < |s| => Some(s[i]))
  }

  /** Threads with this state hold the latch. */
  predicate HoldsLatch(p: Producer) {
    p.Locked? || p.HasIndex? || p.Stored?
  }

  /** The buffers that were stored and not yet delivered. */
  function Waiting(s: Pool): seq<Buffer> {
    if |s.drained| <= |s.puts| then s.puts[|s.drained|..] else []
  }

  /** The slots from index from on hold exactly the waiting buffers from there. */
  ghost predicate SlotsHold(slots: seq<Option<Buffer>>, waiting: seq<Buffer>, from: nat) {
    && from <= |waiting| <= |slots|
    && forall i :: 0 <= i < |slots| ==>
         slots[i] == if from <= i < |waiting| then Some(waiting[i]) else None
  }

  ghost predicate LatchOk(s: Pool) {
    && (forall p :: 0 <= p < |s.producers| && HoldsLatch(s.producers[p]) ==> s.latch == HeldBy(p))
    && (s.latch.HeldBy? ==> s.latch.producer < |s.producers| && HoldsLatch(s.producers[s.latch.producer]))
  }

  ghost predicate ContentsOk(s: Pool) {
    var w := Waiting(s);
    && |s.drained| <= |s.puts| && s.drained == Somes(s.puts[..|s.drained|])
    && match s.latch
       case Free => |w| == s.size && SlotsHold(s.slots, w, 0)
       case HeldBy(p) =>
         p < |s.producers| && SlotsHold(s.slots, w, 0)
         && if s.producers[p].HasIndex? then s.producers[p].index == |w| && s.size == |w| + 1
            else s.size == |w|
       case Draining(i, batch) =>
         |w| == s.size && SlotsHold(s.slots, w, i) && batch == Somes(w[..i])
       case Emptied(batch) =>
         s.size == 0 && SlotsHold(s.slots, w, |w|) && batch == Somes(w)
  }

  ghost predicate Inv(s: Pool) {
    LatchOk(s) && ContentsOk(s)
  }

  lemma NextLatch(s: Pool, step: Step, s': Pool)
    requires Inv(s) && Next(s, step, s') && !s'.broken
    ensures LatchOk(s')
  {
  }

  lemma StoreContents(s: Pool, p: nat, s': Pool)
    requires Inv(s) && Next(s, Store(p), s')
    ensures ContentsOk(s')
  {
    assert Waiting(s') == Waiting(s) + [s.producers[p].buffer];
    assert s'.puts[..|s.drained|] == s.puts[..|s.drained|];
  }

  lemma DrainOneContents(s: Pool, s': Pool)
    requires Inv(s) && Next(s, DrainOne, s')
    ensures ContentsOk(s')
  {
    var w, i := Waiting(s), s.latch.i;
    assert s.slots[i] == Some(w[i]);
    assert Somes(w[..i + 1]) == Somes(w[..i]) + [Some(w[i])];
  }

  lemma DrainUnlockContents(s: Pool, s': Pool)
    requires Inv(s) && Next(s, DrainUnlock, s')
    ensures ContentsOk(s')
  {
    assert s.puts[..|s.puts|] == s.puts == s.puts[..|s.drained|] + Waiting(s);
    assert Somes(s.puts) == Somes(s.puts[..|s.drained|]) + Somes(Waiting(s));
    assert Waiting(s') == [];
  }

  lemma NextInv(s: Pool, step: Step, s': Pool)
    requires Inv(s) && Next(s, step, s') && !s'.broken
    ensures Inv(s')
  {
    NextLatch(s, step, s');
    match step
    case Store(p) => StoreContents(s, p, s');
    case DrainOne => DrainOneContents(s, s');
    case DrainUnlock => DrainUnlockContents(s, s');
    case DrainReset => assert Waiting(s)[..s.latch.i] == Waiting(s);
    case DrainLock => assert Waiting(s)[..0] == [];
    case _ =>
      assert Waiting(s') == Waiting(s);
  }

  lemma FollowsInv(s: Pool, s': Pool)
    requires Inv(s) && Follows(s, s')
    ensures (!s'.broken ==> Inv(s')) && |s'.slots| == |s.slots| && |s'.producers| == |s.producers|
  {
    var step :| Next(s, step, s');
    if !s'.broken {
      NextInv(s, step, s');
    }
  }

  lemma {:induction false} RunInv(capacity: nat, producers: nat, run: seq<Pool>, i: nat)
    requires IsRun(capacity, producers, run) && i < |run|
    ensures (!run[i].broken ==> Inv(run[i])) && |run[i].slots| == capacity && |run[i].producers| == producers
  {
    if i > 0 {
      RunInv(capacity, producers, run, i - 1);
      assert Follows(run[i - 1], run[i - 1 + 1]);
      FollowsInv(run[i - 1], run[i]);
    }
  }

  /** What the draining thread, if any, has taken so far. */
  function InDrain(s: Pool): seq<Option<Buffer>> {
    match s.latch
    case Draining(_, batch) => batch
    case Emptied(batch) => batch
    case _ => []
  }

  /** The buffers in the slots, in the order of the slots. */
  function Occupied(slots: seq<Option<Buffer>>): seq<Option<Buffer>> {
    if slots == [] then []
    else
      var last := slots[|slots| - 1];
      Occupied(slots[..|slots| - 1]) + if last.Some? then [last] else []
  }

  /** The buffers w[n..k], as far as there are any. */
  function Part(w: seq<Buffer>, n: nat, k: nat): seq<Option<Buffer>>
    requires n <= |w|
  {
    if k <= n then [] else Somes(w[n..if k <= |w| then k else |w|])
  }

  lemma PartNext(w: seq<Buffer>, n: nat, k: nat)
    requires n <= |w|
    ensures Part(w, n, k + 1) == Part(w, n, k) + if n <= k < |w| then [Some(w[k])] else []
  {
    if n <= k < |w| {
      assert w[n..k + 1] == w[n..k] + [w[k]];
    }
  }

  lemma OccupiedNext(slots: seq<Option<Buffer>>, k: nat)
    requires k < |slots|
    ensures Occupied(slots[..k + 1]) == Occupied(slots[..k]) + if slots[k].Some? then [slots[k]] else []
  {
    assert slots[..k + 1][..k] == slots[..k];
  }

  lemma {:induction false} OccupiedIs(slots: seq<Option<Buffer>>, w: seq<Buffer>, n: nat, k: nat)
    requires SlotsHold(slots, w, n) && k <= |slots|
    ensures Occupied(slots[..k]) == Part(w, n, k)
  {
    if k > 0 {
      OccupiedIs(slots, w, n, k - 1);
      OccupiedNext(slots, k - 1);
      PartNext(w, n, k - 1);
    }
  }

  /** The delivered batches, what a draining thread has taken and what is in the slots are, in this
      order, exactly the buffers of the completed stores. */
  predicate Conserved(s: Pool) {
    s.drained + InDrain(s) + Occupied(s.slots) == Somes(s.puts)
  }

  /** Conservation, for any number of threads of both kinds, as long as every index used is inside
      the array. */
  lemma Conservation(capacity: nat, producers: nat, run: seq<Pool>, i: nat)
    requires IsRun(capacity, producers, run) && i < |run| && !run[i].broken
    ensures Conserved(run[i])
    ensures run[i].latch.Free? ==>
              run[i].size <= |run[i].slots| && Occupied(run[i].slots) == run[i].slots[..run[i].size]
  {
    RunInv(capacity, producers, run, i);
    InvConserves(run[i]);
  }

  lemma InvConserves(s: Pool)
    requires Inv(s)
    ensures Conserved(s)
    ensures s.latch.Free? ==> s.size <= |s.slots| && Occupied(s.slots) == s.slots[..s.size]
  {
    var w, n := Waiting(s), Taken(s);
    TakenIs(s);
    OccupiedAll(s.slots, w, n);
    SomesSplit(s.puts, |s.drained|);
    SomesSplit(w, n);
    Assoc(s.drained, InDrain(s), Occupied(s.slots));
    if s.latch.Free? {
      assert s.slots[..s.size] == Somes(w[0..]);
    }
  }

  /** A pool only breaks by a store outside the array, and then a buffer is lost. */
  lemma OverrunLoses(s: Pool, step: Step, s': Pool)
    requires Inv(s) && Next(s, step, s') && s'.broken
    ensures !InBounds(s) && !Conserved(s')
  {
    InvConserves(s);
    assert |Somes(s'.puts)| == |Somes(s.puts)| + 1;
  }

  lemma Assoc<T>(a: seq<T>, b: seq<T>, c: seq<T>)
    ensures a + b + c == a + (b + c)
  {
  }

  /** How many of the waiting buffers a draining thread has taken. */
  function Taken(s: Pool): nat {
    match s.latch
    case Draining(i, _) => i
    case Emptied(_) => |Waiting(s)|
    case _ => 0
  }

  lemma TakenIs(s: Pool)
    requires ContentsOk(s)
    ensures SlotsHold(s.slots, Waiting(s), Taken(s)) && InDrain(s) == Somes(Waiting(s)[..Taken(s)])
    ensures |s.drained| <= |s.puts| && s.drained == Somes(s.puts[..|s.drained|])
    ensures s.latch.Free? ==> s.size == |Waiting(s)|
  {
    assert Waiting(s)[..|Waiting(s)|] == Waiting(s);
  }

  lemma OccupiedAll(slots: seq<Option<Buffer>>, w: seq<Buffer>, n: nat)
    requires SlotsHold(slots, w, n)
    ensures Occupied(slots) == Somes(w[n..])
  {
    OccupiedIs(slots, w, n, |slots|);
    assert slots[..|slots|] == slots;
    assert w[n..|w|] == w[n..];
  }

  /** A store that stays in the array overwrites nothing. */
  lemma NothingOverwritten(capacity: nat, producers: nat, run: seq<Pool>, i: nat, p: nat)
    requires IsRun(capacity, producers, run) && i < |run| && !run[i].broken
    requires p < |run[i].producers| && run[i].producers[p].HasIndex?
    requires run[i].producers[p].index < |run[i].slots|
    ensures run[i].slots[run[i].producers[p].index] == None
  {
    RunInv(capacity, producers, run, i);
  }

  lemma SomesSplit(s: seq<Buffer>, n: nat)
    requires n <= |s|
    ensures Somes(s) == Somes(s[..n]) + Somes(s[n..])
  {
  }

  ghost predicate Enabled(s: Pool, step: Step) {
    exists s' :: Next(s, step, s')
  }

  /** When which thread can go on: a Put checks while there is room, the latch is taken when it is
      free, and the thread that holds it is never held up. */
  lemma EnabledExactly(s: Pool, p: nat, b: Buffer)
    requires Inv(s) && !s.broken && p < |s.producers|
    ensures Enabled(s, Check(p, b)) <==> s.producers[p].Idle? && s.size < |s.slots|
    ensures Enabled(s, Lock(p)) <==> s.producers[p].Checked? && s.latch.Free?
    ensures Enabled(s, TakeIndex(p)) <==> s.producers[p].Locked?
    ensures Enabled(s, Store(p)) || Enabled(s, StoreOutside(p)) <==> s.producers[p].HasIndex?
    ensures Enabled(s, Unlock(p)) <==> s.producers[p].Stored?
    ensures Enabled(s, DrainLock) <==> s.latch.Free?
    ensures Enabled(s, DrainOne) || Enabled(s, DrainReset) <==> s.latch.Draining?
    ensures Enabled(s, DrainUnlock) <==> s.latch.Emptied?
  {
    ProducerEnabled(s, p, b);
    DrainEnabled(s);
  }

  lemma ProducerEnabled(s: Pool, p: nat, b: Buffer)
    requires Inv(s) && !s.broken && p < |s.producers|
    ensures Enabled(s, Check(p, b)) <==> s.producers[p].Idle? && s.size < |s.slots|
    ensures Enabled(s, Lock(p)) <==> s.producers[p].Checked? && s.latch.Free?
    ensures Enabled(s, TakeIndex(p)) <==> s.producers[p].Locked?
    ensures Enabled(s, Store(p)) || Enabled(s, StoreOutside(p)) <==> s.producers[p].HasIndex?
    ensures Enabled(s, Unlock(p)) <==> s.producers[p].Stored?
  {
    match s.producers[p]
    case Idle =>
      if s.size < |s.slots| {
        assert Next(s, Check(p, b), s.(producers := s.producers[p := Checked(b)]));
      }
    case Checked(x) =>
      if s.latch.Free? {
        assert Next(s, Lock(p), s.(producers := s.producers[p := Locked(x)], latch := HeldBy(p)));
      }
    case Locked(x) =>
      assert Next(s, TakeIndex(p), s.(producers := s.producers[p := HasIndex(x, s.size)], size := s.size + 1));
    case HasIndex(x, i) =>
      if i < |s.slots| {
        assert Next(s, Store(p), s.(producers := s.producers[p := Stored], slots := s.slots[i := Some(x)],
                                    puts := s.puts + [x]));
      } else {
        assert Next(s, StoreOutside(p), s.(producers := s.producers[p := Stored], puts := s.puts + [x],
                                           broken := true));
      }
    case Stored =>
      assert Next(s, Unlock(p), s.(producers := s.producers[p := Idle], latch := Free));
  }

  lemma DrainEnabled(s: Pool)
    requires Inv(s) && !s.broken
    ensures Enabled(s, DrainLock) <==> s.latch.Free?
    ensures Enabled(s, DrainOne) || Enabled(s, DrainReset) <==> s.latch.Draining?
    ensures Enabled(s, DrainUnlock) <==> s.latch.Emptied?
  {
    match s.latch
    case Free =>
      assert Next(s, DrainLock, s.(latch := Draining(0, [])));
    case HeldBy(_) =>
    case Draining(i, batch) =>
      if i < s.size {
        assert Next(s, DrainOne, s.(latch := Draining(i + 1, batch + [s.slots[i]]), slots := s.slots[i := None]));
      } else {
        assert Next(s, DrainReset, s.(latch := Emptied(batch), size := 0));
      }
    case Emptied(batch) =>
      assert Next(s, DrainUnlock, s.(latch := Free, drained := s.drained + batch));
  }

  // ------------------------------------------------------------- the check before the latch

  /** Every index that a Put has drawn is inside the array. */
  ghost predicate InBounds(s: Pool) {
    forall p :: 0 <= p < |s.producers| && s.producers[p].HasIndex? ==> s.producers[p].index < |s.slots|
  }

  ghost predicate AlwaysInBounds(capacity: nat, producers: nat) {
    forall run, i :: IsRun(capacity, producers, run) && 0 <= i < |run| ==> InBounds(run[i])
  }

  /** With one producer, what it saw before it took the latch still holds. */
  ghost predicate CheckHolds(s: Pool) {
    forall p :: 0 <= p < |s.producers| && (s.producers[p].Checked? || s.producers[p].Locked?) ==>
      s.size < |s.slots|
  }

  ghost predicate OneProducerInv(s: Pool) {
    && (|s.producers| <= 1 || s.slots == []) && !s.broken
    && Inv(s) && CheckHolds(s) && InBounds(s)
  }

  lemma OneProducerInit(capacity: nat, producers: nat, s: Pool)
    requires Init(capacity, producers, s) && (producers <= 1 || capacity == 0)
    ensures OneProducerInv(s)
  {
  }

  lemma RunFollows(capacity: nat, producers: nat, run: seq<Pool>, i: nat)
    requires IsRun(capacity, producers, run) && 0 < i < |run|
    ensures Follows(run[i - 1], run[i])
  {
    assert Follows(run[i - 1], run[i - 1 + 1]);
  }

  lemma {:induction false} OneProducer(capacity: nat, producers: nat, run: seq<Pool>, i: nat)
    requires IsRun(capacity, producers, run) && i < |run| && (producers <= 1 || capacity == 0)
    ensures OneProducerInv(run[i])
  {
    if i == 0 {
      OneProducerInit(capacity, producers, run[0]);
    } else {
      OneProducer(capacity, producers, run, i - 1);
      OneProducerNext(capacity, producers, run, i);
    }
  }

  lemma OneProducerNext(capacity: nat, producers: nat, run: seq<Pool>, i: nat)
    requires IsRun(capacity, producers, run) && 0 < i < |run| && OneProducerInv(run[i - 1])
    ensures OneProducerInv(run[i])
  {
    RunFollows(capacity, producers, run, i);
    OneProducerFollows(run[i - 1], run[i]);
  }

  lemma OneProducerFollows(s: Pool, s': Pool)
    requires OneProducerInv(s) && Follows(s, s')
    ensures OneProducerInv(s')
  {
    FollowsInv(s, s');
    var step :| Next(s, step, s');
    OneProducerStep(s, step, s');
    if s'.broken {
      OverrunLoses(s, step, s');
    }
  }

  lemma OneProducerStep(s: Pool, step: Step, s': Pool)
    requires Next(s, step, s') && CheckHolds(s) && InBounds(s) && (|s.producers| <= 1 || s.slots == [])
    ensures CheckHolds(s') && InBounds(s')
  {
  }

  lemma Extend(capacity: nat, producers: nat, run: seq<Pool>, step: Step, s': Pool) returns (run': seq<Pool>)
    requires IsRun(capacity, producers, run) && Next(run[|run| - 1], step, s')
    ensures IsRun(capacity, producers, run') && run'[|run'| - 1] == s'
  {
    run' := run + [s'];
    forall i | 0 <= i < |run'| - 1
      ensures Follows(run'[i], run'[i + 1])
    {
      if i < |run| - 1 {
        assert Follows(run[i], run[i + 1]);
      }
    }
  }

  /** All producers idle, and k buffers in the pool. */
  function Filled(capacity: nat, producers: nat, k: nat): Pool {
    Pool(k, seq(capacity, i => if i < k then Some(0) else None), seq(producers, _ => Idle), Free,
         seq(k, _ => 0), [], false)
  }

  /** Producer p, which has passed the check, completes its Put. */
  lemma CompletePut(capacity: nat, producers: nat, run: seq<Pool>, p: nat) returns (run': seq<Pool>)
    requires IsRun(capacity, producers, run)
    requires var s := run[|run| - 1];
             !s.broken && s.latch == Free && p < |s.producers| && s.producers[p].Checked? && s.size < |s.slots|
    ensures IsRun(capacity, producers, run')
    ensures var s := run[|run| - 1];
            run'[|run'| - 1] == Pool(s.size + 1, s.slots[s.size := Some(s.producers[p].buffer)],
                                     s.producers[p := Idle], Free, s.puts + [s.producers[p].buffer], s.drained,
                                     s.broken)
  {
    var s := run[|run| - 1];
    var b := s.producers[p].buffer;
    var s1 := s.(producers := s.producers[p := Locked(b)], latch := HeldBy(p));
    run' := Extend(capacity, producers, run, Lock(p), s1);
    var s2 := s1.(producers := s1.producers[p := HasIndex(b, s1.size)], size := s1.size + 1);
    run' := Extend(capacity, producers, run', TakeIndex(p), s2);
    var s3 := s2.(producers := s2.producers[p := Stored], slots := s2.slots[s.size := Some(b)],
                  puts := s2.puts + [b]);
    run' := Extend(capacity, producers, run', Store(p), s3);
    var s4 := s3.(producers := s3.producers[p := Idle], latch := Free);
    run' := Extend(capacity, producers, run', Unlock(p), s4);
    assert s4.producers == s.producers[p := Idle];
  }

  lemma {:induction false} Fill(capacity: nat, producers: nat, k: nat) returns (run: seq<Pool>)
    requires k <= capacity && producers > 0
    ensures IsRun(capacity, producers, run) && run[|run| - 1] == Filled(capacity, producers, k)
  {
    if k == 0 {
      run := [Filled(capacity, producers, 0)];
    } else {
      run := Fill(capacity, producers, k - 1);
      var s := run[|run| - 1];
      run := Extend(capacity, producers, run, Check(0, 0), s.(producers := s.producers[0 := Checked(0)]));
      run := CompletePut(capacity, producers, run, 0);
      var t := Filled(capacity, producers, k);
      assert run[|run| - 1].slots == t.slots;
      assert run[|run| - 1].producers == t.producers;
      assert run[|run| - 1].puts == t.puts;
    }
  }

  /** Two producers that look at the size before either takes the latch: the second one draws an
      index past the end. */
  lemma TwoProducersOverrun(capacity: nat, producers: nat) returns (run: seq<Pool>)
    requires capacity > 0 && producers >= 2
    ensures IsRun(capacity, producers, run) && !InBounds(run[|run| - 1]) && !run[|run| - 1].broken
  {
    run := Fill(capacity, producers, capacity - 1);
    var s := run[|run| - 1];
    var s1 := s.(producers := s.producers[0 := Checked(1)]);
    run := Extend(capacity, producers, run, Check(0, 1), s1);
    var s2 := s1.(producers := s1.producers[1 := Checked(2)]);
    run := Extend(capacity, producers, run, Check(1, 2), s2);
    run := CompletePut(capacity, producers, run, 0);
    var s3 := run[|run| - 1];
    var s4 := s3.(producers := s3.producers[1 := Locked(2)], latch := HeldBy(1));
    run := Extend(capacity, producers, run, Lock(1), s4);
    var s5 := s4.(producers := s4.producers[1 := HasIndex(2, s4.size)], size := s4.size + 1);
    run := Extend(capacity, producers, run, TakeIndex(1), s5);
    assert s5.producers[1] == HasIndex(2, capacity);
  }

  /** The check without the latch is enough exactly when there is at most one putting thread. */
  lemma InBoundsExactly(capacity: nat, producers: nat)
    ensures AlwaysInBounds(capacity, producers) <==> producers <= 1 || capacity == 0
  {
    if producers <= 1 || capacity == 0 {
      forall run, i | IsRun(capacity, producers, run) && 0 <= i < |run|
        ensures InBounds(run[i])
      {
        OneProducer(capacity, producers, run, i);
      }
    } else {
      var run := TwoProducersOverrun(capacity, producers);
      assert !InBounds(run[|run| - 1]);
    }
  }

  ghost predicate AlwaysConserved(capacity: nat, producers: nat) {
    forall run, i :: IsRun(capacity, producers, run) && 0 <= i < |run| ==> Conserved(run[i])
  }

  /** Nothing is ever lost exactly when there is at most one putting thread. */
  lemma ConservedExactly(capacity: nat, producers: nat)
    ensures AlwaysConserved(capacity, producers) <==> producers <= 1 || capacity == 0
  {
    if producers <= 1 || capacity == 0 {
      forall run, i | IsRun(capacity, producers, run) && 0 <= i < |run|
        ensures Conserved(run[i])
      {
        OneProducer(capacity, producers, run, i);
        Conservation(capacity, producers, run, i);
      }
    } else {
      var run := LostBuffer(capacity, producers);
      assert !Conserved(run[|run| - 1]);
    }
  }

  /** A run in which a buffer is stored past the end. */
  lemma LostBuffer(capacity: nat, producers: nat) returns (run: seq<Pool>)
    requires capacity > 0 && producers >= 2
    ensures IsRun(capacity, producers, run) && !Conserved(run[|run| - 1])
  {
    run := TwoProducersOverrun(capacity, producers);
    var s := run[|run| - 1];
    RunInv(capacity, producers, run, |run| - 1);
    var p :| 0 <= p < |s.producers| && s.producers[p].HasIndex? && s.producers[p].index >= |s.slots|;
    var s' := s.(producers := s.producers[p := Stored], puts := s.puts + [s.producers[p].buffer], broken := true);
    assert Next(s, StoreOutside(p), s');
    OverrunLoses(s, StoreOutside(p), s');
    run := Extend(capacity, producers, run, StoreOutside(p), s');
  }
}
