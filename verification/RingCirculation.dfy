/**
 Two pools between which threads pass a fixed stock of buffers, as the pool test does with its
 pools a and b. Nothing is assumed about enough place.
 */
module RingCirculation {
  import opened Common
  import opened RingArithmetic
  import opened RingPool

  datatype Pool = PoolA | PoolB

  /** hands are the buffers that threads hold between a Get and the next Put. */
  datatype System<B> = System(a: Ring<B>, b: Ring<B>, hands: multiset<B>) {
    function Ring(pool: Pool): Ring<B> {
      if pool == PoolA then a else b
    }
  }

  /** A thread puts a buffer it holds, and holds the buffer its Get returns. */
  ghost predicate HandsNext<B>(hands: multiset<B>, r: Ring<B>, step: Step<B>, hands': multiset<B>) {
    match step
    case BeginPut(x) => x in hands && hands' == hands - multiset{x}
    case Return => r.getter.Moved? &&
      hands' == (match r.getter.result case Some(x) => hands + multiset{x} case None => hands)
    case _ => hands' == hands
  }

  ghost predicate SystemNext<B>(c: Config, s: System<B>, pool: Pool, step: Step<B>, s': System<B>) {
    && Next(c, s.Ring(pool), step, s'.Ring(pool))
    && (pool == PoolA ==> s'.b == s.b) && (pool == PoolB ==> s'.a == s.a)
    && HandsNext(s.hands, s.Ring(pool), step, s'.hands)
  }

  ghost predicate SystemFollows<B(!new)>(c: Config, s: System<B>, s': System<B>) {
    exists pool, step :: SystemNext(c, s, pool, step, s')
  }

  ghost predicate IsSystemRun<B(!new)>(c: Config, total: multiset<B>, run: seq<System<B>>) {
    && run != [] && Init(c, run[0].a) && Init(c, run[0].b) && run[0].hands == total
    && forall i :: 0 <= i < |run| - 1 ==> SystemFollows(c, run[i], run[i + 1])
  }

  /** The buffers that went into r and have not been returned. */
  function Live<B>(r: Ring<B>): seq<B> {
    if |r.gets| <= |r.puts| then r.puts[|r.gets|..] else []
  }

  function Stock<B>(s: System<B>): multiset<B> {
    s.hands + multiset(Live(s.a)) + multiset(Live(s.b))
  }

  ghost predicate SystemInv<B>(c: Config, total: multiset<B>, s: System<B>) {
    Inv(c, s.a) && Inv(c, s.b) && Stock(s) == total && |total| <= c.Size()
  }

  lemma LivePut<B>(c: Config, r: Ring<B>, x: B, r': Ring<B>)
    requires Inv(c, r) && Next(c, r, BeginPut(x), r')
    ensures Live(r') == Live(r) + [x]
  {
  }

  lemma LiveReturn<B>(c: Config, r: Ring<B>, r': Ring<B>)
    requires Inv(c, r) && Next(c, r, Return, r')
    ensures r.getter.result.Some? && Live(r) == [r.getter.result.value] + Live(r')
  {
  }

  /** What one step does to the buffers in its ring and in the hands of threads. */
  lemma RingStock<B>(c: Config, r: Ring<B>, step: Step<B>, r': Ring<B>,
                     hands: multiset<B>, hands': multiset<B>)
    requires Inv(c, r) && Next(c, r, step, r') && HandsNext(hands, r, step, hands')
    ensures hands' + multiset(Live(r')) == hands + multiset(Live(r))
  {
    match step
    case BeginPut(x) => LivePut(c, r, x, r');
    case Return => LiveReturn(c, r, r');
    case _ =>
      assert Live(r') == Live(r);
  }

  /** Enough place is implied: a thread that holds a buffer leaves room for it. */
  lemma RoomIsImplied<B>(c: Config, total: multiset<B>, s: System<B>, pool: Pool)
    requires SystemInv(c, total, s) && |s.hands| > 0
    ensures Room(c, s.Ring(pool))
  {
    assert |total| == |s.hands| + |Live(s.a)| + |Live(s.b)|;
  }

  lemma StepHasRoom<B>(c: Config, total: multiset<B>, s: System<B>, pool: Pool, step: Step<B>,
                       s': System<B>)
    requires SystemInv(c, total, s) && SystemNext(c, s, pool, step, s')
    ensures GuardedNext(c, s.Ring(pool), step, s'.Ring(pool))
  {
    if step.BeginPut? {
      assert s.hands[step.buffer] > 0;
      RoomIsImplied(c, total, s, pool);
    }
  }

  lemma StepInv<B>(c: Config, total: multiset<B>, s: System<B>, pool: Pool, step: Step<B>,
                   s': System<B>)
    requires SystemInv(c, total, s) && SystemNext(c, s, pool, step, s')
    ensures Inv(c, s'.a) && Inv(c, s'.b)
  {
    StepHasRoom(c, total, s, pool, step, s');
    NextInv(c, s.Ring(pool), step, s'.Ring(pool));
  }

  lemma MoveBetween<B>(h: multiset<B>, x: multiset<B>, h': multiset<B>, x': multiset<B>,
                       y: multiset<B>)
    requires h' + x' == h + x
    ensures h' + x' + y == h + x + y && h' + y + x' == h + y + x
  {
    assert h' + y + x' == (h' + x') + y;
    assert h + y + x == (h + x) + y;
  }

  lemma StockStep<B>(s: System<B>, pool: Pool, s': System<B>)
    requires s'.hands + multiset(Live(s'.Ring(pool))) == s.hands + multiset(Live(s.Ring(pool)))
    requires (pool == PoolA ==> s'.b == s.b) && (pool == PoolB ==> s'.a == s.a)
    ensures Stock(s') == Stock(s)
  {
    var other := if pool == PoolA then PoolB else PoolA;
    MoveBetween(s.hands, multiset(Live(s.Ring(pool))), s'.hands, multiset(Live(s'.Ring(pool))),
                multiset(Live(s.Ring(other))));
  }

  lemma SystemStep<B>(c: Config, total: multiset<B>, s: System<B>, pool: Pool, step: Step<B>,
                      s': System<B>)
    requires SystemInv(c, total, s) && SystemNext(c, s, pool, step, s')
    ensures SystemInv(c, total, s')
  {
    assert Inv(c, s'.a) && Inv(c, s'.b) by {
      StepInv(c, total, s, pool, step, s');
    }
    assert Stock(s') == Stock(s) by {
      RingStock(c, s.Ring(pool), step, s'.Ring(pool), s.hands, s'.hands);
      StockStep(s, pool, s');
    }
  }

  lemma SystemFollowsInv<B(!new)>(c: Config, total: multiset<B>, s: System<B>, s': System<B>)
    requires SystemInv(c, total, s) && SystemFollows(c, s, s')
    ensures SystemInv(c, total, s')
  {
    var pool, step :| SystemNext(c, s, pool, step, s');
    SystemStep(c, total, s, pool, step, s');
  }

  lemma {:induction false} SystemRunInv<B(!new)>(c: Config, total: multiset<B>,
                                                 run: seq<System<B>>, i: nat)
    requires c.Valid() && |total| <= c.Size() && IsSystemRun(c, total, run) && i < |run|
    ensures SystemInv(c, total, run[i])
  {
    if i == 0 {
      InitInv(c, run[0].a);
      InitInv(c, run[0].b);
    } else {
      SystemRunInv(c, total, run, i - 1);
      assert SystemFollows(c, run[i - 1], run[i - 1 + 1]);
      SystemFollowsInv(c, total, run[i - 1], run[i]);
    }
  }

  /** Closed circulation: with at most 2^k buffers in all, both pools are safe in every
      interleaving although no Put checks for place, and no buffer is lost or doubled. */
  lemma CirculationSafety<B(!new)>(c: Config, total: multiset<B>, run: seq<System<B>>)
    requires c.Valid() && |total| <= c.Size() && IsSystemRun(c, total, run)
    ensures forall i :: 0 <= i < |run| ==>
      && Safe(run[i].a) && Responsive(run[i].a) && Safe(run[i].b) && Responsive(run[i].b)
      && Stock(run[i]) == total
  {
    forall i | 0 <= i < |run|
      ensures Safe(run[i].a) && Responsive(run[i].a) && Safe(run[i].b) && Responsive(run[i].b)
      ensures Stock(run[i]) == total
    {
      SystemRunInv(c, total, run, i);
      InvSafe(c, run[i].a);
      InvSafe(c, run[i].b);
    }
  }

  // ------------------------------------------------------------- one place

  /** Where a buffer can be: in a slot, in a Put that has not stored, in a Get that has not
      returned. */
  datatype Place = Slot(index: nat) | InPut(ticket: nat) | InGet

  ghost predicate Holds<B>(r: Ring<B>, p: Place, x: B) {
    match p
    case Slot(i) => i < |r.slots| && r.slots[i] == Some(x)
    case InPut(t) => t in r.storing && r.storing[t].buffer == x
    case InGet => r.getter.Moved? && r.getter.result == Some(x)
  }

  function PlaceOf<B>(c: Config, r: Ring<B>, t: nat): Place {
    if t < Oldest(r) then InGet else if t in r.storing then InPut(t) else Slot(SlotOf(t, c.Size()))
  }

  /** Every index belongs to one ticket of a window. */
  lemma WindowCovers(w: nat, n: nat, i: nat) returns (t: nat)
    requires i < n
    ensures w <= t < w + n && SlotOf(t, n) == i
  {
    t := if w % n <= i then w - w % n + i else w - w % n + n + i;
    ModUnique(t, n, if w % n <= i then w / n else w / n + 1, i);
  }

  lemma PlaceHasTicket<B>(c: Config, r: Ring<B>, p: Place, x: B) returns (t: nat)
    requires Inv(c, r) && Holds(r, p, x)
    ensures |r.gets| <= t < |r.puts| && r.puts[t] == x && p == PlaceOf(c, r, t)
  {
    match p
    case Slot(i) =>
      t := WindowCovers(Oldest(r), c.Size(), i);
      assert r.slots[SlotOf(t, c.Size())] == Held(r, t);
    case InPut(u) => t := u;
    case InGet => t := |r.gets|;
  }

  lemma TicketHasPlace<B>(c: Config, r: Ring<B>, t: nat)
    requires Inv(c, r) && |r.gets| <= t < |r.puts|
    ensures Holds(r, PlaceOf(c, r, t), r.puts[t])
  {
    if t >= Oldest(r) && t !in r.storing {
      assert r.slots[SlotOf(t, c.Size())] == Held(r, t);
    }
  }

  lemma Twice<B>(s: seq<B>, i: nat, j: nat)
    requires i < j < |s| && s[i] == s[j]
    ensures multiset(s)[s[i]] >= 2
  {
    assert s == s[..j] + s[j..];
    assert s[..j][i] in multiset(s[..j]) && s[j..][0] in multiset(s[j..]);
  }

  lemma OnlyOnce<B>(s: seq<B>, i: nat, j: nat)
    requires i < |s| && j < |s| && s[i] == s[j] && multiset(s)[s[i]] == 1
    ensures i == j
  {
    if i < j {
      Twice(s, i, j);
    } else if j < i {
      Twice(s, j, i);
    }
  }

  lemma PlaceInLive<B>(c: Config, r: Ring<B>, p: Place, x: B) returns (i: nat)
    requires Inv(c, r) && Holds(r, p, x)
    ensures i < |Live(r)| && Live(r)[i] == x && p == PlaceOf(c, r, |r.gets| + i)
  {
    var t := PlaceHasTicket(c, r, p, x);
    i := t - |r.gets|;
  }

  lemma SamePlace<B>(c: Config, r: Ring<B>, p: Place, q: Place, x: B)
    requires Inv(c, r) && multiset(Live(r))[x] == 1 && Holds(r, p, x) && Holds(r, q, x)
    ensures p == q
  {
    var i := PlaceInLive(c, r, p, x);
    var j := PlaceInLive(c, r, q, x);
    OnlyOnce(Live(r), i, j);
  }

  lemma SomePlace<B>(c: Config, r: Ring<B>, x: B)
    requires Inv(c, r) && x in Live(r)
    ensures exists p :: Holds(r, p, x)
  {
    var i :| 0 <= i < |Live(r)| && Live(r)[i] == x;
    TicketHasPlace(c, r, |r.gets| + i);
  }

  /** A buffer that r holds is in exactly one place of r, as long as it is not in r twice. */
  lemma OnePlace<B>(c: Config, r: Ring<B>, x: B)
    requires Inv(c, r) && multiset(Live(r))[x] == 1
    ensures exists p :: Holds(r, p, x)
    ensures forall p, q :: Holds(r, p, x) && Holds(r, q, x) ==> p == q
  {
    assert x in multiset(Live(r));
    SomePlace(c, r, x);
    forall p, q | Holds(r, p, x) && Holds(r, q, x)
      ensures p == q
    {
      SamePlace(c, r, p, q, x);
    }
  }

  /** Every buffer of the stock is, at any time, in the hands of a thread between two calls, or in
      one place of one pool, and nowhere else. */
  lemma EveryBufferInOnePlace<B>(c: Config, total: multiset<B>, s: System<B>, x: B)
    requires SystemInv(c, total, s) && total[x] == 1
    ensures s.hands[x] + multiset(Live(s.a))[x] + multiset(Live(s.b))[x] == 1
    ensures forall pool :: (multiset(Live(s.Ring(pool)))[x] == 1 <==> exists p :: Holds(s.Ring(pool), p, x))
    ensures forall pool, p, q :: Holds(s.Ring(pool), p, x) && Holds(s.Ring(pool), q, x) ==> p == q
  {
    forall pool
      ensures multiset(Live(s.Ring(pool)))[x] == 1 <==> exists p :: Holds(s.Ring(pool), p, x)
      ensures forall p, q :: Holds(s.Ring(pool), p, x) && Holds(s.Ring(pool), q, x) ==> p == q
    {
      var r := s.Ring(pool);
      forall p | Holds(r, p, x)
        ensures x in multiset(Live(r))
      {
        var t := PlaceHasTicket(c, r, p, x);
        assert Live(r)[t - |r.gets|] == x;
      }
      if multiset(Live(r))[x] == 1 {
        OnePlace(c, r, x);
      }
    }
  }

  // ------------------------------------------------------------- draining

  /** One thread takes from a and puts into b; other Puts into a may still be storing. */
  ghost predicate DrainNext<B>(c: Config, s: System<B>, pool: Pool, step: Step<B>, s': System<B>) {
    && SystemNext(c, s, pool, step, s')
    && (pool == PoolA ==> !step.BeginPut? && (step.BeginGet? ==> s.hands == multiset{}))
    && (pool == PoolB ==> step.BeginPut? || step.Store?)
  }

  ghost predicate DrainFollows<B(!new)>(c: Config, s: System<B>, s': System<B>) {
    exists pool, step :: DrainNext(c, s, pool, step, s')
  }

  ghost predicate Drains<B(!new)>(c: Config, run: seq<System<B>>) {
    run != [] && forall i :: 0 <= i < |run| - 1 ==> DrainFollows(c, run[i], run[i + 1])
  }

  ghost predicate IsDrain<B(!new)>(c: Config, run: seq<System<B>>) {
    Drains(c, run) && run[0].hands == multiset{} && run[0].a.getter == Idle
  }

  /** put is what was taken, in order; the last one taken may still be in the thread's hands. */
  ghost predicate InOrder<B>(taken: seq<B>, put: seq<B>, hands: multiset<B>) {
    |put| <= |taken| <= |put| + 1 && put == taken[..|put|] && hands == multiset(taken[|put|..])
  }

  lemma InOrderHands<B>(taken: seq<B>, put: seq<B>, hands: multiset<B>)
    requires InOrder(taken, put, hands)
    ensures |hands| == |taken| - |put|
    ensures hands == multiset{} ==> put == taken
  {
    assert |multiset(taken[|put|..])| == |taken| - |put|;
  }

  lemma InOrderPut<B>(taken: seq<B>, put: seq<B>, hands: multiset<B>, x: B)
    requires InOrder(taken, put, hands) && x in hands
    ensures InOrder(taken, put + [x], hands - multiset{x})
  {
    InOrderHands(taken, put, hands);
    assert taken[|put|..] == [taken[|put|]];
    assert taken == put + [x];
  }

  lemma InOrderTake<B>(taken: seq<B>, put: seq<B>, x: B)
    requires InOrder(taken, put, multiset{})
    ensures InOrder(taken + [x], put, multiset{x})
  {
    InOrderHands(taken, put, multiset{});
    assert (taken + [x])[|put|..] == [x];
  }

  function Taken<B>(s0: System<B>, s: System<B>): seq<B>
    requires |s0.a.gets| <= |s.a.gets| <= |s.a.puts|
  {
    s.a.puts[|s0.a.gets|..|s.a.gets|]
  }

  /** What happened since s0: nothing was put into a, nothing else was put into b, and what was
      put into b is what was taken from a. */
  ghost predicate Drained<B>(s0: System<B>, s: System<B>) {
    && s.a.puts == s0.a.puts && |s0.a.gets| <= |s.a.gets| <= |s.a.puts|
    && s0.b.puts <= s.b.puts
    && InOrder(Taken(s0, s), s.b.puts[|s0.b.puts|..], s.hands)
    && (s.a.getter != Idle ==> s.hands == multiset{})
  }

  lemma DrainPut<B>(c: Config, s0: System<B>, s: System<B>, x: B, s': System<B>)
    requires Drained(s0, s) && DrainNext(c, s, PoolB, BeginPut(x), s')
    ensures Drained(s0, s')
  {
    var put := s.b.puts[|s0.b.puts|..];
    InOrderPut(Taken(s0, s), put, s.hands, x);
    assert s'.b.puts[|s0.b.puts|..] == put + [x];
    assert s'.a == s.a;
  }

  lemma TakenNext<B>(s0: System<B>, s: System<B>, s': System<B>)
    requires |s0.a.gets| <= |s.a.gets| < |s.a.puts|
    requires s'.a.puts == s.a.puts && |s'.a.gets| == |s.a.gets| + 1
    ensures Taken(s0, s') == Taken(s0, s) + [s.a.puts[|s.a.gets|]]
  {
  }

  lemma ReturnedNext<B>(c: Config, s: System<B>, s': System<B>)
    requires Inv(c, s.a) && SystemNext(c, s, PoolA, Return, s') && s.hands == multiset{}
    ensures |s.a.gets| < |s.a.puts| && s'.hands == multiset{s.a.puts[|s.a.gets|]}
    ensures s'.a.puts == s.a.puts && |s'.a.gets| == |s.a.gets| + 1 && s'.b == s.b
    ensures s'.a.getter == Idle
  {
  }

  lemma DrainReturn<B>(c: Config, s0: System<B>, s: System<B>, s': System<B>)
    requires Inv(c, s.a) && Drained(s0, s) && DrainNext(c, s, PoolA, Return, s')
    ensures Drained(s0, s')
  {
    ReturnedNext(c, s, s');
    TakenNext(s0, s, s');
    InOrderTake(Taken(s0, s), s.b.puts[|s0.b.puts|..], s.a.puts[|s.a.gets|]);
  }

  lemma DrainStep<B>(c: Config, total: multiset<B>, s0: System<B>, s: System<B>, pool: Pool,
                     step: Step<B>, s': System<B>)
    requires SystemInv(c, total, s) && Drained(s0, s) && DrainNext(c, s, pool, step, s')
    ensures Drained(s0, s')
  {
    match step
    case BeginPut(x) => DrainPut(c, s0, s, x, s');
    case Return => DrainReturn(c, s0, s, s');
    case _ =>
  }

  lemma DrainFollowsInv<B(!new)>(c: Config, total: multiset<B>, s0: System<B>, s: System<B>, s': System<B>)
    requires SystemInv(c, total, s) && Drained(s0, s) && DrainFollows(c, s, s')
    ensures SystemInv(c, total, s') && Drained(s0, s')
  {
    var pool, step :| DrainNext(c, s, pool, step, s');
    SystemStep(c, total, s, pool, step, s');
    DrainStep(c, total, s0, s, pool, step, s');
  }

  lemma {:induction false} DrainRun<B(!new)>(c: Config, total: multiset<B>, run: seq<System<B>>, i: nat)
    requires IsDrain(c, run) && SystemInv(c, total, run[0]) && i < |run|
    ensures SystemInv(c, total, run[i]) && Drained(run[0], run[i])
  {
    if i > 0 {
      DrainRun(c, total, run, i - 1);
      assert DrainFollows(c, run[i - 1], run[i - 1 + 1]);
      DrainFollowsInv(c, total, run[0], run[i - 1], run[i]);
    }
  }

  lemma DrainedOrder<B>(s0: System<B>, s: System<B>)
    requires Drained(s0, s)
    ensures s0.b.puts <= s.b.puts && s.b.puts <= s0.b.puts + Live(s0.a)
    ensures Live(s.a) == [] && s.hands == multiset{} ==> s.b.puts == s0.b.puts + Live(s0.a)
  {
    var put := s.b.puts[|s0.b.puts|..];
    assert s.b.puts == s0.b.puts + put;
    assert Taken(s0, s) == Live(s0.a)[..|s.a.gets| - |s0.a.gets|];
    assert put == Live(s0.a)[..|put|];
    if Live(s.a) == [] && s.hands == multiset{} {
      InOrderHands(Taken(s0, s), put, s.hands);
    }
  }

  /** Draining one pool into the other keeps the order: at any time b has got, in order, what was
      taken from a; once a is empty and nothing is in the thread's hands, that is all of a. */
  lemma DrainKeepsOrder<B(!new)>(c: Config, total: multiset<B>, run: seq<System<B>>)
    requires IsDrain(c, run) && SystemInv(c, total, run[0])
    ensures var s0, s := run[0], run[|run| - 1];
            && s0.b.puts <= s.b.puts && s.b.puts <= s0.b.puts + Live(s0.a)
            && (Live(s.a) == [] && s.hands == multiset{} ==> s.b.puts == s0.b.puts + Live(s0.a))
  {
    DrainRun(c, total, run, |run| - 1);
    DrainedOrder(run[0], run[|run| - 1]);
  }

  // ------------------------------------------------------------- a drain can always go on to the end

  /** Nobody is in a call on a, and the draining thread holds nothing. */
  ghost predicate Quiet<B>(s: System<B>) {
    s.hands == multiset{} && s.a.getter == Idle && s.a.storing == map[]
  }

  /** run is a drain from s to s'. */
  ghost predicate Leads<B(!new)>(c: Config, run: seq<System<B>>, s: System<B>, s': System<B>) {
    Drains(c, run) && run[0] == s && run[|run| - 1] == s'
  }

  lemma TwoSteps<B(!new)>(c: Config, s: System<B>, pool: Pool, step: Step<B>, s1: System<B>, step1: Step<B>,
                          s2: System<B>)
    requires DrainNext(c, s, pool, step, s1) && DrainNext(c, s1, pool, step1, s2)
    ensures Leads(c, [s, s1, s2], s, s2)
  {
    assert DrainFollows(c, s, s1) && DrainFollows(c, s1, s2);
  }

  lemma Join<B(!new)>(c: Config, run: seq<System<B>>, s: System<B>, s1: System<B>, run1: seq<System<B>>,
                      s2: System<B>)
    requires Leads(c, run, s, s1) && Leads(c, run1, s1, s2)
    ensures Leads(c, run + run1[1..], s, s2)
  {
    var all, n := run + run1[1..], |run|;
    forall i | 0 <= i < |all| - 1
      ensures DrainFollows(c, all[i], all[i + 1])
    {
      if i + 1 < n {
        assert DrainFollows(c, run[i], run[i + 1]);
      } else {
        assert all[i] == run1[i - (n - 1)];
        assert DrainFollows(c, run1[i - (n - 1)], run1[i - (n - 1) + 1]);
      }
    }
  }

  /** The Get of a drain comes to see the oldest buffer. */
  lemma StartTaking<B(!new)>(c: Config, total: multiset<B>, s: System<B>)
    returns (run: seq<System<B>>, s2: System<B>)
    requires SystemInv(c, total, s) && Quiet(s) && Live(s.a) != []
    ensures Leads(c, run, s, s2)
    ensures SystemInv(c, total, s2) && s2.hands == s.hands && s2.b == s.b
    ensures s2.a == s.a.(tail := s2.a.tail, getter := s2.a.getter) && s2.a.getter.Seen?
  {
    var a := s.a;
    var s1 := s.(a := a.(tail := (a.tail + 1) % TWO32, getter := Waiting(Index(a.tail, c.Size()))));
    SystemStep(c, total, s, PoolA, BeginGet, s1);
    assert s1.a.slots[SlotOf(|a.gets|, c.Size())] == Held(s1.a, |a.gets|);
    s2 := s1.(a := s1.a.(getter := Seen(s1.a.getter.index)));
    SystemStep(c, total, s1, PoolA, See, s2);
    run := [s, s1, s2];
    TwoSteps(c, s, PoolA, BeginGet, s1, See, s2);
  }

  lemma FinishTaking<B(!new)>(c: Config, total: multiset<B>, s: System<B>)
    returns (run: seq<System<B>>, s2: System<B>)
    requires SystemInv(c, total, s) && s.hands == multiset{} && s.a.getter.Seen?
    ensures Leads(c, run, s, s2)
    ensures SystemInv(c, total, s2) && Live(s.a) != [] && s2.hands == multiset{Live(s.a)[0]} && s2.b == s.b
    ensures s2.a.getter == Idle && s2.a.storing == s.a.storing && Live(s2.a) == Live(s.a)[1..]
  {
    var i := s.a.getter.index;
    assert SlotOf(|s.a.gets|, c.Size()) < c.Size();
    var s1 := s.(a := s.a.(getter := Moved(i, s.a.slots[i]), slots := s.a.slots[i := None]));
    SystemStep(c, total, s, PoolA, Move, s1);
    var x := s1.a.getter.result;
    s2 := s1.(a := s1.a.(getter := Idle, gets := s1.a.gets + [x],
                         slots := if c.clears then s1.a.slots[i := None] else s1.a.slots),
              hands := multiset{x.value});
    SystemStep(c, total, s1, PoolA, Return, s2);
    run := [s, s1, s2];
    TwoSteps(c, s, PoolA, Move, s1, Return, s2);
  }

  lemma StartPutting<B>(c: Config, total: multiset<B>, s: System<B>, x: B) returns (s1: System<B>)
    requires SystemInv(c, total, s) && s.hands == multiset{x}
    ensures DrainNext(c, s, PoolB, BeginPut(x), s1) && SystemInv(c, total, s1)
    ensures s1.hands == multiset{} && s1.a == s.a && s1.b.puts == s.b.puts + [x]
    ensures |s.b.puts| in s1.b.storing
  {
    var b := s.b;
    var storing := Storing(Index(b.head, c.Size()), x);
    s1 := s.(b := b.(head := (b.head + 1) % TWO32, storing := b.storing[|b.puts| := storing],
                     puts := b.puts + [x]),
             hands := multiset{});
    SystemStep(c, total, s, PoolB, BeginPut(x), s1);
  }

  lemma FinishPutting<B>(c: Config, total: multiset<B>, s: System<B>, t: nat) returns (s1: System<B>)
    requires SystemInv(c, total, s) && t in s.b.storing
    ensures DrainNext(c, s, PoolB, Store(t), s1) && SystemInv(c, total, s1)
    ensures s1.hands == s.hands && s1.a == s.a && s1.b.puts == s.b.puts
  {
    var p := s.b.storing[t];
    IndexBelow(c, s.b, t);
    s1 := s.(b := s.b.(slots := s.b.slots[p.index := Some(p.buffer)], storing := s.b.storing - {t}));
    SystemStep(c, total, s, PoolB, Store(t), s1);
  }

  lemma PutTaken<B(!new)>(c: Config, total: multiset<B>, s: System<B>, x: B)
    returns (run: seq<System<B>>, s2: System<B>)
    requires SystemInv(c, total, s) && s.hands == multiset{x}
    ensures Leads(c, run, s, s2)
    ensures SystemInv(c, total, s2) && s2.hands == multiset{} && s2.a == s.a && s2.b.puts == s.b.puts + [x]
  {
    var s1 := StartPutting(c, total, s, x);
    s2 := FinishPutting(c, total, s1, |s.b.puts|);
    run := [s, s1, s2];
    TwoSteps(c, s, PoolB, BeginPut(x), s1, Store(|s.b.puts|), s2);
  }

  /** The oldest buffer of a is carried over to b. */
  lemma CarryOne<B(!new)>(c: Config, total: multiset<B>, s: System<B>)
    returns (run: seq<System<B>>, s': System<B>)
    requires SystemInv(c, total, s) && Quiet(s) && Live(s.a) != []
    ensures Leads(c, run, s, s')
    ensures SystemInv(c, total, s') && Quiet(s')
    ensures Live(s'.a) == Live(s.a)[1..] && s'.b.puts == s.b.puts + [Live(s.a)[0]]
  {
    var run1, s1 := StartTaking(c, total, s);
    var run2, s2 := FinishTaking(c, total, s1);
    var run3, s3 := PutTaken(c, total, s2, Live(s.a)[0]);
    Join(c, run1, s, s1, run2, s2);
    Join(c, run1 + run2[1..], s, s2, run3, s3);
    run, s' := run1 + run2[1..] + run3[1..], s3;
  }

  lemma {:induction false} CarryAll<B(!new)>(c: Config, total: multiset<B>, s: System<B>)
    returns (run: seq<System<B>>, s': System<B>)
    requires SystemInv(c, total, s) && Quiet(s)
    ensures Leads(c, run, s, s') && Quiet(s') && Live(s'.a) == [] && s'.b.puts == s.b.puts + Live(s.a)
    decreases |Live(s.a)|
  {
    if Live(s.a) == [] {
      run, s' := [s], s;
    } else {
      var run1, s1 := CarryOne(c, total, s);
      var run2;
      run2, s' := CarryAll(c, total, s1);
      Join(c, run1, s, s1, run2, s');
      run := run1 + run2[1..];
      FirstAndRest(s.b.puts, Live(s.a));
    }
  }

  lemma FirstAndRest<B>(puts: seq<B>, live: seq<B>)
    requires live != []
    ensures puts + [live[0]] + live[1..] == puts + live
  {
  }

  /** From every state in which nobody is in a call on a, some drain carries all buffers of a over
      to b, in order. */
  lemma DrainHappens<B(!new)>(c: Config, total: multiset<B>, s: System<B>) returns (run: seq<System<B>>)
    requires SystemInv(c, total, s) && Quiet(s)
    ensures IsDrain(c, run) && run[0] == s
    ensures var s' := run[|run| - 1];
            Quiet(s') && Live(s'.a) == [] && s'.b.puts == s.b.puts + Live(s.a)
  {
    var s';
    run, s' := CarryAll(c, total, s);
  }
}
