/** Inputs at which the code keeps less than one may expect. */
module Witnesses {
  import opened Schedule
  import opened Conveyor
  import opened Wakeups
  import opened Recovery
  import opened Drain
  import opened Blocking
  import opened ChainRuns
  import opened RingBuffers
  import opened Wire
  import opened MessageQueues

  // ----- conveyors -----

  /** A chain without converters that has delivered nothing and has these nodes armed. */
  function State(stores: seq<seq<Outcome<int>>>, caps: seq<nat>, closed: bool, order: seq<nat>): (c: Chain<int>)
    requires |stores| == |caps|
  {
    Chain(stores, caps, seq(|stores|, i => []), closed, Queue(order, 0, |order|), [])
  }

  lemma RunMore(steps: seq<ChainRuns.Step<int>>, s: ChainRuns.Step<int>)
    ensures Run(steps + [s]) == ChainRuns.Advance(Run(steps), s)
  {
    assert (steps + [s])[..|steps|] == steps;
  }

  lemma FirstStep(s: ChainRuns.Step<int>)
    ensures Run([s]) == ChainRuns.Advance(State([[]], [0], false, []), s)
  {
    var c := State([[]], [0], false, []);
    assert c.links == [[]] && c == NewChain<int>();
    assert [s][..|[s]| - 1] == [] && Run<int>([]) == c;
  }

  const A: Outcome<int> := Value(1)
  const B: Outcome<int> := Value(2)
  const C: Outcome<int> := Value(3)

  function Fed(): (c: Chain<int>) {
    State([[A, B, C], [], []], [0, 1, 1], false, [0]).(loop := Queue([0], 1, 1))
  }

  lemma Turn1()
    ensures FrontCanFire(Fed()) && Turn(Fed()) == State([[B, C], [A], []], [0, 1, 1], false, [1, 0])
  {
    var d, e := PopLoop(Fed()), State([[B, C], [A], []], [0, 1, 1], false, [1]);
    assert d == State([[A, B, C], [], []], [0, 1, 1], false, []);
    assert Front(d, 0) == A && [A, B, C][1..] == [B, C];
    var h := Hop(d, 0).stores;
    assert h[0] == e.stores[0] && h[1] == e.stores[1] && h[2] == e.stores[2];
    assert ChildHasFired(d, 0) == e;
    assert Wake(e, 0).loop.order == [1, 0];
  }

  lemma Turn2(c: Chain<int>)
    requires c == State([[B, C], [A], []], [0, 1, 1], false, [1, 0])
    ensures FrontCanFire(c) && Turn(c) == State([[B, C], [], [A]], [0, 1, 1], false, [0, 2])
  {
    var d, e := PopLoop(c), State([[B, C], [], [A]], [0, 1, 1], false, [0, 2]);
    assert d == State([[B, C], [A], []], [0, 1, 1], false, [0]);
    assert Front(d, 1) == A && [A][1..] == [];
    var h := Hop(d, 1).stores;
    assert h[0] == e.stores[0] && h[1] == e.stores[1] && h[2] == e.stores[2];
    assert ChildHasFired(d, 1) == e;
  }

  lemma Turn3(c: Chain<int>)
    requires c == State([[B, C], [], [A]], [0, 1, 1], false, [0, 2])
    ensures FrontCanFire(c) && Turn(c) == State([[C], [B], [A]], [0, 1, 1], false, [2, 1, 0])
  {
    var d, e := PopLoop(c), State([[C], [B], [A]], [0, 1, 1], false, [2, 1]);
    assert d == State([[B, C], [], [A]], [0, 1, 1], false, [2]);
    assert Front(d, 0) == B && [B, C][1..] == [C];
    var h := Hop(d, 0).stores;
    assert h[0] == e.stores[0] && h[1] == e.stores[1] && h[2] == e.stores[2];
    assert ChildHasFired(d, 0) == e;
    assert Wake(e, 0).loop.order == [2, 1, 0];
  }

  lemma Turn4(c: Chain<int>)
    requires c == State([[C], [B], [A]], [0, 1, 1], false, [2, 1, 0])
    ensures FrontCanFire(c) && Turn(c) == State([[C], [B], [A]], [0, 1, 1], false, [1, 0])
  {
  }

  lemma Turn5(c: Chain<int>)
    requires c == State([[C], [B], [A]], [0, 1, 1], false, [1, 0])
    ensures FrontCanFire(c) && Turn(c) == State([[C], [B], [A]], [0, 1, 1], false, [0])
  {
  }

  lemma AddEmptyBuffer(stores: seq<seq<Outcome<int>>>, caps: seq<nat>, cap: nat)
    requires |stores| == |caps| > 0 && forall i :: 0 <= i < |stores| ==> stores[i] == []
    ensures var c := State(stores, caps, false, []);
      ChainRuns.Advance(c, Buffering(cap)) == State(stores + [[]], caps + [cap], false, [])
  {
    var c := State(stores, caps, false, []);
    assert SetParent(c, cap > 0) == c;
  }

  lemma FeedAdapt(queued: seq<Outcome<int>>, x: Outcome<int>, after: seq<Outcome<int>>, order: seq<nat>, next: nat)
    requires after == queued + [x]
    requires (order == [] && next == 0 && queued == []) || (order == [0] && next == 1 && queued != [])
    ensures var c := State([queued, [], []], [0, 1, 1], false, order).(loop := Queue(order, next, next));
      && c.Valid()
      && ChainRuns.Advance(c, Feeding(x)) ==
         State([after, [], []], [0, 1, 1], false, [0]).(loop := Queue([0], 1, 1))
  {
  }

  /** Two buffers of capacity one and three elements. */
  function Setup(): seq<ChainRuns.Step<int>> {
    [Buffering(1)] + [Buffering(1)] + [Feeding(A)] + [Feeding(B)] + [Feeding(C)]
  }

  lemma EmptyNodes()
    ensures State([[]] + [[]], [0] + [1], false, []) == State([[], []], [0, 1], false, [])
    ensures State([[]] + [[]], [0] + [0], false, []) == State([[], []], [0, 0], false, [])
    ensures State([[], []] + [[]], [0, 1] + [1], false, []) ==
            State([[], [], []], [0, 1, 1], false, []).(loop := Queue([], 0, 0))
  {
    var one: seq<seq<Outcome<int>>> := [[]];
    assert one + [[]] == [[], []];
    assert [[], []] + one == [[], [], []];
  }

  lemma SetupIsFed()
    ensures Run(Setup()) == Fed()
  {
    hide Run, ChainRuns.Advance;
    var s: seq<ChainRuns.Step<int>> := [Buffering(1)];
    FirstStep(Buffering(1));
    AddEmptyBuffer([[]], [0], 1);
    EmptyNodes();
    RunMore(s, Buffering(1));
    AddEmptyBuffer([[], []], [0, 1], 1);
    RunMore(s + [Buffering(1)], Feeding(A));
    FeedAdapt([], A, [A], [], 0);
    RunMore(s + [Buffering(1)] + [Feeding(A)], Feeding(B));
    FeedAdapt([A], B, [A, B], [0], 1);
    RunMore(s + [Buffering(1)] + [Feeding(A)] + [Feeding(B)], Feeding(C));
    FeedAdapt([A, B], C, [A, B, C], [0], 1);
  }

  /** After five turns only the adapt node is pending; both buffers are full and asleep. */
  function Clogged(): seq<ChainRuns.Step<int>> {
    Setup() + [Turning] + [Turning] + [Turning] + [Turning] + [Turning]
  }

  function CloggedState(): Chain<int> {
    State([[C], [B], [A]], [0, 1, 1], false, [0])
  }

  lemma RunTurns(steps: seq<ChainRuns.Step<int>>, c: Chain<int>)
    requires Run(steps) == c && FrontCanFire(c)
    ensures Run(steps + [Turning]) == Turn(c)
  {
    hide Run, Turn;
    RunMore(steps, Turning);
  }

  lemma CloggedIsReached()
    ensures Run(Clogged()) == CloggedState()
  {
    hide Run, Turn, Setup;
    SetupIsFed();
    Turn1();
    RunTurns(Setup(), Fed());
    Turn2(Turn(Fed()));
    RunTurns(Setup() + [Turning], Turn(Fed()));
    Turn3(Run(Setup() + [Turning] + [Turning]));
    RunTurns(Setup() + [Turning] + [Turning], Run(Setup() + [Turning] + [Turning]));
    Turn4(Run(Setup() + [Turning] + [Turning] + [Turning]));
    RunTurns(Setup() + [Turning] + [Turning] + [Turning], Run(Setup() + [Turning] + [Turning] + [Turning]));
    Turn5(Run(Setup() + [Turning] + [Turning] + [Turning] + [Turning]));
    RunTurns(Setup() + [Turning] + [Turning] + [Turning] + [Turning],
             Run(Setup() + [Turning] + [Turning] + [Turning] + [Turning]));
  }

  /** From here a take frees space that the buffer above never learns of: whatever is fed,
      turned, added or taken afterwards, its element never leaves it. */
  lemma TakeLosesElement() returns (c: Chain<int>)
    ensures c == Run(Clogged()) && Wakeful(c) && LosesWakeup(c, Taking)
    ensures forall more :: var r := RunFrom(ChainRuns.Advance(c, Taking), more);
      |r.stores| > 1 && r.stores[1] == [B]
  {
    hide Run, Turn, RunFrom, Clogged;
    CloggedIsReached();
    c := Run(Clogged());
    assert Wakeful(c) by {
      SecureFront(c);
    }
    var d := ChainRuns.Advance(c, Taking);
    assert d == Take(c);
    TakeStrands(c);
    forall more ensures var r := RunFrom(d, more); |r.stores| > 1 && r.stores[1] == [B] {
      StrandedForEver(d, 1, more);
    }
  }

  /** Fed and taken without a turn in between, the adapt node stays armed; with a buffer
      behind it, the very next turn would pull an element that is not there. */
  lemma TakeLeavesStaleTail()
    ensures TailIsStale(Run([Feeding(A)] + [Taking]))
    ensures !FrontCanFire(Run([Feeding(A)] + [Taking] + [Buffering(1)]))
  {
    hide Run;
    FirstStep(Feeding(A));
    RunMore([Feeding(A)], Taking);
    var c := Feed(State([[]], [0], false, []), A);
    assert c.loop.order == [0] && c.stores[0] == [A];
    assert Take(c).stores[0] == [];
    RunMore([Feeding(A)] + [Taking], Buffering(1));
    StaleFront(Run([Feeding(A)] + [Taking]));
  }

  lemma StaleFront(c: Chain<int>)
    requires c.Valid() && !c.closed && |c.stores| == 1 && c.stores[0] == [] && c.loop.order == [0]
    ensures !FrontCanFire(ChainRuns.Advance(c, Buffering(1)))
  {
    SetParentOfEmpty(c, true);
    var r := AddBuffer(c, 1);
    assert r.stores[0] == [] && r.stores[1] == [] && r.caps[1] == 1 && r.loop.order == [0];
  }

  /** An armed and empty last node with its child queued ahead of it gets a new element
      before it fires: a buffer behind it does no harm. */
  lemma ArmedTailIsRefilled() returns (c: Chain<int>)
    ensures c == State([[B], []], [0, 2], false, [0, 1])
    ensures Safe(c) && c.Armed(1) && c.stores[1] == [] && !TailIsStale(c)
    ensures Safe(AddBuffer(c, 1))
  {
    c := State([[B], []], [0, 2], false, [0, 1]);
    assert c.loop.order[0] == 0 && c.loop.order[1] == 1;
    assert Ahead(c.loop.order, 0, 1);
    SecureFront(c);
    AddBufferKeepsSafeIff(c, 1);
  }

  /** A take may lose a wake-up that another element makes up for. */
  lemma LostWakeupIsMadeUp() returns (c: Chain<int>)
    ensures c == State([[C], [B], [A]], [0, 2, 1], false, [0])
    ensures Wakeful(c) && TakeLosesWakeup(c)
    ensures Recovering(AddSink(Take(c))) && !Wakeful(AddSink(Take(c))) && Unblocked(AddSink(Take(c)))
  {
    c := State([[C], [B], [A]], [0, 2, 1], false, [0]);
    SecureFront(c);
    var d := AddSink(Take(c));
    SetParentOfEmpty(Take(c), true);
    assert d.stores[0] == [C] && d.stores[1] == [B] && d.stores[2] == [] && d.loop.order == [0] && d.closed;
    SecureFront(d);
    assert Upstream(d.stores, 1) == 1;
    assert Sleeps(d, 1) && WillWake(d, 1);
    assert !Ready(d, 2) && d.Armed(0);
  }

  function Walled(): seq<ChainRuns.Step<int>> {
    [Buffering(0)] + [Sinking] + [Feeding(A)]
  }

  lemma CloseAndFeed(c: Chain<int>)
    requires c == State([[], []], [0, 0], false, [])
    ensures c.Valid()
    ensures var d := ChainRuns.Advance(ChainRuns.Advance(c, Sinking), Feeding(A));
      d.stores == [[A], []] && d.loop.order == [0] && d.caps == [0, 0] && d.closed
  {
    assert AddSink(c) == c.(closed := true);
    var d := Feed(AddSink(c), A);
    assert d.stores[0] == [A] && d.stores[1] == [];
  }

  lemma WalledIsReached()
    ensures var c := Run(Walled());
      c.stores == [[A], []] && c.loop.order == [0] && c.caps == [0, 0] && c.closed
  {
    hide Run, ChainRuns.Advance;
    FirstStep(Buffering(0));
    EmptyNodes();
    AddEmptyBuffer([[]], [0], 0);
    RunMore([Buffering(0)], Sinking);
    RunMore([Buffering(0)] + [Sinking], Feeding(A));
    var c := State([[], []], [0, 0], false, []);
    assert Run([Buffering(0)]) == c;
    CloseAndFeed(c);
  }

  /** Behind a buffer of capacity zero the adapt node arms itself for ever and nothing is
      delivered. */
  lemma ZeroBufferSpins() returns (c: Chain<int>)
    ensures c == Run(Walled()) && Wakeful(c) && c.closed
    ensures forall n: nat :: Turns(c, n).loop.order != [] && !Drained(Turns(c, n))
  {
    hide Run, Turn, ChainRuns.Advance;
    c := Run(Walled());
    WalledIsReached();
    assert Wakeful(c) by {
      SecureFront(c);
    }
    WakefulIsRecovering(c);
    assert FirstZero(c.caps, 1) && Overfull(c, 1) && !Unblocked(c) by {
      assert c.caps[1] == 0 && c.stores[0] != [];
    }
    IdleIff(c);
    DrainsIff(c);
  }

  // ----- rings -----

  /** A full ring of one byte. */
  method FullRing() returns (ring: RingBuffer)
    ensures fresh(ring) && fresh(ring.buffer) && ring.Valid() && ring.Contents() == [7] && ring.Spare() == []
  {
    ring := new RingBuffer(1);
    var _ := ring.Push([7]);
  }

  /** It holds nothing after an advance by nothing. */
  method AdvanceByNothing(ring: RingBuffer)
    requires ring.Valid() && ring.Contents() == [7] && ring.Spare() == []
    modifies ring
    ensures ring.Valid() && ring.Contents() == []
  {
    ring.LengthsAddUp();
    ring.WriteAdvance(0);
  }

  /** At the end of the free space of an empty ring, two bytes are reported to be free. */
  method SegmentPastTheEnd() returns (ring: RingBuffer, offset: nat)
    ensures ring.Valid() && offset == ring.WriteCompositeLength() && ring.WriteSegmentLength(offset) == 2
  {
    ring := new RingBuffer(2);
    offset := ring.WriteCompositeLength();
  }

  // ----- messages -----

  /** One byte is over a limit of nothing: it stays in front whatever is called later. */
  lemma OverLimitStays(size: nat, more: seq<Op>)
    requires 9 <= size < VECTOR_LIMIT
    requires forall i :: 0 <= i < |more| && more[i].Put? ==>
      WellTyped(Primitive(UnsignedInteger, W1), more[i].m)
    ensures RunOps(Primitive(UnsignedInteger, W1), size, 0, [Put(Num(5))] + more).returned == []
  {
    var s, m := Primitive(UnsignedInteger, W1), Num(5);
    assert Pow256(1) == 256 * Pow256(0) && Size(s, m) == 1;
    PacketLength(s, m);
    var ops := [Put(m)];
    assert ops[..|ops| - 1] == [] && RunOps(s, size, 0, []) == Traffic([], [], []);
    var t := RunOps(s, size, 0, ops);
    assert t == MessageQueues.Step(s, size, 0, Traffic([], [], []), Put(m));
    assert t.accepted == [m] && t.returned == [];
    SizesAreWords();
    OverLimitBlocks(s, size, 0, [Put(m)], more);
  }
}
