/** Whole runs of a conveyor chain: it is built, fed, turned and taken from in any order. */
module ChainRuns {
  import opened Sequences
  import Schedule
  import opened Conveyor
  import opened Wakeups
  import opened Recovery
  import opened Drain
  import opened Blocking
  import opened Delivery

  datatype Step<!V> =
    | Feeding(x: Outcome<V>)
    | Turning
    | Converting(f: Converter<V>)
    | Buffering(cap: nat)
    | Sinking
    | Taking

  /** One step of a run.  A chain with a sink cannot be extended or taken from, there is
      nothing to take from an empty node, and a turn that would pull an element that is
      not there is not taken. */
  ghost function Advance<V>(c: Chain<V>, s: Step<V>): (r: Chain<V>)
    requires c.Valid()
    ensures r.Valid()
  {
    match s
    case Feeding(x) => Feed(c, x)
    case Turning => if FrontCanFire(c) then Turn(c) else c
    case Converting(f) => if c.closed then c else Then(c, f)
    case Buffering(cap) => if c.closed then c else AddBuffer(c, cap)
    case Sinking => if c.closed then c else AddSink(c)
    case Taking => if c.closed || c.stores[c.Last()] == [] then c else Take(c)
  }

  /** In every run, no buffer ever holds more than its capacity. */
  ghost function RunFrom<V>(c: Chain<V>, steps: seq<Step<V>>): (r: Chain<V>)
    requires c.Valid()
    ensures r.Valid()
  {
    if steps == [] then c
    else Advance(RunFrom(c, steps[..|steps| - 1]), steps[|steps| - 1])
  }

  ghost function Run<V>(steps: seq<Step<V>>): (r: Chain<V>)
    ensures r.Valid()
  {
    RunFrom(NewChain<V>(), steps)
  }

  lemma NewIsWakeful<V>()
    ensures Wakeful(NewChain<V>())
  {
  }

  // ----- no pull from nothing -----

  /** A step that gives a stale node a parent that pulls. */
  ghost predicate Endangers<V>(c: Chain<V>, s: Step<V>)
    requires c.Valid()
  {
    !c.closed && TailIsStale(c) && (s.Sinking? || (s.Buffering? && s.cap > 0))
  }

  /** Exactly such steps let a pending event pull an element that is not there. */
  lemma AdvanceKeepsSafeIff<V>(c: Chain<V>, s: Step<V>)
    requires Safe(c)
    ensures Safe(Advance(c, s)) <==> !Endangers(c, s)
  {
    hide Turn, Feed, Then, AddBuffer, AddSink, Take, TailIsStale, Secure;
    match s
    case Feeding(x) => FeedKeepsSafe(c, x);
    case Turning => TurnKeepsSafe(c);
    case Converting(f) => ThenKeepsSafe(c, f);
    case Buffering(cap) => if !c.closed { AddBufferKeepsSafeIff(c, cap); }
    case Sinking => if !c.closed { AddSinkKeepsSafeIff(c); }
    case Taking => if !c.closed && c.stores[c.Last()] != [] { TakeKeepsWakefulIff(c); }
  }

  // ----- no lost wake-ups -----

  predicate LosesWakeup<V>(c: Chain<V>, s: Step<V>)
    requires |c.stores| == |c.caps| > 0
  {
    s.Taking? && !c.closed && c.stores[c.Last()] != [] && TakeLosesWakeup(c)
  }

  lemma AdvanceKeepsWakefulIff<V>(c: Chain<V>, s: Step<V>)
    requires Wakeful(c)
    ensures Wakeful(Advance(c, s)) <==> !LosesWakeup(c, s) && !Endangers(c, s)
  {
    hide Turn, Feed, Then, AddBuffer, AddSink, Take, TailIsStale, Secure, Ready, TakeLosesWakeup;
    AdvanceKeepsSafeIff(c, s);
    match s
    case Feeding(x) => FeedKeepsSafe(c, x);
    case Turning => TurnKeepsWakeful(c);
    case Converting(f) => ThenKeepsSafe(c, f);
    case Buffering(cap) => if !c.closed { AddBufferKeepsSafeIff(c, cap); }
    case Sinking => if !c.closed { AddSinkKeepsSafeIff(c); }
    case Taking => if !c.closed && c.stores[c.Last()] != [] { TakeKeepsWakefulIff(c); }
  }

  /** No take of the run frees space in a full buffer whose child is asleep, and no stale
      node is given a parent that pulls. */
  ghost predicate Careful<V>(steps: seq<Step<V>>) {
    steps == [] ||
    var prefix, s := steps[..|steps| - 1], steps[|steps| - 1];
    Careful(prefix) && !LosesWakeup(Run(prefix), s) && !Endangers(Run(prefix), s)
  }

  /** Exactly the runs without such steps never lose a wake-up. */
  lemma {:induction false} RunKeepsWakeful<V>(steps: seq<Step<V>>)
    ensures Careful(steps) <==> forall k :: 0 <= k <= |steps| ==> Wakeful(Run(steps[..k]))
  {
    hide Run, Advance, Wakeful, LosesWakeup, Endangers;
    assert steps[..|steps|] == steps;
    if steps == [] {
      RunUnfolds(steps);
      NewIsWakeful<V>();
    } else {
      var prefix, s := steps[..|steps| - 1], steps[|steps| - 1];
      RunKeepsWakeful(prefix);
      assert forall k :: 0 <= k <= |prefix| ==> prefix[..k] == steps[..k];
      assert prefix[..|prefix|] == prefix;
      RunUnfolds(steps);
      if Wakeful(Run(prefix)) {
        WakefulIsValid(Run(prefix));
        AdvanceKeepsWakefulIff(Run(prefix), s);
      }
    }
  }

  lemma WakefulIsValid<V>(c: Chain<V>)
    requires Wakeful(c)
    ensures c.Valid()
  {
  }

  lemma RunUnfolds<V>(steps: seq<Step<V>>)
    ensures steps == [] ==> Run(steps) == NewChain<V>()
    ensures steps != [] ==> Run(steps) == Advance(Run(steps[..|steps| - 1]), steps[|steps| - 1])
  {
  }

  // ----- what a lost wake-up costs -----

  /** A full buffer that sleeps below a buffer with space. */
  ghost predicate Stranded<V>(c: Chain<V>, m: nat) {
    && c.Valid() && 0 < m && m + 1 < |c.stores|
    && c.stores[m] != [] && !c.HasSpace(m) && !c.Armed(m) && c.HasSpace(m + 1)
  }

  /** A take that loses the wake-up of a full buffer strands it. */
  lemma TakeStrands<V>(c: Chain<V>)
    requires c.Valid() && !c.closed && c.stores[c.Last()] != []
    requires TakeLosesWakeup(c) && !c.HasSpace(c.Last() - 1)
    ensures Stranded(Take(c), c.Last() - 1)
  {
  }

  lemma TurnKeepsStranded<V>(c: Chain<V>, m: nat)
    requires FrontCanFire(c) && Stranded(c, m)
    ensures Stranded(Turn(c), m) && Turn(c).stores[m] == c.stores[m]
  {
    hide Turn, Hopped;
    if c.loop.order == [] {
      IdleTurn(c);
    } else {
      TurnHops(c);
      TurnArms(c);
      HoppedStores(c, c.loop.order[0]);
    }
  }

  lemma AdvanceKeepsStranded<V>(c: Chain<V>, s: Step<V>, m: nat)
    requires c.Valid() && Stranded(c, m)
    ensures Stranded(Advance(c, s), m) && Advance(c, s).stores[m] == c.stores[m]
  {
    hide Turn;
    match s
    case Feeding(x) => ArmMembers(c.loop, Schedule.Next, 0);
    case Turning => if FrontCanFire(c) { TurnKeepsStranded(c, m); }
    case _ =>
  }

  /** Whatever happens afterwards, a stranded buffer never hands on any element again. */
  lemma {:induction false} StrandedForEver<V>(c: Chain<V>, m: nat, steps: seq<Step<V>>)
    requires c.Valid() && Stranded(c, m)
    ensures var r := RunFrom(c, steps); Stranded(r, m) && r.stores[m] == c.stores[m]
  {
    hide Advance, Stranded;
    if steps != [] {
      var prefix, s := steps[..|steps| - 1], steps[|steps| - 1];
      StrandedForEver(c, m, prefix);
      AdvanceKeepsStranded(RunFrom(c, prefix), s, m);
    }
  }

  // ----- first in, first out, converted once by every converter -----

  /** The converters of a chain from node i on, the one next to that node first. */
  function Converters<V>(links: seq<seq<Converter<V>>>, i: nat): seq<Converter<V>>
    requires i <= |links|
    decreases |links| - i
  {
    if i == |links| then [] else links[i] + Converters(links, i + 1)
  }

  lemma {:induction false} ThroughConcat<V>(a: seq<Converter<V>>, b: seq<Converter<V>>, x: Outcome<V>)
    ensures Through(a + b, x) == Through(b, Through(a, x))
  {
    if b == [] {
      assert a + b == a;
    } else {
      assert (a + b)[..|a + b| - 1] == a + b[..|b| - 1];
      ThroughConcat(a, b[..|b| - 1], x);
    }
  }

  lemma {:induction false} DeliverIsThrough<V>(links: seq<seq<Converter<V>>>, i: nat, x: Outcome<V>)
    requires i <= |links|
    ensures Deliver(links, i, x) == Through(Converters(links, i), x)
    decreases |links| - i
  {
    if i < |links| {
      DeliverIsThrough(links, i + 1, Through(links[i], x));
      ThroughConcat(links[i], Converters(links, i + 1), x);
    }
  }

  /** What the elements fed in a run come out as: each fed element passes the converters
      the chain has then, and a converter added later applies to those still inside. */
  ghost function Ideal<V>(steps: seq<Step<V>>): seq<Outcome<V>> {
    if steps == [] then []
    else
      var before, c, s := Ideal(steps[..|steps| - 1]), Run(steps[..|steps| - 1]), steps[|steps| - 1];
      if s.Feeding? then before + [Through(Converters(c.links, 0), s.x)]
      else if s.Converting? && !c.closed && |c.out| <= |before| then
        before[..|c.out|] + ConvertAll(s.f, before[|c.out|..])
      else before
  }

  lemma AdvanceDelivers<V>(c: Chain<V>, s: Step<V>)
    requires c.Valid()
    ensures s.Feeding? ==> Total(Advance(c, s)) == Total(c) + [Through(Converters(c.links, 0), s.x)]
    ensures s.Converting? && !c.closed ==>
      Total(Advance(c, s)) == c.out + ConvertAll(s.f, InFlight(c.stores, c.links, 0))
    ensures !s.Feeding? && (s.Converting? ==> c.closed) ==> Total(Advance(c, s)) == Total(c)
    ensures c.out <= Advance(c, s).out
  {
    hide Turn;
    match s
    case Feeding(x) =>
      FeedAppends(c, x);
      DeliverIsThrough(c.links, 0, x);
    case Turning => if FrontCanFire(c) { TurnKeepsTotal(c); }
    case Converting(f) => ThenConverts(c, f);
    case Buffering(cap) => AddBufferKeepsTotal(c, cap);
    case Sinking => AddSinkKeepsTotal(c);
    case Taking =>
      if Advance(c, s) != c {
        TakeTakesFront(c);
      }
  }

  /** What has left the chain followed by what is in flight, conversions ahead included,
      is exactly the ideal output: nothing is lost, doubled or reordered in any run. */
  lemma {:induction false} RunDelivers<V>(steps: seq<Step<V>>)
    ensures Total(Run(steps)) == Ideal(steps)
  {
    if steps != [] {
      var prefix, s := steps[..|steps| - 1], steps[|steps| - 1];
      RunDelivers(prefix);
      var c := Run(prefix);
      AdvanceDelivers(c, s);
      assert Run(steps) == Advance(c, s);
      assert Ideal(prefix)[|c.out|..] == InFlight(c.stores, c.links, 0);
    }
  }

  function Fed<V>(steps: seq<Step<V>>): seq<Outcome<V>> {
    if steps == [] then []
    else
      var before, s := Fed(steps[..|steps| - 1]), steps[|steps| - 1];
      if s.Feeding? then before + [s.x] else before
  }

  function ThroughAll<V>(fs: seq<Converter<V>>, xs: seq<Outcome<V>>): seq<Outcome<V>> {
    seq(|xs|, j requires 0 <= j < |xs| => Through(fs, xs[j]))
  }

  lemma {:induction false} BufferKeepsConverters<V>(links: seq<seq<Converter<V>>>,
                                                    grown: seq<seq<Converter<V>>>, i: nat)
    requires i <= |links| && |grown| == |links| + 1 && grown[|links|] == []
    requires forall k :: 0 <= k < |links| ==> grown[k] == links[k]
    ensures Converters(grown, i) == Converters(links, i)
    decreases |links| - i
  {
    if i < |links| {
      BufferKeepsConverters(links, grown, i + 1);
    } else {
      assert Converters(grown, i + 1) == [];
    }
  }

  /** Once all converters are in place, a run maps every fed element through all of them. */
  lemma {:induction false} FixedChainDelivers<V>(c: Chain<V>, steps: seq<Step<V>>)
    requires c.Valid() && forall i :: 0 <= i < |steps| ==> !steps[i].Converting?
    ensures Total(RunFrom(c, steps)) == Total(c) + ThroughAll(Converters(c.links, 0), Fed(steps))
    ensures Converters(RunFrom(c, steps).links, 0) == Converters(c.links, 0)
  {
    var fs := Converters(c.links, 0);
    if steps == [] {
      assert ThroughAll(fs, Fed(steps)) == [];
    } else {
      var prefix, s := steps[..|steps| - 1], steps[|steps| - 1];
      FixedChainDelivers(c, prefix);
      var d := RunFrom(c, prefix);
      AdvanceDelivers(d, s);
      AdvanceKeepsConverters(d, s);
      if s.Feeding? {
        assert ThroughAll(fs, Fed(prefix) + [s.x]) == ThroughAll(fs, Fed(prefix)) + [Through(fs, s.x)];
        Assoc(Total(c), ThroughAll(fs, Fed(prefix)), [Through(fs, s.x)]);
      }
    }
  }

  lemma AdvanceKeepsConverters<V>(c: Chain<V>, s: Step<V>)
    requires c.Valid() && !s.Converting?
    ensures Converters(Advance(c, s).links, 0) == Converters(c.links, 0)
  {
    hide Turn;
    match s
    case Turning => if FrontCanFire(c) { TurnKeepsTotal(c); }
    case Buffering(cap) =>
      if Advance(c, s).links != c.links {
        BufferKeepsConverters(c.links, Advance(c, s).links, 0);
      }
    case _ =>
  }

  // ----- liveness -----

  lemma {:induction false} TurnsKeepTotal<V>(c: Chain<V>, n: nat)
    requires c.Valid()
    ensures Total(Turns(c, n)) == Total(c)
    decreases n
  {
    hide Turn, Total;
    if n > 0 && FrontCanFire(c) {
      TurnKeepsTotal(c);
      TurnsKeepTotal(Turn(c), n - 1);
    }
  }

  /** Nothing is in flight exactly if no node has an element. */
  lemma {:induction false} NothingInFlight<V>(stores: seq<seq<Outcome<V>>>, links: seq<seq<Converter<V>>>, i: nat)
    requires i <= |stores| == |links|
    ensures InFlight(stores, links, i) == [] <==> forall k :: i <= k < |stores| ==> stores[k] == []
    decreases |stores| - i
  {
    if i < |stores| {
      InFlightStep(stores, links, i);
      assert |DeliverAll(links, i, stores[i])| == |stores[i]|;
      hide DeliverAll, Deliver, InFlight;
      NothingInFlight(stores, links, i + 1);
    }
  }

  /** The turns of a run have delivered the ideal output exactly if the chain is drained. */
  lemma DeliveredIsDrained<V>(steps: seq<Step<V>>, n: nat)
    ensures Turns(Run(steps), n).out == Ideal(steps) <==> Drained(Turns(Run(steps), n))
  {
    hide Turns, Run, Ideal, InFlight;
    var d := Turns(Run(steps), n);
    TurnsKeepTotal(Run(steps), n);
    RunDelivers(steps);
    NothingInFlight(d.stores, d.links, 0);
    assert Ideal(steps) == d.out + InFlight(d.stores, d.links, 0);
  }

  /** End to end: however a chain was built, fed, turned and taken from, once it ends in a
      sink and is safe, its turns deliver the ideal output exactly if no buffer of capacity
      zero is in the way and every sleeping node will be woken. */
  lemma EveryRunIsDeliveredIff<V>(steps: seq<Step<V>>)
    requires Safe(Run(steps)) && Run(steps).closed
    ensures (exists n: nat :: Turns(Run(steps), n).out == Ideal(steps))
            <==> Unblocked(Run(steps)) && Recovering(Run(steps))
  {
    hide Turns, Run, Ideal, Drained, Unblocked, Recovering, Safe;
    var c := Run(steps);
    DrainsIff(c);
    if Unblocked(c) && Recovering(c) {
      var n: nat :| Drained(Turns(c, n));
      DeliveredIsDrained(steps, n);
    }
    if exists n: nat :: Turns(c, n).out == Ideal(steps) {
      var n: nat :| Turns(c, n).out == Ideal(steps);
      DeliveredIsDrained(steps, n);
    }
  }

  /** And then that is done within the bound, with nothing left pending. */
  lemma EveryRunIsDelivered<V>(steps: seq<Step<V>>, n: nat)
    requires Recovering(Run(steps)) && Run(steps).closed && Unblocked(Run(steps))
    requires n >= Backlog(Run(steps))
    ensures Turns(Run(steps), n).out == Ideal(steps) && Turns(Run(steps), n).loop.order == []
  {
    hide Turns, Run, Ideal, Drained, Unblocked, Recovering, Backlog;
    DrainBound(Run(steps), n);
    DeliveredIsDrained(steps, n);
  }
}
