/** What each step of a run changes in a chain, spelled out field by field, and in which
    order its events join the queue. */
module ChainSteps {
  import opened Sequences
  import opened Schedule
  import opened Conveyor
  import opened Wakeups
  import opened ChainRuns

  /** A queue of nodes with one more at the end, unless it is pending already. */
  function Joined(order: seq<nat>, i: nat, joins: bool): seq<nat> {
    if joins && i !in order then order + [i] else order
  }

  // ----- turns -----

  lemma WakeJoins<V>(c: Chain<V>, i: nat)
    requires c.Valid() && i < |c.stores|
    ensures Wake(c, i).loop.order == Joined(c.loop.order, i, true) && Wake(c, i).loop.next == c.loop.next
  {
    if i !in c.loop.order {
      assert c.loop.order[..|c.loop.order|] + [i] + c.loop.order[|c.loop.order|..] == c.loop.order + [i];
      ArmInserts(c.loop, Later, i);
    }
  }

  lemma ChildJoins<V>(c: Chain<V>, i: nat)
    requires c.Valid() && c.HasParent(i) && CanFire(c, i)
    ensures var d := ChildHasFired(c, i);
      && d.loop.order == Joined(c.loop.order, i + 1, CanHop(c, i) && i + 1 < |c.stores|)
      && d.loop.next == c.loop.next
  {
    hide Wake;
    if i + 1 < |c.stores| && c.HasSpace(i + 1) {
      WakeJoins(c.(stores := c.stores[i := c.stores[i][1..]][i + 1 := c.stores[i + 1] + [Front(c, i)]]), i + 1);
    }
  }

  lemma FireAdaptJoins<V>(c: Chain<V>)
    requires c.Valid() && CanFire(c, 0)
    ensures var r := FireAdapt(c);
      && r.loop.order == Joined(Joined(c.loop.order, 1, CanHop(c, 0) && 1 < |c.stores|),
                                0, c.HasParent(0) && r.stores[0] != [])
      && r.loop.next == c.loop.next
  {
    hide Wake, ChildHasFired;
    if c.HasParent(0) {
      ChildJoins(c, 0);
      ChildEffect(c, 0);
      WakeJoins(ChildHasFired(c, 0), 0);
    }
  }

  lemma OfferJoins<V>(c: Chain<V>, i: nat)
    requires c.Valid() && 0 < i && CanFire(c, i)
    ensures var d := Offer(c, i);
      && d.loop.order == Joined(Joined(c.loop.order, i + 1, CanHop(c, i) && i + 1 < |c.stores|), i, CanHop(d, i))
      && d.loop.next == c.loop.next
  {
    hide Wake, ChildHasFired;
    if c.HasParent(i) {
      ChildJoins(c, i);
      ChildEffect(c, i);
      WakeJoins(ChildHasFired(c, i), i);
    }
  }

  lemma ParentJoins<V>(c: Chain<V>, i: nat)
    requires c.Valid() && i < |c.stores| && c.HasParent(i)
    ensures var d := ParentHasFired(c, i);
      && d == c.(loop := d.loop) && d.loop.next == c.loop.next
      && d.loop.order == Joined(c.loop.order, i, 0 < i && CanHop(d, i))
  {
    WakeJoins(c, i);
  }

  lemma FireBufferJoins<V>(c: Chain<V>, i: nat)
    requires c.Valid() && 0 < i && CanFire(c, i)
    ensures var r := FireBuffer(c, i);
      && r.loop.order == Joined(Joined(Joined(c.loop.order, i + 1, CanHop(c, i) && i + 1 < |c.stores|),
                                       i, CanHop(r, i)),
                                i - 1, 1 < i && !c.HasSpace(i) && CanHop(r, i - 1))
      && r.loop.next == c.loop.next
  {
    hide Offer, ParentHasFired, Joined;
    OfferJoins(c, i);
    if c.HasSpace(i) {
      NotJoined(Offer(c, i).loop.order, i - 1);
    } else {
      ParentJoins(Offer(c, i), i - 1);
    }
  }

  lemma NotJoined(order: seq<nat>, i: nat)
    ensures Joined(order, i, false) == order
  {
  }

  /** A turn takes the front event out of the queue.  Behind the others join, in this order
      and if they are not pending: the parent if it got an element, the node itself if it
      can go on, and the child of a buffer that was full if it can hand on now. */
  lemma TurnJoins<V>(c: Chain<V>)
    requires FrontCanFire(c) && c.loop.order != []
    ensures var i, rest, r := c.loop.order[0], c.loop.order[1..], Turn(c);
      && r.loop.order == Joined(Joined(Joined(rest, i + 1, CanHop(c, i) && i + 1 < |c.stores|),
                                       i, if i == 0 then c.HasParent(0) && r.stores[0] != [] else CanHop(r, i)),
                                if i > 0 then i - 1 else 0, 1 < i && !c.HasSpace(i) && CanHop(r, i - 1))
      && r.loop.next == 0 && r.loop.later == |r.loop.order|
  {
    hide FireAdapt, FireBuffer;
    var i, d := c.loop.order[0], PopLoop(c);
    PopDrops(c.loop);
    assert c.Armed(i);
    if i == 0 {
      FireAdaptJoins(d);
    } else {
      FireBufferJoins(d, i);
    }
  }

  // ----- the other steps -----

  /** A fed element becomes the last one of the adapt node, whose event takes the place at
      the next cursor unless it is pending. */
  lemma FeedingEffect<V>(c: Chain<V>, x: Outcome<V>)
    requires c.Valid()
    ensures var r, q := ChainRuns.Advance(c, Feeding(x)), c.loop;
      && r == c.(stores := r.stores, loop := r.loop)
      && |r.stores| == |c.stores| && r.stores[0] == c.stores[0] + [x] && r.stores[1..] == c.stores[1..]
      && r.loop == if 0 in q.order then q
                   else Queue(q.order[..q.next] + [0] + q.order[q.next..], q.next + 1, q.later + 1)
  {
    if 0 !in c.loop.order {
      ArmInserts(c.loop, Next, 0);
    }
  }

  /** A converter is put behind all converters of the chain. */
  lemma ConvertingEffect<V>(c: Chain<V>, f: Converter<V>)
    requires c.Valid()
    ensures var r := ChainRuns.Advance(c, Converting(f));
      && r == c.(links := r.links)
      && (c.closed ==> r == c)
      && (!c.closed ==> Converters(r.links, 0) == Converters(c.links, 0) + [f])
  {
    if !c.closed {
      ConverterIsLast(c.links, f, 0);
    }
  }

  lemma {:induction false} ConverterIsLast<V>(links: seq<seq<Converter<V>>>, f: Converter<V>, i: nat)
    requires i < |links|
    ensures Converters(links[|links| - 1 := links[|links| - 1] + [f]], i) == Converters(links, i) + [f]
    decreases |links| - i
  {
    var n := |links| - 1;
    var grown := links[n := links[n] + [f]];
    if i == n {
      assert Converters(links, n + 1) == [] && Converters(grown, n + 1) == [];
    } else {
      ConverterIsLast(links, f, i + 1);
      Assoc(links[i], Converters(links, i + 1), [f]);
    }
  }

  /** An added buffer is empty, has the capacity asked for and no converters above it; the
      node before it is woken if it has an element and the capacity is not zero. */
  lemma BufferingEffect<V>(c: Chain<V>, cap: nat)
    requires c.Valid()
    ensures var r, n := ChainRuns.Advance(c, Buffering(cap)), |c.stores| - 1;
      if c.closed then r == c
      else
        && r.stores == c.stores + [[]] && r.caps == c.caps + [cap] && r.links == c.links + [[]]
        && !r.closed && r.out == c.out
        && r.loop.order == Joined(c.loop.order, n, c.stores[n] != [] && cap > 0)
        && r.loop.next == c.loop.next && r.loop.later == |r.loop.order|
  {
    WakeJoins(c, |c.stores| - 1);
  }

  /** A sink closes the chain and wakes its last node if that has an element. */
  lemma SinkingEffect<V>(c: Chain<V>)
    requires c.Valid()
    ensures var r, n := ChainRuns.Advance(c, Sinking), |c.stores| - 1;
      if c.closed then r == c
      else
        && r == c.(closed := true, loop := r.loop)
        && r.loop.order == Joined(c.loop.order, n, c.stores[n] != [])
        && r.loop.next == c.loop.next && r.loop.later == |r.loop.order|
  {
    WakeJoins(c, |c.stores| - 1);
  }

  /** Taking removes the front element of the last node and no event. */
  lemma TakingEffect<V>(c: Chain<V>)
    requires c.Valid()
    ensures var r, n := ChainRuns.Advance(c, Taking), |c.stores| - 1;
      if c.closed || c.stores[n] == [] then r == c
      else
        && r == c.(stores := r.stores, out := r.out)
        && r.stores == c.stores[..n] + [c.stores[n][1..]]
        && r.out == c.out + [Through(c.links[n], c.stores[n][0])]
  {
  }

  /** A run goes through one state per step. */
  lemma {:induction false} RunIsStepwise<V>(c: Chain<V>, steps: seq<ChainRuns.Step<V>>) returns (cs: seq<Chain<V>>)
    requires c.Valid()
    ensures |cs| == |steps| + 1 && cs[0] == c && cs[|steps|] == RunFrom(c, steps)
    ensures forall k :: 0 <= k < |steps| ==> cs[k].Valid() && cs[k + 1] == ChainRuns.Advance(cs[k], steps[k])
  {
    hide ChainRuns.Advance;
    cs := [c];
    if steps != [] {
      var before := RunIsStepwise(c, steps[..|steps| - 1]);
      cs := before + [RunFrom(c, steps)];
    }
  }

  /** It starts from an empty adapt node with nothing behind it. */
  lemma RunStartsNew<V>(steps: seq<ChainRuns.Step<V>>)
    ensures var start: Chain<V> := Chain([[]], [0], [[]], false, Queue([], 0, 0), []);
      start.Valid() && Run(steps) == RunFrom(start, steps)
  {
    assert NewChain<V>().links == [[]];
  }
}
