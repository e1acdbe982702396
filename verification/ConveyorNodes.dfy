/** The storage nodes of a conveyor chain as objects that push, pop and wake each other. */
module ConveyorNodes {
  import opened Sequences
  import opened Schedule
  import opened Conveyor
  import opened Wakeups
  import opened Drain
  import opened EventLoops
  import ChainRuns

  // ----- a queue of events seen as a queue of nodes -----

  /** The queue of events is the queue of node numbers, each number read as the event of
      that node. */
  ghost predicate Mirrors(events: seq<Event>, q: Queue<Event>, p: Queue<nat>) {
    && q.next == p.next && q.later == p.later && |q.order| == |p.order|
    && forall k :: 0 <= k < |p.order| ==> p.order[k] < |events| && q.order[k] == events[p.order[k]]
  }

  lemma MirroredMember(events: seq<Event>, q: Queue<Event>, p: Queue<nat>, i: nat)
    requires Mirrors(events, q, p) && Distinct(events) && i < |events|
    ensures events[i] in q.order <==> i in p.order
  {
    if events[i] in q.order {
      assert p.order[IndexOf(q.order, events[i])] == i;
    }
    if i in p.order {
      assert q.order[IndexOf(p.order, i)] == events[i];
    }
  }

  lemma ArmMirrors(events: seq<Event>, q: Queue<Event>, p: Queue<nat>, kind: Kind, i: nat)
    requires Mirrors(events, q, p) && Distinct(events) && i < |events| && q.Valid() && p.Valid()
    ensures Mirrors(events, Arm(q, kind, events[i]), Arm(p, kind, i))
  {
    MirroredMember(events, q, p, i);
  }

  lemma PopMirrors(events: seq<Event>, q: Queue<Event>, p: Queue<nat>)
    requires Mirrors(events, q, p) && q.order != [] && q.Valid() && p.Valid()
    ensures Mirrors(events, Pop(q), Pop(p))
  {
  }

  /** An adapt node or a buffer, with the converters stacked on top of it. */
  class StorageNode<V> {
    const event: Event
    const maxStore: nat
    var storage: seq<Outcome<V>>
    var link: seq<Converter<V>>

    constructor (event: Event, maxStore: nat)
      ensures this.event == event && this.maxStore == maxStore && storage == [] && link == []
    {
      this.event := event;
      this.maxStore := maxStore;
      storage, link := [], [];
    }

    /** Pops the front element and passes it through the converters, innermost first. */
    method GetResult() returns (x: Outcome<V>)
      requires storage != []
      modifies this`storage
      ensures x == Through(link, old(storage)[0]) && storage == old(storage)[1..]
      ensures exists ys: seq<Outcome<V>> ::
        && |ys| == |link| + 1 && ys[0] == old(storage)[0] && ys[|link|] == x
        && (forall k :: 0 <= k < |link| && ys[k].Value? ==> ys[k + 1] == link[k].func(ys[k].value))
        && (forall k :: 0 <= k < |link| && ys[k].Failure? ==> ys[k + 1] == link[k].errorFunc(ys[k].code))
    {
      ghost var ys := ThroughIsStepwise(link, storage[0]);
      x := storage[0];
      storage := storage[1..];
      for k := 0 to |link|
        invariant x == Through(link[..k], old(storage)[0])
      {
        assert link[..k + 1][..k] == link[..k];
        x := Convert(link[k], x);
      }
      assert link[..|link|] == link;
    }
  }

  lemma HopStores<V>(c: Chain<V>, i: nat)
    requires c.Valid() && i + 1 < |c.stores| && c.stores[i] != [] && c.HasSpace(i + 1)
    ensures var r := Hop(c, i);
      && r.Valid() && r == c.(stores := r.stores) && |r.stores| == |c.stores|
      && forall j :: 0 <= j < |c.stores| ==>
           r.stores[j] == if j == i then c.stores[i][1..]
                          else if j == i + 1 then c.stores[j] + [Front(c, i)] else c.stores[j]
  {
  }

  ghost function EventsOf<V>(nodes: seq<StorageNode<V>>): (r: seq<Event>)
    ensures |r| == |nodes| && forall i :: 0 <= i < |r| ==> r[i] == nodes[i].event
  {
    seq(|nodes|, i requires 0 <= i < |nodes| => nodes[i].event)
  }

  lemma ExtendMirrors<V>(nodes: seq<StorageNode<V>>, node: StorageNode<V>, q: Queue<Event>, p: Queue<nat>)
    requires Distinct(EventsOf(nodes)) && Mirrors(EventsOf(nodes), q, p)
    requires Distinct(nodes) && forall i :: 0 <= i < |nodes| ==> nodes[i].event != node.event
    ensures Distinct(nodes + [node])
    ensures Distinct(EventsOf(nodes + [node])) && Mirrors(EventsOf(nodes + [node]), q, p)
  {
  }

  /** A chain of nodes on an event loop of its own; parent and child of a node are its
      neighbours, and a closed chain has a sink above its last node. */
  class Pipeline<V> {
    const loop: EventLoop
    var nodes: seq<StorageNode<V>>
    var closed: bool
    ghost var delivered: seq<Outcome<V>>

    ghost var members: set<StorageNode<V>>
    ghost var chain: Chain<V>

    /** A feeder and its adapt node, with nothing behind it yet. */
    constructor ()
      ensures Valid() && chain == NewChain() && fresh(loop) && fresh(loop.events) && fresh(members)
    {
      var l := new EventLoop();
      var event := new Event(l);
      var adapt := new StorageNode<V>(event, 0);
      loop := l;
      nodes, closed, delivered := [adapt], false, [];
      members, chain := {adapt}, NewChain();
    }

    ghost predicate Valid()
      reads this, members, loop, loop.events
    {
      && chain.Valid() && Represented() && loop.Valid() && Scheduled(nodes, chain.loop)
    }

    /** The node objects hold what the nodes of the chain hold. */
    ghost predicate Represented()
      reads this, members
    {
      && |nodes| == |chain.stores| == |chain.caps| == |chain.links|
      && closed == chain.closed && delivered == chain.out
      && Distinct(nodes)
      && (forall i {:trigger At(i)} :: At(i) && 0 <= i < |nodes| ==>
            && nodes[i] in members
            && nodes[i].storage == chain.stores[i]
            && nodes[i].link == chain.links[i]
            && (i > 0 ==> nodes[i].maxStore == chain.caps[i]))
    }

    /** The loop has the events of the nodes in its queue as the chain has the nodes. */
    ghost predicate Scheduled(nodes: seq<StorageNode<V>>, order: Queue<nat>)
      reads loop
    {
      && Distinct(EventsOf(nodes))
      && (forall i {:trigger At(i)} :: At(i) && 0 <= i < |nodes| ==> nodes[i].event in loop.events)
      && Mirrors(EventsOf(nodes), loop.queue, order)
    }

    predicate HasSpace(i: nat)
      requires i < |nodes|
      reads this, nodes[i]
    {
      |nodes[i].storage| < nodes[i].maxStore
    }

    /** An arm operation of node i's event is an arm operation on the number i. */
    lemma Arms(q: Queue<Event>, p: Queue<nat>, kind: Kind, i: nat)
      requires Distinct(EventsOf(nodes)) && Mirrors(EventsOf(nodes), q, p) && i < |nodes| && q.Valid() && p.Valid()
      ensures Mirrors(EventsOf(nodes), Arm(q, kind, nodes[i].event), Arm(p, kind, i))
    {
      ArmMirrors(EventsOf(nodes), q, p, kind, i);
    }

    method ArmLater(i: nat)
      requires Valid() && i < |nodes|
      modifies this`chain, loop, loop.events
      ensures Valid() && chain == Wake(old(chain), i) && loop.events == old(loop.events)
    {
      hide EventLoop.Represents, Mirrors, Arm;
      assert At(i);
      loop.RepresentsValidQueue();
      Arms(loop.queue, chain.loop, Later, i);
      nodes[i].event.ArmLater();
      chain := Wake(chain, i);
    }

    lemma Shape()
      requires Valid()
      ensures chain.Valid() && |nodes| == |chain.stores| && closed == chain.closed
    {
    }

    lemma Node(i: nat)
      requires Valid() && i < |nodes| == |chain.stores| == |chain.caps|
      ensures nodes[i].storage == chain.stores[i] && (i > 0 ==> nodes[i].maxStore == chain.caps[i])
    {
      assert At(i);
    }

    lemma Redraw()
      requires |nodes| == |chain.stores| == |chain.caps| == |chain.links| && Distinct(nodes)
      requires closed == chain.closed && delivered == chain.out
      requires forall i {:trigger At(i)} :: At(i) && 0 <= i < |nodes| ==>
        && nodes[i] in members && nodes[i].storage == chain.stores[i] && nodes[i].link == chain.links[i]
        && (i > 0 ==> nodes[i].maxStore == chain.caps[i])
      ensures Represented()
    {
    }

    /** Node i hands an element to its parent buffer, which is not woken yet. */
    method Pass(i: nat)
      requires Valid() && i + 1 < |nodes| && chain.stores[i] != [] && chain.HasSpace(i + 1)
      modifies this`chain, members
      ensures Valid() && chain == Hop(old(chain), i)
    {
      hide EventLoop.Represents, Scheduled, Hop, Through;
      assert At(i) && At(i + 1);
      ghost var h := Hop(chain, i);
      HopStores(chain, i);
      assert |nodes| == |h.stores| == |h.caps| == |h.links| && closed == h.closed && delivered == h.out;
      var x := nodes[i].GetResult();
      nodes[i + 1].storage := nodes[i + 1].storage + [x];
      forall j | At(j) && 0 <= j < |nodes|
        ensures nodes[j] in members && nodes[j].storage == h.stores[j] && nodes[j].link == h.links[j]
        ensures j > 0 ==> nodes[j].maxStore == h.caps[j]
      {
        assert j != i && j != i + 1 ==> nodes[j] != nodes[i] && nodes[j] != nodes[i + 1];
      }
      hide Represented;
      chain := h;
      Redraw();
    }

    /** The last node hands an element to the sink, or to whoever takes it. */
    method Leave() returns (x: Outcome<V>)
      requires Valid() && chain.stores[chain.Last()] != []
      modifies this`chain, this`delivered, members
      ensures Valid() && chain == Conveyor.Take(old(chain)) && x == Front(old(chain), old(chain).Last())
    {
      hide EventLoop.Represents, Scheduled, Through;
      var last := |nodes| - 1;
      assert At(last);
      x := nodes[last].GetResult();
      delivered := delivered + [x];
      ghost var c := Conveyor.Take(chain);
      forall j | At(j) && 0 <= j < |nodes|
        ensures nodes[j] in members && nodes[j].storage == c.stores[j] && nodes[j].link == c.links[j]
        ensures j > 0 ==> nodes[j].maxStore == c.caps[j]
      {
        assert j != last ==> nodes[j] != nodes[last];
      }
      hide Represented;
      chain := c;
      Redraw();
    }

    /** childHasFired on the parent of node i. */
    method NotifyParent(i: nat)
      requires Valid() && chain.HasParent(i) && CanFire(chain, i)
      modifies this`delivered, this`chain, members, loop, loop.events
      ensures Valid() && chain == ChildHasFired(old(chain), i) && loop.events == old(loop.events)
    {
      hide Valid, Wake;
      Shape();
      if i + 1 == |nodes| {
        var x := Leave();
      } else {
        Node(i + 1);
        if HasSpace(i + 1) {
          Pass(i);
          ArmLater(i + 1);
        }
      }
    }

    /** parentHasFired on node i; only buffers listen. */
    method ParentHasFired(i: nat)
      requires Valid() && i < |nodes| && chain.HasParent(i)
      modifies this`chain, loop, loop.events
      ensures Valid() && chain == Conveyor.ParentHasFired(old(chain), i) && loop.events == old(loop.events)
    {
      hide Valid, Wake;
      Shape();
      Node(i);
      if i + 1 < |nodes| {
        Node(i + 1);
      }
      if i > 0 && (i + 1 == |nodes| || HasSpace(i + 1)) && nodes[i].storage != [] {
        ArmLater(i);
      }
    }

    method FireAdapt()
      requires Valid() && CanFire(chain, 0)
      modifies this`delivered, this`chain, members, loop, loop.events
      ensures Valid() && chain == Conveyor.FireAdapt(old(chain)) && loop.events == old(loop.events)
    {
      hide Valid, Wake, ChildHasFired;
      Shape();
      if 1 < |nodes| || closed {
        NotifyParent(0);
        Shape();
        Node(0);
        if nodes[0].storage != [] {
          ArmLater(0);
        }
      }
    }

    method FireBuffer(i: nat)
      requires Valid() && 0 < i && CanFire(chain, i)
      modifies this`delivered, this`chain, members, loop, loop.events
      ensures Valid() && chain == Conveyor.FireBuffer(old(chain), i) && loop.events == old(loop.events)
    {
      hide Valid, Wake, ChildHasFired, Conveyor.ParentHasFired;
      Shape();
      Node(i);
      var hadSpace := HasSpace(i);
      if i + 1 < |nodes| || closed {
        NotifyParent(i);
        Shape();
        Node(i);
        if i + 1 < |nodes| {
          Node(i + 1);
        }
        if nodes[i].storage != [] && (i + 1 == |nodes| || HasSpace(i + 1)) {
          ArmLater(i);
        }
      }
      if !hadSpace {
        ParentHasFired(i - 1);
      }
    }

    /** The node whose event has been taken from the loop. */
    method NodeOf(event: Event) returns (i: nat)
      requires exists k :: 0 <= k < |nodes| && nodes[k].event == event
      ensures i < |nodes| && nodes[i].event == event
    {
      i := 0;
      while nodes[i].event != event
        invariant i < |nodes| && forall k :: 0 <= k < i ==> nodes[k].event != event
        decreases |nodes| - i
      {
        i := i + 1;
      }
    }

    /** Takes the front event out of the loop; it belongs to the front node of the chain. */
    method PopFront() returns (i: nat)
      requires Valid() && chain.loop.order != []
      modifies this`chain, loop, loop.events
      ensures Valid() && i == old(chain).loop.order[0] && chain == PopLoop(old(chain))
      ensures loop.events == old(loop.events)
    {
      hide EventLoop.Represents, Pop;
      loop.RepresentsValidQueue();
      PopMirrors(EventsOf(nodes), loop.queue, chain.loop);
      var event := loop.PopFront();
      assert nodes[chain.loop.order[0]].event == event;
      i := NodeOf(event);
      assert EventsOf(nodes)[i] == EventsOf(nodes)[chain.loop.order[0]];
      chain := PopLoop(chain);
    }

    lemma SameLoop()
      requires Valid()
      ensures loop.head == null <==> chain.loop.order == []
    {
      loop.HeadOfQueue();
    }

    /** Fires the front event of the loop; reports whether there was one. */
    method Turn() returns (ran: bool)
      requires Valid() && FrontCanFire(chain)
      modifies this`delivered, this`chain, members, loop, loop.events
      ensures Valid() && chain == Conveyor.Turn(old(chain)) && ran == (old(chain).loop.order != [])
      ensures loop.events == old(loop.events)
    {
      hide EventLoop.Represents, Conveyor.FireAdapt, Conveyor.FireBuffer, Pop;
      SameLoop();
      if loop.head == null {
        return false;
      }
      var i := PopFront();
      if i == 0 {
        FireAdapt();
      } else {
        FireBuffer(i);
      }
      return true;
    }

    /** Turns until nothing is pending, but at most TURN_LIMIT times. */
    method TurnLoop() returns (ok: bool)
      requires Valid() && Safe(chain)
      modifies this`delivered, this`chain, members, loop, loop.events
      ensures Valid() && chain == Turns(old(chain), 65536) && ok && loop.events == old(loop.events)
    {
      hide Conveyor.Turn, Secure, Valid;
      var step := 0;
      SameLoop();
      while loop.head != null && step < TURN_LIMIT
        invariant Valid() && Safe(chain) && step <= TURN_LIMIT && loop.events == old(loop.events)
        invariant loop.head == null <==> chain.loop.order == []
        invariant Turns(chain, TURN_LIMIT - step) == Turns(old(chain), TURN_LIMIT)
        decreases TURN_LIMIT - step
      {
        TurnKeepsSafe(chain);
        var ran := Turn();
        if !ran {
          return false;
        }
        step := step + 1;
        SameLoop();
      }
      IdleIsFixed(chain, TURN_LIMIT - step);
      return true;
    }

    /** The feeder's feed and fail. */
    method Feed(x: Outcome<V>)
      requires Valid()
      modifies this`chain, members, loop, loop.events
      ensures Valid() && chain == Conveyor.Feed(old(chain), x) && loop.events == old(loop.events)
    {
      hide EventLoop.Represents, Mirrors, Arm;
      assert At(0);
      loop.RepresentsValidQueue();
      Arms(loop.queue, chain.loop, Next, 0);
      nodes[0].storage := nodes[0].storage + [x];
      nodes[0].event.ArmNext();
      chain := Conveyor.Feed(chain, x);
    }

    method Then(f: Converter<V>)
      requires Valid()
      modifies this`chain, members
      ensures Valid() && chain == Conveyor.Then(old(chain), f)
    {
      hide EventLoop.Represents, Scheduled;
      var top := nodes[|nodes| - 1];
      assert At(|nodes| - 1);
      top.link := top.link + [f];
      chain := Conveyor.Then(chain, f);
    }

    /** setParent on the last node. */
    method SetParent(parentHasSpace: bool)
      requires Valid()
      modifies this`chain, loop, loop.events
      ensures Valid() && chain == Conveyor.SetParent(old(chain), parentHasSpace) && loop.events == old(loop.events)
    {
      hide Valid, Wake;
      Shape();
      var i := |nodes| - 1;
      Node(i);
      if nodes[i].storage != [] && parentHasSpace {
        ArmLater(i);
      }
    }

    /** A buffer object with an event on the loop, not yet part of the chain. */
    method NewBuffer(maxStore: nat) returns (buffer: StorageNode<V>)
      requires Valid()
      modifies loop`events
      ensures Valid() && fresh(buffer) && fresh(loop.events - old(loop.events))
      ensures buffer.maxStore == maxStore && buffer.storage == [] && buffer.link == []
      ensures Distinct(nodes + [buffer]) && Scheduled(nodes + [buffer], chain.loop)
    {
      hide EventLoop.Represents, EventLoop.Stranded, Mirrors, Distinct, EventsOf;
      var event := new Event(loop);
      buffer := new StorageNode<V>(event, maxStore);
      assert forall i | 0 <= i < |nodes| :: At(i) && nodes[i].event != event;
      ExtendMirrors(nodes, buffer, loop.queue, chain.loop);
    }

    /** A new buffer object behind the last node. */
    method Append(maxStore: nat)
      requires Valid()
      modifies this`nodes, this`members, this`chain, loop`events
      ensures Valid() && chain == Extend(old(chain), maxStore)
      ensures fresh(members - old(members)) && fresh(loop.events - old(loop.events))
    {
      hide EventLoop.Represents, Distinct, Scheduled;
      var buffer := NewBuffer(maxStore);
      nodes := nodes + [buffer];
      members := members + {buffer};
      chain := Extend(chain, maxStore);
    }

    method AddBuffer(maxStore: nat)
      requires Valid()
      modifies this, loop, loop.events
      ensures Valid() && chain == Conveyor.AddBuffer(old(chain), maxStore)
      ensures fresh(members - old(members)) && fresh(loop.events - old(loop.events))
    {
      hide Valid, Conveyor.SetParent, Extend;
      SetParent(maxStore > 0);
      Append(maxStore);
    }

    method AddSink()
      requires Valid()
      modifies this`chain, this`closed, loop, loop.events
      ensures Valid() && chain == Conveyor.AddSink(old(chain)) && loop.events == old(loop.events)
    {
      hide EventLoop.Represents, Mirrors, Distinct, EventsOf, Conveyor.SetParent;
      SetParent(true);
      closed := true;
      chain := Conveyor.AddSink(old(chain));
    }

    /** Takes one element out of a chain without a sink, if there is one. */
    method Take() returns (ok: bool, x: Outcome<V>)
      requires Valid()
      modifies this`delivered, this`chain, members
      ensures Valid() && ok == (old(chain).stores[old(chain).Last()] != [])
      ensures chain == if ok then Conveyor.Take(old(chain)) else old(chain)
      ensures x == if ok then Front(old(chain), old(chain).Last()) else Failure(1)
      ensures ok ==> exists ys: seq<Outcome<V>> ::
        var c := old(chain);
        var link := c.links[c.Last()];
        && |ys| == |link| + 1 && ys[0] == c.stores[c.Last()][0] && ys[|link|] == x
        && (forall k :: 0 <= k < |link| && ys[k].Value? ==> ys[k + 1] == link[k].func(ys[k].value))
        && (forall k :: 0 <= k < |link| && ys[k].Failure? ==> ys[k + 1] == link[k].errorFunc(ys[k].code))
    {
      hide EventLoop.Represents, Mirrors;
      assert At(|nodes| - 1);
      if nodes[|nodes| - 1].storage == [] {
        return false, Failure(RECOVERABLE);
      }
      ghost var ys := ThroughIsStepwise(chain.links[chain.Last()], chain.stores[chain.Last()][0]);
      x := Leave();
      return true, x;
    }

    /** Whether the next turn pulls no element that is not there. */
    method CanTurn() returns (ok: bool)
      requires Valid()
      ensures ok == FrontCanFire(chain)
    {
      hide EventLoop.Represents;
      SameLoop();
      if loop.head == null {
        return true;
      }
      FrontNode();
      var i := NodeOf(loop.head);
      assert EventsOf(nodes)[i] == EventsOf(nodes)[chain.loop.order[0]];
      assert At(i) && At(i + 1);
      var pulled := (i + 1 < |nodes| && HasSpace(i + 1)) || (i + 1 == |nodes| && closed);
      return !pulled || nodes[i].storage != [];
    }

    lemma FrontNode()
      requires Valid() && chain.loop.order != []
      ensures chain.loop.order[0] < |nodes| && nodes[chain.loop.order[0]].event == loop.head
    {
      loop.HeadIsFront();
    }

    /** One step of a run; a step that is not possible does nothing. */
    method Step(s: ChainRuns.Step<V>)
      requires Valid()
      modifies this, members, loop, loop.events
      ensures Valid() && chain == ChainRuns.Advance(old(chain), s)
      ensures fresh(members - old(members)) && fresh(loop.events - old(loop.events))
    {
      hide Valid, Conveyor.Turn, Conveyor.Feed, Conveyor.Then, Conveyor.AddBuffer, Conveyor.AddSink;
      hide Conveyor.Take, Wake;
      Shape();
      match s
      case Feeding(x) => Feed(x);
      case Turning =>
        var ok := CanTurn();
        if ok {
          var _ := Turn();
        }
      case Converting(f) => if !closed { Then(f); }
      case Buffering(cap) => if !closed { AddBuffer(cap); }
      case Sinking => if !closed { AddSink(); }
      case Taking => if !closed { var _, _ := Take(); }
    }
  }

  /** Any run on real nodes: the operations do what the steps of the run say. */
  method Drive<V>(steps: seq<ChainRuns.Step<V>>) returns (pipeline: Pipeline<V>)
    ensures pipeline.Valid() && pipeline.chain == ChainRuns.Run(steps)
  {
    hide Pipeline.Valid, Conveyor.Turn, ChainRuns.Advance;
    pipeline := new Pipeline<V>();
    assert steps[..0] == [];
    for k := 0 to |steps|
      invariant fresh(pipeline) && fresh(pipeline.members) && fresh(pipeline.loop) && fresh(pipeline.loop.events)
      invariant pipeline.Valid()
      invariant pipeline.chain == ChainRuns.Run(steps[..k])
    {
      assert steps[..k + 1][..k] == steps[..k];
      pipeline.Step(steps[k]);
    }
    assert steps[..|steps|] == steps;
  }

  /** The code of a generic recoverable error. */
  const RECOVERABLE: nat := 1
}
