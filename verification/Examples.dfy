/** Small runs and the values they come to. */
module Examples {
  import opened Schedule
  import opened EventLoops
  import opened Conveyor
  import opened ConveyorNodes
  import opened RingBuffers
  import opened Wire
  import opened ProtoKel
  import opened WireLayout
  import opened WireErrors

  lemma TwoFed(f: Converter<int>, x: Outcome<int>, y: Outcome<int>)
    ensures var c := Feed(Feed(Then(NewChain(), f), x), y);
      c.stores == [[x, y]] && c.links == [[f]] && Take(c).stores == [[y]] && Take(c).links == [[f]]
  {
    hide Arm;
    var n := NewChain<int>();
    assert n.stores == [[]] && n.links == [[]];
    var t := Then(n, f);
    assert n.links[0] + [f] == [f] && t.links == [[f]];
    var one := Feed(t, x);
    assert n.stores[0] + [x] == [x] && one.stores == [[x]];
    var c := Feed(one, y);
    assert one.stores[0] + [y] == [x, y] && c.stores == [[x, y]];
    assert [x, y][1..] == [y] && Take(c).stores == [[y]];
  }

  /** One converter that adds 1 to a value and 10 to the code of an error. */
  method ConvertValueAndError() returns (value: Outcome<int>, error: Outcome<int>)
    ensures value == Value(2) && error == Failure(17)
  {
    hide Pipeline.Valid, Feed, Then, Take, NewChain, Front;
    var f := Converter((v: int) => Value(v + 1), (code: nat) => Failure(code + 10));
    TwoFed(f, Value(1), Failure(7));
    var pipeline := new Pipeline<int>();
    pipeline.Then(f);
    pipeline.Feed(Value(1));
    pipeline.Feed(Failure(7));
    value := TakeOne(pipeline, f);
    error := TakeOne(pipeline, f);
  }

  method TakeOne(pipeline: Pipeline<int>, f: Converter<int>) returns (x: Outcome<int>)
    requires pipeline.Valid() && |pipeline.chain.stores| == 1 && pipeline.chain.stores[0] != []
    requires pipeline.chain.links == [[f]]
    modifies pipeline`delivered, pipeline`chain, pipeline.members
    ensures pipeline.Valid() && pipeline.chain == Take(old(pipeline.chain))
    ensures var front := old(pipeline.chain).stores[0][0];
      x == if front.Value? then f.func(front.value) else f.errorFunc(front.code)
  {
    var ok;
    ok, x := pipeline.Take();
  }

  lemma SecondCancelled<E>(a: E, b: E, c: E)
    requires a != b && b != c && a != c
    ensures var q := Arm(Arm(Arm(Queue([], 0, 0), Later, a), Later, b), Later, c);
      q == Queue([a, b, c], 0, 3) && ActAll(Pop(q), [Cancel(b)]) == Queue([c], 0, 1)
  {
    assert Arm(Queue([], 0, 0), Later, a) == Queue([a], 0, 1);
    assert Arm(Queue([a], 0, 1), Later, b) == Queue([a, b], 0, 2);
    assert Arm(Queue([a, b], 0, 2), Later, c) == Queue([a, b, c], 0, 3);
    assert Pop(Queue([a, b, c], 0, 3)) == Queue([b, c], 0, 2);
    assert [b, c][0] == b && IndexOf([b, c], b) == 0;
    var steps := [Cancel(b)];
    assert steps[..0] == [] && ActAll(Queue([b, c], 0, 2), steps[..0]) == Queue([b, c], 0, 2);
    assert Disarm(Queue([b, c], 0, 2), b) == Queue([c], 0, 1);
  }

  /** Three events armed later; the first one fires and cancels the second one. */
  method CancelWhileFiring() returns (loop: EventLoop, third: Event)
    ensures loop.Valid() && loop.queue.order == [third]
  {
    hide EventLoop.Valid, Arm, Pop, ActAll, AfterTurn, Effective;
    loop := new EventLoop();
    var first := new Event(loop);
    var second := new Event(loop);
    third := new Event(loop);
    SecondCancelled(first, second, third);
    first.ArmLater();
    second.ArmLater();
    third.ArmLater();
    var ran := loop.Turn([Cancel(second)]);
    assert ran;
  }

  const UNKNOWN: seq<Byte> := [4, 0, 0, 0, 0, 0, 0, 0, 7, 0, 0, 0]

  lemma UnknownIsRejected()
    ensures RejectsPacket(Union([Text, Text]), 4096, UNKNOWN)
  {
    var body := UNKNOWN[8..];
    assert Four(body[..4]) == 7;
    assert Rejects(Union([Text, Text]), body);
  }

  /** A packet of four bytes that asks for alternative 7 of a union of two. */
  method UnknownAlternative() returns (error: Error)
    ensures error == Critical
  {
    hide RejectsPacket, RingBuffer.Contents, RingBuffer.Spare;
    UnknownIsRejected();
    var s := Union([Text, Text]);
    var ring := new RingBuffer(12);
    error := ring.Push(UNKNOWN);
    var m;
    error, m := DecodePacket(s, Default(s), ring, 4096);
  }
}
