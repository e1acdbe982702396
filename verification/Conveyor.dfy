/** A conveyor chain as a value: an adapt node (index 0), buffers behind it, lists of
    converters on the links, and possibly a sink at the end.  Every operation of the
    chain is a function here; module ConveyorNodes implements them on node objects. */
module Conveyor {
  import opened Schedule

  /** An element in flight: a value or a recoverable error. */
  datatype Outcome<V> = Value(value: V) | Failure(code: nat)

  datatype Converter<!V> = Converter(func: V -> Outcome<V>, errorFunc: nat -> Outcome<V>)

  function Convert<V>(f: Converter<V>, x: Outcome<V>): Outcome<V> {
    match x
    case Value(v) => f.func(v)
    case Failure(code) => f.errorFunc(code)
  }

  /** The converters of one link, the one next to the storage node first. */
  function Through<V>(link: seq<Converter<V>>, x: Outcome<V>): Outcome<V> {
    if link == [] then x
    else Convert(link[|link| - 1], Through(link[..|link| - 1], x))
  }

  /** Each converter in turn applies its function to a value and its error function to the
      code of an error. */
  lemma {:induction false} ThroughIsStepwise<V>(link: seq<Converter<V>>, x: Outcome<V>) returns (ys: seq<Outcome<V>>)
    ensures |ys| == |link| + 1 && ys[0] == x && ys[|link|] == Through(link, x)
    ensures forall k :: 0 <= k < |link| && ys[k].Value? ==> ys[k + 1] == link[k].func(ys[k].value)
    ensures forall k :: 0 <= k < |link| && ys[k].Failure? ==> ys[k + 1] == link[k].errorFunc(ys[k].code)
  {
    ys := [x];
    if link != [] {
      var before := ThroughIsStepwise(link[..|link| - 1], x);
      ys := before + [Through(link, x)];
    }
  }

  datatype Chain<!V> = Chain(
    stores: seq<seq<Outcome<V>>>,
    caps: seq<nat>,
    links: seq<seq<Converter<V>>>,
    closed: bool,
    loop: Queue<nat>,
    out: seq<Outcome<V>>)
  {
    ghost predicate Valid() {
      && |stores| == |caps| == |links| > 0
      && loop.Valid() && loop.later == |loop.order|
      && (forall i :: 0 <= i < |loop.order| ==> loop.order[i] < |stores|)
      && (forall i :: 1 <= i < |stores| ==> |stores[i]| <= caps[i])
    }

    predicate Armed(i: nat) {
      i in loop.order
    }

    /** Every node has a parent but the last one of a chain without a sink. */
    predicate HasParent(i: nat) {
      i + 1 < |stores| || closed
    }

    /** Whether space() of a buffer is positive. */
    predicate HasSpace(i: nat)
      requires i < |stores| && i < |caps|
    {
      |stores[i]| < caps[i]
    }

    /** Whether space() of a node's parent is positive; a sink always has space. */
    predicate ParentHasSpace(i: nat)
      requires |stores| == |caps|
    {
      i + 1 >= |stores| || HasSpace(i + 1)
    }

    /** The node has a parent that takes elements at some time; a buffer of capacity
        zero never does. */
    predicate ParentCanPull(i: nat)
      requires |stores| == |caps|
    {
      if i + 1 < |stores| then caps[i + 1] > 0 else closed
    }

    function Last(): nat
      requires |stores| > 0
    {
      |stores| - 1
    }
  }

  function NewChain<V>(): (c: Chain<V>)
    ensures c.Valid()
  {
    Chain([[]], [0], [[]], false, Queue([], 0, 0), [])
  }

  lemma ArmMembers(q: Queue<nat>, kind: Kind, e: nat)
    requires q.Valid()
    ensures forall x {:trigger x in Arm(q, kind, e).order} :: x in Arm(q, kind, e).order <==> x in q.order || x == e
  {
    var i, r := Position(q, kind), Arm(q, kind, e);
    if e !in q.order {
      assert r.order[i] == e;
      forall x | x in q.order ensures x in r.order {
        var k := IndexOf(q.order, x);
        assert r.order[if k < i then k else k + 1] == x;
      }
    }
  }

  /** armLater on a node's event. */
  function Wake<V>(c: Chain<V>, i: nat): (r: Chain<V>)
    requires c.Valid() && i < |c.stores|
    ensures r.Valid() && r == c.(loop := r.loop)
    ensures forall x {:trigger r.Armed(x)} :: r.Armed(x) <==> c.Armed(x) || x == i
  {
    ArmMembers(c.loop, Later, i);
    c.(loop := Arm(c.loop, Later, i))
  }

  /** getResult on the converters above node i: the front element leaves the node. */
  function Front<V>(c: Chain<V>, i: nat): Outcome<V>
    requires c.Valid() && i < |c.stores| && c.stores[i] != []
  {
    Through(c.links[i], c.stores[i][0])
  }

  /** An event may fire when its node has an element, or nothing pulls from it now. */
  ghost predicate CanFire<V>(c: Chain<V>, i: nat)
    requires c.Valid()
  {
    i < |c.stores| && (c.HasParent(i) && c.ParentHasSpace(i) ==> c.stores[i] != [])
  }

  /** The next turn pulls no element that is not there. */
  ghost predicate FrontCanFire<V>(c: Chain<V>) {
    c.Valid() && (c.loop.order != [] ==> CanFire(c, c.loop.order[0]))
  }

  /** childHasFired on the parent of node i: it pulls only if it has space. */
  function ChildHasFired<V>(c: Chain<V>, i: nat): (r: Chain<V>)
    requires c.Valid() && c.HasParent(i) && CanFire(c, i)
    ensures r.Valid()
  {
    if i + 1 == |c.stores| then
      c.(stores := c.stores[i := c.stores[i][1..]], out := c.out + [Front(c, i)])
    else if c.HasSpace(i + 1) then
      Wake(c.(stores := c.stores[i := c.stores[i][1..]][i + 1 := c.stores[i + 1] + [Front(c, i)]]), i + 1)
    else c
  }

  /** parentHasFired on node i; the adapt node ignores it. */
  function ParentHasFired<V>(c: Chain<V>, i: nat): (r: Chain<V>)
    requires c.Valid() && i < |c.stores| && c.HasParent(i)
    ensures r.Valid()
  {
    if i > 0 && c.ParentHasSpace(i) && c.stores[i] != [] then Wake(c, i) else c
  }

  /** fire on the adapt node: while it has elements it keeps itself armed. */
  function FireAdapt<V>(c: Chain<V>): (r: Chain<V>)
    requires c.Valid() && CanFire(c, 0)
    ensures r.Valid()
  {
    if c.HasParent(0) then
      var d := ChildHasFired(c, 0);
      if d.stores[0] != [] then Wake(d, 0) else d
    else c
  }

  /** fire on a buffer. */
  function FireBuffer<V>(c: Chain<V>, i: nat): (r: Chain<V>)
    requires c.Valid() && 0 < i && CanFire(c, i)
    ensures r.Valid()
  {
    var d := Offer(c, i);
    if c.HasSpace(i) then d else ParentHasFired(d, i - 1)
  }

  /** The first half of a buffer's fire: offer an element to the parent. */
  function Offer<V>(c: Chain<V>, i: nat): (r: Chain<V>)
    requires c.Valid() && 0 < i && CanFire(c, i)
    ensures r.Valid() && |r.stores| == |c.stores| && r.closed == c.closed
  {
    if c.HasParent(i) then
      var d := ChildHasFired(c, i);
      if d.stores[i] != [] && d.ParentHasSpace(i) then Wake(d, i) else d
    else c
  }

  function Fire<V>(c: Chain<V>, i: nat): (r: Chain<V>)
    requires c.Valid() && CanFire(c, i)
    ensures r.Valid()
  {
    if i == 0 then FireAdapt(c) else FireBuffer(c, i)
  }

  function PopLoop<V>(c: Chain<V>): (r: Chain<V>)
    requires c.Valid() && c.loop.order != []
    ensures r.Valid()
  {
    c.(loop := Pop(c.loop))
  }

  function Turn<V>(c: Chain<V>): (r: Chain<V>)
    requires FrontCanFire(c)
    ensures r.Valid()
  {
    if c.loop.order == [] then c else Fire(PopLoop(c), c.loop.order[0])
  }

  /** feed and fail on the feeder. */
  function Feed<V>(c: Chain<V>, x: Outcome<V>): (r: Chain<V>)
    requires c.Valid()
    ensures r.Valid()
  {
    c.(stores := c.stores[0 := c.stores[0] + [x]], loop := Arm(c.loop, Next, 0))
  }

  /** then: one more converter above the last storage node. */
  function Then<V>(c: Chain<V>, f: Converter<V>): (r: Chain<V>)
    requires c.Valid()
    ensures r.Valid()
  {
    c.(links := c.links[c.Last() := c.links[c.Last()] + [f]])
  }

  /** setParent on the last storage node. */
  function SetParent<V>(c: Chain<V>, parentHasSpace: bool): (r: Chain<V>)
    requires c.Valid()
    ensures r.Valid() && r == c.(loop := r.loop)
  {
    if c.stores[c.Last()] != [] && parentHasSpace then Wake(c, c.Last()) else c
  }

  /** An empty node behind the last one. */
  function Extend<V>(c: Chain<V>, cap: nat): (r: Chain<V>)
    requires c.Valid()
    ensures r.Valid()
  {
    c.(stores := c.stores + [[]], caps := c.caps + [cap], links := c.links + [[]])
  }

  function AddBuffer<V>(c: Chain<V>, cap: nat): (r: Chain<V>)
    requires c.Valid()
    ensures r.Valid()
  {
    Extend(SetParent(c, cap > 0), cap)
  }

  function AddSink<V>(c: Chain<V>): (r: Chain<V>)
    requires c.Valid()
    ensures r.Valid()
  {
    SetParent(c, true).(closed := true)
  }

  /** take on a chain without a sink: nobody is told that space became free. */
  function Take<V>(c: Chain<V>): (r: Chain<V>)
    requires c.Valid() && c.stores[c.Last()] != []
    ensures r.Valid()
  {
    var i := c.Last();
    c.(stores := c.stores[i := c.stores[i][1..]], out := c.out + [Front(c, i)])
  }
}
