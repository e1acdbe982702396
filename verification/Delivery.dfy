/** A conveyor is a first-in-first-out queue that converts on the way: what has left it,
    followed by what is in flight with the conversions still ahead of it, is the sequence
    of everything fed, fully converted. */
module Delivery {
  import opened Sequences
  import opened Conveyor
  import opened Wakeups

  /** What becomes of an element of node i on its way out. */
  function Deliver<V>(links: seq<seq<Converter<V>>>, i: nat, x: Outcome<V>): Outcome<V>
    requires i <= |links|
    decreases |links| - i
  {
    if i == |links| then x else Deliver(links, i + 1, Through(links[i], x))
  }

  function DeliverAll<V>(links: seq<seq<Converter<V>>>, i: nat, xs: seq<Outcome<V>>): (r: seq<Outcome<V>>)
    requires i <= |links|
  {
    seq(|xs|, j requires 0 <= j < |xs| => Deliver(links, i, xs[j]))
  }

  /** The elements of node i and all nodes behind it, in the order they will come out. */
  function InFlight<V>(stores: seq<seq<Outcome<V>>>, links: seq<seq<Converter<V>>>, i: nat): seq<Outcome<V>>
    requires i <= |stores| == |links|
    decreases |stores| - i
  {
    if i == |stores| then [] else InFlight(stores, links, i + 1) + DeliverAll(links, i, stores[i])
  }

  /** Everything that went in, as it comes out. */
  function Total<V>(c: Chain<V>): seq<Outcome<V>>
    requires c.Valid()
  {
    c.out + InFlight(c.stores, c.links, 0)
  }

  lemma DeliverFront<V>(links: seq<seq<Converter<V>>>, i: nat, xs: seq<Outcome<V>>)
    requires i <= |links| && xs != []
    ensures DeliverAll(links, i, xs) == [Deliver(links, i, xs[0])] + DeliverAll(links, i, xs[1..])
  {
  }

  lemma DeliverBack<V>(links: seq<seq<Converter<V>>>, i: nat, xs: seq<Outcome<V>>, x: Outcome<V>)
    requires i <= |links|
    ensures DeliverAll(links, i, xs + [x]) == DeliverAll(links, i, xs) + [Deliver(links, i, x)]
  {
  }

  lemma {:induction false} InFlightBehind<V>(s: seq<seq<Outcome<V>>>, t: seq<seq<Outcome<V>>>,
                                             links: seq<seq<Converter<V>>>, i: nat)
    requires i <= |s| == |t| == |links| && forall k :: i <= k < |s| ==> s[k] == t[k]
    ensures InFlight(s, links, i) == InFlight(t, links, i)
    decreases |s| - i
  {
    if i < |s| {
      InFlightBehind(s, t, links, i + 1);
    }
  }

  /** A hop between nodes changes nothing seen from any node upstream of it. */
  lemma {:induction false} HopConserves<V>(s: seq<seq<Outcome<V>>>, t: seq<seq<Outcome<V>>>,
                                           links: seq<seq<Converter<V>>>, i: nat, j: nat)
    requires j <= i && i + 1 < |s| == |t| == |links| && s[i] != []
    requires t[i] == s[i][1..] && t[i + 1] == s[i + 1] + [Through(links[i], s[i][0])]
    requires forall k :: 0 <= k < |s| && k != i && k != i + 1 ==> s[k] == t[k]
    ensures InFlight(t, links, j) == InFlight(s, links, j)
    decreases i - j
  {
    if j < i {
      HopConserves(s, t, links, i, j + 1);
    } else {
      var x := Deliver(links, i, s[i][0]);
      var far, near := InFlight(s, links, i + 2), DeliverAll(links, i + 1, s[i + 1]);
      InFlightBehind(s, t, links, i + 2);
      DeliverFront(links, i, s[i]);
      DeliverBack(links, i + 1, s[i + 1], Through(links[i], s[i][0]));
      assert InFlight(t, links, i + 1) == far + (near + [x]);
      Assoc(far, near, [x]);
      Assoc(far + near, [x], DeliverAll(links, i, t[i]));
    }
  }

  lemma InFlightStep<V>(stores: seq<seq<Outcome<V>>>, links: seq<seq<Converter<V>>>, i: nat)
    requires i < |stores| == |links|
    ensures InFlight(stores, links, i) == InFlight(stores, links, i + 1) + DeliverAll(links, i, stores[i])
    ensures i + 1 == |stores| ==> InFlight(stores, links, i) == DeliverAll(links, i, stores[i])
  {
  }

  lemma DeliverLast<V>(links: seq<seq<Converter<V>>>, i: nat, x: Outcome<V>)
    requires i + 1 == |links|
    ensures Deliver(links, i, x) == Through(links[i], x)
  {
  }

  /** What leaves the last node is the front of everything in flight. */
  lemma {:induction false} ExitIsFront<V>(s: seq<seq<Outcome<V>>>, t: seq<seq<Outcome<V>>>,
                                          links: seq<seq<Converter<V>>>, j: nat)
    requires j < |s| == |t| == |links| && s[|s| - 1] != [] && t[|s| - 1] == s[|s| - 1][1..]
    requires forall k :: 0 <= k < |s| - 1 ==> s[k] == t[k]
    ensures InFlight(s, links, j) == [Through(links[|s| - 1], s[|s| - 1][0])] + InFlight(t, links, j)
    decreases |s| - j
  {
    hide InFlight, Deliver, DeliverAll, Through;
    var i := |s| - 1;
    InFlightStep(s, links, j);
    InFlightStep(t, links, j);
    if j < i {
      ExitIsFront(s, t, links, j + 1);
      Assoc([Through(links[i], s[i][0])], InFlight(t, links, j + 1), DeliverAll(links, j, t[j]));
    } else {
      DeliverLast(links, i, s[i][0]);
      DeliverFront(links, i, s[i]);
    }
  }

  lemma HopKeepsTotal<V>(c: Chain<V>, i: nat)
    requires c.Valid() && i < |c.stores| && c.stores[i] != []
    ensures var d := Hop(c, i);
            && |d.stores| == |d.links| && c.out <= d.out
            && d.out + InFlight(d.stores, d.links, 0) == Total(c)
  {
    var d := Hop(c, i);
    if i + 1 == |c.stores| {
      ExitIsFront(c.stores, d.stores, c.links, 0);
      Assoc(c.out, [Front(c, i)], InFlight(d.stores, d.links, 0));
    } else {
      HopConserves(c.stores, d.stores, c.links, i, 0);
    }
  }

  lemma TurnKeepsTotal<V>(c: Chain<V>)
    requires FrontCanFire(c)
    ensures Total(Turn(c)) == Total(c) && c.out <= Turn(c).out
    ensures Turn(c).links == c.links
  {
    hide Turn;
    if c.loop.order == [] {
      IdleTurn(c);
    } else {
      TurnHops(c);
      if CanHop(c, c.loop.order[0]) {
        HopKeepsTotal(c, c.loop.order[0]);
      }
    }
  }

  lemma TakeTakesFront<V>(c: Chain<V>)
    requires c.Valid() && c.stores[c.Last()] != []
    ensures Total(Take(c)) == Total(c) && c.out <= Take(c).out
    ensures InFlight(c.stores, c.links, 0) ==
            [Take(c).out[|c.out|]] + InFlight(Take(c).stores, Take(c).links, 0)
  {
    HopKeepsTotal(c, c.Last());
    ExitIsFront(c.stores, Take(c).stores, c.links, 0);
  }

  lemma FeedAppends<V>(c: Chain<V>, x: Outcome<V>)
    requires c.Valid()
    ensures Total(Feed(c, x)) == Total(c) + [Deliver(c.links, 0, x)]
  {
    var d := Feed(c, x);
    InFlightBehind(c.stores, d.stores, c.links, 1);
    DeliverBack(c.links, 0, c.stores[0], x);
    var far, near := InFlight(c.stores, c.links, 1), DeliverAll(c.links, 0, c.stores[0]);
    Assoc(far, near, [Deliver(c.links, 0, x)]);
    Assoc(c.out, far + near, [Deliver(c.links, 0, x)]);
  }

  // ----- growing the chain -----

  function ConvertAll<V>(f: Converter<V>, xs: seq<Outcome<V>>): (r: seq<Outcome<V>>)
  {
    seq(|xs|, j requires 0 <= j < |xs| => Convert(f, xs[j]))
  }

  lemma {:induction false} DeliverThen<V>(links: seq<seq<Converter<V>>>, f: Converter<V>, i: nat, x: Outcome<V>)
    requires i < |links|
    ensures Deliver(links[|links| - 1 := links[|links| - 1] + [f]], i, x) == Convert(f, Deliver(links, i, x))
    decreases |links| - i
  {
    var n := |links| - 1;
    var grown := links[n := links[n] + [f]];
    if i < n {
      DeliverThen(links, f, i + 1, Through(links[i], x));
    } else {
      assert (links[n] + [f])[..|links[n]|] == links[n];
      assert Deliver(grown, n, x) == Through(grown[n], x);
      assert Deliver(links, n, x) == Through(links[n], x);
    }
  }

  lemma {:induction false} InFlightThen<V>(s: seq<seq<Outcome<V>>>, links: seq<seq<Converter<V>>>,
                                            f: Converter<V>, i: nat)
    requires i <= |s| == |links| && links != []
    ensures InFlight(s, links[|links| - 1 := links[|links| - 1] + [f]], i) == ConvertAll(f, InFlight(s, links, i))
    decreases |s| - i
  {
    if i < |s| {
      var grown := links[|links| - 1 := links[|links| - 1] + [f]];
      InFlightThen(s, links, f, i + 1);
      forall j | 0 <= j < |s[i]|
        ensures DeliverAll(grown, i, s[i])[j] == Convert(f, DeliverAll(links, i, s[i])[j])
      {
        DeliverThen(links, f, i, s[i][j]);
      }
    }
  }

  /** A converter added to the chain applies to everything that has not left it yet. */
  lemma ThenConverts<V>(c: Chain<V>, f: Converter<V>)
    requires c.Valid()
    ensures Total(Then(c, f)) == c.out + ConvertAll(f, InFlight(c.stores, c.links, 0))
  {
    InFlightThen(c.stores, c.links, f, 0);
  }

  lemma {:induction false} DeliverBuffer<V>(links: seq<seq<Converter<V>>>, i: nat, x: Outcome<V>)
    requires i <= |links|
    ensures Deliver(links + [[]], i, x) == Deliver(links, i, x)
    decreases |links| - i
  {
    if i < |links| {
      DeliverBuffer(links, i + 1, Through(links[i], x));
    } else {
      assert Deliver(links + [[]], i, x) == Deliver(links + [[]], i + 1, Through([], x));
    }
  }

  lemma {:induction false} InFlightBuffer<V>(s: seq<seq<Outcome<V>>>, links: seq<seq<Converter<V>>>, i: nat)
    requires i <= |s| == |links|
    ensures InFlight(s + [[]], links + [[]], i) == InFlight(s, links, i)
    decreases |s| - i
  {
    if i < |s| {
      InFlightBuffer(s, links, i + 1);
      forall j | 0 <= j < |s[i]|
        ensures DeliverAll(links + [[]], i, s[i])[j] == DeliverAll(links, i, s[i])[j]
      {
        DeliverBuffer(links, i, s[i][j]);
      }
      assert DeliverAll(links + [[]], i, s[i]) == DeliverAll(links, i, s[i]);
    } else {
      assert DeliverAll(links + [[]], i, []) == [];
      assert InFlight(s + [[]], links + [[]], i + 1) == [];
    }
  }

  lemma AddBufferKeepsTotal<V>(c: Chain<V>, cap: nat)
    requires c.Valid()
    ensures Total(AddBuffer(c, cap)) == Total(c)
  {
    InFlightBuffer(c.stores, c.links, 0);
  }

  lemma AddSinkKeepsTotal<V>(c: Chain<V>)
    requires c.Valid()
    ensures Total(AddSink(c)) == Total(c)
  {
  }
}
