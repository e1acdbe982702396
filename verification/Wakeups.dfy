/** No wake-up is lost: between turns, every node that could hand an element on is armed. */
module Wakeups {
  import opened Schedule
  import opened Conveyor

  /** Event a stands before event b in the queue. */
  ghost predicate Ahead(order: seq<nat>, a: nat, b: nat) {
    exists p, q :: 0 <= p < q < |order| && order[p] == a && order[q] == b
  }

  /** The child of node i is pending before it and will hand an element to it. */
  ghost predicate Refilled<V>(c: Chain<V>, i: nat)
    requires c.Valid() && i < |c.stores|
  {
    0 < i && c.HasSpace(i) && Ahead(c.loop.order, i - 1, i)
  }

  /** When the event of node i comes to the front, it can fire. */
  ghost predicate Secure<V>(c: Chain<V>, i: nat)
    requires c.Valid() && i < |c.stores|
  {
    c.stores[i] != [] || !c.ParentCanPull(i) || Refilled(c, i)
  }

  /** All pending events will be able to fire.  A node is armed and empty only after its
      elements were taken. */
  ghost predicate Safe<V>(c: Chain<V>) {
    FrontCanFire(c) && forall i :: 0 <= i < |c.stores| && c.Armed(i) ==> Secure(c, i)
  }

  /** Node i has an element its parent could take now, or (for the adapt node) some time. */
  ghost predicate Ready<V>(c: Chain<V>, i: nat)
    requires c.Valid() && i < |c.stores|
  {
    && c.stores[i] != [] && c.HasParent(i)
    && (if i == 0 then c.ParentCanPull(0) else c.ParentHasSpace(i))
  }

  ghost predicate Wakeful<V>(c: Chain<V>) {
    Safe(c) && forall i :: 0 <= i < |c.stores| && Ready(c, i) ==> c.Armed(i)
  }

  lemma PopMembers(q: Queue<nat>)
    requires q.Valid() && q.order != []
    ensures forall x {:trigger x in Pop(q).order} :: x in Pop(q).order <==> x in q.order && x != q.order[0]
  {
    var r := Pop(q);
    forall x | x in q.order && x != q.order[0] ensures x in r.order {
      assert r.order[IndexOf(q.order, x) - 1] == x;
    }
  }

  // ----- what firing an event does -----

  /** Node i hands an element on when it fires. */
  ghost predicate CanHop<V>(c: Chain<V>, i: nat)
    requires c.Valid()
  {
    i < |c.stores| && c.stores[i] != [] && c.HasParent(i) && c.ParentHasSpace(i)
  }

  /** The front element of node i passes the link into the next buffer or the sink. */
  function Hop<V>(c: Chain<V>, i: nat): Chain<V>
    requires c.Valid() && i < |c.stores| && c.stores[i] != []
  {
    var stores, x := c.stores[i := c.stores[i][1..]], Front(c, i);
    if i + 1 == |c.stores| then c.(stores := stores, out := c.out + [x])
    else c.(stores := stores[i + 1 := c.stores[i + 1] + [x]])
  }

  /** The chain after node i has handed an element on, if it can. */
  ghost function Hopped<V>(c: Chain<V>, i: nat): Chain<V>
    requires c.Valid()
  {
    if CanHop(c, i) then Hop(c, i) else c
  }

  /** What a hop leaves in each node. */
  lemma HoppedStores<V>(c: Chain<V>, i: nat)
    requires c.Valid() && i < |c.stores|
    ensures !c.HasParent(i) ==> Hopped(c, i) == c && !CanHop(c, i)
    ensures |Hopped(c, i).stores| == |c.stores| && Hopped(c, i).caps == c.caps && Hopped(c, i).closed == c.closed
    ensures forall j :: 0 <= j < |c.stores| && j != i && j != i + 1 ==> Hopped(c, i).stores[j] == c.stores[j]
    ensures CanHop(c, i) ==> Hopped(c, i).stores[i] == c.stores[i][1..]
    ensures CanHop(c, i) && i + 1 < |c.stores| ==> |Hopped(c, i).stores[i + 1]| == |c.stores[i + 1]| + 1
    ensures !CanHop(c, i) ==> Hopped(c, i) == c
  {
  }

  /** A hop into a buffer arms the buffer. */
  ghost predicate HopArms<V>(c: Chain<V>, i: nat, j: nat)
    requires c.Valid()
  {
    CanHop(c, i) && j == i + 1 < |c.stores|
  }

  lemma ChildEffect<V>(c: Chain<V>, i: nat)
    requires c.Valid() && c.HasParent(i) && CanFire(c, i)
    ensures var d := ChildHasFired(c, i);
      && d == Hopped(c, i).(loop := d.loop)
      && forall j {:trigger d.Armed(j)} :: 0 <= j ==> (d.Armed(j) <==> c.Armed(j) || HopArms(c, i, j))
  {
  }

  lemma FireAdaptEffect<V>(c: Chain<V>)
    requires c.Valid() && CanFire(c, 0)
    ensures var r := FireAdapt(c);
      && r == Hopped(c, 0).(loop := r.loop)
      && forall j {:trigger r.Armed(j)} :: 0 <= j ==>
           (r.Armed(j) <==> c.Armed(j) || HopArms(c, 0, j) || (j == 0 && c.HasParent(0) && r.stores[0] != []))
  {
    hide ChildHasFired, Hopped;
    if c.HasParent(0) {
      ChildEffect(c, 0);
    }
    HoppedStores(c, 0);
  }

  lemma OfferEffect<V>(c: Chain<V>, i: nat)
    requires c.Valid() && 0 < i && CanFire(c, i)
    ensures var d := Offer(c, i);
      && d == Hopped(c, i).(loop := d.loop)
      && forall j {:trigger d.Armed(j)} :: 0 <= j ==>
           (d.Armed(j) <==> c.Armed(j) || HopArms(c, i, j) || (j == i && CanHop(d, i)))
  {
    hide ChildHasFired, Hopped;
    if c.HasParent(i) {
      ChildEffect(c, i);
    }
    HoppedStores(c, i);
  }

  lemma FireBufferEffect<V>(c: Chain<V>, i: nat)
    requires c.Valid() && 0 < i && CanFire(c, i)
    ensures var r := FireBuffer(c, i);
      && r == Hopped(c, i).(loop := r.loop)
      && forall j {:trigger r.Armed(j)} :: 0 <= j ==>
           (r.Armed(j) <==> c.Armed(j) || HopArms(c, i, j) || (j == i && CanHop(r, i))
                            || (0 < j && j + 1 == i && !c.HasSpace(i) && CanHop(r, j)))
  {
    hide Offer, Hopped;
    OfferEffect(c, i);
    HoppedStores(c, i);
  }

  /** A turn hands on one element if the parent has space, and otherwise moves nothing. */
  lemma TurnHops<V>(c: Chain<V>)
    requires FrontCanFire(c) && c.loop.order != []
    ensures var i := c.loop.order[0];
            && CanFire(c, i)
            && Turn(c) == Hopped(c, i).(loop := Turn(c).loop)
  {
    hide FireAdapt, FireBuffer;
    var i, d := c.loop.order[0], PopLoop(c);
    assert c.Armed(i);
    if i == 0 {
      FireAdaptEffect(d);
    } else {
      FireBufferEffect(d, i);
    }
  }

  /** Which nodes are armed after a turn. */
  lemma TurnArms<V>(c: Chain<V>)
    requires FrontCanFire(c) && c.loop.order != []
    ensures var i, r := c.loop.order[0], Turn(c);
      forall j {:trigger r.Armed(j)} :: 0 <= j ==>
        (r.Armed(j) <==> (c.Armed(j) && j != i) || HopArms(c, i, j)
                         || (j == i == 0 && c.HasParent(0) && r.stores[0] != [])
                         || (0 < j == i && CanHop(r, i))
                         || (0 < j && j + 1 == i && !c.HasSpace(i) && CanHop(r, j)))
  {
    hide FireAdapt, FireBuffer, Hopped;
    var i, d := c.loop.order[0], PopLoop(c);
    assert c.Armed(i);
    PopMembers(c.loop);
    if i == 0 {
      FireAdaptEffect(d);
    } else {
      FireBufferEffect(d, i);
    }
  }

  lemma IdleTurn<V>(c: Chain<V>)
    requires FrontCanFire(c) && c.loop.order == []
    ensures Turn(c) == c
  {
  }

  /** Whatever a turn arms joins the queue at its end. */
  lemma TurnAppends<V>(c: Chain<V>)
    requires FrontCanFire(c) && c.loop.order != []
    ensures c.loop.order[1..] <= Turn(c).loop.order
  {
    hide FireAdapt, FireBuffer;
    var i, d := c.loop.order[0], PopLoop(c);
    assert d.loop.order == c.loop.order[1..];
    if i == 0 {
      FireAdaptAppends(d);
    } else {
      FireBufferAppends(d, i);
    }
  }

  lemma WakeAppends<V>(c: Chain<V>, i: nat)
    requires c.Valid() && i < |c.stores|
    ensures c.loop.order <= Wake(c, i).loop.order
  {
  }

  lemma ChildAppends<V>(c: Chain<V>, i: nat)
    requires c.Valid() && c.HasParent(i) && CanFire(c, i)
    ensures c.loop.order <= ChildHasFired(c, i).loop.order && |ChildHasFired(c, i).stores| == |c.stores|
  {
    hide Wake;
    if i + 1 < |c.stores| && c.HasSpace(i + 1) {
      var d := c.(stores := c.stores[i := c.stores[i][1..]][i + 1 := c.stores[i + 1] + [Front(c, i)]]);
      WakeAppends(d, i + 1);
    }
  }

  lemma FireAdaptAppends<V>(c: Chain<V>)
    requires c.Valid() && CanFire(c, 0)
    ensures c.loop.order <= FireAdapt(c).loop.order
  {
    hide Wake, ChildHasFired;
    if c.HasParent(0) {
      ChildAppends(c, 0);
      WakeAppends(ChildHasFired(c, 0), 0);
    }
  }

  lemma FireBufferAppends<V>(c: Chain<V>, i: nat)
    requires c.Valid() && 0 < i && CanFire(c, i)
    ensures c.loop.order <= FireBuffer(c, i).loop.order
  {
    hide Wake, ChildHasFired;
    if c.HasParent(i) {
      ChildAppends(c, i);
      WakeAppends(ChildHasFired(c, i), i);
    }
    WakeAppends(Offer(c, i), i - 1);
  }

  // ----- turns keep every node awake -----

  lemma AheadInPrefix(s: seq<nat>, t: seq<nat>, a: nat, b: nat)
    requires s <= t && Ahead(s, a, b)
    ensures Ahead(t, a, b)
  {
    var p, q :| 0 <= p < q < |s| && s[p] == a && s[q] == b;
    assert t[p] == a && t[q] == b;
  }

  lemma AheadInTail(s: seq<nat>, a: nat, b: nat)
    requires s != [] && a != s[0] && Ahead(s, a, b)
    ensures Ahead(s[1..], a, b)
  {
    var p, q :| 0 <= p < q < |s| && s[p] == a && s[q] == b;
    assert s[1..][p - 1] == a && s[1..][q - 1] == b;
  }

  /** Nothing stands before the front event. */
  lemma NothingAheadOfFront(s: seq<nat>, a: nat)
    requires s != [] && Distinct(s)
    ensures !Ahead(s, a, s[0])
  {
  }

  /** If all pending events are secure, the front one can fire. */
  lemma SecureFront<V>(c: Chain<V>)
    requires c.Valid() && forall i :: 0 <= i < |c.stores| && c.Armed(i) ==> Secure(c, i)
    ensures Safe(c)
    ensures c.loop.order != [] && c.ParentCanPull(c.loop.order[0]) ==> c.stores[c.loop.order[0]] != []
  {
    if c.loop.order != [] {
      var i := c.loop.order[0];
      assert c.Armed(i);
      if i > 0 {
        NothingAheadOfFront(c.loop.order, i - 1);
      }
    }
  }

  /** A turn that starts with an element to hand on or nothing to pull keeps each event secure. */
  lemma TurnKeepsSecure<V>(c: Chain<V>, j: nat)
    requires Safe(c) && c.loop.order != [] && j < |c.stores| && Turn(c).Armed(j)
    ensures Secure(Turn(c), j)
  {
    hide Turn, Hop, Hopped, Ahead;
    var i, r := c.loop.order[0], Turn(c);
    SecureFront(c);
    TurnHops(c);
    TurnArms(c);
    HoppedStores(c, i);
    if c.Armed(j) && j != i && Refilled(c, j) && j != i + 1 {
      AheadInTail(c.loop.order, j - 1, j);
      TurnAppends(c);
      AheadInPrefix(c.loop.order[1..], r.loop.order, j - 1, j);
    }
  }

  lemma TurnKeepsSafe<V>(c: Chain<V>)
    requires Safe(c)
    ensures Safe(Turn(c))
  {
    hide Turn, Secure;
    if c.loop.order == [] {
      IdleTurn(c);
    } else {
      TurnHops(c);
      HoppedStores(c, c.loop.order[0]);
      forall j | 0 <= j < |Turn(c).stores| && Turn(c).Armed(j) ensures Secure(Turn(c), j) {
        TurnKeepsSecure(c, j);
      }
      SecureFront(Turn(c));
    }
  }

  lemma TurnKeepsWakeful<V>(c: Chain<V>)
    requires Wakeful(c)
    ensures Wakeful(Turn(c))
  {
    hide Turn, Hop, Hopped;
    TurnKeepsSafe(c);
    if c.loop.order == [] {
      IdleTurn(c);
    } else {
      var i, r := c.loop.order[0], Turn(c);
      TurnHops(c);
      TurnArms(c);
      HoppedStores(c, i);
      forall j | 0 <= j < |r.stores| && Ready(r, j) ensures r.Armed(j) {
        if j != i && !HopArms(c, i, j) && (j + 1 != i || j == 0 || c.HasSpace(i)) {
          assert Ready(c, j);
        }
      }
    }
  }

  // ----- the other operations -----

  lemma AheadInInsert(s: seq<nat>, i: nat, e: nat, a: nat, b: nat)
    requires i <= |s| && Ahead(s, a, b)
    ensures Ahead(InsertAt(s, i, e), a, b)
  {
    var p, q :| 0 <= p < q < |s| && s[p] == a && s[q] == b;
    var r := InsertAt(s, i, e);
    assert r[if p < i then p else p + 1] == a && r[if q < i then q else q + 1] == b;
  }

  lemma FeedKeepsSafe<V>(c: Chain<V>, x: Outcome<V>)
    requires Safe(c)
    ensures Safe(Feed(c, x)) && (Wakeful(c) ==> Wakeful(Feed(c, x)))
  {
    hide Ahead, InsertAt;
    ArmMembers(c.loop, Next, 0);
    var r := Feed(c, x);
    forall i | 0 <= i < |r.stores| && r.Armed(i) ensures Secure(r, i) {
      assert i == 0 || Secure(c, i);
      if i > 0 && Refilled(c, i) && !c.Armed(0) {
        AheadInInsert(c.loop.order, c.loop.next, 0, i - 1, i);
      }
    }
    SecureFront(r);
    forall i | 0 <= i < |r.stores| && Ready(r, i) && Wakeful(c) ensures r.Armed(i) {
      assert i == 0 || Ready(c, i);
    }
  }

  lemma ThenKeepsSafe<V>(c: Chain<V>, f: Converter<V>)
    requires Safe(c)
    ensures Safe(Then(c, f)) && (Wakeful(c) ==> Wakeful(Then(c, f)))
  {
    var r := Then(c, f);
    forall i | 0 <= i < |r.stores| && r.Armed(i) ensures Secure(r, i) {
      assert Secure(c, i);
    }
    forall i | 0 <= i < |r.stores| && Ready(r, i) && Wakeful(c) ensures r.Armed(i) {
      assert Ready(c, i);
    }
  }

  /** The last node is armed although its elements have been taken, and no pending event
      brings it a new one before it fires. */
  ghost predicate TailIsStale<V>(c: Chain<V>)
    requires c.Valid()
  {
    c.Armed(c.Last()) && c.stores[c.Last()] == [] && !Refilled(c, c.Last())
  }

  lemma SetParentAppends<V>(c: Chain<V>, parentHasSpace: bool)
    requires c.Valid()
    ensures var d := SetParent(c, parentHasSpace);
      && c.loop.order <= d.loop.order
      && forall j {:trigger d.Armed(j)} :: 0 <= j ==>
           (d.Armed(j) <==> c.Armed(j) || (j == c.Last() && c.stores[j] != [] && parentHasSpace))
  {
    WakeAppends(c, c.Last());
  }

  /** Extending the chain by a buffer is safe exactly unless the last node is stale and the
      buffer can pull. */
  lemma AddBufferKeepsSafeIff<V>(c: Chain<V>, cap: nat)
    requires Safe(c) && !c.closed
    ensures Safe(AddBuffer(c, cap)) <==> !(TailIsStale(c) && cap > 0)
    ensures Wakeful(c) && Safe(AddBuffer(c, cap)) ==> Wakeful(AddBuffer(c, cap))
  {
    hide Ahead, SetParent;
    var i, d, r := c.Last(), SetParent(c, cap > 0), AddBuffer(c, cap);
    SetParentAppends(c, cap > 0);
    if TailIsStale(c) && cap > 0 {
      assert SetParent(c, cap > 0) == c by { SetParentOfEmpty(c, cap > 0); }
      assert r.Armed(i) && !Secure(r, i);
    } else {
      forall j | 0 <= j < |r.stores| && r.Armed(j) ensures Secure(r, j) {
        assert d.Armed(j);
        if c.Armed(j) && Refilled(c, j) {
          AheadInPrefix(c.loop.order, d.loop.order, j - 1, j);
        }
        assert j != i ==> Secure(c, j);
      }
      SecureFront(r);
      forall j | 0 <= j < |r.stores| && Ready(r, j) && Wakeful(c) ensures r.Armed(j) {
        assert (j == i || Ready(c, j)) && (d.Armed(j) ==> r.Armed(j));
      }
    }
  }

  lemma SetParentOfEmpty<V>(c: Chain<V>, parentHasSpace: bool)
    requires c.Valid() && c.stores[c.Last()] == []
    ensures SetParent(c, parentHasSpace) == c
  {
  }

  /** Ending the chain in a sink is safe exactly unless the last node is stale. */
  lemma AddSinkKeepsSafeIff<V>(c: Chain<V>)
    requires Safe(c) && !c.closed
    ensures Safe(AddSink(c)) <==> !TailIsStale(c)
    ensures Wakeful(c) && Safe(AddSink(c)) ==> Wakeful(AddSink(c))
  {
    hide Ahead, SetParent;
    var i, d, r := c.Last(), SetParent(c, true), AddSink(c);
    SetParentAppends(c, true);
    if TailIsStale(c) {
      assert SetParent(c, true) == c by { SetParentOfEmpty(c, true); }
      assert r.Armed(i) && !Secure(r, i);
    } else {
      forall j | 0 <= j < |r.stores| && r.Armed(j) ensures Secure(r, j) {
        assert d.Armed(j);
        if c.Armed(j) && Refilled(c, j) {
          AheadInPrefix(c.loop.order, d.loop.order, j - 1, j);
        }
        assert j != i ==> Secure(c, j);
      }
      SecureFront(r);
      forall j | 0 <= j < |r.stores| && Ready(r, j) && Wakeful(c) ensures r.Armed(j) {
        assert (j == i || Ready(c, j)) && (d.Armed(j) ==> r.Armed(j));
      }
    }
  }

  /** A take frees space in a full buffer whose child is asleep, and nobody tells the child. */
  predicate TakeLosesWakeup<V>(c: Chain<V>)
    requires |c.stores| == |c.caps| > 0
  {
    var i := c.Last();
    i > 1 && !c.HasSpace(i) && c.stores[i - 1] != [] && !c.Armed(i - 1)
  }

  /** Every take is safe, and exactly those that free no such space keep every node awake. */
  lemma TakeKeepsWakefulIff<V>(c: Chain<V>)
    requires Safe(c) && !c.closed && c.stores[c.Last()] != []
    ensures Safe(Take(c))
    ensures Wakeful(c) ==> (Wakeful(Take(c)) <==> !TakeLosesWakeup(c))
  {
    hide Ahead;
    var i, r := c.Last(), Take(c);
    forall j | 0 <= j < |r.stores| && r.Armed(j) ensures Secure(r, j) {
      assert Secure(c, j);
    }
    SecureFront(r);
    if TakeLosesWakeup(c) {
      assert Ready(r, i - 1) && !r.Armed(i - 1);
    } else {
      forall j | 0 <= j < |r.stores| && Ready(r, j) && Wakeful(c) ensures r.Armed(j) {
        assert j == i - 1 || Ready(c, j);
        assert j == i - 1 && (j == 0 || c.HasSpace(i)) ==> Ready(c, j);
      }
    }
  }
}
