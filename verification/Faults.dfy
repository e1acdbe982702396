/** When turns come to an event that pulls an element that is not there. */
module Faults {
  import opened Schedule
  import opened Conveyor
  import opened Wakeups
  import opened Drain

  /** An armed node without elements whose parent pulls, with nothing on its way to it. */
  ghost predicate Doomed<V>(c: Chain<V>, i: nat)
    requires c.Valid()
  {
    && i < |c.stores| && c.Armed(i) && c.stores[i] == [] && !Refilled(c, i)
    && c.HasParent(i) && c.ParentHasSpace(i)
  }

  /** In a queue that only grows at its end, nothing new gets ahead of an event. */
  lemma NothingOvertakes(s: seq<nat>, t: seq<nat>, a: nat, b: nat)
    requires Distinct(s) && Distinct(t) && s != [] && s[1..] <= t
    requires b in s && s[0] != b
    ensures b in t && IndexOf(t, b) == IndexOf(s, b) - 1
    ensures Ahead(t, a, b) ==> Ahead(s, a, b)
  {
    var q := IndexOf(s, b);
    assert t[q - 1] == s[1..][q - 1] == b;
    assert IndexOf(t, b) == q - 1;
    if Ahead(t, a, b) {
      var p, k :| 0 <= p < k < |t| && t[p] == a && t[k] == b;
      assert k == q - 1 && s[p + 1] == s[1..][p] == a;
    }
  }

  lemma DoomedTurn<V>(c: Chain<V>, i: nat)
    requires FrontCanFire(c) && Doomed(c, i)
    ensures c.loop.order[0] != i && Doomed(Turn(c), i)
    ensures IndexOf(Turn(c).loop.order, i) == IndexOf(c.loop.order, i) - 1
  {
    hide Turn, Hopped, Ahead;
    var f, r := c.loop.order[0], Turn(c);
    TurnHops(c);
    TurnAppends(c);
    HoppedStores(c, f);
    NothingOvertakes(c.loop.order, r.loop.order, if i > 0 then i - 1 else 0, i);
    if f + 1 == i && CanHop(c, f) {
      FrontIsAhead(c.loop.order, i);
      assert false;
    }
  }

  lemma FrontIsAhead(s: seq<nat>, b: nat)
    requires s != [] && b in s && s[0] != b
    ensures Ahead(s, s[0], b)
  {
    var q := IndexOf(s, b);
    assert s[q] == b;
  }

  /** As many turns later as events stand before it, its turn would pull from nothing. */
  lemma {:induction false} DoomedFaults<V>(c: Chain<V>, i: nat)
    requires c.Valid() && Doomed(c, i)
    ensures !FrontCanFire(Turns(c, IndexOf(c.loop.order, i)))
    decreases IndexOf(c.loop.order, i)
  {
    hide Turn, Refilled;
    if FrontCanFire(c) {
      DoomedTurn(c, i);
      DoomedFaults(Turn(c), i);
    }
  }

  /** Adding a buffer leads to such a turn exactly if the last node is stale and the buffer
      can pull. */
  lemma AddBufferFaultsIff<V>(c: Chain<V>, cap: nat)
    requires Safe(c) && !c.closed
    ensures (exists n: nat :: !FrontCanFire(Turns(AddBuffer(c, cap), n))) <==> TailIsStale(c) && cap > 0
    ensures TailIsStale(c) && cap > 0 ==>
      !FrontCanFire(Turns(AddBuffer(c, cap), IndexOf(c.loop.order, c.Last())))
  {
    hide Turn, Secure, SetParent;
    var r := AddBuffer(c, cap);
    AddBufferKeepsSafeIff(c, cap);
    if TailIsStale(c) && cap > 0 {
      SetParentOfEmpty(c, cap > 0);
      assert Doomed(r, c.Last());
      DoomedFaults(r, c.Last());
    } else {
      forall n: nat ensures FrontCanFire(Turns(r, n)) {
        TurnsKeepSafe(r, n);
      }
    }
  }

  /** Adding a sink leads to such a turn exactly if the last node is stale. */
  lemma AddSinkFaultsIff<V>(c: Chain<V>)
    requires Safe(c) && !c.closed
    ensures (exists n: nat :: !FrontCanFire(Turns(AddSink(c), n))) <==> TailIsStale(c)
    ensures TailIsStale(c) ==> !FrontCanFire(Turns(AddSink(c), IndexOf(c.loop.order, c.Last())))
  {
    hide Turn, Secure, SetParent;
    var r := AddSink(c);
    AddSinkKeepsSafeIff(c);
    if TailIsStale(c) {
      SetParentOfEmpty(c, true);
      assert Doomed(r, c.Last());
      DoomedFaults(r, c.Last());
    } else {
      forall n: nat ensures FrontCanFire(Turns(r, n)) {
        TurnsKeepSafe(r, n);
      }
    }
  }
}
