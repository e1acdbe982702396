/** Buffers of capacity zero: what they keep from the sink, and when the loop of such a
    chain never goes idle. */
module Blocking {
  import opened Conveyor
  import opened Wakeups
  import opened Recovery
  import opened Drain

  /** Nothing gets past a buffer of capacity zero. */
  lemma BlockedTurn<V>(c: Chain<V>, j: nat)
    requires Safe(c) && c.closed && 0 < j < |c.stores| && c.caps[j] == 0
    ensures Upstream(Turn(c).stores, j) == Upstream(c.stores, j)
  {
    hide Turn, Upstream;
    if c.loop.order == [] {
      IdleTurn(c);
    } else {
      UpstreamTurn(c, j);
    }
  }

  lemma {:induction false} BlockedTurns<V>(c: Chain<V>, j: nat, n: nat)
    requires Safe(c) && c.closed && 0 < j < |c.stores| && c.caps[j] == 0
    ensures Turns(c, n).closed && |Turns(c, n).stores| == |c.stores|
    ensures Upstream(Turns(c, n).stores, j) == Upstream(c.stores, j)
    decreases n
  {
    hide Turn;
    if n > 0 {
      TurnKeepsSafe(c);
      TurnKeepsChain(c);
      BlockedTurn(c, j);
      BlockedTurns(Turn(c), j, n - 1);
    }
  }

  lemma {:induction false} DormantTurns<V>(c: Chain<V>, m: nat, n: nat)
    requires Safe(c) && Dormant(c, m)
    ensures m < |Turns(c, n).stores| && Turns(c, n).stores[m] == c.stores[m]
    decreases n
  {
    hide Turn, WillWake;
    if n > 0 {
      TurnKeepsSafe(c);
      TurnKeepsDormant(c, m);
      DormantTurns(Turn(c), m, n - 1);
    }
  }

  /** A chain that ends in a sink delivers everything some day exactly if no element waits
      upstream of a buffer of capacity zero and every sleeping node will be woken. */
  lemma DrainsIff<V>(c: Chain<V>)
    requires Safe(c) && c.closed
    ensures (exists n: nat :: Drained(Turns(c, n))) <==> Unblocked(c) && Recovering(c)
  {
    hide Turn, Sleeps, WillWake;
    if !Unblocked(c) {
      var i, j :| 0 <= i < j < |c.stores| && c.caps[j] == 0 && c.stores[i] != [];
      forall n: nat ensures !Drained(Turns(c, n)) {
        BlockedTurns(c, j, n);
        UpstreamPositive(c.stores, i, j);
        if Drained(Turns(c, n)) {
          UpstreamZero(Turns(c, n).stores, j);
        }
      }
    } else if !Recovering(c) {
      var m :| 0 <= m < |c.stores| && Sleeps(c, m) && !WillWake(c, m);
      SleepsForEver(c, m);
      forall n: nat ensures !Drained(Turns(c, n)) {
        DormantTurns(c, m, n);
      }
    } else {
      DrainBound(c, Backlog(c));
    }
  }

  // ----- when the loop goes idle -----

  /** The elements that fit between the adapt node and node j. */
  function Room(caps: seq<nat>, j: nat): nat
    requires j <= |caps|
  {
    if j <= 1 then 0 else caps[j - 1] + Room(caps, j - 1)
  }

  /** The first buffer of capacity zero. */
  predicate FirstZero(caps: seq<nat>, j: nat) {
    0 < j < |caps| && caps[j] == 0 && forall k :: 0 < k < j ==> caps[k] > 0
  }

  /** More elements wait upstream of node j than fit there, so that some always stay in
      the adapt node; right behind the adapt node, its pending event matters instead. */
  predicate Overfull<V>(c: Chain<V>, j: nat)
    requires 0 < j < |c.stores| == |c.caps|
  {
    if j == 1 then c.Armed(0) && c.stores[0] != []
    else Upstream(c.stores, j) > Room(c.caps, j)
  }

  ghost predicate Spins<V>(c: Chain<V>)
    requires |c.stores| == |c.caps|
  {
    exists j {:trigger FirstZero(c.caps, j)} :: FirstZero(c.caps, j) && Overfull(c, j)
  }

  lemma OverfullTurn<V>(c: Chain<V>, j: nat)
    requires Recovering(c) && c.closed && FirstZero(c.caps, j)
    ensures var d := Turn(c);
      |d.stores| == |c.stores| && d.caps == c.caps && (Overfull(d, j) <==> Overfull(c, j))
  {
    hide Turn, Hopped;
    TurnKeepsChain(c);
    BlockedTurn(c, j);
    if c.loop.order == [] {
      IdleTurn(c);
    } else if j == 1 {
      TurnArms(c);
      assert Upstream(c.stores, 1) == |c.stores[0]| && Upstream(Turn(c).stores, 1) == |Turn(c).stores[0]|;
    }
  }

  lemma {:induction false} OverfullTurns<V>(c: Chain<V>, j: nat, n: nat)
    requires Recovering(c) && c.closed && FirstZero(c.caps, j)
    ensures var d := Turns(c, n);
      d.closed && |d.stores| == |c.stores| && d.caps == c.caps && (Overfull(d, j) <==> Overfull(c, j))
    decreases n
  {
    hide Turn, Overfull, FirstZero;
    if n > 0 {
      TurnKeepsRecovering(c);
      TurnKeepsChain(c);
      OverfullTurn(c, j);
      OverfullTurns(Turn(c), j, n - 1);
    }
  }

  lemma {:induction false} UpstreamFits<V>(c: Chain<V>, j: nat)
    requires c.Valid() && 0 < j <= |c.stores|
    ensures Upstream(c.stores, j) <= |c.stores[0]| + Room(c.caps, j)
    ensures (forall k :: 0 < k < j ==> !c.HasSpace(k)) ==> Upstream(c.stores, j) == |c.stores[0]| + Room(c.caps, j)
  {
    if j > 1 {
      UpstreamFits(c, j - 1);
      assert !c.HasSpace(j - 1) ==> |c.stores[j - 1]| == c.caps[j - 1];
    } else {
      assert Upstream(c.stores, 1) == |c.stores[0]|;
    }
  }

  lemma OverfullIsBusy<V>(c: Chain<V>, j: nat)
    requires Recovering(c) && c.closed && FirstZero(c.caps, j) && Overfull(c, j)
    ensures c.loop.order != []
  {
    UpstreamFits(c, j);
    assert !WillWake(c, 0) && !Sleeps(c, 0);
    assert c.Armed(0);
  }

  /** Nothing is pending but the adapt node, which cannot hand on. */
  ghost predicate Settled<V>(c: Chain<V>)
    requires c.Valid()
  {
    c.loop.order == [] || (c.loop.order == [0] && c.stores[0] != [] && !CanHop(c, 0))
  }

  /** Every chain that ends in a sink comes to rest, or to a rest of its adapt node alone. */
  lemma {:induction false} Settles<V>(c: Chain<V>) returns (n: nat)
    requires Recovering(c) && c.closed
    ensures Turns(c, n).closed && Settled(Turns(c, n))
    decreases Hops(c.stores, 0), |c.loop.order|, if c.loop.order != [] && c.loop.order[0] == 0 then 1 else 0
  {
    hide Turn, Hops, CanHop, Unblocked;
    if Settled(c) {
      return 0;
    }
    TurnKeepsRecovering(c);
    TurnKeepsChain(c);
    if CanHop(c, c.loop.order[0]) {
      HopTurn(c);
    } else {
      WastedTurn(c);
    }
    n := Settles(Turn(c));
    n := n + 1;
  }

  /** Buffers that are full and asleep reach from the adapt node to the first buffer of
      capacity zero. */
  lemma {:induction false} FullUntilZero<V>(c: Chain<V>, k: nat) returns (j: nat)
    requires Recovering(c) && c.closed && c.loop.order == [0] && 0 < k < |c.stores|
    requires forall i :: 0 < i <= k ==> !c.HasSpace(i)
    requires forall i :: 0 < i < k ==> c.caps[i] > 0
    ensures FirstZero(c.caps, j) && forall i :: 0 < i < j ==> !c.HasSpace(i)
    decreases |c.stores| - k
  {
    if c.caps[k] == 0 {
      j := k;
    } else {
      assert !c.HasSpace(k) && c.stores[k] != [];
      assert !c.Armed(k) && !WillWake(c, k) && !Sleeps(c, k) && c.HasParent(k);
      assert !c.ParentHasSpace(k);
      j := FullUntilZero(c, k + 1);
    }
  }

  lemma SettledSpins<V>(c: Chain<V>)
    requires Recovering(c) && c.closed && Settled(c) && c.loop.order != []
    ensures Spins(c)
  {
    var j := FullUntilZero(c, 1);
    UpstreamFits(c, j);
    assert c.Armed(0);
    assert Overfull(c, j);
  }

  /** The loop of a chain that ends in a sink goes idle some day exactly unless more
      elements wait upstream of the first buffer of capacity zero than fit there, or the
      adapt node is armed with elements right in front of it. */
  lemma IdleIff<V>(c: Chain<V>)
    requires Recovering(c) && c.closed
    ensures (exists n: nat :: Turns(c, n).loop.order == []) <==> !Spins(c)
  {
    hide Turn, Overfull, Settled;
    if Spins(c) {
      var j :| FirstZero(c.caps, j) && Overfull(c, j);
      forall n: nat ensures Turns(c, n).loop.order != [] {
        OverfullTurns(c, j, n);
        TurnsKeepSafe(c, n);
        OverfullIsBusy(Turns(c, n), j);
      }
    } else {
      var n := Settles(c);
      var d := Turns(c, n);
      TurnsKeepSafe(c, n);
      if d.loop.order != [] {
        SettledSpins(d);
        var j :| FirstZero(d.caps, j) && Overfull(d, j);
        TurnsKeepShape(c, n);
        OverfullTurns(c, j, n);
      }
    }
  }
}
