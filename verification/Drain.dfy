/** How fast a chain that ends in a sink empties itself when nothing more is fed. */
module Drain {
  import opened Schedule
  import opened Conveyor
  import opened Wakeups
  import opened Recovery

  function Product(a: nat, b: nat): nat {
    a * b
  }

  lemma ProductStep(a: nat, b: nat)
    ensures Product(a + 1, b) == Product(a, b) + b
  {
  }

  lemma ProductPositive(a: nat, b: nat)
    ensures a > 0 && b > 0 ==> Product(a, b) > 0
  {
  }

  /** The number of hops all elements in nodes i and behind still have to make. */
  function Hops<T>(stores: seq<seq<T>>, i: nat): nat
    requires i <= |stores|
    decreases |stores| - i
  {
    if i == |stores| then 0 else Product(|stores[i]|, |stores| - i) + Hops(stores, i + 1)
  }

  /** No element waits upstream of a buffer that can never take it. */
  ghost predicate Unblocked<V>(c: Chain<V>)
    requires c.Valid()
  {
    forall i, j :: 0 <= i < j < |c.stores| && c.caps[j] == 0 ==> c.stores[i] == []
  }

  ghost predicate Drained<V>(c: Chain<V>) {
    forall i :: 0 <= i < |c.stores| ==> c.stores[i] == []
  }

  /** The chain after n turns, or at the turn that would pull an element that is not there. */
  ghost function Turns<V>(c: Chain<V>, n: nat): (r: Chain<V>)
    requires c.Valid()
    ensures r.Valid()
    decreases n
  {
    if n == 0 || !FrontCanFire(c) then c else Turns(Turn(c), n - 1)
  }

  /** Such a turn never comes if all pending events are secure. */
  lemma {:induction false} TurnsKeepSafe<V>(c: Chain<V>, n: nat)
    requires Safe(c)
    ensures Safe(Turns(c, n)) && (Recovering(c) ==> Recovering(Turns(c, n)))
    decreases n
  {
    hide Turn, Secure, WillWake, Sleeps;
    if n > 0 {
      TurnKeepsSafe(c);
      if Recovering(c) {
        TurnKeepsRecovering(c);
      }
      TurnsKeepSafe(Turn(c), n - 1);
    }
  }

  lemma {:induction false} IdleStaysIdle<V>(c: Chain<V>, n: nat)
    requires Safe(c) && c.loop.order == []
    ensures Turns(c, n).loop.order == []
    decreases n
  {
    if n > 0 {
      IdleStaysIdle(c, n - 1);
    }
  }

  lemma {:induction false} IdleIsFixed<V>(c: Chain<V>, n: nat)
    requires Safe(c) && (c.loop.order == [] || n == 0)
    ensures Turns(c, n) == c
    decreases n
  {
    hide Turn;
    if n > 0 {
      IdleTurn(c);
      IdleIsFixed(c, n - 1);
    }
  }

  lemma {:induction false} MoreTurns<V>(c: Chain<V>, n: nat, m: nat)
    requires Safe(c) && n <= m && Turns(c, n).loop.order == []
    ensures Turns(c, m).loop.order == []
    decreases n
  {
    hide Turn;
    if n == 0 {
      IdleStaysIdle(c, m);
      assert Turns(c, m).loop.order == [];
    } else {
      TurnKeepsSafe(c);
      var d := Turn(c);
      assert Turns(c, n) == Turns(d, n - 1);
      assert Turns(c, m) == Turns(d, m - 1);
      MoreTurns(d, n - 1, m - 1);
      assert Turns(d, m - 1).loop.order == [];
      assert Turns(c, m).loop.order == [];
    }
  }

  // ----- one turn -----

  lemma {:induction false} HopsTake<T>(s: seq<seq<T>>, t: seq<seq<T>>, i: nat)
    requires |s| == |t| && i <= |s| && forall k :: i <= k < |s| ==> s[k] == t[k]
    ensures Hops(s, i) == Hops(t, i)
    decreases |s| - i
  {
    hide Product;
    if i < |s| {
      HopsTake(s, t, i + 1);
    }
  }

  /** Moving one element from node i to node i + 1, or out of the last node, is one hop. */
  lemma {:induction false} HopIsOne<T>(s: seq<seq<T>>, t: seq<seq<T>>, i: nat, j: nat)
    requires j <= i < |s| == |t|
    requires |s[i]| == |t[i]| + 1 && (i + 1 < |s| ==> |t[i + 1]| == |s[i + 1]| + 1)
    requires forall k :: 0 <= k < |s| && k != i && k != i + 1 ==> s[k] == t[k]
    ensures Hops(s, j) == Hops(t, j) + 1
    decreases i - j
  {
    hide Product;
    if j < i {
      HopIsOne(s, t, i, j + 1);
    } else {
      ProductStep(|t[i]|, |s| - i);
      if i + 1 < |s| {
        ProductStep(|s[i + 1]|, |s| - i - 1);
        HopsTake(s, t, i + 2);
      }
    }
  }

  lemma HopTurn<V>(c: Chain<V>)
    requires Recovering(c) && c.closed && c.loop.order != [] && CanHop(c, c.loop.order[0])
    ensures Hops(c.stores, 0) == Hops(Turn(c).stores, 0) + 1
  {
    hide Turn, Hops;
    TurnHops(c);
    HopIsOne(c.stores, Turn(c).stores, c.loop.order[0], 0);
  }

  /** A turn without a hop takes the event of a buffer or an empty adapt node out of the
      queue; an adapt node with elements goes to the end. */
  lemma WastedTurn<V>(c: Chain<V>)
    requires Safe(c) && c.closed && c.loop.order != [] && !CanHop(c, c.loop.order[0])
    ensures Turn(c) == c.(loop := Turn(c).loop)
    ensures var i, rest := c.loop.order[0], c.loop.order[1..];
      Turn(c).loop.order == if i == 0 && c.stores[0] != [] then rest + [0] else rest
  {
    hide Hop;
    TurnHops(c);
    var i, rest, d := c.loop.order[0], c.loop.order[1..], PopLoop(c);
    assert d.loop.order == rest;
    assert ChildHasFired(d, i) == d;
    if i == 0 {
      assert InsertAt(rest, |rest|, 0) == rest + [0];
    } else {
      assert Offer(d, i) == d;
    }
  }

  /** Walking downstream over full buffers ends at a node that can hop. */
  lemma {:induction false} DownstreamCanHop<V>(c: Chain<V>, i: nat) returns (j: nat)
    requires c.Valid() && c.closed && Unblocked(c) && i < |c.stores| && c.stores[i] != []
    ensures i <= j && CanHop(c, j) && forall m :: i < m <= j ==> !c.HasSpace(m)
    decreases |c.stores| - i
  {
    if c.ParentHasSpace(i) {
      j := i;
    } else {
      j := DownstreamCanHop(c, i + 1);
    }
  }

  /** Some node before j has an element. */
  lemma {:induction false} UpstreamNode<T>(s: seq<seq<T>>, j: nat) returns (k: nat)
    requires j <= |s| && Upstream(s, j) > 0
    ensures k < j && s[k] != []
  {
    k := j - 1;
    if s[k] == [] {
      k := UpstreamNode(s, j - 1);
    }
  }

  /** If a node that can hop sleeps, one further upstream can hop too. */
  lemma {:induction false} PendingHopUpstream<V>(c: Chain<V>, j: nat) returns (p: nat)
    requires Recovering(c) && c.closed && Unblocked(c) && CanHop(c, j)
    ensures p < |c.loop.order| && CanHop(c, c.loop.order[p])
    decreases j
  {
    if c.Armed(j) {
      p := IndexOf(c.loop.order, j);
    } else {
      assert Sleeps(c, j);
      var k := UpstreamNode(c.stores, j);
      var i := DownstreamCanHop(c, k);
      p := PendingHopUpstream(c, i);
    }
  }

  lemma PendingHop<V>(c: Chain<V>, i: nat) returns (p: nat)
    requires Recovering(c) && c.closed && Unblocked(c) && i < |c.stores| && c.stores[i] != []
    ensures p < |c.loop.order| && CanHop(c, c.loop.order[p])
  {
    var j := DownstreamCanHop(c, i);
    p := PendingHopUpstream(c, j);
  }

  /** An idle loop has delivered everything. */
  lemma IdleIsDrained<V>(c: Chain<V>)
    requires Recovering(c) && c.closed && Unblocked(c) && c.loop.order == []
    ensures Drained(c)
  {
    forall i | 0 <= i < |c.stores| ensures c.stores[i] == [] {
      if c.stores[i] != [] {
        var p := PendingHop(c, i);
        assert false;
      }
    }
  }

  // ----- the bound -----

  function Times(n: nat, h: nat): nat {
    if h == 0 then 0 else n + Times(n, h - 1)
  }

  lemma {:induction false} TimesIsProduct(n: nat, h: nat)
    ensures Times(n, h) == Product(n, h)
  {
    if h > 0 {
      TimesIsProduct(n, h - 1);
    }
  }

  lemma {:induction false} DistinctBound(order: seq<nat>, n: nat)
    requires Distinct(order) && forall i :: 0 <= i < |order| ==> order[i] < n
    ensures |order| <= n
    decreases n
  {
    if order != [] {
      assert order[0] < n;
      if n - 1 in order {
        DistinctBound(RemoveAt(order, IndexOf(order, n - 1)), n - 1);
      } else {
        DistinctBound(order, n - 1);
      }
    }
  }

  /** Only when no node has an element are there no hops left. */
  lemma {:induction false} HopsLeft<T>(s: seq<seq<T>>, j: nat)
    requires j <= |s|
    ensures Hops(s, j) == 0 <==> forall i :: j <= i < |s| ==> s[i] == []
    decreases |s| - j
  {
    hide Product;
    if j < |s| {
      HopsLeft(s, j + 1);
      ProductPositive(|s[j]|, |s| - j);
      ProductOfNothing(|s| - j);
    }
  }

  lemma ProductOfNothing(b: nat)
    ensures Product(0, b) == 0
  {
  }

  /** Some node is armed although it has no element, below a buffer of capacity zero. */
  ghost predicate Stale<V>(c: Chain<V>)
    requires c.Valid()
  {
    exists i :: 0 <= i < |c.stores| && c.Armed(i) && c.stores[i] == [] && !c.ParentCanPull(i)
  }

  /** No turn makes a node stale. */
  lemma TurnKeepsFresh<V>(c: Chain<V>)
    requires Safe(c) && c.closed
    ensures Stale(Turn(c)) ==> Stale(c)
  {
    hide Turn, Hopped;
    if c.loop.order == [] {
      IdleTurn(c);
    } else if Stale(Turn(c)) {
      var i, r := c.loop.order[0], Turn(c);
      TurnHops(c);
      TurnArms(c);
      HoppedStores(c, i);
      var j :| 0 <= j < |r.stores| && r.Armed(j) && r.stores[j] == [] && !r.ParentCanPull(j);
      assert c.Armed(j) && c.stores[j] == [];
    }
  }

  /** With a hop pending at position p of the queue. */
  lemma {:induction false} DrainsFrom<V>(c: Chain<V>, stale: nat, p: nat)
    requires Recovering(c) && c.closed && Unblocked(c) && p < |c.loop.order| && CanHop(c, c.loop.order[p])
    requires Hops(c.stores, 0) > 0 && (Stale(c) ==> stale > 0)
    ensures Turns(c, Times(|c.stores|, Hops(c.stores, 0) + stale - 1) + p + 1).loop.order == []
    decreases Hops(c.stores, 0), 0, p
  {
    hide Turn, Hops, Stale, Unblocked, Times;
    var b := Times(|c.stores|, Hops(c.stores, 0) + stale - 1);
    var d := Turn(c);
    TurnKeepsRecovering(c);
    TurnKeepsFresh(c);
    TurnKeepsChain(c);
    if CanHop(c, c.loop.order[0]) {
      HopTurn(c);
      DrainsWithin(d, stale);
      assert b == Times(|d.stores|, Hops(d.stores, 0) + stale);
      MoreTurns(d, b, b + p);
    } else {
      WastedTurn(c);
      assert c.loop.order[1..][p - 1] == c.loop.order[p];
      DrainsFrom(d, stale, p - 1);
    }
  }

  /** Without elements every turn only takes a stale event out of the queue. */
  lemma {:induction false} StaleEventsLeave<V>(c: Chain<V>)
    requires Recovering(c) && c.closed && Drained(c)
    ensures Turns(c, |c.loop.order|).loop.order == []
    decreases |c.loop.order|
  {
    hide Turn;
    if c.loop.order != [] {
      TurnKeepsRecovering(c);
      WastedTurn(c);
      StaleEventsLeave(Turn(c));
    }
  }

  lemma {:induction false} DrainsWithin<V>(c: Chain<V>, stale: nat)
    requires Recovering(c) && c.closed && Unblocked(c) && (Stale(c) ==> stale > 0)
    ensures Turns(c, Times(|c.stores|, Hops(c.stores, 0) + stale)).loop.order == []
    decreases Hops(c.stores, 0), 1, 0
  {
    hide Turn, Hops;
    var n, h := |c.stores|, Hops(c.stores, 0) + stale;
    HopsLeft(c.stores, 0);
    DistinctBound(c.loop.order, n);
    if c.loop.order == [] {
      IdleStaysIdle(c, Times(n, h));
    } else if Hops(c.stores, 0) == 0 {
      assert c.Armed(c.loop.order[0]);
      SecureFront(c);
      assert Stale(c);
      StaleEventsLeave(c);
      assert |c.loop.order| <= n <= Times(n, h);
      MoreTurns(c, |c.loop.order|, Times(n, h));
    } else {
      var i :| 0 <= i < n && c.stores[i] != [];
      var p := PendingHop(c, i);
      DrainsFrom(c, stale, p);
      MoreTurns(c, Times(n, h - 1) + p + 1, Times(n, h));
    }
  }

  lemma TurnKeepsChain<V>(c: Chain<V>)
    requires Safe(c) && c.closed
    ensures Turn(c).closed && Turn(c).caps == c.caps && |Turn(c).stores| == |c.stores|
    ensures Unblocked(c) ==> Unblocked(Turn(c))
  {
    hide Turn, Hopped;
    if c.loop.order == [] {
      IdleTurn(c);
    } else {
      TurnHops(c);
      HoppedStores(c, c.loop.order[0]);
    }
  }

  lemma {:induction false} TurnsKeepShape<V>(c: Chain<V>, n: nat)
    requires Safe(c) && c.closed
    ensures var d := Turns(c, n);
      d.closed && d.caps == c.caps && |d.stores| == |c.stores| && (Unblocked(c) ==> Unblocked(d))
    decreases n
  {
    hide Turn, Unblocked;
    if n > 0 {
      TurnKeepsSafe(c);
      TurnKeepsChain(c);
      TurnsKeepShape(Turn(c), n - 1);
    }
  }

  /** A turn for every node and every hop, and one round more if some event is stale. */
  ghost function Backlog<V>(c: Chain<V>): nat
    requires c.Valid()
  {
    Product(|c.stores|, Hops(c.stores, 0) + if Stale(c) then 1 else 0)
  }

  /** A chain of k buffers behind its adapt node, ending in a sink, has k + 1 nodes: after
      k + 1 turns for every hop its elements still have to make, everything has reached
      the sink and nothing is pending. */
  lemma DrainBound<V>(c: Chain<V>, n: nat)
    requires Recovering(c) && c.closed && Unblocked(c) && n >= Backlog(c)
    ensures Turns(c, n).loop.order == [] && Drained(Turns(c, n))
    ensures Backlog(c) == |c.stores| * (Hops(c.stores, 0) + if Stale(c) then 1 else 0)
  {
    hide Turn, Hops, Stale;
    var stale := if Stale(c) then 1 else 0;
    DrainsWithin(c, stale);
    TimesIsProduct(|c.stores|, Hops(c.stores, 0) + stale);
    MoreTurns(c, Backlog(c), n);
    TurnsKeepShape(c, n);
    TurnsKeepSafe(c, n);
    IdleIsDrained(Turns(c, n));
  }

  /** Stale events exist only next to buffers of capacity zero. */
  lemma BuffersWithRoomAreFresh<V>(c: Chain<V>)
    requires Safe(c) && c.closed && forall i :: 0 < i < |c.caps| ==> c.caps[i] > 0
    ensures !Stale(c) && Unblocked(c) && Backlog(c) == |c.stores| * Hops(c.stores, 0)
  {
  }

  const TURN_LIMIT: nat := 65536

  /** One turnLoop is enough for a short enough backlog. */
  lemma OneTurnLoopDrains<V>(c: Chain<V>)
    requires Recovering(c) && c.closed && Unblocked(c) && Backlog(c) <= 65536
    ensures Turns(c, 65536).loop.order == [] && Drained(Turns(c, 65536))
  {
    DrainBound(c, TURN_LIMIT);
  }
}
