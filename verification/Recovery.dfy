/** Chains that have lost a wake-up, but whose sleeping nodes will all be woken again. */
module Recovery {
  import opened Conveyor
  import opened Wakeups

  /** The number of elements in the nodes before node j. */
  function Upstream<T>(stores: seq<seq<T>>, j: nat): nat
    requires j <= |stores|
  {
    if j == 0 then 0 else |stores[j - 1]| + Upstream(stores, j - 1)
  }

  lemma {:induction false} UpstreamPositive<T>(s: seq<seq<T>>, i: nat, j: nat)
    requires i < j <= |s|
    ensures s[i] != [] ==> Upstream(s, j) > 0
  {
    if i < j - 1 {
      UpstreamPositive(s, i, j - 1);
    }
  }

  lemma {:induction false} UpstreamZero<T>(s: seq<seq<T>>, j: nat)
    requires j <= |s| && forall i :: 0 <= i < j ==> s[i] == []
    ensures Upstream(s, j) == 0
  {
    if j > 0 {
      UpstreamZero(s, j - 1);
    }
  }

  lemma {:induction false} UpstreamTake<T>(s: seq<seq<T>>, t: seq<seq<T>>, j: nat)
    requires j <= |s| && j <= |t| && forall k :: 0 <= k < j ==> s[k] == t[k]
    ensures Upstream(s, j) == Upstream(t, j)
  {
    if j > 0 {
      UpstreamTake(s, t, j - 1);
    }
  }

  lemma {:induction false} UpstreamMove<T>(s: seq<seq<T>>, t: seq<seq<T>>, i: nat, j: nat)
    requires i + 1 < j <= |s| == |t|
    requires |s[i]| == |t[i]| + 1 && |t[i + 1]| == |s[i + 1]| + 1
    requires forall k :: 0 <= k < |s| && k != i && k != i + 1 ==> s[k] == t[k]
    ensures Upstream(s, j) == Upstream(t, j)
  {
    if j > i + 2 {
      UpstreamMove(s, t, i, j - 1);
    } else {
      UpstreamTake(s, t, i);
    }
  }

  /** A turn changes the elements upstream of a node only by handing one to it. */
  lemma UpstreamTurn<V>(c: Chain<V>, j: nat)
    requires FrontCanFire(c) && j < |c.stores| && c.loop.order != []
    requires !(c.loop.order[0] + 1 == j && CanHop(c, c.loop.order[0]))
    ensures |Turn(c).stores| == |c.stores| && Upstream(Turn(c).stores, j) == Upstream(c.stores, j)
  {
    hide Turn, Hopped, Upstream;
    var i, r := c.loop.order[0], Turn(c);
    TurnHops(c);
    HoppedStores(c, i);
    if CanHop(c, i) && i + 1 < j {
      assert |c.stores[i]| == |r.stores[i]| + 1;
      UpstreamMove(c.stores, r.stores, i, j);
    } else {
      UpstreamTake(c.stores, r.stores, j);
    }
  }

  /** Node m could hand an element on, but sleeps. */
  ghost predicate Sleeps<V>(c: Chain<V>, m: nat)
    requires c.Valid()
  {
    m < |c.stores| && Ready(c, m) && !c.Armed(m)
  }

  /** Elements on their way to node m will wake it. */
  ghost predicate WillWake<V>(c: Chain<V>, m: nat)
    requires c.Valid() && m < |c.stores|
  {
    m > 0 && c.HasSpace(m) && Upstream(c.stores, m) > 0
  }

  ghost predicate Recovering<V>(c: Chain<V>) {
    Safe(c) && forall m :: 0 <= m < |c.stores| && Sleeps(c, m) ==> WillWake(c, m)
  }

  lemma WakefulIsRecovering<V>(c: Chain<V>)
    requires Wakeful(c)
    ensures Recovering(c)
  {
  }

  lemma TurnKeepsWillWake<V>(c: Chain<V>, m: nat)
    requires Recovering(c) && c.loop.order != [] && m < |Turn(c).stores| && Sleeps(Turn(c), m)
    ensures WillWake(Turn(c), m)
  {
    hide Turn, Hopped, Upstream;
    var i, r := c.loop.order[0], Turn(c);
    TurnHops(c);
    TurnArms(c);
    HoppedStores(c, i);
    assert m != i && !HopArms(c, i, m) && (m + 1 != i || m == 0 || c.HasSpace(i));
    assert Sleeps(c, m);
    UpstreamTurn(c, m);
  }

  lemma TurnKeepsRecovering<V>(c: Chain<V>)
    requires Recovering(c)
    ensures Recovering(Turn(c))
  {
    hide Turn, WillWake, Sleeps;
    TurnKeepsSafe(c);
    if c.loop.order == [] {
      IdleTurn(c);
    } else {
      forall m | 0 <= m < |Turn(c).stores| && Sleeps(Turn(c), m) ensures WillWake(Turn(c), m) {
        TurnKeepsWillWake(c, m);
      }
    }
  }

  // ----- nodes that never wake -----

  /** A node that sleeps below a parent with space and that nothing wakes. */
  ghost predicate Dormant<V>(c: Chain<V>, m: nat)
    requires c.Valid()
  {
    && m < |c.stores| && c.stores[m] != [] && !c.Armed(m) && !WillWake(c, m)
    && (m > 0 ==> c.ParentHasSpace(m))
  }

  lemma SleepsForEver<V>(c: Chain<V>, m: nat)
    requires Safe(c) && Sleeps(c, m) && !WillWake(c, m)
    ensures Dormant(c, m)
  {
  }

  lemma TurnKeepsDormant<V>(c: Chain<V>, m: nat)
    requires FrontCanFire(c) && Dormant(c, m)
    ensures Dormant(Turn(c), m) && Turn(c).stores[m] == c.stores[m]
  {
    hide Turn, Hopped, Upstream;
    if c.loop.order == [] {
      IdleTurn(c);
    } else {
      var i := c.loop.order[0];
      TurnHops(c);
      TurnArms(c);
      HoppedStores(c, i);
      assert i != m && c.Armed(i);
      if i + 1 == m && CanHop(c, i) {
        UpstreamPositive(c.stores, i, m);
        assert false;
      }
      UpstreamTurn(c, m);
    }
  }
}
