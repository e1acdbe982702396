/** The merge node: several appendages with one slot each, drained round robin. */
module Merges {

  datatype Slot<+V> = Empty | Filled(value: V)

  datatype Result<+V> = Ok(value: V) | CriticalError

  /** The first filled slot in a range, or the end of the range. */
  function Scan<V>(slots: seq<Slot<V>>, from: nat, end: nat): (i: nat)
    requires from <= end <= |slots|
    ensures from <= i <= end && (i < end ==> slots[i].Filled?)
    ensures forall j :: from <= j < i ==> slots[j].Empty?
    decreases end - from
  {
    if from == end || slots[from].Filled? then from else Scan(slots, from + 1, end)
  }

  function Start<V>(slots: seq<Slot<V>>, next: nat): (start: nat)
    ensures start <= |slots|
  {
    if |slots| < next then |slots| else next
  }

  /** How many slots the round-robin scan passes before it looks at slot j. */
  function Distance(start: nat, j: nat, n: nat): nat
    requires start <= n && j < n
  {
    if j >= start then j - start else j + n - start
  }

  function Count<V>(slots: seq<Slot<V>>): nat {
    if slots == [] then 0 else (if slots[0].Filled? then 1 else 0) + Count(slots[1..])
  }

  lemma {:induction false} CountZero<V>(slots: seq<Slot<V>>)
    ensures Count(slots) == 0 <==> forall i :: 0 <= i < |slots| ==> slots[i].Empty?
  {
    if slots != [] {
      CountZero(slots[1..]);
      if forall i :: 0 <= i < |slots[1..]| ==> slots[1..][i].Empty? {
        assert slots[0].Empty? ==> forall i :: 0 <= i < |slots| ==> (i == 0 || slots[1..][i - 1] == slots[i]);
      } else {
        var i :| 0 <= i < |slots[1..]| && slots[1..][i].Filled?;
        assert slots[i + 1].Filled?;
      }
    }
  }

  lemma {:induction false} CountEmptied<V>(slots: seq<Slot<V>>, i: nat)
    requires i < |slots| && slots[i].Filled?
    ensures Count(slots) == Count(slots[i := Empty]) + 1
  {
    if i == 0 {
      assert slots[0 := Empty][1..] == slots[1..];
    } else {
      CountEmptied(slots[1..], i - 1);
      assert slots[i := Empty][1..] == slots[1..][i - 1 := Empty];
    }
  }

  class MergeNode<V> {
    var slots: seq<Slot<V>>
    var nextAppendage: nat

    /** Adds up what the appendages have queued. */
    method Queued() returns (count: nat)
      ensures count == Count(slots)
    {
      count := 0;
      for i := 0 to |slots|
        invariant count + Count(slots[i..]) == Count(slots)
      {
        assert slots[i..][1..] == slots[i + 1..];
        count := count + if slots[i].Filled? then 1 else 0;
      }
    }

    /** Empties the first filled slot in round-robin order; an error only if there is none. */
    method GetResult() returns (r: Result<V>)
      modifies this
      ensures Count(old(slots)) == 0 ==>
        && r == CriticalError && slots == old(slots)
        && nextAppendage == if old(nextAppendage) > |slots| then |slots| else old(nextAppendage)
      ensures Count(old(slots)) > 0 ==> r.Ok? && Count(slots) == Count(old(slots)) - 1
      ensures var (i, after) := Pick(old(slots), old(nextAppendage));
        Count(old(slots)) > 0 ==>
          i < |old(slots)| && Filled(r.value) == old(slots)[i] && slots == after && nextAppendage == i + 1
    {
      CountZero(slots);
      nextAppendage := Start(slots, nextAppendage);
      for i := nextAppendage to |slots|
        invariant slots == old(slots) && nextAppendage == Start(slots, old(nextAppendage))
        invariant forall j :: nextAppendage <= j < i ==> slots[j].Empty?
      {
        if slots[i].Filled? {
          CountEmptied(slots, i);
          r := Ok(slots[i].value);
          slots := slots[i := Empty];
          nextAppendage := i + 1;
          return;
        }
      }
      for i := 0 to nextAppendage
        invariant slots == old(slots) && nextAppendage == Start(slots, old(nextAppendage))
        invariant forall j :: 0 <= j < i ==> slots[j].Empty?
      {
        if slots[i].Filled? {
          CountEmptied(slots, i);
          r := Ok(slots[i].value);
          slots := slots[i := Empty];
          nextAppendage := i + 1;
          return;
        }
      }
      return CriticalError;
    }
  }

  /** Which slot a call empties, and what it leaves. */
  function Pick<V>(slots: seq<Slot<V>>, next: nat): (r: (nat, seq<Slot<V>>))
    ensures |r.1| == |slots|
  {
    var start := Start(slots, next);
    var i := Scan(slots, start, |slots|);
    var k := if i < |slots| then i else Scan(slots, 0, start);
    (k, if k < |slots| then slots[k := Empty] else slots)
  }

  /** The emptied slot is the filled one nearest to the cursor. */
  lemma PickIsNearest<V>(slots: seq<Slot<V>>, next: nat, j: nat)
    requires j < |slots| && slots[j].Filled?
    ensures var start, i := Start(slots, next), Pick(slots, next).0;
            && i < |slots| && slots[i].Filled?
            && Distance(start, i, |slots|) <= Distance(start, j, |slots|)
  {
  }

  /** What the children put into empty slots between two calls; a filled slot refuses. */
  function Refill<V>(slots: seq<Slot<V>>, arrivals: seq<Slot<V>>): (r: seq<Slot<V>>)
    requires |arrivals| == |slots|
    ensures |r| == |slots| && forall i :: 0 <= i < |r| ==> r[i] == if slots[i].Filled? then slots[i] else arrivals[i]
  {
    seq(|slots|, i requires 0 <= i < |slots| => if slots[i].Filled? then slots[i] else arrivals[i])
  }

  /** The slots emptied by successive calls, each call preceded by arbitrary arrivals. */
  function Rounds<V>(slots: seq<Slot<V>>, next: nat, arrivals: seq<seq<Slot<V>>>): (r: seq<(nat, Slot<V>)>)
    requires forall t :: 0 <= t < |arrivals| ==> |arrivals[t]| == |slots|
    ensures |r| == |arrivals|
    decreases |arrivals|
  {
    if arrivals == [] then []
    else
      var filled := Refill(slots, arrivals[0]);
      var (i, after) := Pick(filled, next);
      [(i, if i < |filled| then filled[i] else Empty)] + Rounds(after, i + 1, arrivals[1..])
  }

  /** Between the calls children fill empty slots; a call empties one slot, if any is filled,
      and moves the cursor behind it. */
  lemma RoundsBegin<V>(slots: seq<Slot<V>>, next: nat, arrivals: seq<seq<Slot<V>>>, filled: seq<Slot<V>>)
    requires arrivals != [] && forall t :: 0 <= t < |arrivals| ==> |arrivals[t]| == |slots|
    requires IsRefilled(slots, arrivals[0], filled)
    ensures var rounds, i := Rounds(slots, next, arrivals), Pick(filled, next).0;
      if i < |slots| then
        rounds == [(i, filled[i])] + Rounds(filled[i := Empty], i + 1, arrivals[1..])
      else rounds == [(i, Empty)] + Rounds(filled, i + 1, arrivals[1..])
  {
    hide Pick, Refill, IsRefilled;
    RefillIs(slots, arrivals[0], filled);
    PickEmpties(filled, next);
  }

  lemma PickEmpties<V>(slots: seq<Slot<V>>, next: nat)
    ensures var (i, after) := Pick(slots, next); after == if i < |slots| then slots[i := Empty] else slots
  {
  }

  /** A filled slot refuses what arrives. */
  ghost predicate IsRefilled<V>(slots: seq<Slot<V>>, arrivals: seq<Slot<V>>, filled: seq<Slot<V>>) {
    |slots| == |arrivals| == |filled| &&
    forall i :: 0 <= i < |filled| ==> filled[i] == if slots[i].Filled? then slots[i] else arrivals[i]
  }

  lemma RefillIs<V>(slots: seq<Slot<V>>, arrivals: seq<Slot<V>>, filled: seq<Slot<V>>)
    requires IsRefilled(slots, arrivals, filled)
    ensures |slots| == |arrivals| == |filled| && Refill(slots, arrivals) == filled
  {
  }

  /** One of the first calls, up to the given number, empties slot j with this value. */
  ghost predicate ServedWithin<V>(rounds: seq<(nat, Slot<V>)>, calls: nat, j: nat, value: Slot<V>) {
    exists t :: 0 <= t < calls && t < |rounds| && rounds[t] == (j, value)
  }

  lemma ServedLater<V>(first: (nat, Slot<V>), rest: seq<(nat, Slot<V>)>, calls: nat, more: nat, j: nat, value: Slot<V>)
    requires ServedWithin(rest, calls, j, value) && calls < more
    ensures ServedWithin([first] + rest, more, j, value)
  {
    var t :| 0 <= t < calls && t < |rest| && rest[t] == (j, value);
    assert ([first] + rest)[t + 1] == (j, value);
  }

  /** A call that serves another slot brings slot j nearer to the cursor. */
  lemma CursorComesNearer<V>(slots: seq<Slot<V>>, next: nat, j: nat)
    requires j < |slots| && slots[j].Filled? && Pick(slots, next).0 != j
    ensures var (i, after) := Pick(slots, next);
      && |after| == |slots| && after[j] == slots[j]
      && Distance(Start(after, i + 1), j, |slots|) < Distance(Start(slots, next), j, |slots|)
  {
    PickIsNearest(slots, next, j);
  }

  /** Fairness: a filled slot is emptied within as many calls as its distance from the
      cursor plus one, so at most the number of slots, however the others are refilled. */
  lemma {:induction false} FilledSlotIsServed<V>(slots: seq<Slot<V>>, next: nat, arrivals: seq<seq<Slot<V>>>, j: nat)
    requires j < |slots| && slots[j].Filled?
    requires forall t :: 0 <= t < |arrivals| ==> |arrivals[t]| == |slots|
    requires |arrivals| > Distance(Start(slots, next), j, |slots|)
    ensures Distance(Start(slots, next), j, |slots|) < |slots|
    ensures ServedWithin(Rounds(slots, next, arrivals), Distance(Start(slots, next), j, |slots|) + 1, j, slots[j])
    decreases Distance(Start(slots, next), j, |slots|)
  {
    hide Pick, Distance, Start, ServedWithin;
    DistanceIsShort(slots, next, j);
    var filled := Refill(slots, arrivals[0]);
    var (i, after) := Pick(filled, next);
    var distance := Distance(Start(slots, next), j, |slots|);
    PickIsNearest(filled, next, j);
    if i == j {
      ServedFirst((j, slots[j]), Rounds(after, i + 1, arrivals[1..]), distance + 1);
    } else {
      CursorComesNearer(filled, next, j);
      FilledSlotIsServed(after, i + 1, arrivals[1..], j);
      ServedLater((i, filled[i]), Rounds(after, i + 1, arrivals[1..]),
                  Distance(Start(after, i + 1), j, |slots|) + 1, distance + 1, j, slots[j]);
    }
  }

  lemma ServedFirst<V>(first: (nat, Slot<V>), rest: seq<(nat, Slot<V>)>, calls: nat)
    requires calls > 0
    ensures ServedWithin([first] + rest, calls, first.0, first.1)
  {
    assert ([first] + rest)[0] == first;
  }

  lemma DistanceIsShort<V>(slots: seq<Slot<V>>, next: nat, j: nat)
    requires j < |slots|
    ensures Distance(Start(slots, next), j, |slots|) < |slots|
    ensures forall other: seq<Slot<V>> :: |other| == |slots| ==> Start(other, next) == Start(slots, next)
  {
  }
}
