/** The event loop's queue as a value: the pending events in firing order and
    the two insertion cursors.  The pointer structure of the event loop refines
    these functions (module EventLoops); the conveyor chain runs on them. */
module Schedule {
  datatype Kind = Next | Later | Last

  datatype Queue<E(==)> = Queue(order: seq<E>, next: nat, later: nat) {
    ghost predicate Valid() {
      next <= later <= |order| && Distinct(order)
    }
  }

  ghost predicate Distinct<E>(s: seq<E>) {
    forall i, j :: 0 <= i < j < |s| ==> s[i] != s[j]
  }

  function InsertAt<E>(s: seq<E>, i: nat, e: E): (r: seq<E>)
    requires i <= |s|
    ensures |r| == |s| + 1
    ensures forall j :: 0 <= j < |r| ==> r[j] == if j < i then s[j] else if j == i then e else s[j - 1]
  {
    seq(|s| + 1, j requires 0 <= j <= |s| => if j < i then s[j] else if j == i then e else s[j - 1])
  }

  function RemoveAt<E>(s: seq<E>, i: nat): (r: seq<E>)
    requires i < |s|
    ensures |r| == |s| - 1
    ensures forall j :: 0 <= j < |r| ==> r[j] == if j < i then s[j] else s[j + 1]
  {
    seq(|s| - 1, j requires 0 <= j < |s| - 1 => if j < i then s[j] else s[j + 1])
  }

  /** The position of an element that occurs in the sequence. */
  function IndexOf<E(==)>(s: seq<E>, e: E): (i: nat)
    requires e in s
    ensures i < |s| && s[i] == e && e !in s[..i]
  {
    if s[0] == e then 0 else 1 + IndexOf(s[1..], e)
  }

  lemma DistinctInsert<E>(s: seq<E>, i: nat, e: E)
    requires Distinct(s) && i <= |s| && e !in s
    ensures Distinct(InsertAt(s, i, e))
  {
  }

  function Place<E(==)>(q: Queue<E>, kind: Kind, e: E): Queue<E>
    requires q.next <= q.later <= |q.order|
  {
    Queue(InsertAt(q.order, Position(q, kind), e),
          if kind == Next then q.next + 1 else q.next,
          if kind == Last then q.later else q.later + 1)
  }

  function Position<E(==)>(q: Queue<E>, kind: Kind): nat {
    if kind == Next then q.next else q.later
  }

  /** Arming an event that is already pending does nothing. */
  function Arm<E(==)>(q: Queue<E>, kind: Kind, e: E): (r: Queue<E>)
    requires q.Valid()
    ensures r.Valid()
  {
    if e in q.order then q
    else
      DistinctInsert(q.order, Position(q, kind), e);
      Place(q, kind, e)
  }

  /** Unlinks the front event; the next cursor returns to the front. */
  function Pop<E(==)>(q: Queue<E>): (r: Queue<E>)
    requires q.Valid() && q.order != []
    ensures r.Valid() && q.order[0] !in r.order
  {
    Queue(RemoveAt(q.order, 0), 0, if q.later == 0 then 0 else q.later - 1)
  }

  /** Unlinks one event, wherever it is. */
  function Disarm<E(==)>(q: Queue<E>, e: E): (r: Queue<E>)
    requires q.Valid()
    ensures r.Valid()
  {
    if e !in q.order then q
    else
      var i := IndexOf(q.order, e);
      Queue(RemoveAt(q.order, i),
            if i < q.next then q.next - 1 else q.next,
            if i < q.later then q.later - 1 else q.later)
  }

  /** The later cursor is not the slot right behind the event. */
  predicate DisarmKeepsCursor<E(==)>(q: Queue<E>, e: E) {
    e in q.order ==> q.later != IndexOf(q.order, e) + 1
  }

  /** Arming puts an event that is not pending at its cursor and moves no other event;
      taking it out again restores the queue. */
  lemma ArmInserts<E>(q: Queue<E>, kind: Kind, e: E)
    requires q.Valid() && e !in q.order
    ensures var p, r := Position(q, kind), Arm(q, kind, e);
      && r.order == q.order[..p] + [e] + q.order[p..] && IndexOf(r.order, e) == p
      && r.next == (if kind == Next then q.next + 1 else q.next)
      && r.later == (if kind == Last then q.later else q.later + 1)
      && Disarm(r, e) == q
  {
    var p, r := Position(q, kind), Arm(q, kind, e);
    assert r.order == q.order[..p] + [e] + q.order[p..];
    assert RemoveAt(r.order, p) == q.order;
    hide InsertAt, RemoveAt, Distinct;
    assert r.order[p] == e;
  }

  /** A turn takes out the front event alone, and the next cursor returns to the front. */
  lemma PopDrops<E>(q: Queue<E>)
    requires q.Valid() && q.order != []
    ensures Pop(q).order == q.order[1..] && Pop(q).next == 0
    ensures Pop(q).later == if q.later > 0 then q.later - 1 else 0
  {
  }

  /** Disarming takes out exactly this event; the others keep their order. */
  lemma DisarmRemoves<E>(q: Queue<E>, e: E)
    requires q.Valid() && e in q.order
    ensures var i, r := IndexOf(q.order, e), Disarm(q, e);
      r.order == q.order[..i] + q.order[i + 1..] && e !in r.order
  {
  }

  // ----- what one turn leaves behind -----

  datatype Request<E> = Request(kind: Kind, event: E)

  function ArmAll<E(==)>(q: Queue<E>, requests: seq<Request<E>>): (r: Queue<E>)
    requires q.Valid()
    ensures r.Valid()
  {
    if requests == [] then q
    else
      var n := |requests| - 1;
      Arm(ArmAll(q, requests[..n]), requests[n].kind, requests[n].event)
  }

  function Events<E(==)>(requests: seq<Request<E>>): (r: seq<E>)
    ensures |r| == |requests| && forall i :: 0 <= i < |r| ==> r[i] == requests[i].event
  {
    seq(|requests|, i requires 0 <= i < |requests| => requests[i].event)
  }

  /** The requests that are the first ones for an event not pending in rest. */
  function Effective<E(==)>(rest: seq<E>, requests: seq<Request<E>>): seq<Request<E>> {
    if requests == [] then []
    else
      var n := |requests| - 1;
      var before := Effective(rest, requests[..n]);
      if requests[n].event in rest || requests[n].event in Events(before) then before
      else before + [requests[n]]
  }

  function OfKind<E(==)>(requests: seq<Request<E>>, kind: Kind): seq<E> {
    if requests == [] then []
    else
      var n := |requests| - 1;
      var before := OfKind(requests[..n], kind);
      if requests[n].kind == kind then before + [requests[n].event] else before
  }

  function Reverse<E>(s: seq<E>): (r: seq<E>)
    ensures |r| == |s| && forall i :: 0 <= i < |s| ==> r[i] == s[|s| - 1 - i]
  {
    if s == [] then [] else [s[|s| - 1]] + Reverse(s[..|s| - 1])
  }

  /** Next-armed events run first, then what was pending before the later
      cursor, then the later-armed ones, then the last-armed ones newest first. */
  ghost function AfterTurn<E>(rest: Queue<E>, requests: seq<Request<E>>): Queue<E>
    requires rest.Valid()
  {
    var n, l, s := OfKind(requests, Next), OfKind(requests, Later), OfKind(requests, Last);
    var early, late := rest.order[..rest.later], rest.order[rest.later..];
    Queue(Shape(n, early, l, s, late), |n|, |n + early + l|)
  }

  lemma {:induction false} OfKindSplits<E>(requests: seq<Request<E>>, x: E)
    ensures x in Events(requests) <==>
            x in OfKind(requests, Next) || x in OfKind(requests, Later) || x in OfKind(requests, Last)
  {
    if requests != [] {
      var n := |requests| - 1;
      OfKindSplits(requests[..n], x);
      assert Events(requests) == Events(requests[..n]) + [requests[n].event];
    }
  }

  lemma ReverseMember<E>(s: seq<E>, x: E)
    ensures x in Reverse(s) <==> x in s
  {
  }

  /** The turn law, for any interleaving of requests with repeats and
      already pending events among them. */
  lemma {:induction false} TurnLaw<E>(rest: Queue<E>, requests: seq<Request<E>>)
    requires rest.Valid() && rest.next == 0
    ensures ArmAll(rest, requests) == AfterTurn(rest, Effective(rest.order, requests))
  {
    if requests == [] {
      assert rest.order[..rest.later] + rest.order[rest.later..] == rest.order;
    } else {
      var n := |requests| - 1;
      TurnLaw(rest, requests[..n]);
      var eff := Effective(rest.order, requests[..n]);
      var q := AfterTurn(rest, eff);
      var e := requests[n].event;
      AfterTurnMembers(rest, eff, e);
      if e !in q.order {
        PlaceAfterTurn(rest, eff, requests[n]);
      }
    }
  }

  lemma AfterTurnMembers<E>(rest: Queue<E>, requests: seq<Request<E>>, x: E)
    requires rest.Valid()
    ensures x in AfterTurn(rest, requests).order <==> x in rest.order || x in Events(requests)
  {
    OfKindSplits(requests, x);
    ReverseMember(OfKind(requests, Last), x);
    assert rest.order == rest.order[..rest.later] + rest.order[rest.later..];
  }

  lemma OfKindAppend<E>(requests: seq<Request<E>>, last: Request<E>, kind: Kind)
    ensures OfKind(requests + [last], kind) ==
            if last.kind == kind then OfKind(requests, kind) + [last.event] else OfKind(requests, kind)
  {
  }

  lemma PlaceAfterTurn<E>(rest: Queue<E>, requests: seq<Request<E>>, last: Request<E>)
    requires rest.Valid()
    ensures var q := AfterTurn(rest, requests);
            && q.next <= q.later <= |q.order|
            && Place(q, last.kind, last.event) == AfterTurn(rest, requests + [last])
  {
    OfKindAppend(requests, last, Next);
    OfKindAppend(requests, last, Later);
    OfKindAppend(requests, last, Last);
    var n, l, s := OfKind(requests, Next), OfKind(requests, Later), OfKind(requests, Last);
    var early, late := rest.order[..rest.later], rest.order[rest.later..];
    match last.kind {
      case Next => InsertNextIntoShape(n, early, l, s, late, last.event);
      case Later => InsertLaterIntoShape(n, early, l, s, late, last.event);
      case Last => InsertLastIntoShape(n, early, l, s, late, last.event);
    }
  }

  function Shape<E>(n: seq<E>, early: seq<E>, l: seq<E>, s: seq<E>, late: seq<E>): (r: seq<E>)
    ensures |n| <= |n + early + l| <= |r|
  {
    n + early + l + Reverse(s) + late
  }

  lemma InsertNextIntoShape<E>(n: seq<E>, early: seq<E>, l: seq<E>, s: seq<E>, late: seq<E>, e: E)
    ensures InsertAt(Shape(n, early, l, s, late), |n|, e) == Shape(n + [e], early, l, s, late)
  {
  }

  lemma InsertLaterIntoShape<E>(n: seq<E>, early: seq<E>, l: seq<E>, s: seq<E>, late: seq<E>, e: E)
    ensures InsertAt(Shape(n, early, l, s, late), |n + early + l|, e) == Shape(n, early, l + [e], s, late)
  {
  }

  lemma InsertLastIntoShape<E>(n: seq<E>, early: seq<E>, l: seq<E>, s: seq<E>, late: seq<E>, e: E)
    ensures InsertAt(Shape(n, early, l, s, late), |n + early + l|, e) == Shape(n, early, l, s + [e], late)
  {
  }

  /** Distinct events that are not pending are all effective. */
  lemma {:induction false} DistinctRequestsAreEffective<E>(rest: seq<E>, requests: seq<Request<E>>)
    requires Distinct(Events(requests))
    requires forall i :: 0 <= i < |requests| ==> requests[i].event !in rest
    ensures Effective(rest, requests) == requests
  {
    if requests != [] {
      var n := |requests| - 1;
      var before := Events(requests[..n]);
      assert before == Events(requests)[..n];
      DistinctRequestsAreEffective(rest, requests[..n]);
      assert forall i :: 0 <= i < n ==> before[i] != Events(requests)[n];
      assert requests == requests[..n] + [requests[n]];
    }
  }

  // ----- what the fired event does -----

  datatype Step<E> = Fire | Request(request: Request<E>) | Cancel(event: E)

  /** One arm request or cancel.  A cancel that would leave the later cursor behind is not
      made. */
  function Act<E(==)>(q: Queue<E>, s: Step<E>): (r: Queue<E>)
    requires q.Valid()
    ensures r.Valid()
  {
    match s
    case Fire => q
    case Request(a) => Arm(q, a.kind, a.event)
    case Cancel(e) => if DisarmKeepsCursor(q, e) then Disarm(q, e) else q
  }

  function ActAll<E(==)>(q: Queue<E>, steps: seq<Step<E>>): (r: Queue<E>)
    requires q.Valid()
    ensures r.Valid()
  {
    if steps == [] then q else Act(ActAll(q, steps[..|steps| - 1]), steps[|steps| - 1])
  }

  function Requests<E>(steps: seq<Step<E>>): (r: seq<Request<E>>)
    requires forall i :: 0 <= i < |steps| ==> steps[i].Request?
    ensures |r| == |steps| && forall i :: 0 <= i < |r| ==> r[i] == steps[i].request
  {
    seq(|steps|, i requires 0 <= i < |steps| => steps[i].request)
  }

  /** Without cancels, the fired event leaves the queue of the turn law. */
  lemma {:induction false} RequestsArm<E>(q: Queue<E>, steps: seq<Step<E>>)
    requires q.Valid() && forall i :: 0 <= i < |steps| ==> steps[i].Request?
    ensures ActAll(q, steps) == ArmAll(q, Requests(steps))
  {
    if steps != [] {
      var n := |steps| - 1;
      RequestsArm(q, steps[..n]);
      assert Requests(steps)[..n] == Requests(steps[..n]);
    }
  }

  // ----- firing order over whole runs -----

  ghost predicate Tagged<E>(order: seq<E>, tags: map<E, Tag<E>>, clock: nat) {
    forall i :: 0 <= i < |order| ==>
      order[i] in tags && tags[order[i]].event == order[i] && tags[order[i]].stamp < clock
  }

  lemma InsertTagged<E>(order: seq<E>, tags: map<E, Tag<E>>, clock: nat, i: nat, t: Tag<E>)
    requires Tagged(order, tags, clock) && i <= |order| && t.stamp == clock
    ensures Tagged(InsertAt(order, i, t.event), tags[t.event := t], clock + 1)
  {
  }

  /** When and how a pending or fired event was armed. */
  datatype Tag<E> = Tag(event: E, kind: Kind, stamp: nat)

  datatype History<E(==)> = History(q: Queue<E>, tags: map<E, Tag<E>>, clock: nat, fired: seq<Tag<E>>)
  {
    ghost predicate Valid() {
      q.Valid() && Tagged(q.order, tags, clock)
    }
  }

  function FireFront<E(==)>(h: History<E>): (r: History<E>)
    requires h.Valid() && h.q.order != []
    ensures r.Valid()
  {
    h.(q := Pop(h.q), fired := h.fired + [h.tags[h.q.order[0]]])
  }

  function ArmTagged<E(==)>(h: History<E>, a: Request<E>): (r: History<E>)
    requires h.Valid() && a.event !in h.q.order
    ensures r.Valid()
  {
    var tag := Tag(a.event, a.kind, h.clock);
    InsertTagged(h.q.order, h.tags, h.clock, Position(h.q, a.kind), tag);
    History(Arm(h.q, a.kind, a.event), h.tags[a.event := tag], h.clock + 1, h.fired)
  }

  function CancelArmed<E(==)>(h: History<E>, e: E): (r: History<E>)
    requires h.Valid() && e in h.q.order && DisarmKeepsCursor(h.q, e)
    ensures r.Valid()
  {
    h.(q := Disarm(h.q, e))
  }

  /** One step of the loop.  A cancel that would leave the later cursor behind
      is not taken. */
  function Advance<E(==)>(h: History<E>, s: Step<E>): (r: History<E>)
    requires h.Valid()
    ensures r.Valid()
  {
    match s
    case Fire => if h.q.order == [] then h else FireFront(h)
    case Request(a) => if a.event in h.q.order then h else ArmTagged(h, a)
    case Cancel(e) => if e in h.q.order && DisarmKeepsCursor(h.q, e) then CancelArmed(h, e) else h
  }

  function RunSteps<E(==)>(steps: seq<Step<E>>): (r: History<E>)
    ensures r.Valid()
  {
    if steps == [] then History(Queue([], 0, 0), map[], 0, [])
    else Advance(RunSteps(steps[..|steps| - 1]), steps[|steps| - 1])
  }

  /** The tags of the pending events, in queue order. */
  ghost function Pending<E>(h: History<E>): (t: seq<Tag<E>>)
    requires h.Valid()
    ensures |t| == |h.q.order| && forall i :: 0 <= i < |t| ==> t[i] == h.tags[h.q.order[i]]
  {
    seq(|h.q.order|, i requires 0 <= i < |h.q.order| => h.tags[h.q.order[i]])
  }

  /** The later cursor separates the last-armed events from the others; later-armed
      events stand in arming order, last-armed ones in reverse arming order. */
  ghost predicate Ordered<E>(t: seq<Tag<E>>, later: nat) {
    && (forall i :: 0 <= i < |t| ==> (t[i].kind == Last <==> later <= i))
    && InArmingOrder(t)
    && (forall i, j :: later <= i < j < |t| ==> t[i].stamp > t[j].stamp)
  }

  ghost predicate InArmingOrder<E>(t: seq<Tag<E>>) {
    forall i, j :: 0 <= i < j < |t| && t[i].kind == Later && t[j].kind == Later ==> t[i].stamp < t[j].stamp
  }

  ghost predicate Older<E>(t: seq<Tag<E>>, clock: nat) {
    forall i :: 0 <= i < |t| ==> t[i].stamp < clock
  }

  ghost predicate Disciplined<E>(h: History<E>) {
    h.Valid() && WellTagged(h.fired, Pending(h), h.q.later, h.clock)
  }

  ghost predicate WellTagged<E>(fired: seq<Tag<E>>, pending: seq<Tag<E>>, later: nat, clock: nat) {
    Ordered(pending, later) && InArmingOrder(fired + pending) && Older(fired, clock)
  }

  lemma InsertKeepsArmingOrder<E>(t: seq<Tag<E>>, i: nat, e: Tag<E>)
    requires i <= |t| && InArmingOrder(t) && Older(t, e.stamp)
    requires e.kind == Later ==> forall j :: i <= j < |t| ==> t[j].kind == Last
    ensures InArmingOrder(InsertAt(t, i, e))
  {
  }

  lemma InsertKeepsOrdered<E>(t: seq<Tag<E>>, later: nat, i: nat, e: Tag<E>)
    requires later <= |t| && Ordered(t, later) && Older(t, e.stamp)
    requires i <= later && (e.kind != Next ==> i == later)
    ensures Ordered(InsertAt(t, i, e), if e.kind == Last then later else later + 1)
  {
  }

  lemma RemoveKeepsArmingOrder<E>(t: seq<Tag<E>>, i: nat)
    requires i < |t| && InArmingOrder(t)
    ensures InArmingOrder(RemoveAt(t, i))
  {
  }

  lemma RemoveKeepsOrdered<E>(t: seq<Tag<E>>, later: nat, i: nat)
    requires i < |t| && later <= |t| && Ordered(t, later)
    ensures Ordered(RemoveAt(t, i), if i < later then later - 1 else later)
  {
  }

  lemma ConcatInsert<E>(s: seq<E>, t: seq<E>, i: nat, e: E)
    requires i <= |t|
    ensures s + InsertAt(t, i, e) == InsertAt(s + t, |s| + i, e)
  {
  }

  lemma ConcatRemove<E>(s: seq<E>, t: seq<E>, i: nat)
    requires i < |t|
    ensures s + RemoveAt(t, i) == RemoveAt(s + t, |s| + i)
  {
  }

  lemma PendingAfterArm<E>(h: History<E>, a: Request<E>)
    requires h.Valid() && a.event !in h.q.order
    ensures Pending(ArmTagged(h, a)) == InsertAt(Pending(h), Position(h.q, a.kind), Tag(a.event, a.kind, h.clock))
  {
  }

  lemma PendingAfterCancel<E>(h: History<E>, e: E)
    requires h.Valid() && e in h.q.order && DisarmKeepsCursor(h.q, e)
    ensures Pending(CancelArmed(h, e)) == RemoveAt(Pending(h), IndexOf(h.q.order, e))
  {
  }

  lemma InsertKeepsWellTagged<E>(fired: seq<Tag<E>>, t: seq<Tag<E>>, later: nat, i: nat, e: Tag<E>)
    requires later <= |t| && WellTagged(fired, t, later, e.stamp) && Older(t, e.stamp)
    requires i <= later && (e.kind != Next ==> i == later)
    ensures WellTagged(fired, InsertAt(t, i, e), if e.kind == Last then later else later + 1, e.stamp + 1)
  {
    InsertKeepsOrdered(t, later, i, e);
    InsertKeepsArmingOrder(fired + t, |fired| + i, e);
    ConcatInsert(fired, t, i, e);
  }

  lemma RemoveKeepsWellTagged<E>(fired: seq<Tag<E>>, t: seq<Tag<E>>, later: nat, clock: nat, i: nat)
    requires i < |t| && later <= |t| && WellTagged(fired, t, later, clock)
    ensures WellTagged(fired, RemoveAt(t, i), if i < later then later - 1 else later, clock)
  {
    RemoveKeepsOrdered(t, later, i);
    ConcatRemove(fired, t, i);
    RemoveKeepsArmingOrder(fired + t, |fired| + i);
  }

  lemma ArmKeepsDiscipline<E>(h: History<E>, a: Request<E>)
    requires Disciplined(h) && a.event !in h.q.order
    ensures Disciplined(ArmTagged(h, a))
  {
    PendingAfterArm(h, a);
    InsertKeepsWellTagged(h.fired, Pending(h), h.q.later, Position(h.q, a.kind), Tag(a.event, a.kind, h.clock));
  }

  lemma FireKeepsWellTagged<E>(fired: seq<Tag<E>>, t: seq<Tag<E>>, later: nat, clock: nat)
    requires t != [] && later <= |t| && WellTagged(fired, t, later, clock) && Older(t, clock)
    ensures WellTagged(fired + [t[0]], RemoveAt(t, 0), if later == 0 then 0 else later - 1, clock)
  {
    RemoveKeepsOrdered(t, later, 0);
    assert fired + [t[0]] + RemoveAt(t, 0) == fired + t;
  }

  lemma PendingAfterFire<E>(h: History<E>)
    requires h.Valid() && h.q.order != []
    ensures Pending(FireFront(h)) == RemoveAt(Pending(h), 0)
  {
  }

  lemma FireKeepsDiscipline<E>(h: History<E>)
    requires Disciplined(h) && h.q.order != []
    ensures Disciplined(FireFront(h))
  {
    PendingAfterFire(h);
    FireKeepsWellTagged(h.fired, Pending(h), h.q.later, h.clock);
  }

  lemma CancelKeepsDiscipline<E>(h: History<E>, e: E)
    requires Disciplined(h) && e in h.q.order && DisarmKeepsCursor(h.q, e)
    ensures Disciplined(CancelArmed(h, e))
  {
    PendingAfterCancel(h, e);
    RemoveKeepsWellTagged(h.fired, Pending(h), h.q.later, h.clock, IndexOf(h.q.order, e));
  }

  lemma {:induction false} RunIsDisciplined<E>(steps: seq<Step<E>>)
    ensures Disciplined(RunSteps(steps))
  {
    if steps != [] {
      var n := |steps| - 1;
      RunIsDisciplined(steps[..n]);
      var h := RunSteps(steps[..n]);
      match steps[n]
      case Fire => if h.q.order != [] { FireKeepsDiscipline(h); }
      case Request(a) => if a.event !in h.q.order { ArmKeepsDiscipline(h, a); }
      case Cancel(e) => if e in h.q.order && DisarmKeepsCursor(h.q, e) { CancelKeepsDiscipline(h, e); }
    }
  }

  /** Later-armed events fire in the order they were armed, over the whole run. */
  lemma LaterEventsFireInArmingOrder<E>(steps: seq<Step<E>>, i: nat, j: nat)
    requires i < j < |RunSteps(steps).fired|
    requires RunSteps(steps).fired[i].kind == Later && RunSteps(steps).fired[j].kind == Later
    ensures RunSteps(steps).fired[i].stamp < RunSteps(steps).fired[j].stamp
  {
    RunIsDisciplined(steps);
    var h := RunSteps(steps);
    assert (h.fired + Pending(h))[i] == h.fired[i] && (h.fired + Pending(h))[j] == h.fired[j];
  }

  /** A last-armed event fires only when everything else pending is last-armed
      too, and then it is the newest of them. */
  lemma LastEventFiresAloneAndNewestFirst<E>(steps: seq<Step<E>>, e: E)
    requires RunSteps(steps).q.order != []
    requires RunSteps(steps).tags[RunSteps(steps).q.order[0]].kind == Last
    requires e in RunSteps(steps).q.order && e != RunSteps(steps).q.order[0]
    ensures RunSteps(steps).tags[e].kind == Last
    ensures RunSteps(steps).tags[e].stamp < RunSteps(steps).tags[RunSteps(steps).q.order[0]].stamp
  {
    RunIsDisciplined(steps);
    var h := RunSteps(steps);
    var i := IndexOf(h.q.order, e);
    assert Pending(h)[0].kind == Last && Pending(h)[i] == h.tags[e];
  }
}
