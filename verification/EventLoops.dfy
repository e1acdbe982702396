/** The intrusive event queue: a doubly linked list in which every pending event
    knows the slot that points at it, and the loop keeps three moving slots. */
module EventLoops {
  import opened Sequences
  import opened Schedule
  import opened QueueSteps

  /** A place that holds an event pointer: the loop's head or some event's next field. */
  datatype Slot = Head | NextOf(event: Event)

  /** What an event's prev field holds: nothing, or the slot that points at it. */
  datatype Link = Unlinked | From(slot: Slot)

  ghost function EventAt(order: seq<Event>, i: nat): Event? {
    if i < |order| then order[i] else null
  }

  ghost function SlotAt(order: seq<Event>, i: nat): Slot
    requires i <= |order|
  {
    if i == 0 then Head else NextOf(order[i - 1])
  }

  /** Where the slots of a list are after an insertion at position i. */
  lemma SlotAfterInsert(order: seq<Event>, i: nat, e: Event, c: nat)
    requires Distinct(order) && i <= |order| && c <= |order|
    ensures SlotAt(order, c) == SlotAt(order, i) <==> c == i
    ensures c <= i ==> SlotAt(InsertAt(order, i, e), c) == SlotAt(order, c)
    ensures c > i ==> SlotAt(InsertAt(order, i, e), c + 1) == SlotAt(order, c)
    ensures SlotAt(InsertAt(order, i, e), i + 1) == NextOf(e)
  {
  }

  lemma InsertMembers(order: seq<Event>, i: nat, e: Event)
    requires i <= |order|
    ensures forall x {:trigger x in InsertAt(order, i, e)} :: x in InsertAt(order, i, e) <==> x in order || x == e
  {
    var linked := InsertAt(order, i, e);
    assert linked[i] == e;
    forall x | x in order ensures x in linked {
      var k := IndexOf(order, x);
      assert linked[if k < i then k else k + 1] == x;
    }
  }

  /** Where the cursors of a queue are after an arm operation. */
  lemma SlotsAfterArm(q: Queue<Event>, kind: Kind, e: Event)
    requires q.Valid() && e !in q.order
    ensures var r := Arm(q, kind, e);
            && r.order == InsertAt(q.order, Position(q, kind), e)
            && SlotAt(r.order, |r.order|) ==
               (if SlotAt(q.order, |q.order|) == SlotAt(q.order, Position(q, kind))
                then NextOf(e) else SlotAt(q.order, |q.order|))
            && SlotAt(r.order, r.next) == (if kind == Next then NextOf(e) else SlotAt(q.order, q.next))
            && SlotAt(r.order, r.later) ==
               (if kind == Later || (kind == Next && SlotAt(q.order, q.next) == SlotAt(q.order, q.later))
                then NextOf(e) else SlotAt(q.order, q.later))
            && forall x {:trigger x in r.order} :: x in r.order <==> x in q.order || x == e
  {
    SlotAfterInsert(q.order, Position(q, kind), e, q.next);
    SlotAfterInsert(q.order, Position(q, kind), e, q.later);
    SlotAfterInsert(q.order, Position(q, kind), e, |q.order|);
    InsertMembers(q.order, Position(q, kind), e);
  }

  /** Where the slots of a list are after the removal of position i. */
  lemma SlotAfterRemove(order: seq<Event>, i: nat, c: nat)
    requires Distinct(order) && i < |order| && c <= |order|
    ensures SlotAt(order, c) == NextOf(order[i]) <==> c == i + 1
    ensures SlotAt(RemoveAt(order, i), if i < c then c - 1 else c) ==
            if c == i + 1 then SlotAt(order, i) else SlotAt(order, c)
  {
  }

  lemma RemoveMembers(order: seq<Event>, i: nat)
    requires Distinct(order) && i < |order|
    ensures forall x {:trigger x in RemoveAt(order, i)} :: x in RemoveAt(order, i) <==> x in order && x != order[i]
  {
    forall x | x in order && x != order[i] ensures x in RemoveAt(order, i) {
      var k := IndexOf(order, x);
      assert RemoveAt(order, i)[if k < i then k else k - 1] == x;
    }
  }

  /** Where the cursors of a queue are after a disarm. */
  lemma SlotsAfterDisarm(q: Queue<Event>, e: Event)
    requires q.Valid() && e in q.order
    ensures var i, r := IndexOf(q.order, e), Disarm(q, e);
            && r.order == RemoveAt(q.order, i)
            && SlotAt(r.order, |r.order|) ==
               (if SlotAt(q.order, |q.order|) == NextOf(e) then SlotAt(q.order, i) else SlotAt(q.order, |q.order|))
            && SlotAt(r.order, r.next) ==
               (if SlotAt(q.order, q.next) == NextOf(e) then SlotAt(q.order, i) else SlotAt(q.order, q.next))
            && SlotAt(r.order, r.later) ==
               (if SlotAt(q.order, q.later) == NextOf(e) then SlotAt(q.order, i) else SlotAt(q.order, q.later))
            && forall x {:trigger x in r.order} :: x in r.order <==> x in q.order && x != e
  {
    hide SlotAt, RemoveAt, IndexOf, Distinct;
    var i := IndexOf(q.order, e);
    RemoveMembers(q.order, i);
    SlotAfterRemove(q.order, i, |q.order|);
    SlotAfterRemove(q.order, i, q.next);
    SlotAfterRemove(q.order, i, q.later);
  }

  lemma PopIsDisarm(q: Queue<Event>)
    requires q.Valid() && q.order != []
    ensures IndexOf(q.order, q.order[0]) == 0
    ensures Pop(q) == Disarm(q, q.order[0]).(next := 0)
  {
  }

  /** Where the cursors of a queue are after its front event is gone. */
  lemma SlotsAfterPop(q: Queue<Event>)
    requires q.Valid() && q.order != []
    ensures var e, r := q.order[0], Pop(q);
            && r.order == RemoveAt(q.order, 0) && r.next == 0
            && SlotAt(r.order, |r.order|) ==
               (if SlotAt(q.order, |q.order|) == NextOf(e) then Head else SlotAt(q.order, |q.order|))
            && SlotAt(r.order, r.later) ==
               (if SlotAt(q.order, q.later) == NextOf(e) then Head else SlotAt(q.order, q.later))
            && forall x {:trigger x in r.order} :: x in r.order <==> x in q.order && x != e
  {
    assert SlotAt(q.order, 0) == Head;
    hide SlotAt, RemoveAt;
    PopIsDisarm(q);
    SlotsAfterDisarm(q, q.order[0]);
  }

  /** The events a step names belong to the loop. */
  ghost predicate Concerns(step: Step<Event>, events: set<Event>) {
    match step
    case Fire => true
    case Request(request) => request.event in events
    case Cancel(event) => event in events
  }

  ghost function FiredEvents(h: History<Event>): (r: seq<Event>)
    ensures |r| == |h.fired| && forall i :: 0 <= i < |r| ==> r[i] == h.fired[i].event
  {
    seq(|h.fired|, i requires 0 <= i < |h.fired| => h.fired[i].event)
  }

  class Event {
    const loop: EventLoop
    var prev: Link
    var next: Event?

    constructor (loop: EventLoop)
      modifies loop`events
      ensures fresh(this) && this.loop == loop && prev == Unlinked && loop.events == old(loop.events) + {this}
      ensures old(loop.Valid()) ==> loop.Valid()
      ensures old(loop.Stranded()) ==> loop.Stranded()
    {
      this.loop := loop;
      prev := Unlinked;
      next := null;
      new;
      loop.events := loop.events + {this};
    }

    predicate IsArmed()
      reads this
    {
      prev != Unlinked
    }

    /** The stores with which every arm operation links an event in at a slot. */
    method Store(point: Slot)
      requires this in loop.events && point != NextOf(this)
      requires point.NextOf? ==> point.event in loop.events
      requires loop.Load(point) != null ==> loop.Load(point) in loop.events && loop.Load(point) != this
      modifies loop`head, loop.events
      ensures prev == From(point) && next == old(loop.Load(point)) && loop.Load(point) == this
      ensures next != null ==> next.prev == From(NextOf(this))
      ensures point != Head ==> loop.head == old(loop.head)
      ensures forall e {:trigger e.next} :: e in loop.events && e != this && NextOf(e) != point ==>
        e.next == old(e.next)
      ensures forall e {:trigger e.prev} :: e in loop.events && e != this && e != next ==> e.prev == old(e.prev)
    {
      next := loop.Load(point);
      prev := From(point);
      match point {
        case Head => loop.head := this;
        case NextOf(e) => e.next := this;
      }
      if next != null {
        next.prev := From(NextOf(this));
      }
    }

    /** At a slot of the list they insert the event at the position of the slot. */
    method LinkAt(point: Slot, ghost order: seq<Event>, ghost i: nat)
      requires this in loop.events && loop.Linked(order) && Distinct(order) && this !in order
      requires i <= |order| && point == SlotAt(order, i)
      modifies loop`head, loop.events
      ensures loop.Linked(InsertAt(order, i, this)) && IsArmed()
      ensures forall e {:trigger e.prev} :: e in loop.events && e != this ==>
        (e.prev == Unlinked <==> old(e.prev) == Unlinked)
    {
      assert At(i) && At(i - 1) && At(0);
      Store(point);
      ghost var linked := InsertAt(order, i, this);
      forall j | At(j) && 0 <= j < |linked|
        ensures linked[j] in loop.events
        ensures linked[j].next == EventAt(linked, j + 1) && linked[j].prev == From(SlotAt(linked, j))
      {
        if j < i {
          assert At(j) && linked[j] == order[j];
        } else if j > i {
          assert At(j - 1) && linked[j] == order[j - 1];
        }
      }
    }

    /** Links this event in at the next cursor, which moves behind it. */
    method ArmNext()
      requires loop.Valid() && this in loop.events
      modifies loop, loop.events
      ensures loop.Valid() && loop.events == old(loop.events)
      ensures loop.queue == Arm(old(loop.queue), Next, this)
      ensures loop.isRunnable == (old(loop.isRunnable) || !old(IsArmed()))
    {
      if prev == Unlinked {
        ghost var q := loop.queue;
        SlotsAfterArm(q, Next, this);
        var point := loop.nextInsertPoint;
        loop.nextInsertPoint := NextOf(this);
        loop.laterInsertPoint := if loop.laterInsertPoint == point then NextOf(this) else loop.laterInsertPoint;
        loop.tail := if loop.tail == point then NextOf(this) else loop.tail;
        loop.isRunnable := true;
        loop.queue := Arm(q, Next, this);
        LinkAt(point, q.order, q.next);
      }
    }

    /** Links this event in at the later cursor, which moves behind it. */
    method ArmLater()
      requires loop.Valid() && this in loop.events
      modifies loop, loop.events
      ensures loop.Valid() && loop.events == old(loop.events)
      ensures loop.queue == Arm(old(loop.queue), Later, this)
      ensures loop.isRunnable == (old(loop.isRunnable) || !old(IsArmed()))
    {
      if prev == Unlinked {
        ghost var q := loop.queue;
        SlotsAfterArm(q, Later, this);
        var point := loop.laterInsertPoint;
        loop.laterInsertPoint := NextOf(this);
        loop.tail := if loop.tail == point then NextOf(this) else loop.tail;
        loop.isRunnable := true;
        loop.queue := Arm(q, Later, this);
        LinkAt(point, q.order, q.later);
      }
    }

    /** The same stores on a loop whose later cursor is on the slot of a removed event: this
        event is linked in behind the removed one, outside the queue. */
    method ArmLaterStranded()
      requires loop.Stranded() && this in loop.events && !IsArmed() && loop.laterInsertPoint != NextOf(this)
      modifies loop, loop.events
      ensures IsArmed() && loop.events == old(loop.events) && loop.head == old(loop.head)
      ensures prev == old(From(loop.laterInsertPoint)) && old(loop.laterInsertPoint.event).next == this
      ensures !old(loop.laterInsertPoint.event).IsArmed() && loop.laterInsertPoint == NextOf(this)
    {
      var point := loop.laterInsertPoint;
      loop.laterInsertPoint := NextOf(this);
      loop.tail := if loop.tail == point then NextOf(this) else loop.tail;
      loop.isRunnable := true;
      Store(point);
    }

    /** Links this event in at the later cursor, which stays in front of it. */
    method ArmLast()
      requires loop.Valid() && this in loop.events
      modifies loop, loop.events
      ensures loop.Valid() && loop.events == old(loop.events)
      ensures loop.queue == Arm(old(loop.queue), Last, this)
      ensures loop.isRunnable == (old(loop.isRunnable) || !old(IsArmed()))
    {
      if prev == Unlinked {
        ghost var q := loop.queue;
        SlotsAfterArm(q, Last, this);
        var point := loop.laterInsertPoint;
        loop.tail := if loop.tail == point then NextOf(this) else loop.tail;
        loop.isRunnable := true;
        loop.queue := Arm(q, Last, this);
        LinkAt(point, q.order, q.later);
      }
    }

    /** The stores with which an armed event leaves the queue. */
    method TakeOut()
      requires loop.Valid() && this in loop.events && IsArmed()
      modifies loop, loop.events
      ensures !IsArmed() && next == null
      ensures loop.events == old(loop.events) && loop.laterInsertPoint == old(loop.laterInsertPoint)
      ensures forall e {:trigger e.loop} :: e in loop.events ==> e.loop == loop
      ensures loop.queue == Schedule.Disarm(old(loop.queue), this)
      ensures loop.laterInsertPoint != NextOf(this) ==> loop.Valid()
      ensures loop.Linked(loop.queue.order)
    {
      hide RemoveAt, IndexOf, Schedule.Disarm;
      ghost var q := loop.queue;
      SlotsAfterDisarm(q, this);
      ghost var i := IndexOf(q.order, this);
      assert At(i) && prev == From(SlotAt(q.order, i));
      loop.queue := Schedule.Disarm(q, this);
      loop.tail := if loop.tail == NextOf(this) then prev.slot else loop.tail;
      loop.nextInsertPoint := if loop.nextInsertPoint == NextOf(this) then prev.slot else loop.nextInsertPoint;
      loop.Unlink(this, q.order, i);
    }

    /** Takes this event out of the queue, if it is in.  The later cursor is not repaired:
        if it stood right behind this event, it is left on a slot outside the list. */
    method Disarm()
      requires loop.Valid() && this in loop.events
      modifies loop, loop.events
      ensures !IsArmed() && loop.events == old(loop.events) && loop.Linked(loop.queue.order)
      ensures loop.queue == Schedule.Disarm(old(loop.queue), this)
      ensures old(IsArmed()) && old(loop.laterInsertPoint) == NextOf(this) ==>
        loop.Stranded() && loop.laterInsertPoint == NextOf(this) && forall q :: !loop.Represents(q)
      ensures !(old(IsArmed()) && old(loop.laterInsertPoint) == NextOf(this)) ==>
        loop.Valid()
    {
      if prev != Unlinked {
        TakeOut();
        loop.RepresentedCursor(this);
      }
    }
  }

  class EventLoop {
    var head: Event?
    var tail: Slot
    var nextInsertPoint: Slot
    var laterInsertPoint: Slot
    var isRunnable: bool

    ghost var events: set<Event>
    ghost var queue: Queue<Event>

    constructor ()
      ensures Valid() && events == {} && queue == Queue([], 0, 0) && !isRunnable
    {
      head := null;
      tail, nextInsertPoint, laterInsertPoint := Head, Head, Head;
      isRunnable := false;
      events, queue := {}, Queue([], 0, 0);
    }

    ghost predicate Valid()
      reads this, events
    {
      Represents(queue)
    }

    /** The pointers spell out exactly this queue, and no other event is linked. */
    ghost predicate Represents(q: Queue<Event>)
      reads this, events
    {
      && q.Valid()
      && Linked(q.order)
      && (forall e {:trigger e.loop} :: e in events ==> e.loop == this)
      && (forall e {:trigger e in q.order} :: e in events ==> (e in q.order <==> e.prev != Unlinked))
      && tail == SlotAt(q.order, |q.order|)
      && nextInsertPoint == SlotAt(q.order, q.next)
      && laterInsertPoint == SlotAt(q.order, q.later)
    }

    /** The later cursor is on the slot of an event that is not in the queue. */
    ghost predicate Stranded()
      reads this, events
    {
      && (forall e {:trigger e.loop} :: e in events ==> e.loop == this)
      && laterInsertPoint.NextOf? && laterInsertPoint.event in events
      && laterInsertPoint.event.prev == Unlinked && laterInsertPoint.event.next == null
    }

    /** Following next from the head visits exactly these events, and each one's
        prev names the slot that points at it. */
    ghost predicate Linked(order: seq<Event>)
      reads this`head, this`events, events
    {
      && head == EventAt(order, 0)
      && forall i {:trigger At(i)} :: At(i) && 0 <= i < |order| ==>
        && order[i] in events
        && order[i].next == EventAt(order, i + 1)
        && order[i].prev == From(SlotAt(order, i))
    }

    /** The later cursor is never on the slot of an event outside the list. */
    lemma RepresentedCursor(e: Event)
      requires e.prev == Unlinked
      ensures laterInsertPoint == NextOf(e) ==> forall q :: !Represents(q)
    {
      forall q | Represents(q) ensures laterInsertPoint != NextOf(e) {
        assert At(q.later - 1);
      }
    }

    /** The stores with which an armed event leaves the list. */
    method Unlink(event: Event, ghost order: seq<Event>, ghost i: nat)
      requires Linked(order) && Distinct(order) && i < |order| && order[i] == event
      modifies this`head, events
      ensures Linked(RemoveAt(order, i)) && event.prev == Unlinked && event.next == null
      ensures forall e {:trigger e.prev} :: e in events && e != event ==>
        (e.prev == Unlinked <==> old(e.prev) == Unlinked)
    {
      assert At(i) && At(i - 1) && At(i + 1) && At(0);
      match event.prev.slot {
        case Head => head := event.next;
        case NextOf(e) => e.next := event.next;
      }
      if event.next != null {
        event.next.prev := event.prev;
      }
      event.prev := Unlinked;
      event.next := null;
      ghost var rest := RemoveAt(order, i);
      forall j | At(j) && 0 <= j < |rest|
        ensures rest[j] in events
        ensures rest[j].next == EventAt(rest, j + 1) && rest[j].prev == From(SlotAt(rest, j))
      {
        assert At(j + 1) && rest[j] == order[if j < i then j else j + 1];
      }
    }

    /** The part of a turn before the event fires: the front event leaves the queue,
        the next cursor returns to the head, and a later cursor or tail right behind
        the event falls back to the head as well. */
    method PopFront() returns (event: Event?)
      requires Valid() || head == null
      modifies this, events
      ensures old(head) == null ==> event == null && unchanged(this) && unchanged(events)
      ensures old(Valid()) ==> Valid() && events == old(events)
      ensures old(Valid()) && old(queue).order == [] ==> event == null && queue == old(queue)
      ensures old(Valid()) && old(queue).order != [] ==>
        event == old(queue).order[0] && !event.IsArmed() && queue == Pop(old(queue))
    {
      event := head;
      if event != null {
        ghost var q := queue;
        assert At(0) && event == q.order[0];
        assert SlotAt(Pop(q).order, 0) == Head;
        hide RemoveAt, Pop, SlotAt, Linked;
        SlotsAfterPop(q);
        queue := Pop(q);
        nextInsertPoint := Head;
        laterInsertPoint := if laterInsertPoint == NextOf(event) then Head else laterInsertPoint;
        tail := if tail == NextOf(event) then Head else tail;
        Unlink(event, q.order, 0);
      }
    }

    /** One arm request or cancel that a fired event makes. */
    method Act(step: Schedule.Step<Event>)
      requires Valid() && Concerns(step, events)
      modifies this, events
      ensures Valid() && events == old(events) && queue == Schedule.Act(old(queue), step)
    {
      hide Represents, Arm, Schedule.Disarm;
      RepresentsValidQueue();
      match step
      case Fire =>
      case Request(request) =>
        match request.kind {
          case Next => request.event.ArmNext();
          case Later => request.event.ArmLater();
          case Last => request.event.ArmLast();
        }
      case Cancel(event) =>
        CursorBehind(event);
        if laterInsertPoint != NextOf(event) || !event.IsArmed() {
          event.Disarm();
        }
    }

    /** A whole turn, when the fired event does all this; if it only arms events, the turn
        law holds for the pointer structure, and a cancelled event is not pending behind it. */
    method Turn(steps: seq<Schedule.Step<Event>>) returns (ran: bool)
      requires Valid() && forall i :: 0 <= i < |steps| ==> Concerns(steps[i], events)
      modifies this, events
      ensures Valid() && events == old(events) && ran == (old(queue).order != [])
      ensures queue == if ran then ActAll(Pop(old(queue)), steps) else old(queue)
      ensures ran && (forall i :: 0 <= i < |steps| ==> steps[i].Request?) ==>
        queue == AfterTurn(Pop(old(queue)), Effective(Pop(old(queue)).order, Requests(steps)))
      ensures ran ==> forall k :: 0 <= k < |steps| && steps[k].Cancel? && IsFinalCancel(Pop(old(queue)), steps, k) ==>
        LeavesOut(ActAll(Pop(old(queue)), steps[..k] + steps[k + 1..]), queue, steps[k].event)
    {
      hide Represents, Schedule.Act, AfterTurn, Pop, IsFinalCancel, LeavesOut;
      RepresentsValidQueue();
      var event := PopFront();
      if event == null {
        return false;
      }
      ghost var rest := queue;
      for i := 0 to |steps|
        invariant Valid() && events == old(events) && queue == ActAll(rest, steps[..i])
      {
        assert steps[..i + 1][..i] == steps[..i];
        Act(steps[i]);
      }
      assert steps[..|steps|] == steps;
      PopDrops(old(queue));
      if forall i :: 0 <= i < |steps| ==> steps[i].Request? {
        RequestsArm(rest, steps);
        TurnLaw(rest, Requests(steps));
      }
      forall k | 0 <= k < |steps| && steps[k].Cancel? && IsFinalCancel(rest, steps, k)
        ensures LeavesOut(ActAll(rest, steps[..k] + steps[k + 1..]), queue, steps[k].event)
      {
        CancelLeavesOut(rest, steps, k);
      }
      return true;
    }

    lemma RepresentsValidQueue()
      requires Valid()
      ensures queue.Valid() && forall e {:trigger e.loop} :: e in events ==> e.loop == this
    {
    }

    /** One step of a run: a fired event is returned, and an event that has the later cursor
        right behind it is not cancelled. */
    method Step(step: Schedule.Step<Event>, ghost h: History<Event>) returns (fired: seq<Event>)
      requires Valid() && h.Valid() && queue == h.q && Concerns(step, events)
      modifies this, events
      ensures Valid() && events == old(events) && queue == Advance(h, step).q
      ensures FiredEvents(Advance(h, step)) == FiredEvents(h) + fired
    {
      hide Represents;
      fired := [];
      RepresentsValidQueue();
      match step
      case Fire =>
        var event := PopFront();
        if event != null {
          fired := [event];
        }
      case _ => Act(step);
    }

    /** Whole runs of a new loop: the pointers always represent the queue of the run, and
        the events fire in the order of the run. */
    method Replay(steps: seq<Schedule.Step<Event>>) returns (fired: seq<Event>)
      requires Valid() && queue == Queue([], 0, 0)
      requires forall i :: 0 <= i < |steps| ==> Concerns(steps[i], events)
      modifies this, events
      ensures Valid() && events == old(events) && queue == RunSteps(steps).q
      ensures fired == FiredEvents(RunSteps(steps))
    {
      hide Represents, Schedule.Advance;
      fired := [];
      assert steps[..0] == [];
      for k := 0 to |steps|
        invariant Valid() && events == old(events) && queue == RunSteps(steps[..k]).q
        invariant fired == FiredEvents(RunSteps(steps[..k]))
      {
        assert steps[..k + 1][..k] == steps[..k];
        var more := Step(steps[k], RunSteps(steps[..k]));
        fired := fired + more;
      }
      assert steps[..|steps|] == steps;
    }

    lemma HeadIsFront()
      requires Valid() && queue.order != []
      ensures head == queue.order[0]
    {
    }

    lemma HeadOfQueue()
      requires Valid()
      ensures head == null <==> queue.order == []
    {
    }

    lemma CursorBehind(e: Event)
      requires Valid() && e in events
      ensures e.IsArmed() <==> e in queue.order
      ensures e.IsArmed() ==> (laterInsertPoint == NextOf(e) <==> !DisarmKeepsCursor(queue, e))
    {
    }

    function Load(slot: Slot): Event?
      reads this, match slot case Head => {} case NextOf(e) => {e}
    {
      match slot
      case Head => head
      case NextOf(e) => e.next
    }
  }

  /** A loop whose only event was armed later and then disarmed no longer spells out
      any queue: its later cursor stays on the slot of the removed event. */
  method DisarmBreaksLoop() returns (loop: EventLoop, removed: Event)
    ensures fresh(loop) && fresh(loop.events) && removed in loop.events && loop.head == null
    ensures loop.Stranded() && loop.laterInsertPoint == NextOf(removed) && forall q :: !loop.Represents(q)
  {
    loop := new EventLoop();
    removed := new Event(loop);
    removed.ArmLater();
    assert loop.queue.order == [removed];
    removed.Disarm();
    assert loop.queue.order == [];
  }

  /** The next event that is armed later counts as armed, but stands behind the removed one
      and not in the queue: however many turns are made, none fires it. */
  method DisarmLosesEvent(turns: nat) returns (lost: Event, fired: seq<Event?>)
    ensures lost.IsArmed() && lost.loop.head == null
    ensures |fired| == turns && forall k :: 0 <= k < turns ==> fired[k] == null
  {
    var loop, removed := DisarmBreaksLoop();
    lost := new Event(loop);
    lost.ArmLaterStranded();
    fired := [];
    for k := 0 to turns
      invariant lost.IsArmed() && lost.loop == loop && loop.head == null
      invariant |fired| == k && forall i :: 0 <= i < k ==> fired[i] == null
      invariant fresh(loop) && fresh(loop.events)
    {
      var event := loop.PopFront();
      fired := fired + [event];
    }
  }
}
