/** What each step of a turn or a run changes in the queue, and what a cancel comes to. */
module QueueSteps {
  import opened Schedule

  /** One event taken out: every other event keeps its place among the others, and both
      cursors stay between the same events. */
  ghost predicate TakenOut<E>(q: Queue<E>, r: Queue<E>, i: nat)
    requires i < |q.order|
  {
    && r.order == q.order[..i] + q.order[i + 1..]
    && r.next == (if q.next <= i then q.next else q.next - 1)
    && r.later == (if q.later <= i then q.later else q.later - 1)
  }

  /** One event put in at a cursor, in front of it only if the event was armed last. */
  ghost predicate PutIn<E>(q: Queue<E>, r: Queue<E>, a: Request<E>)
    requires q.next <= q.later <= |q.order|
  {
    match a.kind
    case Next =>
      r == Queue(q.order[..q.next] + [a.event] + q.order[q.next..], q.next + 1, q.later + 1)
    case Later =>
      r == Queue(q.order[..q.later] + [a.event] + q.order[q.later..], q.next, q.later + 1)
    case Last =>
      r == Queue(q.order[..q.later] + [a.event] + q.order[q.later..], q.next, q.later)
  }

  /** A cancel takes out its event, unless the later cursor stands right behind it. */
  lemma CancelTakesOut<E>(q: Queue<E>, e: E, i: nat)
    requires q.Valid()
    ensures e !in q.order ==> Act(q, Cancel(e)) == q
    ensures i < |q.order| && q.order[i] == e && q.later == i + 1 ==> Act(q, Cancel(e)) == q
    ensures i < |q.order| && q.order[i] == e && q.later != i + 1 ==>
      TakenOut(q, Act(q, Cancel(e)), i) && e !in Act(q, Cancel(e)).order
  {
    if i < |q.order| && q.order[i] == e {
      assert IndexOf(q.order, e) == i;
    }
  }

  lemma RequestPutsIn<E>(q: Queue<E>, a: Request<E>)
    requires q.Valid()
    ensures var r := Act(q, Step.Request(a)); if a.event in q.order then r == q else PutIn(q, r, a)
  {
    if a.event !in q.order {
      ArmInserts(q, a.kind, a.event);
    }
  }

  /** One step of a run changes the queue as a step of a turn does; only fired events and
      arm requests are recorded. */
  lemma AdvanceActs<E>(h: History<E>, s: Schedule.Step<E>)
    requires h.Valid()
    ensures var r := Advance(h, s);
      match s
      case Fire =>
        if h.q.order == [] then r == h
        else
          && r.q.order == h.q.order[1..] && r.fired == h.fired + [h.tags[h.q.order[0]]]
          && r.tags == h.tags && r.clock == h.clock
      case Request(a) =>
        && r.q == Act(h.q, s) && r.fired == h.fired
        && (a.event in h.q.order ==> r == h)
        && (a.event !in h.q.order ==>
              r.tags == h.tags[a.event := Tag(a.event, a.kind, h.clock)] && r.clock == h.clock + 1)
      case Cancel(e) =>
        r.q == Act(h.q, s) && r == h.(q := r.q)
  {
  }

  /** A run goes through one history per step, from an empty one. */
  lemma {:induction false} RunIsStepwise<E>(steps: seq<Schedule.Step<E>>) returns (hs: seq<History<E>>)
    ensures |hs| == |steps| + 1 && hs[|steps|] == RunSteps(steps)
    ensures hs[0] == History(Queue([], 0, 0), map[], 0, [])
    ensures forall k :: 0 <= k < |steps| ==> hs[k].Valid() && hs[k + 1] == Advance(hs[k], steps[k])
  {
    hide Advance;
    hs := [RunSteps([])];
    if steps != [] {
      var before := RunIsStepwise(steps[..|steps| - 1]);
      hs := before + [RunSteps(steps)];
    }
  }

  // ----- whole turns -----

  predicate Names<E(==)>(s: Schedule.Step<E>, e: E) {
    (s.Request? && s.request.event == e) || (s.Cancel? && s.event == e)
  }

  /** No step behind step k names the event. */
  ghost predicate LastToName<E>(steps: seq<Schedule.Step<E>>, k: nat, e: E) {
    k < |steps| && Names(steps[k], e) && forall j :: k < j < |steps| ==> !Names(steps[j], e)
  }

  lemma UnnamedStep<E>(q: Queue<E>, s: Schedule.Step<E>, e: E)
    requires q.Valid() && !Names(s, e)
    ensures e in Act(q, s).order <==> e in q.order
  {
    match s
    case Fire =>
    case Request(a) =>
      RequestPutsIn(q, a);
    case Cancel(f) =>
      if f in q.order {
        CancelTakesOut(q, f, IndexOf(q.order, f));
      }
  }

  /** Whether an event is pending after a turn: an event that no step names stays as it was;
      otherwise the last step that names it decides. */
  lemma {:induction false} Unnamed<E>(q: Queue<E>, steps: seq<Schedule.Step<E>>, e: E)
    requires q.Valid() && forall j :: 0 <= j < |steps| ==> !Names(steps[j], e)
    ensures e in ActAll(q, steps).order <==> e in q.order
  {
    if steps != [] {
      Unnamed(q, steps[..|steps| - 1], e);
      UnnamedStep(ActAll(q, steps[..|steps| - 1]), steps[|steps| - 1], e);
    }
  }

  lemma {:induction false} LastNamingDecides<E>(q: Queue<E>, steps: seq<Schedule.Step<E>>, k: nat, e: E)
    requires q.Valid() && LastToName(steps, k, e)
    ensures e in ActAll(q, steps).order <==>
      steps[k].Request? || !DisarmKeepsCursor(ActAll(q, steps[..k]), e)
  {
    var n := |steps| - 1;
    var before := ActAll(q, steps[..n]);
    if k == n {
      NamingStep(before, steps[k], e);
    } else {
      LastNamingDecides(q, steps[..n], k, e);
      assert steps[..n][..k] == steps[..k];
      UnnamedStep(before, steps[n], e);
    }
  }

  lemma NamingStep<E>(q: Queue<E>, s: Schedule.Step<E>, e: E)
    requires q.Valid() && Names(s, e)
    ensures e in Act(q, s).order <==> s.Request? || !DisarmKeepsCursor(q, e)
  {
    match s
    case Request(a) =>
      RequestPutsIn(q, a);
    case Cancel(f) =>
      if e in q.order {
        CancelTakesOut(q, e, IndexOf(q.order, e));
      }
  }

  // ----- a cancel and the steps behind it -----

  lemma IndexIs<E>(s: seq<E>, i: nat)
    requires Distinct(s) && i < |s|
    ensures IndexOf(s, s[i]) == i
  {
  }

  lemma InsertThenRemove<E>(s: seq<E>, i: nat, p: nat, f: E)
    requires i < |s| && p <= |s|
    ensures InsertAt(s, p, f)[if i < p then i else i + 1] == s[i]
    ensures InsertAt(RemoveAt(s, i), if i < p then p - 1 else p, f) ==
            RemoveAt(InsertAt(s, p, f), if i < p then i else i + 1)
  {
  }

  lemma RemoveBoth<E>(s: seq<E>, i: nat, j: nat)
    requires i < |s| && j < |s| && i != j
    ensures RemoveAt(s, i)[if i < j then j - 1 else j] == s[j] && RemoveAt(s, j)[if i < j then i else i - 1] == s[i]
    ensures RemoveAt(RemoveAt(s, i), if i < j then j - 1 else j) ==
            RemoveAt(RemoveAt(s, j), if i < j then i else i - 1)
  {
  }

  lemma DisarmAt<E>(q: Queue<E>, i: nat)
    requires q.Valid() && i < |q.order|
    ensures var r := Disarm(q, q.order[i]);
      && r.order == RemoveAt(q.order, i)
      && r.next == (if i < q.next then q.next - 1 else q.next)
      && r.later == (if i < q.later then q.later - 1 else q.later)
    ensures DisarmKeepsCursor(q, q.order[i]) <==> q.later != i + 1
  {
    IndexIs(q.order, i);
  }

  lemma RequestCommutes<E>(q: Queue<E>, a: Request<E>, i: nat)
    requires q.Valid() && i < |q.order| && q.later != i + 1 && a.event !in q.order
    ensures var e, r := q.order[i], Arm(q, a.kind, a.event);
      Arm(Disarm(q, e), a.kind, a.event) == Disarm(r, e) && DisarmKeepsCursor(r, e)
  {
    hide InsertAt, RemoveAt, Disarm, DisarmKeepsCursor, IndexOf;
    var p, r := Position(q, a.kind), Arm(q, a.kind, a.event);
    var k := if i < p then i else i + 1;
    DisarmAt(q, i);
    InsertThenRemove(q.order, i, p, a.event);
    assert r.order == InsertAt(q.order, p, a.event) && r.order[k] == q.order[i];
    DisarmAt(r, k);
    DisarmKeepsOthers(q, q.order[i]);
  }

  lemma CancelsCommute<E>(q: Queue<E>, i: nat, j: nat)
    requires q.Valid() && i < |q.order| && j < |q.order| && i != j && q.later != i + 1
    ensures var e, f := q.order[i], q.order[j];
      Act(Disarm(q, e), Cancel(f)) == Disarm(Act(q, Cancel(f)), e) && DisarmKeepsCursor(Act(q, Cancel(f)), e)
  {
    hide RemoveAt, Disarm, DisarmKeepsCursor, IndexOf;
    var e, f := q.order[i], q.order[j];
    var i', j' := if i < j then i else i - 1, if i < j then j - 1 else j;
    DisarmAt(q, i);
    DisarmAt(q, j);
    RemoveBoth(q.order, i, j);
    assert Disarm(q, e).order[j'] == f && Disarm(q, f).order[i'] == e;
    DisarmAt(Disarm(q, e), j');
    DisarmAt(Disarm(q, f), i');
  }

  /** Taking out an event before a step that does not name it, or after it. */
  lemma DisarmCommutes<E>(q: Queue<E>, s: Schedule.Step<E>, e: E)
    requires q.Valid() && !Names(s, e) && DisarmKeepsCursor(q, e)
    ensures Act(Disarm(q, e), s) == Disarm(Act(q, s), e) && DisarmKeepsCursor(Act(q, s), e)
  {
    UnnamedStep(q, s, e);
    if e in q.order {
      var i := IndexOf(q.order, e);
      DisarmKeepsOthers(q, e);
      hide DisarmKeepsCursor, Disarm, IndexOf;
      match s
      case Fire =>
      case Request(a) =>
        if a.event !in q.order {
          RequestCommutes(q, a, i);
        }
      case Cancel(f) =>
        if f in q.order {
          CancelsCommute(q, i, IndexOf(q.order, f));
        }
    }
  }

  lemma DisarmKeepsOthers<E>(q: Queue<E>, e: E)
    requires q.Valid() && e in q.order
    ensures forall f {:trigger f in q.order} {:trigger f in Disarm(q, e).order} ::
      f != e ==> (f in Disarm(q, e).order <==> f in q.order)
  {
    DisarmRemoves(q, e);
  }

  lemma ActAllUnfolds<E>(q: Queue<E>, steps: seq<Schedule.Step<E>>, s: Schedule.Step<E>)
    requires q.Valid()
    ensures ActAll(q, []) == q && ActAll(q, steps + [s]) == Act(ActAll(q, steps), s)
  {
    assert (steps + [s])[..|steps|] == steps;
  }

  lemma WithoutOne<T>(s: seq<T>, k: nat)
    requires k < |s|
    ensures var n := |s| - 1; s == s[..n] + [s[n]] && s[..n][..k] == s[..k]
    ensures var n := |s| - 1;
      s[..k] + s[k + 1..] == if k == n then s[..k] else s[..n][..k] + s[..n][k + 1..] + [s[n]]
  {
  }

  /** The other events stand as if a cancel had not been made, and so do both cursors. */
  lemma {:induction false} CancelCommutes<E>(q: Queue<E>, steps: seq<Schedule.Step<E>>, k: nat, e: E)
    requires q.Valid() && LastToName(steps, k, e) && steps[k].Cancel?
    requires DisarmKeepsCursor(ActAll(q, steps[..k]), e)
    ensures var without := ActAll(q, steps[..k] + steps[k + 1..]);
      ActAll(q, steps) == Disarm(without, e) && DisarmKeepsCursor(without, e)
  {
    hide ActAll, Disarm, DisarmKeepsCursor;
    var n := |steps| - 1;
    WithoutOne(steps, k);
    ActAllUnfolds(q, steps[..n], steps[n]);
    if k < n {
      var before := steps[..n][..k] + steps[..n][k + 1..];
      CancelCommutes(q, steps[..n], k, e);
      ActAllUnfolds(q, before, steps[n]);
      DisarmCommutes(ActAll(q, before), steps[n], e);
    }
  }

  /** Step k cancels an event that does not have the later cursor right behind it, and no
      later step names that event. */
  ghost predicate IsFinalCancel<E>(q: Queue<E>, steps: seq<Schedule.Step<E>>, k: nat)
    requires q.Valid()
  {
    && k < |steps| && steps[k].Cancel? && LastToName(steps, k, steps[k].event)
    && var before := ActAll(q, steps[..k]);
       forall i :: 0 <= i < |before.order| && before.order[i] == steps[k].event ==> before.later != i + 1
  }

  /** r is w without the event, and nothing else differs. */
  ghost predicate LeavesOut<E>(w: Queue<E>, r: Queue<E>, e: E) {
    && e !in r.order
    && (e !in w.order ==> r == w)
    && forall i :: 0 <= i < |w.order| && w.order[i] == e ==> TakenOut(w, r, i)
  }

  /** A cancelled event is not pending after the turn, and all other events and both cursors
      are where they would be without the cancel. */
  lemma CancelLeavesOut<E>(q: Queue<E>, steps: seq<Schedule.Step<E>>, k: nat)
    requires q.Valid() && IsFinalCancel(q, steps, k)
    ensures LeavesOut(ActAll(q, steps[..k] + steps[k + 1..]), ActAll(q, steps), steps[k].event)
  {
    var e, before, w := steps[k].event, ActAll(q, steps[..k]), ActAll(q, steps[..k] + steps[k + 1..]);
    hide ActAll, TakenOut, Disarm;
    if e in before.order {
      assert before.order[IndexOf(before.order, e)] == e;
    }
    CancelCommutes(q, steps, k, e);
    LastNamingDecides(q, steps, k, e);
    DisarmLeavesOut(w, e);
  }

  lemma DisarmLeavesOut<E>(w: Queue<E>, e: E)
    requires w.Valid()
    ensures LeavesOut(w, Disarm(w, e), e)
  {
    if e in w.order {
      DisarmRemoves(w, e);
      IndexIs(w.order, IndexOf(w.order, e));
    }
  }

  /** The states of a turn, one per step. */
  lemma {:induction false} TurnIsStepwise<E>(q: Queue<E>, steps: seq<Schedule.Step<E>>) returns (qs: seq<Queue<E>>)
    requires q.Valid()
    ensures |qs| == |steps| + 1 && qs[0] == q && qs[|steps|] == ActAll(q, steps)
    ensures forall k :: 0 <= k < |steps| ==> qs[k].Valid() && Acted(qs[k], steps[k], qs[k + 1])
  {
    hide ActAll, Act, Acted;
    qs := [q];
    if steps == [] {
      ActAllUnfolds(q, steps, Fire);
    } else {
      var n := |steps| - 1;
      var before := TurnIsStepwise(q, steps[..n]);
      var r := Act(before[n], steps[n]);
      WithoutOne(steps, n);
      ActAllUnfolds(q, steps[..n], steps[n]);
      StepIsActed(before[n], steps[n]);
      qs := before + [r];
      forall k | 0 <= k < |steps| ensures qs[k].Valid() && Acted(qs[k], steps[k], qs[k + 1]) {
        assert qs[k] == before[k] && (k < n ==> qs[k + 1] == before[k + 1] && steps[..n][k] == steps[k]);
      }
    }
  }

  /** What a single request or cancel does to the queue. */
  ghost predicate Acted<E>(q: Queue<E>, s: Schedule.Step<E>, r: Queue<E>)
    requires q.Valid()
  {
    match s
    case Fire => r == q
    case Request(a) => if a.event in q.order then r == q else PutIn(q, r, a)
    case Cancel(e) =>
      && (e !in q.order ==> r == q)
      && forall i :: 0 <= i < |q.order| && q.order[i] == e ==> if q.later == i + 1 then r == q else TakenOut(q, r, i)
  }

  lemma StepIsActed<E>(q: Queue<E>, s: Schedule.Step<E>)
    requires q.Valid()
    ensures Acted(q, s, Act(q, s))
  {
    match s
    case Fire =>
    case Request(a) => RequestPutsIn(q, a);
    case Cancel(e) =>
      forall i | 0 <= i < |q.order| && q.order[i] == e
        ensures if q.later == i + 1 then Act(q, s) == q else TakenOut(q, Act(q, s), i)
      {
        CancelTakesOut(q, e, i);
      }
  }
}
