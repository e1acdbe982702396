/** Reads and writes that are carried through in several partial transfers. */
module Transfers {
  import opened Sequences
  import opened RingBuffers

  datatype Option<+T> = None | Some(value: T)

  /** What the feeder of a finished transfer is told. */
  datatype Report = Fed(bytes: nat) | Failed

  // ----- writing -----

  /** One answer of an output stream: some bytes taken, would block, or broken. */
  datatype Answer = Taken(count: nat) | Stalled | Broken

  /** A stream that is offered something takes at least one byte and no more than that. */
  function Accepted(count: nat, offered: nat): (n: nat)
    ensures n <= offered && (offered > 0 ==> n > 0)
    ensures 0 < count <= offered ==> n == count
    ensures count > offered ==> n == offered
  {
    if offered == 0 then 0 else if count == 0 then 1 else Min(count, offered)
  }

  /** A write of some data: how much is done, and what has been reported. */
  datatype Writing = Writing(data: seq<Byte>, written: nat, active: bool, sent: seq<Byte>, reports: seq<Report>)

  function StartWrite(data: seq<Byte>): Writing {
    Writing(data, 0, true, [], [])
  }

  function OnAnswer(w: Writing, a: Answer): Writing
    requires w.written <= |w.data|
  {
    if !w.active then w
    else
      match a
      case Stalled => w
      case Broken => w.(active := false, reports := w.reports + [Failed])
      case Taken(count) =>
        var n := Accepted(count, |w.data| - w.written);
        var sent := w.sent + w.data[w.written..w.written + n];
        if n == |w.data| - w.written then
          w.(written := w.written + n, active := false, sent := sent, reports := w.reports + [Fed(n + w.written)])
        else w.(written := w.written + n, sent := sent)
  }

  function OnAnswers(w: Writing, answers: seq<Answer>): (r: Writing)
    requires w.written <= |w.data|
    ensures r.written <= |r.data|
    decreases |answers|
  {
    if answers == [] then w else OnAnswers(OnAnswer(w, answers[0]), answers[1..])
  }

  /** The bytes sent are always the data up to what is done; nothing is reported before
      the end, and then the full length once, or one failure. */
  ghost predicate Proper(w: Writing) {
    && w.written <= |w.data| && w.sent == w.data[..w.written]
    && (w.active ==> w.reports == [])
    && (!w.active ==> (w.written == |w.data| && w.reports == [Fed(|w.data|)]) || w.reports == [Failed])
  }

  /** What the helper does to its task on an answer agrees with what the write comes to. */
  lemma WriteAgrees(w: Writing, a: Answer)
    requires w.written <= |w.data| && w.active
    ensures var q, rest := OnAnswer(w, a), w.data[w.written..];
      && q.data == w.data && q.written <= |q.data|
      && match a
         case Stalled => q == w
         case Broken => !q.active && q.sent == w.sent && q.reports == w.reports + [Failed]
         case Taken(count) =>
           var n := Accepted(count, |rest|);
           && q.written == w.written + n && q.sent == w.sent + rest[..n]
           && q.data[q.written..] == rest[n..] && q.active == (n != |rest|)
           && q.reports == if q.active then w.reports else w.reports + [Fed(n + w.written)]
  {
  }

  lemma WriteIsProper(w: Writing, a: Answer)
    requires Proper(w)
    ensures Proper(OnAnswer(w, a))
  {
    if w.active {
      WriteAgrees(w, a);
      hide OnAnswer, Accepted;
      var v := OnAnswer(w, a);
      if a.Taken? {
        SplitTake(w.data, w.written, v.written - w.written);
      }
    }
  }

  lemma {:induction false} WritesAreProper(w: Writing, answers: seq<Answer>)
    requires Proper(w)
    ensures Proper(OnAnswers(w, answers))
    decreases |answers|
  {
    if answers != [] {
      WriteIsProper(w, answers[0]);
      WritesAreProper(OnAnswer(w, answers[0]), answers[1..]);
    }
  }

  /** As long as the stream takes bytes and does not break, the write gets done. */
  lemma {:induction false} EnoughAnswersFinish(w: Writing, answers: seq<Answer>)
    requires Proper(w) && w.active
    requires forall i :: 0 <= i < |answers| ==> answers[i].Taken?
    requires |answers| >= |w.data| - w.written && |answers| > 0
    ensures var r := OnAnswers(w, answers); r.sent == w.data && r.reports == [Fed(|w.data|)]
    decreases |answers|
  {
    WritesAreProper(w, answers[..1]);
    var v := OnAnswer(w, answers[0]);
    assert answers[..1][0] == answers[0] && answers[..1][1..] == [];
    assert OnAnswers(w, answers[..1]) == OnAnswers(v, []);
    if v.active {
      EnoughAnswersFinish(v, answers[1..]);
    } else {
      DoneStaysDone(v, answers[1..]);
    }
  }

  lemma {:induction false} DoneStaysDone(w: Writing, answers: seq<Answer>)
    requires w.written <= |w.data| && !w.active
    ensures OnAnswers(w, answers) == w
    decreases |answers|
  {
    if answers != [] {
      DoneStaysDone(w, answers[1..]);
    }
  }

  lemma {:induction false} OnAnswersAppend(w: Writing, answers: seq<Answer>, a: Answer)
    requires w.written <= |w.data|
    ensures OnAnswers(w, []) == w && OnAnswers(w, answers + [a]) == OnAnswer(OnAnswers(w, answers), a)
    decreases |answers|
  {
    if answers != [] {
      assert (answers + [a])[1..] == answers[1..] + [a];
      OnAnswersAppend(OnAnswer(w, answers[0]), answers[1..], a);
    } else {
      assert OnAnswers(w, [a]) == OnAnswers(OnAnswer(w, a), []);
    }
  }

  lemma OnAnswersGoOn(w: Writing, answers: seq<Answer>, a: Answer)
    requires w.written <= |w.data| && OnAnswers(w, answers).active
    requires forall k :: 0 <= k < |answers| ==> OnAnswers(w, answers[..k]).active
    ensures forall k :: 0 <= k <= |answers| ==> OnAnswers(w, (answers + [a])[..k]).active
  {
    hide OnAnswers;
    forall k | 0 <= k <= |answers| ensures OnAnswers(w, (answers + [a])[..k]).active {
      assert (answers + [a])[..k] == answers[..k];
      assert answers[..|answers|] == answers;
    }
  }

  /** An output stream that answers according to a plan, and blocks when that is used up. */
  class OutputStream {
    var plan: seq<Answer>
    ghost var sent: seq<Byte>

    method Write(data: seq<Byte>) returns (answer: Answer)
      modifies this
      ensures old(plan) == [] ==> answer == Stalled && plan == []
      ensures old(plan) != [] ==> plan == old(plan)[1..]
      ensures old(plan) != [] ==>
        answer == if old(plan)[0].Taken? then Taken(Accepted(old(plan)[0].count, |data|)) else old(plan)[0]
      ensures sent == if answer.Taken? then old(sent) + data[..answer.count] else old(sent)
    {
      if plan == [] {
        return Stalled;
      }
      answer := if plan[0].Taken? then Taken(Accepted(plan[0].count, |data|)) else plan[0];
      plan := plan[1..];
      if answer.Taken? {
        sent := sent + data[..answer.count];
      }
    }
  }

  /** The part of the buffer still to be written, its length and what is done already. */
  datatype WriteIoTask = WriteIoTask(buffer: seq<Byte>, length: nat, alreadyWritten: nat)

  class WriteTaskAndStepHelper {
    var writeTask: Option<WriteIoTask>
    var writeDone: seq<Report>

    ghost const before: seq<Byte>
    ghost var state: Writing

    /** A request to write all of the data to a stream that has already taken some bytes. */
    constructor (data: seq<Byte>, writer: OutputStream)
      ensures Valid(writer) && state == StartWrite(data) == Writing(data, 0, true, [], []) && before == writer.sent
    {
      writeTask := Some(WriteIoTask(data, |data|, 0));
      writeDone := [];
      before := writer.sent;
      state := StartWrite(data);
    }

    ghost predicate Valid(writer: OutputStream)
      reads this, writer
    {
      && state.written <= |state.data| && writer.sent == before + state.sent && state.reports == writeDone
      && (state.active <==> writeTask.Some?)
      && (writeTask.Some? ==>
            writeTask.value == WriteIoTask(state.data[state.written..], |state.data| - state.written, state.written))
    }

    /** One call of write and what it does to the task. */
    method WriteOnce(writer: OutputStream) returns (stalled: bool, ghost answers: seq<Answer>)
      requires Valid(writer) && writeTask.Some?
      modifies this, writer
      ensures Valid(writer) && old(writer.plan) == answers + writer.plan
      ensures if answers == [] then stalled && state == old(state) && writer.plan == []
              else |answers| == 1 && state == OnAnswer(old(state), answers[0]) && (stalled <==> answers[0] == Stalled)
    {
      hide OnAnswer, Accepted;
      var task := writeTask.value;
      answers := writer.plan[..Min(1, |writer.plan|)];
      assert writer.plan == answers + writer.plan[|answers|..];
      var answer := writer.Write(task.buffer);
      if answers != [] {
        WriteAgrees(state, answers[0]);
        if answer.Taken? {
          Assoc(before, state.sent, task.buffer[..answer.count]);
        }
        state := OnAnswer(state, answers[0]);
      }
      stalled := false;
      match answer
      case Taken(n) =>
        if n == task.length {
          writeDone := writeDone + [Fed(n + task.alreadyWritten)];
          writeTask := None;
        } else {
          writeTask := Some(WriteIoTask(task.buffer[n..], task.length - n, task.alreadyWritten + n));
        }
      case Broken =>
        writeDone := writeDone + [Failed];
        writeTask := None;
      case Stalled =>
        stalled := true;
    }

    /** Writes until the task is done, fails, or the stream blocks. */
    method WriteStep(writer: OutputStream) returns (ghost answers: seq<Answer>)
      requires Valid(writer)
      modifies this, writer
      ensures Valid(writer) && old(writer.plan) == answers + writer.plan
      ensures state == OnAnswers(old(state), answers)
      ensures writeTask.Some? ==> writer.plan == [] || (answers != [] && answers[|answers| - 1] == Stalled)
      ensures forall k :: 0 <= k < |answers| - 1 ==> answers[k] != Stalled
      ensures forall k :: 0 <= k < |answers| ==> OnAnswers(old(state), answers[..k]).active
    {
      assert OnAnswers(state, []) == state;
      hide OnAnswers, OnAnswer;
      answers := [];
      while writeTask.Some?
        invariant Valid(writer) && old(writer.plan) == answers + writer.plan
        invariant state == OnAnswers(old(state), answers)
        invariant forall k :: 0 <= k < |answers| ==> answers[k] != Stalled
        invariant forall k :: 0 <= k < |answers| ==> OnAnswers(old(state), answers[..k]).active
        decreases |writer.plan|
      {
        var stalled, more := WriteOnce(writer);
        if more != [] {
          OnAnswersAppend(old(state), answers, more[0]);
          Assoc(answers, more, writer.plan);
          OnAnswersGoOn(old(state), answers, more[0]);
          answers := answers + [more[0]];
        }
        if stalled {
          break;
        }
      }
    }
  }

  // ----- reading -----

  /** One answer of an input stream: at least one byte, would block, or broken. */
  datatype Arrival = Bytes(first: Byte, more: seq<Byte>) | Blocked | Lost

  /** A stream hands over no more than there is room for. */
  function HandedOver(a: Arrival, room: nat): (d: seq<Byte>)
    requires a.Bytes?
    ensures d <= [a.first] + a.more && |d| <= room && (d != [a.first] + a.more ==> |d| == room)
  {
    ([a.first] + a.more)[..Min(1 + |a.more|, room)]
  }

  /** A read of least to most bytes: what it still needs and may take, what it has got. */
  datatype Reading = Reading(
    least: nat, most: nat, min: nat, max: nat, got: seq<Byte>, active: bool, reports: seq<Report>)

  function StartRead(least: nat, most: nat): Reading {
    Reading(least, most, least, most, [], true, [])
  }

  function OnArrival(r: Reading, a: Arrival): Reading
    requires r.min <= r.max
  {
    if !r.active then r
    else
      match a
      case Blocked => r
      case Lost => r.(active := false, reports := r.reports + [Failed])
      case Bytes(first, more) =>
        var d := HandedOver(a, r.max);
        var n := |d|;
        if n >= r.min && n <= r.max then
          r.(got := r.got + d, active := false, reports := r.reports + [Fed(n + |r.got|)])
        else r.(min := r.min - n, max := r.max - n, got := r.got + d)
  }

  function OnArrivals(r: Reading, arrivals: seq<Arrival>): (q: Reading)
    requires r.min <= r.max
    ensures q.min <= q.max
    decreases |arrivals|
  {
    if arrivals == [] then r else OnArrivals(OnArrival(r, arrivals[0]), arrivals[1..])
  }

  /** While the read goes on, what is needed and allowed plus what is there make up the
      request; at the end the true length is reported once, and it is within the request. */
  ghost predicate ProperRead(r: Reading) {
    && r.min <= r.max
    && (r.active ==> r.reports == [] && r.min + |r.got| == r.least && r.max + |r.got| == r.most)
    && (!r.active ==> (r.reports == [Fed(|r.got|)] && r.least <= |r.got| <= r.most) || r.reports == [Failed])
  }

  lemma {:induction false} ReadsAreProper(r: Reading, arrivals: seq<Arrival>)
    requires ProperRead(r)
    ensures ProperRead(OnArrivals(r, arrivals))
    decreases |arrivals|
  {
    if arrivals != [] {
      ReadsAreProper(OnArrival(r, arrivals[0]), arrivals[1..]);
    }
  }

  /** As long as the stream hands over bytes and does not break, the read gets done. */
  lemma {:induction false} EnoughArrivalsFinish(r: Reading, arrivals: seq<Arrival>)
    requires ProperRead(r) && r.active
    requires forall i :: 0 <= i < |arrivals| ==> arrivals[i].Bytes?
    requires |arrivals| >= r.min && arrivals != []
    ensures var q := OnArrivals(r, arrivals); q.reports == [Fed(|q.got|)] && r.least <= |q.got| <= r.most
    decreases |arrivals|
  {
    var q := OnArrival(r, arrivals[0]);
    if q.active {
      EnoughArrivalsFinish(q, arrivals[1..]);
    } else {
      FinishedStaysFinished(q, arrivals[1..]);
    }
  }

  lemma {:induction false} FinishedStaysFinished(r: Reading, arrivals: seq<Arrival>)
    requires r.min <= r.max && !r.active
    ensures OnArrivals(r, arrivals) == r
    decreases |arrivals|
  {
    if arrivals != [] {
      FinishedStaysFinished(r, arrivals[1..]);
    }
  }

  /** All bytes the stream handed over during a read, in order. */
  function HandedOverBy(r: Reading, arrivals: seq<Arrival>): seq<Byte>
    requires r.min <= r.max
    decreases |arrivals|
  {
    if arrivals == [] then []
    else
      (if r.active && arrivals[0].Bytes? then HandedOver(arrivals[0], r.max) else [])
      + HandedOverBy(OnArrival(r, arrivals[0]), arrivals[1..])
  }

  /** Nothing that arrives is lost, repeated or reordered between the partial reads. */
  lemma {:induction false} ReadKeepsBytes(r: Reading, arrivals: seq<Arrival>)
    requires r.min <= r.max
    ensures OnArrivals(r, arrivals).got == r.got + HandedOverBy(r, arrivals)
    decreases |arrivals|
  {
    if arrivals != [] {
      var q := OnArrival(r, arrivals[0]);
      var d := if r.active && arrivals[0].Bytes? then HandedOver(arrivals[0], r.max) else [];
      assert q.got == r.got + d;
      ReadKeepsBytes(q, arrivals[1..]);
      Assoc(r.got, d, HandedOverBy(q, arrivals[1..]));
    }
  }

  lemma {:induction false} OnArrivalsAppend(r: Reading, arrivals: seq<Arrival>, a: Arrival)
    requires r.min <= r.max
    ensures OnArrivals(r, []) == r && OnArrivals(r, arrivals + [a]) == OnArrival(OnArrivals(r, arrivals), a)
    decreases |arrivals|
  {
    if arrivals != [] {
      assert (arrivals + [a])[1..] == arrivals[1..] + [a];
      OnArrivalsAppend(OnArrival(r, arrivals[0]), arrivals[1..], a);
    } else {
      assert OnArrivals(r, [a]) == OnArrivals(OnArrival(r, a), []);
    }
  }

  lemma OnArrivalsGoOn(r: Reading, arrivals: seq<Arrival>, a: Arrival)
    requires r.min <= r.max && OnArrivals(r, arrivals).active
    requires forall k :: 0 <= k < |arrivals| ==> OnArrivals(r, arrivals[..k]).active
    ensures forall k :: 0 <= k <= |arrivals| ==> OnArrivals(r, (arrivals + [a])[..k]).active
  {
    hide OnArrivals;
    forall k | 0 <= k <= |arrivals| ensures OnArrivals(r, (arrivals + [a])[..k]).active {
      assert (arrivals + [a])[..k] == arrivals[..k];
      assert arrivals[..|arrivals|] == arrivals;
    }
  }

  function Told(a: Arrival, room: nat): Answer {
    match a
    case Bytes(_, _) => Taken(|HandedOver(a, room)|)
    case Blocked => Stalled
    case Lost => Broken
  }

  /** The memory after an arrival. */
  function Stored(memory: seq<Byte>, position: nat, a: Arrival, room: nat): seq<Byte>
    requires position + room <= |memory|
  {
    if a.Bytes? then Overwrite(memory, position, HandedOver(a, room)) else memory
  }

  predicate HoldsAt(memory: seq<Byte>, start: nat, got: seq<Byte>) {
    start + |got| <= |memory| && memory[start..start + |got|] == got
  }

  lemma StoredPrefix(memory: seq<Byte>, start: nat, r: Reading, a: Arrival)
    requires r.active && r.min <= r.max && start + |r.got| + r.max <= |memory|
    requires HoldsAt(memory, start, r.got)
    ensures HoldsAt(Stored(memory, start + |r.got|, a, r.max), start, OnArrival(r, a).got)
  {
  }

  /** What the helper does to its task on an answer agrees with what the read comes to. */
  lemma AnswerAgrees(r: Reading, a: Arrival)
    requires ProperRead(r) && r.active
    ensures var q := OnArrival(r, a);
      && ProperRead(q) && q.least == r.least && q.most == r.most
      && match Told(a, r.max)
         case Stalled => q == r && a == Blocked
         case Broken => !q.active && q.reports == r.reports + [Failed] && a != Blocked
         case Taken(n) =>
           && n <= r.max && a != Blocked
           && (if n >= r.min then !q.active && q.reports == r.reports + [Fed(n + |r.got|)]
               else q.active && q.reports == r.reports && |q.got| == |r.got| + n
                    && q.min == r.min - n && q.max == r.max - n)
  {
  }

  /** An input stream that answers according to a plan, and blocks when that is used up. */
  class InputStream {
    var plan: seq<Arrival>

    /** Stores what it hands over at a position of the memory. */
    method Read(memory: array<Byte>, position: nat, length: nat) returns (answer: Answer)
      requires position + length <= memory.Length
      modifies this, memory
      ensures old(plan) == [] ==> answer == Stalled && plan == [] && memory[..] == old(memory[..])
      ensures old(plan) != [] ==> plan == old(plan)[1..] && answer == Told(old(plan)[0], length)
      ensures old(plan) != [] ==> memory[..] == Stored(old(memory[..]), position, old(plan)[0], length)
    {
      if plan == [] {
        return Stalled;
      }
      var a := plan[0];
      plan := plan[1..];
      match a
      case Blocked => return Stalled;
      case Lost => return Broken;
      case Bytes(_, _) =>
        var d := HandedOver(a, length);
        forall j | 0 <= j < |d| {
          memory[position + j] := d[j];
        }
        return Taken(|d|);
    }
  }

  /** Where the next byte goes, the bytes still needed and allowed, and those already read. */
  datatype ReadIoTask = ReadIoTask(position: nat, minLength: nat, maxLength: nat, alreadyRead: nat)

  class ReadTaskAndStepHelper {
    const memory: array<Byte>
    const start: nat
    var readTask: Option<ReadIoTask>
    var readDone: seq<Report>

    ghost var state: Reading

    /** A request to fill the memory from a position on with least to most bytes. */
    constructor (memory: array<Byte>, start: nat, least: nat, most: nat)
      requires least <= most && start + most <= memory.Length
      ensures Valid() && this.memory == memory && this.start == start
      ensures state == StartRead(least, most) == Reading(least, most, least, most, [], true, [])
    {
      this.memory := memory;
      this.start := start;
      readTask := Some(ReadIoTask(start, least, most, 0));
      readDone := [];
      state := StartRead(least, most);
    }

    ghost predicate Valid()
      reads this, memory
    {
      && ProperRead(state) && state.reports == readDone
      && HoldsAt(memory[..], start, state.got)
      && (state.active <==> readTask.Some?)
      && (state.active ==> start + state.most <= memory.Length)
      && (readTask.Some? ==>
            readTask.value == ReadIoTask(start + |state.got|, state.min, state.max, |state.got|))
    }

    /** One call of read and what it does to the task. */
    method ReadOnce(reader: InputStream) returns (stalled: bool, ghost arrivals: seq<Arrival>)
      requires Valid() && readTask.Some?
      modifies this, reader, memory
      ensures Valid() && old(reader.plan) == arrivals + reader.plan
      ensures if arrivals == [] then stalled && state == old(state) && reader.plan == []
              else |arrivals| == 1 && state == OnArrival(old(state), arrivals[0])
                   && (stalled <==> arrivals[0] == Blocked)
    {
      hide Stored, Told, OnArrival, HoldsAt;
      var task := readTask.value;
      arrivals := reader.plan[..Min(1, |reader.plan|)];
      assert reader.plan == arrivals + reader.plan[|arrivals|..];
      if arrivals != [] {
        StoredPrefix(memory[..], start, state, arrivals[0]);
        AnswerAgrees(state, arrivals[0]);
        state := OnArrival(state, arrivals[0]);
      }
      var answer := reader.Read(memory, task.position, task.maxLength);
      stalled := false;
      match answer
      case Taken(n) =>
        if n >= task.minLength && n <= task.maxLength {
          readDone := readDone + [Fed(n + task.alreadyRead)];
          readTask := None;
        } else {
          readTask := Some(ReadIoTask(task.position + n, task.minLength - n, task.maxLength - n, task.alreadyRead + n));
        }
      case Broken =>
        readDone := readDone + [Failed];
        readTask := None;
      case Stalled =>
        stalled := true;
    }

    /** Reads until the task has enough, fails, or the stream blocks. */
    method ReadStep(reader: InputStream) returns (ghost arrivals: seq<Arrival>)
      requires Valid()
      modifies this, reader, memory
      ensures Valid() && old(reader.plan) == arrivals + reader.plan
      ensures state == OnArrivals(old(state), arrivals)
      ensures readTask.Some? ==> reader.plan == [] || (arrivals != [] && arrivals[|arrivals| - 1] == Blocked)
      ensures forall k :: 0 <= k < |arrivals| - 1 ==> arrivals[k] != Blocked
      ensures forall k :: 0 <= k < |arrivals| ==> OnArrivals(old(state), arrivals[..k]).active
    {
      assert OnArrivals(state, []) == state;
      hide OnArrivals, OnArrival;
      arrivals := [];
      while readTask.Some?
        invariant Valid() && old(reader.plan) == arrivals + reader.plan
        invariant state == OnArrivals(old(state), arrivals)
        invariant forall k :: 0 <= k < |arrivals| ==> arrivals[k] != Blocked
        invariant forall k :: 0 <= k < |arrivals| ==> OnArrivals(old(state), arrivals[..k]).active
        decreases |reader.plan|
      {
        var stalled, more := ReadOnce(reader);
        if more != [] {
          OnArrivalsAppend(old(state), arrivals, more[0]);
          Assoc(arrivals, more, reader.plan);
          OnArrivalsGoOn(old(state), arrivals, more[0]);
          arrivals := arrivals + [more[0]];
        }
        if stalled {
          break;
        }
      }
    }
  }
}
