/** A ring between an encoder and a decoder is a first-in-first-out queue of messages. */
module MessageQueues {
  import opened Sequences
  import opened RingBuffers
  import opened Wire
  import opened WireLaws
  import opened WireErrors
  import opened ProtoKel

  // ----- one message -----

  /** Whatever rotation the ring is at and whatever the builder held, decoding what was
      encoded gives the message back and leaves the ring empty. */
  method RoundTrip(s: Schema, m: Message, builder: Message, ring: RingBuffer, limit: nat)
    returns (error: Error, r: Message)
    requires ring.Valid() && ring.Contents() == [] && Constructible(s)
    requires WellTyped(s, m) && WellTyped(s, builder)
    requires Size(s, m) <= limit < Pow256(SIZE_BYTES)
    requires SIZE_BYTES + Size(s, m) <= ring.Size()
    modifies ring, ring.buffer
    ensures ring.Valid() && error == NoError && r == m && ring.Contents() == []
  {
    hide RingBuffer.Contents, RingBuffer.Spare, ParsePacket, Packet, Pow256;
    ring.LengthsAddUp();
    error := EncodePacket(s, m, ring);
    PacketIsComplete(s, limit, m, []);
    assert ring.Contents() == Packet(s, m) + [] == Packet(s, m);
    error, r := DecodePacket(s, builder, ring, limit);
  }

  // ----- any interleaving -----

  /** A message whose packet has a length in 64 bits, as every packet in a ring has. */
  ghost predicate Sendable(s: Schema, m: Message) {
    WellTyped(s, m) && SIZE_BYTES + Size(s, m) < Pow256(SIZE_BYTES)
  }

  ghost predicate AllSendable(s: Schema, ms: seq<Message>) {
    forall i :: 0 <= i < |ms| ==> Sendable(s, ms[i])
  }

  function Packets(s: Schema, ms: seq<Message>): seq<Byte>
    requires AllSendable(s, ms)
  {
    if ms == [] then [] else Packet(s, ms[0]) + Packets(s, ms[1..])
  }

  lemma {:induction false} PacketsAppend(s: Schema, ms: seq<Message>, m: Message)
    requires Sendable(s, m) && AllSendable(s, ms)
    ensures Packets(s, ms + [m]) == Packets(s, ms) + Packet(s, m)
  {
    if ms == [] {
      assert Packets(s, [m]) == Packet(s, m) + Packets(s, []);
    } else {
      assert (ms + [m])[1..] == ms[1..] + [m];
      PacketsAppend(s, ms[1..], m);
      Assoc(Packet(s, ms[0]), Packets(s, ms[1..]), Packet(s, m));
    }
  }

  datatype Op = Put(m: Message) | Get

  /** The readable bytes of a ring of some size, the messages encode accepted and the
      messages decode returned. */
  datatype Traffic = Traffic(bytes: seq<Byte>, accepted: seq<Message>, returned: seq<Message>)

  /** One call of encode or decode, as their contracts describe it. */
  ghost function Step(s: Schema, size: nat, limit: nat, t: Traffic, op: Op): Traffic
    requires op.Put? ==> WellTyped(s, op.m)
  {
    match op
    case Put(m) =>
      if |t.bytes| + |Packet(s, m)| > size then t
      else t.(bytes := t.bytes + Packet(s, m), accepted := t.accepted + [m])
    case Get =>
      match ParsePacket(s, limit, t.bytes)
      case Done(m, used) => t.(bytes := t.bytes[used..], returned := t.returned + [m])
      case Short => t
      case Bad => t
  }

  ghost function RunOps(s: Schema, size: nat, limit: nat, ops: seq<Op>): Traffic
    requires forall i :: 0 <= i < |ops| && ops[i].Put? ==> WellTyped(s, ops[i].m)
  {
    if ops == [] then Traffic([], [], [])
    else Step(s, size, limit, RunOps(s, size, limit, ops[..|ops| - 1]), ops[|ops| - 1])
  }

  /** The accepted messages that have not been returned yet. */
  ghost function Waiting(t: Traffic): seq<Message>
    requires |t.returned| <= |t.accepted|
  {
    t.accepted[|t.returned|..]
  }

  /** The ring holds exactly the packets of the waiting messages, and what was returned is
      what was accepted, in the same order. */
  ghost predicate IsQueue(s: Schema, size: nat, limit: nat, t: Traffic) {
    && AllSendable(s, t.accepted)
    && |t.returned| <= |t.accepted| && t.returned == t.accepted[..|t.returned|]
    && t.bytes == Packets(s, Waiting(t)) && |t.bytes| <= size
    && (forall i :: 0 <= i < |t.returned| ==> Size(s, t.returned[i]) <= limit)
  }

  /** What decode finds in front of a queue of packets. */
  lemma FrontPacket(s: Schema, limit: nat, ms: seq<Message>, tail: seq<Byte>)
    requires limit < Pow256(SIZE_BYTES) && ms != [] && AllSendable(s, ms)
    ensures Size(s, ms[0]) <= limit ==>
      ParsePacket(s, limit, Packets(s, ms) + tail) == Done(ms[0], |Packet(s, ms[0])|)
    ensures Size(s, ms[0]) > limit ==> ParsePacket(s, limit, Packets(s, ms) + tail) == Bad
  {
    var rest := Packets(s, ms[1..]) + tail;
    Assoc(Packet(s, ms[0]), Packets(s, ms[1..]), tail);
    if Size(s, ms[0]) <= limit {
      PacketIsComplete(s, limit, ms[0], rest);
    } else {
      NumberOfLittle(Size(s, ms[0]), SIZE_BYTES);
      SplitConcat(Little(Size(s, ms[0]), SIZE_BYTES), Encode(s, ms[0]), rest);
    }
  }

  lemma NothingIsShort(s: Schema, limit: nat)
    ensures ParsePacket(s, limit, []) == Short
  {
  }

  lemma PacketLength(s: Schema, m: Message)
    requires WellTyped(s, m)
    ensures |Packet(s, m)| == SIZE_BYTES + Size(s, m) == 8 + |Encode(s, m)|
  {
    SizeIsExact(s, m);
  }

  lemma PutKeepsQueue(s: Schema, size: nat, limit: nat, t: Traffic, m: Message)
    requires IsQueue(s, size, limit, t) && WellTyped(s, m) && size < VECTOR_LIMIT
    ensures IsQueue(s, size, limit, Step(s, size, limit, t, Put(m)))
    ensures var r := Step(s, size, limit, t, Put(m));
      if |t.bytes| + 8 + |Encode(s, m)| <= size then
        r.accepted == t.accepted + [m] && r.returned == t.returned && |r.bytes| == |t.bytes| + 8 + |Encode(s, m)|
      else r == t
  {
    hide Packet, Packets, WellTyped, Size, Encode, Pow256;
    PacketLength(s, m);
    var r := Step(s, size, limit, t, Put(m));
    if r != t {
      SizesAreWords();
      assert Waiting(r) == Waiting(t) + [m];
      PacketsAppend(s, Waiting(t), m);
    }
  }

  lemma TakeOneMore(ms: seq<Message>, k: nat)
    requires k < |ms|
    ensures ms[k + 1..] == ms[k..][1..] && ms[..k + 1] == ms[..k] + [ms[k]] && ms[k..][0] == ms[k]
  {
  }

  /** What decode makes of the bytes of a queue. */
  lemma QueueIsServed(s: Schema, limit: nat, ms: seq<Message>)
    requires AllSendable(s, ms) && limit < Pow256(SIZE_BYTES)
    ensures var b := Packets(s, ms);
      if ms != [] && Size(s, ms[0]) <= limit then
        ParsePacket(s, limit, b) == Done(ms[0], |Packet(s, ms[0])|) &&
        |Packet(s, ms[0])| <= |b| && b[|Packet(s, ms[0])|..] == Packets(s, ms[1..])
      else !ParsePacket(s, limit, b).Done?
  {
    hide Packet, Size, WellTyped, ParsePacket;
    if ms != [] {
      FrontPacket(s, limit, ms, []);
      assert Packets(s, ms) + [] == Packets(s, ms);
    } else {
      NothingIsShort(s, limit);
    }
  }

  lemma GetKeepsQueue(s: Schema, size: nat, limit: nat, t: Traffic)
    requires IsQueue(s, size, limit, t) && limit < Pow256(SIZE_BYTES)
    ensures IsQueue(s, size, limit, Step(s, size, limit, t, Get))
    ensures var ms, r := Waiting(t), Step(s, size, limit, t, Get);
      if ms != [] && |Encode(s, ms[0])| <= limit then
        r.returned == t.returned + [ms[0]] && r.accepted == t.accepted
      else r == t
  {
    hide Packet, Packets, Size, Encode, WellTyped, ParsePacket;
    QueueIsServed(s, limit, Waiting(t));
    if Waiting(t) != [] {
      PacketLength(s, Waiting(t)[0]);
      TakeOneMore(t.accepted, |t.returned|);
    }
  }

  /** The calls go through one state each, from an empty ring. */
  lemma {:induction false} RunIsStepwise(s: Schema, size: nat, limit: nat, ops: seq<Op>) returns (ts: seq<Traffic>)
    requires forall i :: 0 <= i < |ops| && ops[i].Put? ==> WellTyped(s, ops[i].m)
    ensures |ts| == |ops| + 1 && ts[0] == Traffic([], [], []) && ts[|ops|] == RunOps(s, size, limit, ops)
    ensures forall k :: 0 <= k < |ops| ==> ts[k + 1] == Step(s, size, limit, ts[k], ops[k])
  {
    hide Step;
    ts := [Traffic([], [], [])];
    if ops != [] {
      var before := RunIsStepwise(s, size, limit, ops[..|ops| - 1]);
      ts := before + [RunOps(s, size, limit, ops)];
    }
  }

  /** Over any interleaving of encode and decode on one ring. */
  lemma {:induction false} RunIsQueue(s: Schema, size: nat, limit: nat, ops: seq<Op>)
    requires limit < Pow256(SIZE_BYTES) && size < VECTOR_LIMIT
    requires forall i :: 0 <= i < |ops| && ops[i].Put? ==> WellTyped(s, ops[i].m)
    ensures IsQueue(s, size, limit, RunOps(s, size, limit, ops))
  {
    hide Step, Sendable, WellTyped;
    if ops != [] {
      var n := |ops| - 1;
      RunIsQueue(s, size, limit, ops[..n]);
      match ops[n]
      case Put(m) => PutKeepsQueue(s, size, limit, RunOps(s, size, limit, ops[..n]), m);
      case Get => GetKeepsQueue(s, size, limit, RunOps(s, size, limit, ops[..n]));
    }
  }

  /** A waiting message over the limit stops everything: whatever is called afterwards, no
      message is returned any more. */
  lemma {:induction false} OverLimitBlocks(s: Schema, size: nat, limit: nat, ops: seq<Op>, more: seq<Op>)
    requires limit < Pow256(SIZE_BYTES) && size < VECTOR_LIMIT
    requires forall i :: 0 <= i < |ops| && ops[i].Put? ==> WellTyped(s, ops[i].m)
    requires forall i :: 0 <= i < |more| && more[i].Put? ==> WellTyped(s, more[i].m)
    requires OverLimit(s, limit, RunOps(s, size, limit, ops))
    ensures OverLimit(s, limit, RunOps(s, size, limit, ops + more))
    ensures RunOps(s, size, limit, ops + more).returned == RunOps(s, size, limit, ops).returned
  {
    hide Step, WellTyped, OverLimit;
    if more == [] {
      assert ops + more == ops;
    } else {
      var n := |more| - 1;
      OverLimitBlocks(s, size, limit, ops, more[..n]);
      assert (ops + more)[..|ops + more| - 1] == ops + more[..n];
      RunIsQueue(s, size, limit, ops + more[..n]);
      StepKeepsOverLimit(s, size, limit, RunOps(s, size, limit, ops + more[..n]), more[n]);
    }
  }

  ghost predicate OverLimit(s: Schema, limit: nat, t: Traffic) {
    && |t.returned| < |t.accepted| && AllSendable(s, t.accepted)
    && Size(s, t.accepted[|t.returned|]) > limit
  }

  lemma StepKeepsOverLimit(s: Schema, size: nat, limit: nat, t: Traffic, op: Op)
    requires IsQueue(s, size, limit, t) && OverLimit(s, limit, t) && limit < Pow256(SIZE_BYTES)
    requires size < VECTOR_LIMIT && (op.Put? ==> WellTyped(s, op.m))
    ensures OverLimit(s, limit, Step(s, size, limit, t, op)) && Step(s, size, limit, t, op).returned == t.returned
  {
    hide WellTyped, Size, Packet, ParsePacket;
    match op
    case Put(m) => PutKeepsQueue(s, size, limit, t, m);
    case Get => GetKeepsQueue(s, size, limit, t);
  }

  /** The same on a real ring, from any rotation: the calls do what the steps say. */
  method Exchange(s: Schema, ring: RingBuffer, limit: nat, ops: seq<Op>) returns (returned: seq<Message>)
    requires ring.Valid() && ring.Contents() == [] && Constructible(s) && limit < Pow256(SIZE_BYTES)
    requires forall i :: 0 <= i < |ops| && ops[i].Put? ==> WellTyped(s, ops[i].m)
    modifies ring, ring.buffer
    ensures ring.Valid() && ring.Contents() == RunOps(s, ring.Size(), limit, ops).bytes
    ensures returned == RunOps(s, ring.Size(), limit, ops).returned
  {
    hide RingBuffer.Contents, RingBuffer.Spare, Packet, ParsePacket, WellTyped, Size;
    returned := [];
    var builder := Default(s);
    assert ops[..0] == [];
    for i := 0 to |ops|
      invariant ring.Valid() && ring.Contents() == RunOps(s, ring.Size(), limit, ops[..i]).bytes
      invariant returned == RunOps(s, ring.Size(), limit, ops[..i]).returned
      invariant WellTyped(s, builder)
    {
      assert ops[..i + 1][..i] == ops[..i];
      ring.LengthsAddUp();
      match ops[i]
      case Put(m) =>
        PacketLength(s, m);
        var error := EncodePacket(s, m, ring);
      case Get =>
        var error, m := DecodePacket(s, builder, ring, limit);
        builder := m;
        if !error.Failed() {
          returned := returned + [m];
        }
    }
    assert ops[..|ops|] == ops;
  }

  // ----- receiving a stream -----

  /** Everything decode returns when it is called until it fails, the bytes it leaves and
      the error it fails with. */
  ghost function ReceiveAll(s: Schema, limit: nat, b: seq<Byte>): (seq<Message>, seq<Byte>, Error)
    decreases |b|
  {
    match ParsePacket(s, limit, b)
    case Short => ([], b, Recoverable)
    case Bad => ([], b, Critical)
    case Done(m, used) =>
      var (ms, rest, error) := ReceiveAll(s, limit, b[used..]);
      ([m] + ms, rest, error)
  }

  /** The read loop of a streaming peer: decode into fresh messages until decode fails. */
  method Receive(s: Schema, ring: RingBuffer, limit: nat) returns (received: seq<Message>, error: Error)
    requires ring.Valid() && Constructible(s)
    modifies ring
    ensures ring.Valid() && (received, ring.Contents(), error) == ReceiveAll(s, limit, old(ring.Contents()))
  {
    hide RingBuffer.Contents, ParsePacket;
    received := [];
    ghost var all := ReceiveAll(s, limit, ring.Contents());
    assert received + all.0 == all.0;
    while true
      invariant ring.Valid()
      invariant Prepend(received, ReceiveAll(s, limit, ring.Contents())) == ReceiveAll(s, limit, old(ring.Contents()))
      decreases |ring.Contents()|
    {
      ghost var before := ring.Contents();
      var m;
      error, m := DecodePacket(s, Default(s), ring, limit);
      if error.Failed() {
        assert received + [] == received;
        return;
      }
      PrependStep(received, m, ReceiveAll(s, limit, ring.Contents()));
      received := received + [m];
    }
  }

  ghost function Prepend(ms: seq<Message>, r: (seq<Message>, seq<Byte>, Error)): (seq<Message>, seq<Byte>, Error) {
    (ms + r.0, r.1, r.2)
  }

  lemma PrependStep(ms: seq<Message>, m: Message, r: (seq<Message>, seq<Byte>, Error))
    ensures Prepend(ms, Prepend([m], r)) == Prepend(ms + [m], r)
  {
    Assoc(ms, [m], r.0);
  }

  /** Whatever follows the packets of messages within the limit: the messages are received
      in order if no message follows them, and that rest stays in the ring. */
  lemma {:induction false} StreamEnds(s: Schema, limit: nat, ms: seq<Message>, tail: seq<Byte>)
    requires limit < Pow256(SIZE_BYTES) && AllSendable(s, ms) && !ParsePacket(s, limit, tail).Done?
    requires forall i :: 0 <= i < |ms| ==> WellTyped(s, ms[i]) && Size(s, ms[i]) <= limit
    ensures ReceiveAll(s, limit, Packets(s, ms) + tail) ==
            (ms, tail, if ParsePacket(s, limit, tail) == Bad then Critical else Recoverable)
  {
    hide ParsePacket, Packet, Size, WellTyped;
    if ms == [] {
      assert Packets(s, ms) + tail == tail;
    } else {
      FrontPacket(s, limit, ms, tail);
      PacketLength(s, ms[0]);
      Assoc(Packet(s, ms[0]), Packets(s, ms[1..]), tail);
      assert (Packets(s, ms) + tail)[|Packet(s, ms[0])|..] == Packets(s, ms[1..]) + tail;
      StreamEnds(s, limit, ms[1..], tail);
      assert [ms[0]] + ms[1..] == ms;
    }
  }

  /** A stream of packets within the limit that breaks off inside another one: all complete
      messages are received in order, the broken one waits, and the error is recoverable. */
  lemma StreamIsReceived(s: Schema, limit: nat, ms: seq<Message>, last: Message, n: nat)
    requires limit < Pow256(SIZE_BYTES) && AllSendable(s, ms) && Sendable(s, last) && Size(s, last) <= limit
    requires forall i :: 0 <= i < |ms| ==> WellTyped(s, ms[i]) && Size(s, ms[i]) <= limit
    requires n < |Packet(s, last)|
    ensures ReceiveAll(s, limit, Packets(s, ms) + Packet(s, last)[..n]) == (ms, Packet(s, last)[..n], Recoverable)
  {
    PartialPacketIsShort(s, limit, last, n);
    StreamEnds(s, limit, ms, Packet(s, last)[..n]);
  }

  /** A stream in which rejected bytes follow the packets: all messages before them are
      received in order, the bytes stay in the ring, and the error is critical. */
  lemma RejectedStreamIsReceived(s: Schema, limit: nat, ms: seq<Message>, tail: seq<Byte>)
    requires limit < Pow256(SIZE_BYTES) && AllSendable(s, ms) && RejectsPacket(s, limit, tail)
    requires forall i :: 0 <= i < |ms| ==> WellTyped(s, ms[i]) && Size(s, ms[i]) <= limit
    ensures ReceiveAll(s, limit, Packets(s, ms) + tail) == (ms, tail, Critical)
  {
    RejectsPacketIff(s, limit, tail);
    StreamEnds(s, limit, ms, tail);
  }
}
