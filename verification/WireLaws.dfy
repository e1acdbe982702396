/** Decoding accepts exactly what encoding produces, and never changes its mind when
    more bytes arrive. */
module WireLaws {
  import opened Sequences
  import opened RingBuffers
  import opened Wire

  // ----- whatever is accepted is an encoding -----

  lemma {:induction false} ParseIsSound(s: Schema, b: seq<Byte>)
    requires Parse(s, b).Done?
    ensures WellTyped(s, Parse(s, b).value) && b[..Parse(s, b).used] == Encode(s, Parse(s, b).value)
    decreases s, 0, 0
  {
    match s
    case Primitive(scalar, width) =>
      LittleOfNumber(b[..width.Bytes()]);
    case Text =>
      LittleOfNumber(b[..SIZE_BYTES]);
      SplitTake(b, SIZE_BYTES, Number(b[..SIZE_BYTES]));
    case Tuple(members) => ParseMembersIsSound(members, b);
    case Struct(members) => ParseMembersIsSound(members, b);
    case Union(alternatives) =>
      var id := Number(b[..UNION_ID_BYTES]);
      LittleOfNumber(b[..UNION_ID_BYTES]);
      ParseIsSound(alternatives[id], b[UNION_ID_BYTES..]);
      SplitTake(b, UNION_ID_BYTES, Parse(alternatives[id], b[UNION_ID_BYTES..]).used);
    case Array(element) =>
      var n := Number(b[..SIZE_BYTES]);
      LittleOfNumber(b[..SIZE_BYTES]);
      ParseListIsSound(element, n, b[SIZE_BYTES..]);
      SplitTake(b, SIZE_BYTES, ParseList(element, n, b[SIZE_BYTES..]).used);
  }

  lemma {:induction false} ParseMembersIsSound(members: seq<Schema>, b: seq<Byte>)
    requires ParseMembers(members, b).Done?
    ensures var p := ParseMembers(members, b);
            MembersTyped(members, p.value) && b[..p.used] == EncodeMembers(members, p.value)
    decreases members, 1, 0
  {
    if members != [] {
      var p := Parse(members[0], b);
      ParseIsSound(members[0], b);
      ParseMembersIsSound(members[1..], b[p.used..]);
      SplitTake(b, p.used, ParseMembers(members[1..], b[p.used..]).used);
      assert ParseMembers(members, b).value[1..] == ParseMembers(members[1..], b[p.used..]).value;
    }
  }

  lemma {:induction false} ParseListIsSound(element: Schema, n: nat, b: seq<Byte>)
    requires ParseList(element, n, b).Done?
    ensures var p := ParseList(element, n, b);
            |p.value| == n && ListTyped(element, p.value) && b[..p.used] == EncodeList(element, p.value)
    decreases element, 1, n
  {
    if n > 0 {
      var p := Parse(element, b);
      ParseIsSound(element, b);
      ParseListIsSound(element, n - 1, b[p.used..]);
      SplitTake(b, p.used, ParseList(element, n - 1, b[p.used..]).used);
      assert ParseList(element, n, b).value[1..] == ParseList(element, n - 1, b[p.used..]).value;
    }
  }

  // ----- every encoding is accepted, whatever follows it -----

  lemma {:induction false} ParseIsComplete(s: Schema, m: Message, tail: seq<Byte>)
    requires WellTyped(s, m)
    ensures Parse(s, Encode(s, m) + tail) == Done(m, |Encode(s, m)|)
    decreases s, 0, 0
  {
    var b := Encode(s, m) + tail;
    match s
    case Primitive(scalar, width) =>
      NumberOfLittle(ToRaw(scalar, width, m.value), width.Bytes());
      FromToRaw(scalar, width, m.value);
      assert b[..width.Bytes()] == Encode(s, m);
    case Text =>
      NumberOfLittle(|m.bytes|, SIZE_BYTES);
      SplitConcat(Little(|m.bytes|, SIZE_BYTES), m.bytes, tail);
      assert b[SIZE_BYTES..SIZE_BYTES + |m.bytes|] == m.bytes;
    case Tuple(members) => ParseMembersIsComplete(members, m.items, tail);
    case Struct(members) => ParseMembersIsComplete(members, m.items, tail);
    case Union(alternatives) =>
      NumberOfLittle(m.index, UNION_ID_BYTES);
      SplitConcat(Little(m.index, UNION_ID_BYTES), Encode(alternatives[m.index], m.item), tail);
      ParseIsComplete(alternatives[m.index], m.item, tail);
    case Array(element) =>
      NumberOfLittle(|m.items|, SIZE_BYTES);
      SplitConcat(Little(|m.items|, SIZE_BYTES), EncodeList(element, m.items), tail);
      ParseListIsComplete(element, m.items, tail);
  }

  lemma {:induction false} ParseMembersIsComplete(members: seq<Schema>, items: seq<Message>, tail: seq<Byte>)
    requires MembersTyped(members, items)
    ensures ParseMembers(members, EncodeMembers(members, items) + tail) ==
            Done(items, |EncodeMembers(members, items)|)
    decreases members, 1, 0
  {
    if members != [] {
      var head, rest := Encode(members[0], items[0]), EncodeMembers(members[1..], items[1..]);
      assert head + rest + tail == head + (rest + tail);
      ParseIsComplete(members[0], items[0], rest + tail);
      SplitConcat(head, rest, tail);
      ParseMembersIsComplete(members[1..], items[1..], tail);
      assert [items[0]] + items[1..] == items;
    }
  }

  lemma {:induction false} ParseListIsComplete(element: Schema, items: seq<Message>, tail: seq<Byte>)
    requires ListTyped(element, items)
    ensures ParseList(element, |items|, EncodeList(element, items) + tail) == Done(items, |EncodeList(element, items)|)
    decreases element, 1, |items|
  {
    if items != [] {
      var head, rest := Encode(element, items[0]), EncodeList(element, items[1..]);
      assert head + rest + tail == head + (rest + tail);
      ParseIsComplete(element, items[0], rest + tail);
      SplitConcat(head, rest, tail);
      ParseListIsComplete(element, items[1..], tail);
      assert [items[0]] + items[1..] == items;
    }
  }

  /** Canonicity: the bytes in front decide the message, and the message the bytes. */
  lemma ParseIff(s: Schema, b: seq<Byte>, m: Message, used: nat)
    ensures Parse(s, b) == Done(m, used) <==>
            WellTyped(s, m) && used == |Encode(s, m)| && Encode(s, m) <= b
  {
    if Parse(s, b) == Done(m, used) {
      ParseIsSound(s, b);
    }
    if WellTyped(s, m) && used == |Encode(s, m)| && Encode(s, m) <= b {
      ParseIsComplete(s, m, b[used..]);
      assert Encode(s, m) + b[used..] == b;
    }
  }

  // ----- more bytes never change an outcome -----

  lemma {:induction false} ParseIsStable(s: Schema, b: seq<Byte>, more: seq<Byte>)
    requires Parse(s, b) != Short
    ensures Parse(s, b + more) == Parse(s, b)
    decreases s, 0, 0
  {
    match s
    case Primitive(scalar, width) => SplitAppend(b, more, width.Bytes());
    case Text =>
      SplitAppend(b, more, SIZE_BYTES);
      var end := SIZE_BYTES + Number(b[..SIZE_BYTES]);
      assert (b + more)[SIZE_BYTES..end] == b[SIZE_BYTES..end];
    case Tuple(members) => ParseMembersIsStable(members, b, more);
    case Struct(members) => ParseMembersIsStable(members, b, more);
    case Union(alternatives) =>
      SplitAppend(b, more, UNION_ID_BYTES);
      var id := Number(b[..UNION_ID_BYTES]);
      if id < |alternatives| {
        ParseIsStable(alternatives[id], b[UNION_ID_BYTES..], more);
      }
    case Array(element) =>
      SplitAppend(b, more, SIZE_BYTES);
      ParseListIsStable(element, Number(b[..SIZE_BYTES]), b[SIZE_BYTES..], more);
  }

  lemma {:induction false} ParseMembersIsStable(members: seq<Schema>, b: seq<Byte>, more: seq<Byte>)
    requires ParseMembers(members, b) != Short
    ensures ParseMembers(members, b + more) == ParseMembers(members, b)
    decreases members, 1, 0
  {
    if members != [] {
      ParseIsStable(members[0], b, more);
      var p := Parse(members[0], b);
      if p.Done? {
        SplitAppend(b, more, p.used);
        ParseMembersIsStable(members[1..], b[p.used..], more);
      }
    }
  }

  lemma {:induction false} ParseListIsStable(element: Schema, n: nat, b: seq<Byte>, more: seq<Byte>)
    requires ParseList(element, n, b) != Short
    ensures ParseList(element, n, b + more) == ParseList(element, n, b)
    decreases element, 1, n
  {
    if n > 0 {
      ParseIsStable(element, b, more);
      var p := Parse(element, b);
      if p.Done? {
        SplitAppend(b, more, p.used);
        ParseListIsStable(element, n - 1, b[p.used..], more);
      }
    }
  }

  // ----- packets -----

  function Packet(s: Schema, m: Message): seq<Byte>
    requires WellTyped(s, m)
  {
    Little(Size(s, m), SIZE_BYTES) + Encode(s, m)
  }

  function ParsePacket(s: Schema, limit: nat, b: seq<Byte>): (r: Parsed<Message>)
    ensures r.Done? ==> SIZE_BYTES <= r.used <= |b|
  {
    if |b| < SIZE_BYTES then Short
    else
      var length := Number(b[..SIZE_BYTES]);
      if length > limit then Bad
      else CheckLength(s, length, b[SIZE_BYTES..])
  }

  function CheckLength(s: Schema, length: nat, body: seq<Byte>): (r: Parsed<Message>)
    ensures r.Done? ==> SIZE_BYTES <= r.used <= SIZE_BYTES + |body|
  {
    match Parse(s, body)
    case Short => Short
    case Bad => Bad
    case Done(m, used) =>
      ParseIsSound(s, body);
      if Size(s, m) != length then Bad else Done(m, SIZE_BYTES + used)
  }

  lemma PacketIsSound(s: Schema, limit: nat, b: seq<Byte>, m: Message, used: nat)
    requires ParsePacket(s, limit, b) == Done(m, used)
    ensures WellTyped(s, m) && used == |Packet(s, m)| && Packet(s, m) == b[..used] && Size(s, m) <= limit
  {
    LittleOfNumber(b[..SIZE_BYTES]);
    ParseIsSound(s, b[SIZE_BYTES..]);
    SizeIsExact(s, m);
    SplitTake(b, SIZE_BYTES, |Encode(s, m)|);
  }

  lemma PacketIsComplete(s: Schema, limit: nat, m: Message, tail: seq<Byte>)
    requires WellTyped(s, m) && Size(s, m) <= limit < Pow256(SIZE_BYTES)
    ensures ParsePacket(s, limit, Packet(s, m) + tail) == Done(m, |Packet(s, m)|)
  {
    SplitConcat(Little(Size(s, m), SIZE_BYTES), Encode(s, m), tail);
    NumberOfLittle(Size(s, m), SIZE_BYTES);
    ParseIsComplete(s, m, tail);
  }

  /** decode succeeds with m if and only if the bytes start with the packet of m and its
      size is within the limit; it then consumes exactly that packet. */
  lemma PacketIff(s: Schema, limit: nat, b: seq<Byte>, m: Message, used: nat)
    requires limit < Pow256(SIZE_BYTES)
    ensures ParsePacket(s, limit, b) == Done(m, used) <==>
            WellTyped(s, m) && used == |Packet(s, m)| && Packet(s, m) <= b && Size(s, m) <= limit
  {
    hide ParsePacket, Packet, WellTyped, Size;
    if ParsePacket(s, limit, b) == Done(m, used) {
      PacketIsSound(s, limit, b, m, used);
    }
    if WellTyped(s, m) && used == |Packet(s, m)| && Packet(s, m) <= b && Size(s, m) <= limit {
      PacketIsComplete(s, limit, m, b[used..]);
      assert Packet(s, m) + b[used..] == b;
    }
  }

  /** A success or a critical error on some bytes is final. */
  lemma PacketIsStable(s: Schema, limit: nat, b: seq<Byte>, more: seq<Byte>)
    requires ParsePacket(s, limit, b) != Short
    ensures ParsePacket(s, limit, b + more) == ParsePacket(s, limit, b)
  {
    SplitAppend(b, more, SIZE_BYTES);
    if Number(b[..SIZE_BYTES]) <= limit {
      ParseIsStable(s, b[SIZE_BYTES..], more);
    }
  }

  /** On a strict prefix of a packet within the limit, decode asks for more. */
  lemma PartialPacketIsShort(s: Schema, limit: nat, m: Message, n: nat)
    requires WellTyped(s, m) && Size(s, m) <= limit < Pow256(SIZE_BYTES)
    requires n < |Packet(s, m)|
    ensures ParsePacket(s, limit, Packet(s, m)[..n]) == Short
  {
    var b := Packet(s, m);
    PacketIff(s, limit, b, m, |b|);
    assert b[..n] + b[n..] == b;
    if ParsePacket(s, limit, b[..n]) != Short {
      PacketIsStable(s, limit, b[..n], b[n..]);
    }
  }

  /** Two packets that start the same bytes are the same packet. */
  lemma PacketIsUnique(s: Schema, b: seq<Byte>, m1: Message, m2: Message)
    requires WellTyped(s, m1) && WellTyped(s, m2)
    requires Size(s, m1) < Pow256(SIZE_BYTES) && Size(s, m2) < Pow256(SIZE_BYTES)
    requires Packet(s, m1) <= b && Packet(s, m2) <= b
    ensures m1 == m2
  {
    var limit := Pow256(SIZE_BYTES) - 1;
    PacketIff(s, limit, b, m1, |Packet(s, m1)|);
    PacketIff(s, limit, b, m2, |Packet(s, m2)|);
  }
}
