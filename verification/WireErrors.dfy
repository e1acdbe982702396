/** Which bytes are rejected for good, and which only wait for more. */
module WireErrors {
  import opened Sequences
  import opened RingBuffers
  import opened Wire
  import opened WireLaws
  import opened WireLayout

  /** Some union in the bytes, behind nothing but well-formed encodings, names an alternative
      that its schema does not have. */
  ghost predicate Rejects(s: Schema, b: seq<Byte>)
    decreases s, 0
  {
    match s
    case Primitive(scalar, width) => false
    case Text => false
    case Tuple(members) => RejectsMembers(members, b)
    case Struct(members) => RejectsMembers(members, b)
    case Union(alternatives) =>
      |b| >= 4 && (Four(b[..4]) < |alternatives| ==> Rejects(alternatives[Four(b[..4])], b[4..]))
    case Array(element) => |b| >= 8 && RejectsItems(element, Eight(b[..8]), b[8..])
  }

  /** A member is rejected right behind the encodings of those before it. */
  ghost predicate RejectsMembers(members: seq<Schema>, b: seq<Byte>)
    decreases members, 1
  {
    exists items: seq<Message> :: StartsWithMembers(members, items, b) &&
      Rejects(members[|items|], b[|EncodeMembers(members[..|items|], items)|..])
  }

  ghost predicate StartsWithMembers(members: seq<Schema>, items: seq<Message>, b: seq<Byte>) {
    var k := |items|;
    k < |members| && MembersTyped(members[..k], items) && EncodeMembers(members[..k], items) <= b
  }

  /** An element is rejected right behind the encodings of those before it. */
  ghost predicate RejectsItems(element: Schema, n: nat, b: seq<Byte>)
    decreases element, 1
  {
    exists items: seq<Message> :: StartsWithItems(element, n, items, b) &&
      Rejects(element, b[|EncodeList(element, items)|..])
  }

  ghost predicate StartsWithItems(element: Schema, n: nat, items: seq<Message>, b: seq<Byte>) {
    |items| < n && ListTyped(element, items) && EncodeList(element, items) <= b
  }

  /** A parse ends in a critical error if and only if the bytes are rejected. */
  lemma {:induction false} RejectsIff(s: Schema, b: seq<Byte>)
    ensures Parse(s, b) == Bad <==> Rejects(s, b)
    decreases s, 0, 0
  {
    hide Number, Four, Eight;
    match s
    case Primitive(scalar, width) =>
    case Text =>
    case Tuple(members) => RejectsMembersIff(members, b);
    case Struct(members) => RejectsMembersIff(members, b);
    case Union(alternatives) =>
      if |b| >= 4 {
        NumberInFigures4(b[..4], []);
        if Four(b[..4]) < |alternatives| {
          RejectsIff(alternatives[Four(b[..4])], b[4..]);
        }
      }
    case Array(element) =>
      if |b| >= 8 {
        NumberInFigures8(b[..8]);
        RejectsItemsIff(element, Eight(b[..8]), b[8..]);
      }
  }

  lemma {:induction false} RejectsMembersIff(members: seq<Schema>, b: seq<Byte>)
    ensures ParseMembers(members, b) == Bad <==> RejectsMembers(members, b)
    decreases members, 1, 0
  {
    if members != [] {
      var p := Parse(members[0], b);
      RejectsIff(members[0], b);
      if p.Done? {
        ParseIff(members[0], b, p.value, p.used);
        RejectsMembersIff(members[1..], b[p.used..]);
      }
      MembersUnfold(members, b);
    }
  }

  lemma MembersUnfold(members: seq<Schema>, b: seq<Byte>)
    requires members != []
    ensures RejectsMembers(members, b) <==>
      var p := Parse(members[0], b);
      Rejects(members[0], b) || (p.Done? && RejectsMembers(members[1..], b[p.used..]))
  {
    hide Parse, Rejects, EncodeMembers, Encode, WellTyped;
    NoneBefore(members, b);
    var p := Parse(members[0], b);
    if RejectsMembers(members, b) {
      var items :| StartsWithMembers(members, items, b) &&
        Rejects(members[|items|], b[|EncodeMembers(members[..|items|], items)|..]);
      if items != [] {
        assert [items[0]] + items[1..] == items;
        OneMoreMember(members, items[0], items[1..], b);
      }
    }
    if p.Done? && RejectsMembers(members[1..], b[p.used..]) {
      var rest, tail := members[1..], b[p.used..];
      var items :| StartsWithMembers(rest, items, tail) &&
        Rejects(rest[|items|], tail[|EncodeMembers(rest[..|items|], items)|..]);
      OneMoreMember(members, p.value, items, b);
    }
  }

  lemma NoneBefore(members: seq<Schema>, b: seq<Byte>)
    requires members != []
    ensures StartsWithMembers(members, [], b) && b[|EncodeMembers(members[..0], [])|..] == b
  {
  }

  lemma OneMoreMember(members: seq<Schema>, m: Message, items: seq<Message>, b: seq<Byte>)
    requires members != []
    ensures var all, p := [m] + items, Parse(members[0], b);
      && (StartsWithMembers(members, all, b) <==>
          p.Done? && p.value == m && StartsWithMembers(members[1..], items, b[p.used..]))
      && (StartsWithMembers(members, all, b) ==>
          members[|all|] == members[1..][|items|] &&
          b[|EncodeMembers(members[..|all|], all)|..] ==
          b[p.used..][|EncodeMembers(members[1..][..|items|], items)|..])
  {
    var all := [m] + items;
    FirstIff(members[0], b, m);
    hide Parse, WellTyped, Encode;
    assert all[0] == m && all[1..] == items;
    var k := |all|;
    assert k == |items| + 1;
    if k < |members| {
      var front, rest := members[..k], members[1..];
      assert front[0] == members[0] && front[1..] == rest[..k - 1] && members[k] == rest[k - 1];
      assert MembersTyped(front, all) <==> WellTyped(members[0], m) && MembersTyped(rest[..k - 1], items);
      if MembersTyped(front, all) {
        var head, more := Encode(members[0], m), EncodeMembers(rest[..k - 1], items);
        assert EncodeMembers(front, all) == head + more;
        Behind(b, head, more);
      }
    }
  }

  lemma FirstIff(s: Schema, b: seq<Byte>, m: Message)
    ensures var p := Parse(s, b);
      (p.Done? && p.value == m) <==> (WellTyped(s, m) && Encode(s, m) <= b)
    ensures var p := Parse(s, b);
      p.Done? && p.value == m ==> p.used == |Encode(s, m)|
  {
    var p := Parse(s, b);
    if p.Done? {
      ParseIff(s, b, p.value, p.used);
    }
    if WellTyped(s, m) {
      ParseIff(s, b, m, |Encode(s, m)|);
    }
  }

  lemma Behind(b: seq<Byte>, x: seq<Byte>, y: seq<Byte>)
    ensures x + y <= b <==> x <= b && y <= b[|x|..]
    ensures x + y <= b ==> b[|x + y|..] == b[|x|..][|y|..]
  {
    if x + y <= b {
      assert b[..|x|] == (x + y)[..|x|] == x;
      assert b[|x|..][..|y|] == (x + y)[|x|..] == y;
    }
    if x <= b && y <= b[|x|..] {
      assert b == x + b[|x|..] && b[|x|..] == y + b[|x|..][|y|..];
      Assoc(x, y, b[|x|..][|y|..]);
    }
  }

  lemma {:induction false} RejectsItemsIff(element: Schema, n: nat, b: seq<Byte>)
    ensures ParseList(element, n, b) == Bad <==> RejectsItems(element, n, b)
    decreases element, 1, n
  {
    if n > 0 {
      var p := Parse(element, b);
      RejectsIff(element, b);
      if p.Done? {
        RejectsItemsIff(element, n - 1, b[p.used..]);
      }
      ItemsUnfold(element, n, b);
    }
  }

  lemma ItemsUnfold(element: Schema, n: nat, b: seq<Byte>)
    requires n > 0
    ensures RejectsItems(element, n, b) <==>
      var p := Parse(element, b);
      Rejects(element, b) || (p.Done? && RejectsItems(element, n - 1, b[p.used..]))
  {
    hide Parse, Rejects, EncodeList, Encode, WellTyped;
    NoItemBefore(element, n, b);
    var p := Parse(element, b);
    if RejectsItems(element, n, b) {
      var items :| StartsWithItems(element, n, items, b) && Rejects(element, b[|EncodeList(element, items)|..]);
      if items != [] {
        assert [items[0]] + items[1..] == items;
        OneMoreItem(element, n, items[0], items[1..], b);
      }
    }
    if p.Done? && RejectsItems(element, n - 1, b[p.used..]) {
      var tail := b[p.used..];
      var items :| StartsWithItems(element, n - 1, items, tail) &&
        Rejects(element, tail[|EncodeList(element, items)|..]);
      OneMoreItem(element, n, p.value, items, b);
    }
  }

  lemma NoItemBefore(element: Schema, n: nat, b: seq<Byte>)
    requires n > 0
    ensures StartsWithItems(element, n, [], b) && b[|EncodeList(element, [])|..] == b
  {
  }

  lemma OneMoreItem(element: Schema, n: nat, m: Message, items: seq<Message>, b: seq<Byte>)
    requires n > 0
    ensures var all, p := [m] + items, Parse(element, b);
      && (StartsWithItems(element, n, all, b) <==>
          p.Done? && p.value == m && StartsWithItems(element, n - 1, items, b[p.used..]))
      && (StartsWithItems(element, n, all, b) ==>
          b[|EncodeList(element, all)|..] == b[p.used..][|EncodeList(element, items)|..])
  {
    var all := [m] + items;
    FirstIff(element, b, m);
    hide Parse, WellTyped, Encode;
    assert all[0] == m && all[1..] == items;
    if ListTyped(element, all) {
      assert EncodeList(element, all) == Encode(element, m) + EncodeList(element, items);
      Behind(b, Encode(element, m), EncodeList(element, items));
    }
  }

  /** A parse asks for more bytes if and only if they neither start with an encoding nor are
      rejected. */
  lemma WaitsIff(s: Schema, b: seq<Byte>)
    ensures Parse(s, b) == Short <==> !Rejects(s, b) && !exists m :: WellTyped(s, m) && Encode(s, m) <= b
  {
    RejectsIff(s, b);
    var p := Parse(s, b);
    if p.Done? {
      ParseIsSound(s, b);
    }
    if m :| WellTyped(s, m) && Encode(s, m) <= b {
      ParseIff(s, b, m, |Encode(s, m)|);
    }
  }

  /** A packet is rejected for its length, for its message, or because the message ends
      before or behind the announced length. */
  ghost predicate RejectsPacket(s: Schema, limit: nat, b: seq<Byte>) {
    |b| >= 8 &&
    var length, body := Eight(b[..8]), b[8..];
    || length > limit
    || Rejects(s, body)
    || HasOtherLength(s, length, body)
  }

  ghost predicate HasOtherLength(s: Schema, length: nat, body: seq<Byte>) {
    exists m :: WellTyped(s, m) && Encode(s, m) <= body && |Encode(s, m)| != length
  }

  lemma RejectsPacketIff(s: Schema, limit: nat, b: seq<Byte>)
    ensures ParsePacket(s, limit, b) == Bad <==> RejectsPacket(s, limit, b)
  {
    hide Rejects, HasOtherLength, Eight, Number, Parse;
    if |b| >= 8 {
      NumberInFigures8(b[..8]);
      BodyRejectsIff(s, Number(b[..8]), b[8..]);
    }
  }

  lemma BodyRejectsIff(s: Schema, length: nat, body: seq<Byte>)
    ensures CheckLength(s, length, body) == Bad <==>
      Rejects(s, body) || HasOtherLength(s, length, body)
  {
    RejectsIff(s, body);
    hide Encode, Rejects;
    var p := Parse(s, body);
    if p.Done? {
      ParseIsSound(s, body);
      SizeIsExact(s, p.value);
    }
    if m :| WellTyped(s, m) && Encode(s, m) <= body && |Encode(s, m)| != length {
      ParseIff(s, body, m, |Encode(s, m)|);
      SizeIsExact(s, m);
    }
  }

  /** decode asks for more bytes if and only if they neither start with a packet within the
      limit nor are rejected. */
  lemma PacketWaitsIff(s: Schema, limit: nat, b: seq<Byte>)
    requires limit < 0x1_0000_0000_0000_0000
    ensures ParsePacket(s, limit, b) == Short <==>
      !RejectsPacket(s, limit, b) && !exists m :: WellTyped(s, m) && Packet(s, m) <= b && |Encode(s, m)| <= limit
  {
    hide RejectsPacket, ParsePacket, Packet, Encode, Pow256;
    PowersInFigures();
    RejectsPacketIff(s, limit, b);
    var p := ParsePacket(s, limit, b);
    if p.Done? {
      PacketIff(s, limit, b, p.value, p.used);
      SizeIsExact(s, p.value);
    }
    if m :| WellTyped(s, m) && Packet(s, m) <= b && |Encode(s, m)| <= limit {
      SizeIsExact(s, m);
      PacketIff(s, limit, b, m, |Packet(s, m)|);
    }
  }
}
