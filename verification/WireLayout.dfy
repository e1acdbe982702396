/** The bytes on the wire, field by field and in figures. */
module WireLayout {
  import opened Sequences
  import opened RingBuffers
  import opened Wire
  import opened WireLaws

  // ----- numbers -----

  lemma WidthsInBytes()
    ensures W1.Bytes() == 1 && W2.Bytes() == 2 && W4.Bytes() == 4 && W8.Bytes() == 8
  {
  }

  lemma PowersInFigures()
    ensures Pow256(1) == 0x100 && Pow256(2) == 0x1_0000 && Pow256(4) == 0x1_0000_0000
    ensures Pow256(8) == 0x1_0000_0000_0000_0000
  {
    assert Pow256(2) == 0x1_0000;
    assert Pow256(4) == 0x1_0000_0000;
    SizesAreWords();
  }

  /** The values of each width: two's complement for signed integers, all bit patterns for
      unsigned ones and floating-point numbers. */
  lemma RangesInFigures(scalar: Scalar, v: int)
    requires scalar != SignedInteger
    ensures InRange(SignedInteger, W1, v) <==> -0x80 <= v < 0x80
    ensures InRange(SignedInteger, W2, v) <==> -0x8000 <= v < 0x8000
    ensures InRange(SignedInteger, W4, v) <==> -0x8000_0000 <= v < 0x8000_0000
    ensures InRange(SignedInteger, W8, v) <==> -0x8000_0000_0000_0000 <= v < 0x8000_0000_0000_0000
    ensures InRange(scalar, W1, v) <==> 0 <= v < 0x100
    ensures InRange(scalar, W2, v) <==> 0 <= v < 0x1_0000
    ensures InRange(scalar, W4, v) <==> 0 <= v < 0x1_0000_0000
    ensures InRange(scalar, W8, v) <==> 0 <= v < 0x1_0000_0000_0000_0000
  {
    PowersInFigures();
  }

  /** What one, two, four and eight bytes stand for, low byte first. */
  function Two(b: seq<Byte>): nat
    requires |b| == 2
  {
    b[0] as nat + 0x100 * b[1] as nat
  }

  function Four(b: seq<Byte>): nat
    requires |b| == 4
  {
    b[0] as nat + 0x100 * b[1] as nat + 0x1_0000 * b[2] as nat + 0x100_0000 * b[3] as nat
  }

  function Eight(b: seq<Byte>): nat
    requires |b| == 8
  {
    b[0] as nat + 0x100 * b[1] as nat + 0x1_0000 * b[2] as nat + 0x100_0000 * b[3] as nat
    + 0x1_0000_0000 * b[4] as nat + 0x100_0000_0000 * b[5] as nat
    + 0x1_0000_0000_0000 * b[6] as nat + 0x100_0000_0000_0000 * b[7] as nat
  }

  lemma NumberInFigures1(b: seq<Byte>)
    requires |b| == 1
    ensures Number(b) == b[0] as nat
  {
    assert b[1..] == [];
  }

  lemma NumberInFigures2(b: seq<Byte>)
    requires |b| == 2
    ensures Number(b) == Two(b)
  {
    NumberInFigures1(b[1..]);
  }

  lemma NumberInFigures4(b: seq<Byte>, rest: seq<Byte>)
    requires |b| == 4
    ensures Number(b + rest) == Four(b) + 0x1_0000_0000 * Number(rest)
    ensures Number(b) == Four(b)
  {
    var all := b + rest;
    assert all[1..][1..] == all[2..] && all[2..][1..] == all[3..] && all[3..][1..] == all[4..] == rest;
    assert Number(all[2..]) == all[2] + 256 * (all[3] + 256 * Number(rest));
    assert Number(all) == all[0] + 256 * (all[1] + 256 * Number(all[2..]));
    NumberInFigures2(b[2..]);
    assert b[1..][1..] == b[2..];
  }

  lemma NumberInFigures8(b: seq<Byte>)
    requires |b| == 8
    ensures Number(b) == Eight(b)
  {
    NumberInFigures4(b[..4], b[4..]);
    NumberInFigures4(b[4..], []);
    assert b[..4] + b[4..] == b;
  }

  lemma BytesOf(scalar: Scalar, width: Width, v: int) returns (b: seq<Byte>)
    requires InRange(scalar, width, v)
    ensures b == Encode(Primitive(scalar, width), Num(v)) && |b| == width.Bytes()
    ensures Number(b) == v % Pow256(width.Bytes())
  {
    hide Pow256, Number, Little;
    b := Encode(Primitive(scalar, width), Num(v));
    NumberOfLittle(ToRaw(scalar, width, v), width.Bytes());
    Wrapped(v, Pow256(width.Bytes()));
  }

  lemma Wrapped(v: int, n: int)
    requires -n <= v < n
    ensures v % n == if v < 0 then v + n else v
  {
    var (q, r) := (v / n, v % n);
    assert v == q * n + r;
    assert q == if v < 0 then -1 else 0;
  }

  /** The bytes of a number: its value modulo the width, low byte first. */
  lemma NumberLayout(scalar: Scalar, v: int)
    ensures InRange(scalar, W1, v) ==>
      var b := Encode(Primitive(scalar, W1), Num(v)); |b| == 1 && b[0] as nat == v % 0x100
    ensures InRange(scalar, W2, v) ==>
      var b := Encode(Primitive(scalar, W2), Num(v)); |b| == 2 && Two(b) == v % 0x1_0000
    ensures InRange(scalar, W4, v) ==>
      var b := Encode(Primitive(scalar, W4), Num(v)); |b| == 4 && Four(b) == v % 0x1_0000_0000
    ensures InRange(scalar, W8, v) ==>
      var b := Encode(Primitive(scalar, W8), Num(v)); |b| == 8 && Eight(b) == v % 0x1_0000_0000_0000_0000
  {
    hide Encode, InRange, Two, Four, Eight, Number, Pow256;
    PowersInFigures();
    if InRange(scalar, W1, v) {
      var b := BytesOf(scalar, W1, v);
      NumberInFigures1(b);
    }
    if InRange(scalar, W2, v) {
      var b := BytesOf(scalar, W2, v);
      NumberInFigures2(b);
    }
    if InRange(scalar, W4, v) {
      var b := BytesOf(scalar, W4, v);
      NumberInFigures4(b, []);
    }
    if InRange(scalar, W8, v) {
      var b := BytesOf(scalar, W8, v);
      NumberInFigures8(b);
    }
  }

  // ----- composites -----

  lemma LittleHolds4(n: nat)
    requires n < 0x1_0000_0000
    ensures Four(Little(n, 4)) == n
  {
    PowersInFigures();
    NumberOfLittle(n, 4);
    NumberInFigures4(Little(n, 4), []);
  }

  lemma LittleHolds8(n: nat)
    requires n < 0x1_0000_0000_0000_0000
    ensures Eight(Little(n, 8)) == n
  {
    PowersInFigures();
    NumberOfLittle(n, 8);
    NumberInFigures8(Little(n, 8));
  }

  /** A string: its length in eight bytes, then its bytes. */
  lemma TextLayout(bytes: seq<Byte>)
    requires WellTyped(Text, Str(bytes))
    ensures var b := Encode(Text, Str(bytes));
      |b| == 8 + |bytes| && Eight(b[..8]) == |bytes| && b[8..] == bytes
  {
    hide Eight, Little, Number;
    PowersInFigures();
    LittleHolds8(|bytes|);
    SplitConcat(Little(|bytes|, 8), bytes, []);
    assert Encode(Text, Str(bytes)) == Little(|bytes|, 8) + bytes + [];
  }

  /** Tuples and structs: member k stands right behind those before it. */
  lemma {:induction false} MembersLayout(members: seq<Schema>, items: seq<Message>, k: nat)
    requires MembersTyped(members, items) && k < |members|
    ensures k < |items| && WellTyped(members[k], items[k])
    ensures MembersTyped(members[..k], items[..k]) && MembersTyped(members[k + 1..], items[k + 1..])
    ensures EncodeMembers(members, items) ==
      EncodeMembers(members[..k], items[..k]) + Encode(members[k], items[k])
      + EncodeMembers(members[k + 1..], items[k + 1..])
    decreases k
  {
    hide Encode, WellTyped;
    var head, rest := Encode(members[0], items[0]), EncodeMembers(members[1..], items[1..]);
    if k == 0 {
      assert EncodeMembers(members[..0], items[..0]) == [];
      assert [] + head == head;
    } else {
      MembersLayout(members[1..], items[1..], k - 1);
      TakeAndDrop(members, k);
      TakeAndDrop(items, k);
      var a, b := EncodeMembers(members[1..][..k - 1], items[1..][..k - 1]), Encode(members[k], items[k]);
      Assoc(head, a, b);
      Assoc(head, a + b, EncodeMembers(members[k + 1..], items[k + 1..]));
    }
  }

  lemma TakeAndDrop<T>(s: seq<T>, k: nat)
    requires 0 < k < |s|
    ensures s[..k][0] == s[0] && s[..k][1..] == s[1..][..k - 1]
    ensures s[1..][k - 1] == s[k] && s[1..][k..] == s[k + 1..]
  {
  }

  lemma TupleLayout(members: seq<Schema>, items: seq<Message>)
    requires MembersTyped(members, items)
    ensures |items| == |members| && (members == [] ==> Encode(Tuple(members), Members(items)) == [])
    ensures Encode(Tuple(members), Members(items)) == EncodeMembers(members, items)
    ensures Encode(Struct(members), Members(items)) == EncodeMembers(members, items)
  {
    MembersCount(members, items);
  }

  lemma {:induction false} MembersCount(members: seq<Schema>, items: seq<Message>)
    requires MembersTyped(members, items)
    ensures |items| == |members|
  {
    if members != [] {
      MembersCount(members[1..], items[1..]);
    }
  }

  /** A union: the index of the alternative in four bytes, then the value. */
  lemma UnionLayout(alternatives: seq<Schema>, index: nat, item: Message)
    requires WellTyped(Union(alternatives), Alternative(index, item))
    ensures var b, inner := Encode(Union(alternatives), Alternative(index, item)), Encode(alternatives[index], item);
      |b| == 4 + |inner| && Four(b[..4]) == index && b[4..] == inner
  {
    hide Four, Little, Number;
    PowersInFigures();
    LittleHolds4(index);
    var inner := Encode(alternatives[index], item);
    SplitConcat(Little(index, 4), inner, []);
    assert Encode(Union(alternatives), Alternative(index, item)) == Little(index, 4) + inner + [];
  }

  /** An array: the number of elements in eight bytes, then the elements. */
  lemma ArrayLayout(element: Schema, items: seq<Message>)
    requires WellTyped(Array(element), List(items))
    ensures var b := Encode(Array(element), List(items));
      |b| == 8 + |EncodeList(element, items)| && Eight(b[..8]) == |items| && b[8..] == EncodeList(element, items)
  {
    hide Eight, Little, Number;
    PowersInFigures();
    LittleHolds8(|items|);
    var inner := EncodeList(element, items);
    SplitConcat(Little(|items|, 8), inner, []);
    assert Encode(Array(element), List(items)) == Little(|items|, 8) + inner + [];
  }

  /** Element k of an array stands right behind those before it. */
  lemma {:induction false} ListLayout(element: Schema, items: seq<Message>, k: nat)
    requires ListTyped(element, items) && k < |items|
    ensures ListTyped(element, items[..k]) && WellTyped(element, items[k]) && ListTyped(element, items[k + 1..])
    ensures EncodeList(element, items) ==
      EncodeList(element, items[..k]) + Encode(element, items[k]) + EncodeList(element, items[k + 1..])
    decreases k
  {
    hide Encode, WellTyped;
    var head := Encode(element, items[0]);
    if k == 0 {
      assert EncodeList(element, items[..0]) == [];
      assert [] + head == head;
    } else {
      ListLayout(element, items[1..], k - 1);
      TakeAndDrop(items, k);
      var a, b := EncodeList(element, items[1..][..k - 1]), Encode(element, items[k]);
      Assoc(head, a, b);
      Assoc(head, a + b, EncodeList(element, items[k + 1..]));
    }
  }

  /** A packet: the length of the message in eight bytes, then the message. */
  lemma PacketLayout(s: Schema, m: Message)
    requires WellTyped(s, m) && |Encode(s, m)| < 0x1_0000_0000_0000_0000
    ensures var b := Packet(s, m);
      |b| == 8 + |Encode(s, m)| && Eight(b[..8]) == |Encode(s, m)| && b[8..] == Encode(s, m)
  {
    hide Eight, Little, Number, Encode;
    SizeIsExact(s, m);
    LittleHolds8(Size(s, m));
    SplitConcat(Little(Size(s, m), 8), Encode(s, m), []);
    assert Packet(s, m) == Little(Size(s, m), 8) + Encode(s, m) + [];
  }

  // ----- whole packets -----

  const UINT16: Schema := Primitive(UnsignedInteger, W2)
  const UINT32: Schema := Primitive(UnsignedInteger, W4)

  lemma LittleInFigures(n: nat)
    ensures n < 0x1_0000 ==> Little(n, 2) == [n % 0x100, n / 0x100]
    ensures n < 0x100 ==> Little(n, 4) == [n, 0, 0, 0] && Little(n, 8) == [n, 0, 0, 0, 0, 0, 0, 0]
  {
    LittleZero();
    LittleBegins(n, 4);
    LittleBegins(n, 8);
    LittleBegins(n, 2);
    LittleBegins(n / 256, 1);
    assert Little(n / 256 / 256, 0) == [];
    hide Little;
  }

  lemma LittleBegins(n: nat, width: nat)
    requires width > 0
    ensures Little(n, width) == [n % 256] + Little(n / 256, width - 1)
  {
  }

  lemma LittleZero()
    ensures Little(0, 3) == [0, 0, 0] && Little(0, 7) == [0, 0, 0, 0, 0, 0, 0]
  {
    assert Little(0, 2) == [0, 0];
    assert Little(0, 4) == [0, 0, 0, 0];
    assert Little(0, 6) == [0, 0, 0, 0, 0, 0];
  }

  /** The packet of the number 5. */
  lemma PrimitivePacket()
    ensures WellTyped(UINT32, Num(5))
    ensures Packet(UINT32, Num(5)) == [4, 0, 0, 0, 0, 0, 0, 0] + [5, 0, 0, 0]
  {
    PowersInFigures();
    LittleInFigures(4);
    LittleInFigures(5);
  }

  /** The packet of a signed -2 in two bytes. */
  lemma SignedPacket()
    ensures WellTyped(Primitive(SignedInteger, W2), Num(-2))
    ensures Packet(Primitive(SignedInteger, W2), Num(-2)) == [2, 0, 0, 0, 0, 0, 0, 0] + [0xfe, 0xff]
  {
    hide Pow256, Little;
    PowersInFigures();
    LittleInFigures(2);
    LittleInFigures(0xfffe);
  }

  /** The packet of the tuple of 2135231 and 43871. */
  lemma TuplePacket()
    ensures var s, m := Tuple([UINT32, UINT16]), Members([Num(2135231), Num(43871)]);
      WellTyped(s, m) && Packet(s, m) == [6, 0, 0, 0, 0, 0, 0, 0] + ([0xbf, 0x94, 0x20, 0x00] + [0x5f, 0xab])
  {
    PowersInFigures();
    LittleInFigures(6);
    LittleInFigures(43871);
    assert Little(2135231, 4) == [0xbf] + ([0x94] + ([0x20] + Little(0, 1)));
    PairEncodes(UINT32, UINT16, Num(2135231), Num(43871));
  }

  const FOO: seq<Byte> := [0x66, 0x6f, 0x6f]
  const TEST_NAME: seq<Byte> := [0x74, 0x65, 0x73, 0x74, 0x5f, 0x6e, 0x61, 0x6d, 0x65]

  /** The packet of the struct of 23, "foo" and "test_name". */
  lemma StructPacket()
    ensures var s, m := Struct([UINT32, Text, Text]), Members([Num(23), Str(FOO), Str(TEST_NAME)]);
      WellTyped(s, m) &&
      Packet(s, m) == [32, 0, 0, 0, 0, 0, 0, 0] +
        ([0x17, 0, 0, 0] + (([3, 0, 0, 0, 0, 0, 0, 0] + FOO) + ([9, 0, 0, 0, 0, 0, 0, 0] + TEST_NAME)))
  {
    PowersInFigures();
    LittleInFigures(32);
    LittleInFigures(23);
    LittleInFigures(3);
    LittleInFigures(9);
    ThreeMembers(UINT32, Text, Text, Num(23), Str(FOO), Str(TEST_NAME));
  }

  lemma ThreeMembers(s: Schema, t: Schema, u: Schema, m: Message, n: Message, o: Message)
    requires WellTyped(s, m) && WellTyped(t, n) && WellTyped(u, o)
    ensures MembersTyped([s, t, u], [m, n, o])
    ensures EncodeMembers([s, t, u], [m, n, o]) == Encode(s, m) + (Encode(t, n) + Encode(u, o))
    ensures SizeMembers([s, t, u], [m, n, o]) == Size(s, m) + Size(t, n) + Size(u, o)
  {
    PairEncodes(t, u, n, o);
    assert [s, t, u][1..] == [t, u] && [m, n, o][1..] == [n, o];
  }

  lemma PairEncodes(s: Schema, t: Schema, m: Message, n: Message)
    requires WellTyped(s, m) && WellTyped(t, n)
    ensures MembersTyped([s, t], [m, n])
    ensures EncodeMembers([s, t], [m, n]) == Encode(s, m) + Encode(t, n)
    ensures SizeMembers([s, t], [m, n]) == Size(s, m) + Size(t, n)
  {
    assert [s, t][1..] == [t] && [m, n][1..] == [n];
    OneMember(t, n);
  }

  lemma OneMember(s: Schema, m: Message)
    requires WellTyped(s, m)
    ensures MembersTyped([s], [m]) && EncodeMembers([s], [m]) == Encode(s, m) && SizeMembers([s], [m]) == Size(s, m)
  {
    var members, items := [s][1..], [m][1..];
    assert MembersTyped(members, items) && EncodeMembers(members, items) == [] && SizeMembers(members, items) == 0;
  }

  const UNION: Schema := Union([UINT32, Text])

  lemma AlternativePacket(index: nat, item: Message)
    requires index < 2 && WellTyped([UINT32, Text][index], item)
    ensures WellTyped(UNION, Alternative(index, item))
    ensures var inner := [UINT32, Text][index];
      Packet(UNION, Alternative(index, item)) ==
      Little(4 + Size(inner, item), 8) + (Little(index, 4) + Encode(inner, item))
  {
    PowersInFigures();
    var m := Alternative(index, item);
    assert UNION.alternatives == [UINT32, Text];
    assert WellTyped(UNION, m);
    assert Size(UNION, m) == 4 + Size([UINT32, Text][index], item);
    assert Encode(UNION, m) == Little(index, 4) + Encode([UINT32, Text][index], item);
  }

  /** The packet of the first alternative with 23. */
  lemma FirstAlternativePacket()
    ensures WellTyped(UNION, Alternative(0, Num(23)))
    ensures Packet(UNION, Alternative(0, Num(23))) ==
            [8, 0, 0, 0, 0, 0, 0, 0] + ([0, 0, 0, 0] + [0x17, 0, 0, 0])
  {
    PowersInFigures();
    AlternativePacket(0, Num(23));
    LittleInFigures(8);
    LittleInFigures(0);
    LittleInFigures(23);
  }

  /** The packet of the second alternative with a string of three bytes. */
  lemma SecondAlternativePacket()
    ensures WellTyped(UNION, Alternative(1, Str(FOO)))
    ensures Packet(UNION, Alternative(1, Str(FOO))) ==
            [15, 0, 0, 0, 0, 0, 0, 0] + ([1, 0, 0, 0] + ([3, 0, 0, 0, 0, 0, 0, 0] + FOO))
  {
    PowersInFigures();
    AlternativePacket(1, Str(FOO));
    LittleInFigures(15);
    LittleInFigures(1);
    LittleInFigures(3);
  }

  /** The packet of an array of two numbers. */
  lemma ArrayPacket()
    ensures var s, m := Array(UINT16), List([Num(4), Num(9)]);
      WellTyped(s, m) &&
      Packet(s, m) == [12, 0, 0, 0, 0, 0, 0, 0] + ([2, 0, 0, 0, 0, 0, 0, 0] + ([4, 0] + [9, 0]))
  {
    PowersInFigures();
    LittleInFigures(12);
    LittleInFigures(2);
    LittleInFigures(4);
    LittleInFigures(9);
    TwoItems(UINT16, Num(4), Num(9));
  }

  lemma TwoItems(s: Schema, m: Message, n: Message)
    requires WellTyped(s, m) && WellTyped(s, n)
    ensures ListTyped(s, [m, n])
    ensures EncodeList(s, [m, n]) == Encode(s, m) + Encode(s, n)
    ensures SizeList(s, [m, n]) == Size(s, m) + Size(s, n)
  {
    assert [m, n][1..] == [n];
    OneItem(s, n);
  }

  lemma OneItem(s: Schema, m: Message)
    requires WellTyped(s, m)
    ensures ListTyped(s, [m]) && EncodeList(s, [m]) == Encode(s, m) && SizeList(s, [m]) == Size(s, m)
  {
    var items := [m][1..];
    assert ListTyped(s, items) && EncodeList(s, items) == [] && SizeList(s, items) == 0;
  }
}
