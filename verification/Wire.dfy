/** Schemas, messages and their binary form: what ProtoKel writes and accepts. */
module Wire {
  import opened RingBuffers

  // ----- little-endian numbers -----

  function Pow256(k: nat): (r: nat)
    ensures r > 0
  {
    if k == 0 then 1 else 256 * Pow256(k - 1)
  }

  function Little(n: nat, width: nat): (r: seq<Byte>)
    ensures |r| == width
  {
    if width == 0 then [] else [n % 256] + Little(n / 256, width - 1)
  }

  function Number(bytes: seq<Byte>): nat {
    if bytes == [] then 0 else bytes[0] + 256 * Number(bytes[1..])
  }

  lemma {:induction false} NumberOfLittle(n: nat, width: nat)
    requires n < Pow256(width)
    ensures Number(Little(n, width)) == n
  {
    if width > 0 {
      NumberOfLittle(n / 256, width - 1);
      assert Little(n, width)[1..] == Little(n / 256, width - 1);
    }
  }

  lemma LowDigit(b: Byte, n: nat)
    ensures (b + 256 * n) % 256 == b && (b + 256 * n) / 256 == n
  {
  }

  lemma {:induction false} LittleOfNumber(bytes: seq<Byte>)
    ensures Number(bytes) < Pow256(|bytes|) && Little(Number(bytes), |bytes|) == bytes
  {
    if bytes != [] {
      LittleOfNumber(bytes[1..]);
      LowDigit(bytes[0], Number(bytes[1..]));
    }
  }

  /** n >> (8 * i) on an unsigned number. */
  function ShiftRight(n: nat, i: nat): nat {
    if i == 0 then n else ShiftRight(n / 256, i - 1)
  }

  /** The i-th byte is what the shift leaves in the low byte. */
  lemma {:induction false} LittleAt(n: nat, width: nat, i: nat)
    requires i < width
    ensures Little(n, width)[i] == ShiftRight(n, i) % 256
  {
    if i > 0 {
      LittleAt(n / 256, width - 1, i - 1);
    }
  }

  /** Adding a byte shifted by 8 * i bits to the first i bytes. */
  lemma {:induction false} NumberAppend(bytes: seq<Byte>, b: Byte)
    ensures Number(bytes + [b]) == Number(bytes) + b * Pow256(|bytes|)
  {
    if bytes == [] {
      assert Number([b]) == b + 256 * Number([]);
    } else {
      assert (bytes + [b])[1..] == bytes[1..] + [b];
      NumberAppend(bytes[1..], b);
      assert 256 * (b * Pow256(|bytes| - 1)) == b * Pow256(|bytes|);
    }
  }

  /** n << (8 * i) on a number wide enough to hold it. */
  function ShiftLeft(n: nat, i: nat): nat {
    n * Pow256(i)
  }

  /** Bitwise or. */
  function Or(a: nat, b: nat): nat
    decreases a + b
  {
    if a == 0 && b == 0 then 0
    else (if a % 2 == 1 || b % 2 == 1 then 1 else 0) + 2 * Or(a / 2, b / 2)
  }

  function Bit(n: nat, k: nat): nat {
    if k == 0 then n % 2 else Bit(n / 2, k - 1)
  }

  lemma {:induction false} OrIsBitwise(a: nat, b: nat, k: nat)
    ensures Bit(Or(a, b), k) == if Bit(a, k) == 1 || Bit(b, k) == 1 then 1 else 0
  {
    if k > 0 {
      OrIsBitwise(a / 2, b / 2, k - 1);
    }
  }

  function Pow2(k: nat): (r: nat)
    ensures r > 0
  {
    if k == 0 then 1 else 2 * Pow2(k - 1)
  }

  lemma {:induction false} OrZero(b: nat)
    ensures Or(0, b) == b
  {
    if b > 0 {
      OrZero(b / 2);
    }
  }

  lemma Halves(b: nat, p: nat)
    ensures b * (2 * p) == 2 * (b * p) && (b * (2 * p)) % 2 == 0 && (b * (2 * p)) / 2 == b * p
  {
  }

  /** Setting bits where all bits are zero is addition. */
  lemma {:induction false} OrDisjoint(a: nat, b: nat, k: nat)
    requires a < Pow2(k)
    ensures Or(a, b * Pow2(k)) == a + b * Pow2(k)
    decreases k
  {
    if k == 0 {
      OrZero(b);
    } else {
      OrDisjoint(a / 2, b, k - 1);
      Halves(b, Pow2(k - 1));
    }
  }

  lemma Pow2Byte(k: nat)
    ensures Pow2(k + 8) == 256 * Pow2(k)
  {
    assert Pow2(k + 2) == 4 * Pow2(k);
    assert Pow2(k + 4) == 4 * Pow2(k + 2);
    assert Pow2(k + 6) == 4 * Pow2(k + 4);
  }

  lemma {:induction false} Pow256IsPow2(i: nat)
    ensures Pow256(i) == Pow2(8 * i)
  {
    if i > 0 {
      Pow256IsPow2(i - 1);
      Pow2Byte(8 * i - 8);
    }
  }

  /** The decoding loop: or-ing in one more byte, shifted behind the bytes before it, gives
      the number of one byte more. */
  lemma OrAppends(bytes: seq<Byte>, b: Byte)
    ensures Or(Number(bytes), ShiftLeft(b, |bytes|)) == Number(bytes + [b])
  {
    LittleOfNumber(bytes);
    Pow256IsPow2(|bytes|);
    OrDisjoint(Number(bytes), b, 8 * |bytes|);
    NumberAppend(bytes, b);
  }

  // ----- schemas and messages -----

  datatype Width = W1 | W2 | W4 | W8 {
    function Bytes(): nat {
      match this
      case W1 => 1
      case W2 => 2
      case W4 => 4
      case W8 => 8
    }
  }

  datatype Scalar = SignedInteger | UnsignedInteger | FloatingPoint

  /** Struct members are addressed by their index; a float is its bit pattern. */
  datatype Schema =
    | Primitive(scalar: Scalar, width: Width)
    | Text
    | Tuple(members: seq<Schema>)
    | Struct(members: seq<Schema>)
    | Union(alternatives: seq<Schema>)
    | Array(element: Schema)

  datatype Message =
    | Num(value: int)
    | Str(bytes: seq<Byte>)
    | Members(items: seq<Message>)
    | Alternative(index: nat, item: Message)
    | List(items: seq<Message>)

  predicate InRange(scalar: Scalar, width: Width, v: int) {
    if scalar == SignedInteger then 0 <= 2 * v + Pow256(width.Bytes()) && 2 * v < Pow256(width.Bytes())
    else 0 <= v < Pow256(width.Bytes())
  }

  /** The unsigned number with the same bits, two's complement for signed integers. */
  function ToRaw(scalar: Scalar, width: Width, v: int): (raw: nat)
    requires InRange(scalar, width, v)
    ensures raw < Pow256(width.Bytes())
  {
    if v < 0 then v + Pow256(width.Bytes()) else v
  }

  function FromRaw(scalar: Scalar, width: Width, raw: nat): (v: int)
    requires raw < Pow256(width.Bytes())
    ensures InRange(scalar, width, v) && ToRaw(scalar, width, v) == raw
  {
    var v := if scalar == SignedInteger && 2 * raw >= Pow256(width.Bytes()) then raw - Pow256(width.Bytes()) else raw;
    assert InRange(scalar, width, v);
    v
  }

  lemma FromToRaw(scalar: Scalar, width: Width, v: int)
    requires InRange(scalar, width, v)
    ensures FromRaw(scalar, width, ToRaw(scalar, width, v)) == v
  {
  }

  const SIZE_BYTES: nat := 8
  const UNION_ID_BYTES: nat := 4

  lemma SizesAreWords()
    ensures Pow256(SIZE_BYTES) == WORD
  {
    assert Pow256(2) == 0x1_0000;
    assert Pow256(4) == 0x1_0000_0000;
    assert Pow256(6) == 0x1_0000_0000_0000;
  }

  predicate WellTyped(s: Schema, m: Message)
    decreases s, 0, 0
  {
    match s
    case Primitive(scalar, width) => m.Num? && InRange(scalar, width, m.value)
    case Text => m.Str? && |m.bytes| < Pow256(SIZE_BYTES)
    case Tuple(members) => m.Members? && MembersTyped(members, m.items)
    case Struct(members) => m.Members? && MembersTyped(members, m.items)
    case Union(alternatives) =>
      m.Alternative? && m.index < |alternatives| && m.index < Pow256(UNION_ID_BYTES)
      && WellTyped(alternatives[m.index], m.item)
    case Array(element) => m.List? && |m.items| < Pow256(SIZE_BYTES) && ListTyped(element, m.items)
  }

  predicate MembersTyped(members: seq<Schema>, items: seq<Message>)
    decreases members, 1, 0
  {
    if members == [] then items == []
    else items != [] && WellTyped(members[0], items[0]) && MembersTyped(members[1..], items[1..])
  }

  predicate ListTyped(element: Schema, items: seq<Message>)
    decreases element, 1, |items|
  {
    items == [] || (WellTyped(element, items[0]) && ListTyped(element, items[1..]))
  }

  // ----- encoding -----

  function Encode(s: Schema, m: Message): seq<Byte>
    requires WellTyped(s, m)
    decreases s, 0, 0
  {
    match s
    case Primitive(scalar, width) => Little(ToRaw(scalar, width, m.value), width.Bytes())
    case Text => Little(|m.bytes|, SIZE_BYTES) + m.bytes
    case Tuple(members) => EncodeMembers(members, m.items)
    case Struct(members) => EncodeMembers(members, m.items)
    case Union(alternatives) => Little(m.index, UNION_ID_BYTES) + Encode(alternatives[m.index], m.item)
    case Array(element) => Little(|m.items|, SIZE_BYTES) + EncodeList(element, m.items)
  }

  function EncodeMembers(members: seq<Schema>, items: seq<Message>): seq<Byte>
    requires MembersTyped(members, items)
    decreases members, 1, 0
  {
    if members == [] then [] else Encode(members[0], items[0]) + EncodeMembers(members[1..], items[1..])
  }

  function EncodeList(element: Schema, items: seq<Message>): seq<Byte>
    requires ListTyped(element, items)
    decreases element, 1, |items|
  {
    if items == [] then [] else Encode(element, items[0]) + EncodeList(element, items[1..])
  }

  /** The size announced in front of a packet. */
  function Size(s: Schema, m: Message): nat
    requires WellTyped(s, m)
    decreases s, 0, 0
  {
    match s
    case Primitive(scalar, width) => width.Bytes()
    case Text => SIZE_BYTES + |m.bytes|
    case Tuple(members) => SizeMembers(members, m.items)
    case Struct(members) => SizeMembers(members, m.items)
    case Union(alternatives) => UNION_ID_BYTES + Size(alternatives[m.index], m.item)
    case Array(element) => SIZE_BYTES + SizeList(element, m.items)
  }

  function SizeMembers(members: seq<Schema>, items: seq<Message>): nat
    requires MembersTyped(members, items)
    decreases members, 1, 0
  {
    if members == [] then 0 else Size(members[0], items[0]) + SizeMembers(members[1..], items[1..])
  }

  function SizeList(element: Schema, items: seq<Message>): nat
    requires ListTyped(element, items)
    decreases element, 1, |items|
  {
    if items == [] then 0 else Size(element, items[0]) + SizeList(element, items[1..])
  }

  /** size counts exactly the bytes encode writes, at every nesting. */
  lemma {:induction false} SizeIsExact(s: Schema, m: Message)
    requires WellTyped(s, m)
    ensures Size(s, m) == |Encode(s, m)|
    decreases s, 0, 0
  {
    match s
    case Primitive(scalar, width) =>
    case Text =>
    case Tuple(members) => SizeMembersIsExact(members, m.items);
    case Struct(members) => SizeMembersIsExact(members, m.items);
    case Union(alternatives) => SizeIsExact(alternatives[m.index], m.item);
    case Array(element) => SizeListIsExact(element, m.items);
  }

  lemma {:induction false} SizeMembersIsExact(members: seq<Schema>, items: seq<Message>)
    requires MembersTyped(members, items)
    ensures SizeMembers(members, items) == |EncodeMembers(members, items)|
    decreases members, 1, 0
  {
    if members != [] {
      SizeIsExact(members[0], items[0]);
      SizeMembersIsExact(members[1..], items[1..]);
    }
  }

  lemma {:induction false} SizeListIsExact(element: Schema, items: seq<Message>)
    requires ListTyped(element, items)
    ensures SizeList(element, items) == |EncodeList(element, items)|
    decreases element, 1, |items|
  {
    if items != [] {
      SizeIsExact(element, items[0]);
      SizeListIsExact(element, items[1..]);
    }
  }

  // ----- decoding -----

  /** Short: the bytes end too early (recoverable).  Bad: they can never be right (critical). */
  datatype Parsed<+T> = Done(value: T, used: nat) | Short | Bad

  function Parse(s: Schema, b: seq<Byte>): (r: Parsed<Message>)
    ensures r.Done? ==> r.used <= |b|
    decreases s, 0, 0
  {
    match s
    case Primitive(scalar, width) =>
      var w := width.Bytes();
      if |b| < w then Short
      else
        LittleOfNumber(b[..w]);
        Done(Num(FromRaw(scalar, width, Number(b[..w]))), w)
    case Text =>
      if |b| < SIZE_BYTES then Short
      else
        var n := Number(b[..SIZE_BYTES]);
        if |b| - SIZE_BYTES < n then Short else Done(Str(b[SIZE_BYTES..SIZE_BYTES + n]), SIZE_BYTES + n)
    case Tuple(members) => AsMembers(ParseMembers(members, b))
    case Struct(members) => AsMembers(ParseMembers(members, b))
    case Union(alternatives) =>
      if |b| < UNION_ID_BYTES then Short
      else
        var id := Number(b[..UNION_ID_BYTES]);
        if id >= |alternatives| then Bad
        else
          AsAlternative(id, Parse(alternatives[id], b[UNION_ID_BYTES..]))
    case Array(element) =>
      if |b| < SIZE_BYTES then Short
      else AsList(ParseList(element, Number(b[..SIZE_BYTES]), b[SIZE_BYTES..]))
  }

  function AsMembers(p: Parsed<seq<Message>>): Parsed<Message> {
    match p
    case Done(items, used) => Done(Members(items), used)
    case Short => Short
    case Bad => Bad
  }

  function AsList(p: Parsed<seq<Message>>): Parsed<Message> {
    match p
    case Done(items, used) => Done(List(items), SIZE_BYTES + used)
    case Short => Short
    case Bad => Bad
  }

  function AsAlternative(id: nat, p: Parsed<Message>): Parsed<Message> {
    match p
    case Done(item, used) => Done(Alternative(id, item), UNION_ID_BYTES + used)
    case Short => Short
    case Bad => Bad
  }

  function ParseMembers(members: seq<Schema>, b: seq<Byte>): (r: Parsed<seq<Message>>)
    ensures r.Done? ==> r.used <= |b|
    decreases members, 1, 0
  {
    if members == [] then Done([], 0)
    else
      match Parse(members[0], b)
      case Done(item, used) => Before(item, used, ParseMembers(members[1..], b[used..]))
      case Short => Short
      case Bad => Bad
  }

  function ParseList(element: Schema, n: nat, b: seq<Byte>): (r: Parsed<seq<Message>>)
    ensures r.Done? ==> r.used <= |b|
    decreases element, 1, n
  {
    if n == 0 then Done([], 0)
    else
      match Parse(element, b)
      case Done(item, used) => Before(item, used, ParseList(element, n - 1, b[used..]))
      case Short => Short
      case Bad => Bad
  }

  /** The result for a sequence whose first element is already parsed. */
  function Before(item: Message, used: nat, rest: Parsed<seq<Message>>): Parsed<seq<Message>> {
    match rest
    case Done(items, more) => Done([item] + items, used + more)
    case Short => Short
    case Bad => Bad
  }
}
