/** The codec itself: it writes and reads messages byte by byte through a view on a ring. */
module ProtoKel {
  import opened Sequences
  import opened RingBuffers
  import opened Wire
  import opened WireLaws
  import opened WireLayout
  import opened WireErrors

  // ----- numbers -----

  /** A wide number is written byte by byte, each the low byte of the number shifted
      right, and then the view advances. */
  method EncodeWide(raw: nat, width: nat, view: BufferView) returns (error: Error)
    requires view.Valid()
    modifies view`writeOffset, view.ring.buffer
    ensures view.Valid() && view.ring.Contents() == old(view.ring.Contents())
    ensures error == if width > old(view.WriteCompositeLength()) then Recoverable else NoError
    ensures !error.Failed() ==> view.Written() == old(view.Written()) + Little(raw, width)
    ensures error.Failed() ==> unchanged(view) && unchanged(view.ring.buffer)
  {
    hide RingBuffer.Contents, RingBuffer.Spare;
    error := view.WriteRequireLength(width);
    if error.Failed() {
      return;
    }
    for i := 0 to width
      invariant view.Valid() && view.writeOffset == old(view.writeOffset)
      invariant view.ring.Contents() == old(view.ring.Contents())
      invariant view.ring.Spare()[..view.writeOffset + i] == old(view.Written()) + Little(raw, width)[..i]
    {
      LittleAt(raw, width, i);
      view.Write(i, ShiftRight(raw, i) % 256);
    }
    view.WriteAdvance(width);
  }

  /** A number of one byte goes through push. */
  method EncodeNumber(raw: nat, width: nat, view: BufferView) returns (error: Error)
    requires view.Valid() && raw < Pow256(width)
    modifies view`writeOffset, view.ring.buffer
    ensures view.Valid() && view.ring.Contents() == old(view.ring.Contents())
    ensures error == if width > old(view.WriteCompositeLength()) then Recoverable else NoError
    ensures !error.Failed() ==> view.Written() == old(view.Written()) + Little(raw, width)
    ensures error.Failed() ==> unchanged(view) && unchanged(view.ring.buffer)
  {
    if width == 1 {
      LittleAt(raw, 1, 0);
      assert Little(raw, 1) == [raw % 256];
      error := view.Push([raw % 256]);
    } else {
      error := EncodeWide(raw, width, view);
    }
  }

  /** Reads the bytes lowest first and sets the bits of each, shifted to its place. */
  method DecodeWide(width: nat, view: BufferView) returns (error: Error, raw: nat)
    requires view.Valid()
    modifies view`readOffset
    ensures view.Valid() && error == if width > |old(view.Contents())| then Recoverable else NoError
    ensures error.Failed() ==> view.readOffset == old(view.readOffset) && raw == 0
    ensures !error.Failed() ==>
      view.readOffset == old(view.readOffset) + width && raw == Number(old(view.Contents())[..width])
  {
    hide RingBuffer.Contents, BufferView.Contents;
    raw := 0;
    if view.ReadCompositeLength() < width {
      return Recoverable, 0;
    }
    ghost var bytes := view.Contents();
    for i := 0 to width
      invariant view.Valid() && view.readOffset == old(view.readOffset) && view.Contents() == bytes
      invariant raw == Number(bytes[..i])
    {
      var b := view.Read(i);
      OrAppends(bytes[..i], b);
      assert bytes[..i + 1] == bytes[..i] + [b];
      raw := Or(raw, ShiftLeft(b, i));
    }
    view.ReadAdvance(width);
    return NoError, raw;
  }

  lemma NumberOfByte(data: seq<Byte>)
    requires |data| == 1
    ensures Number(data) == data[0]
  {
  }

  method DecodeNumber(width: nat, view: BufferView) returns (error: Error, raw: nat)
    requires view.Valid()
    modifies view`readOffset
    ensures view.Valid() && error == if width > |old(view.Contents())| then Recoverable else NoError
    ensures error.Failed() ==> view.readOffset == old(view.readOffset) && raw == 0
    ensures !error.Failed() ==>
      view.readOffset == old(view.readOffset) + width && raw == Number(old(view.Contents())[..width])
  {
    hide RingBuffer.Contents, Number;
    if width == 1 {
      var data;
      error, data := view.Pop(1);
      if error.Failed() {
        return error, 0;
      }
      NumberOfByte(data);
      return NoError, data[0];
    } else {
      error, raw := DecodeWide(width, view);
    }
  }

  // ----- size -----

  /** A sum in 64 bits. */
  function Wrap(n: nat): nat {
    n % WORD
  }

  lemma WrapUnique(n: nat, k: nat, r: nat)
    requires r < WORD && n == k * WORD + r
    ensures Wrap(n) == r
  {
  }

  lemma WrapAgain(a: nat, b: nat)
    ensures Wrap(Wrap(a) + b) == Wrap(a + b)
  {
    var x := Wrap(a) + b;
    WrapUnique(a + b, a / WORD + x / WORD, x % WORD);
  }

  lemma WrapTwice(a: nat, b: nat, c: nat)
    ensures Wrap(Wrap(a + Wrap(b)) + c) == Wrap(a + (b + c))
  {
    WrapAgain(a + Wrap(b), c);
    WrapAgain(b, a + c);
  }

  lemma WrapSmall(n: nat)
    requires n < WORD
    ensures Wrap(n) == n
  {
  }

  /** Sizes are computed in 64 bits and wrap around. */
  method SizeOf(s: Schema, m: Message) returns (size: nat)
    requires WellTyped(s, m)
    ensures size == Wrap(Size(s, m)) == Size(s, m) % 0x1_0000_0000_0000_0000
    decreases s, 0
  {
    match s
    case Primitive(scalar, width) => size := width.Bytes();
    case Text => size := Wrap(SIZE_BYTES + |m.bytes|);
    case Tuple(members) => size := SizeOfMembers(members, m.items);
    case Struct(members) => size := SizeOfMembers(members, m.items);
    case Union(alternatives) =>
      size := SizeOf(alternatives[m.index], m.item);
      WrapAgain(Size(alternatives[m.index], m.item), UNION_ID_BYTES);
      size := Wrap(UNION_ID_BYTES + size);
    case Array(element) =>
      size := SizeOfItems(element, m.items);
  }

  method SizeOfItems(element: Schema, items: seq<Message>) returns (size: nat)
    requires ListTyped(element, items)
    ensures size == Wrap(SIZE_BYTES + SizeList(element, items))
    decreases element, 1
  {
    hide WellTyped, Size, Wrap;
    WrapSmall(SIZE_BYTES);
    size := SIZE_BYTES;
    assert items[0..] == items;
    for i := 0 to |items|
      invariant ListTyped(element, items[i..]) && size == Wrap(size)
      invariant Wrap(size + SizeList(element, items[i..])) == Wrap(SIZE_BYTES + SizeList(element, items))
    {
      assert items[i..][1..] == items[i + 1..];
      var itemSize := SizeOf(element, items[i]);
      WrapTwice(size, Size(element, items[i]), SizeList(element, items[i + 1..]));
      WrapAgain(size + itemSize, 0);
      size := Wrap(size + itemSize);
    }
  }

  method SizeOfMembers(members: seq<Schema>, items: seq<Message>) returns (size: nat)
    requires MembersTyped(members, items)
    ensures size == Wrap(SizeMembers(members, items))
    decreases members, 1
  {
    if members == [] {
      return 0;
    }
    var first := SizeOf(members[0], items[0]);
    var rest := SizeOfMembers(members[1..], items[1..]);
    WrapAgain(SizeMembers(members[1..], items[1..]), first);
    WrapAgain(Size(members[0], items[0]), SizeMembers(members[1..], items[1..]));
    return Wrap(first + rest);
  }

  // ----- encode -----

  method EncodeText(bytes: seq<Byte>, view: BufferView) returns (error: Error)
    requires view.Valid() && |bytes| < Pow256(SIZE_BYTES)
    modifies view`writeOffset, view.ring.buffer
    ensures view.Valid() && view.ring.Contents() == old(view.ring.Contents())
    ensures error == if SIZE_BYTES + |bytes| > old(view.WriteCompositeLength()) then Recoverable else NoError
    ensures error.Failed() ==> old(view.Written()) <= view.Written()
    ensures !error.Failed() ==> view.Written() == old(view.Written()) + (Little(|bytes|, SIZE_BYTES) + bytes)
  {
    hide RingBuffer.Contents, RingBuffer.Spare, Little, Pow256;
    error := view.WriteRequireLength(SIZE_BYTES + |bytes|);
    if error.Failed() {
      return;
    }
    error := EncodeNumber(|bytes|, SIZE_BYTES, view);
    if error.Failed() {
      return;
    }
    ghost var header := view.Written();
    for i := 0 to |bytes|
      invariant view.Valid() && view.writeOffset == |header| && |bytes| <= view.WriteCompositeLength()
      invariant view.ring.Contents() == old(view.ring.Contents())
      invariant view.ring.Spare()[..view.writeOffset + i] == header + bytes[..i]
    {
      view.Write(i, bytes[i]);
    }
    view.WriteAdvance(|bytes|);
    Assoc(old(view.Written()), Little(|bytes|, SIZE_BYTES), bytes);
  }

  /** Writes one message through the view; it fails exactly when the space runs out. */
  method EncodeMessage(s: Schema, m: Message, view: BufferView) returns (error: Error)
    requires WellTyped(s, m) && view.Valid()
    modifies view`writeOffset, view.ring.buffer
    ensures view.Valid() && view.ring.Contents() == old(view.ring.Contents())
    ensures error == if Size(s, m) > old(view.WriteCompositeLength()) then Recoverable else NoError
    ensures error.Failed() ==> old(view.Written()) <= view.Written()
    ensures !error.Failed() ==> view.Written() == old(view.Written()) + Encode(s, m)
    decreases s, 0
  {
    hide RingBuffer.Contents, RingBuffer.Spare, BufferView.Written, Little, Pow256;
    match s
    case Primitive(scalar, width) =>
      error := EncodeNumber(ToRaw(scalar, width, m.value), width.Bytes(), view);
    case Text =>
      error := EncodeText(m.bytes, view);
    case Tuple(members) =>
      error := EncodeFields(members, m.items, view);
    case Struct(members) =>
      error := EncodeFields(members, m.items, view);
    case Union(alternatives) =>
      error := EncodeNumber(m.index, UNION_ID_BYTES, view);
      if !error.Failed() {
        Assoc(old(view.Written()), Little(m.index, UNION_ID_BYTES), Encode(alternatives[m.index], m.item));
        error := EncodeMessage(alternatives[m.index], m.item, view);
      }
    case Array(element) =>
      error := EncodeNumber(|m.items|, SIZE_BYTES, view);
      if !error.Failed() {
        Assoc(old(view.Written()), Little(|m.items|, SIZE_BYTES), EncodeList(element, m.items));
        error := EncodeItems(element, m.items, view);
      }
  }

  method EncodeFields(members: seq<Schema>, items: seq<Message>, view: BufferView) returns (error: Error)
    requires MembersTyped(members, items) && view.Valid()
    modifies view`writeOffset, view.ring.buffer
    ensures view.Valid() && view.ring.Contents() == old(view.ring.Contents())
    ensures error == if SizeMembers(members, items) > old(view.WriteCompositeLength()) then Recoverable else NoError
    ensures error.Failed() ==> old(view.Written()) <= view.Written()
    ensures !error.Failed() ==> view.Written() == old(view.Written()) + EncodeMembers(members, items)
    decreases members, 1
  {
    hide RingBuffer.Contents, RingBuffer.Spare, BufferView.Written, Encode, Size, WellTyped;
    if members == [] {
      return NoError;
    }
    error := EncodeMessage(members[0], items[0], view);
    if error.Failed() {
      return;
    }
    SizeIsExact(members[0], items[0]);
    Assoc(old(view.Written()), Encode(members[0], items[0]), EncodeMembers(members[1..], items[1..]));
    error := EncodeFields(members[1..], items[1..], view);
  }

  method EncodeItems(element: Schema, items: seq<Message>, view: BufferView) returns (error: Error)
    requires ListTyped(element, items) && view.Valid()
    modifies view`writeOffset, view.ring.buffer
    ensures view.Valid() && view.ring.Contents() == old(view.ring.Contents())
    ensures error == if SizeList(element, items) > old(view.WriteCompositeLength()) then Recoverable else NoError
    ensures error.Failed() ==> old(view.Written()) <= view.Written()
    ensures !error.Failed() ==> view.Written() == old(view.Written()) + EncodeList(element, items)
    decreases element, 1
  {
    hide RingBuffer.Contents, RingBuffer.Spare, BufferView.Written, Encode, Size, WellTyped;
    assert items[0..] == items;
    for i := 0 to |items|
      invariant view.Valid() && view.ring.Contents() == old(view.ring.Contents())
      invariant ListTyped(element, items[i..]) && old(view.Written()) <= view.Written()
      invariant view.Written() + EncodeList(element, items[i..]) == old(view.Written()) + EncodeList(element, items)
      invariant view.WriteCompositeLength() + SizeList(element, items) ==
                old(view.WriteCompositeLength()) + SizeList(element, items[i..])
    {
      assert items[i..][1..] == items[i + 1..];
      SizeIsExact(element, items[i]);
      Assoc(view.Written(), Encode(element, items[i]), EncodeList(element, items[i + 1..]));
      error := EncodeMessage(element, items[i], view);
      if error.Failed() {
        return;
      }
    }
    return NoError;
  }

  // ----- decode -----

  /** Schemas whose message containers exist: a union has a first alternative to hold. */
  predicate Constructible(s: Schema)
    decreases s, 0
  {
    match s
    case Primitive(scalar, width) => true
    case Text => true
    case Tuple(members) => AllConstructible(members)
    case Struct(members) => AllConstructible(members)
    case Union(alternatives) => alternatives != [] && AllConstructible(alternatives)
    case Array(element) => Constructible(element)
  }

  predicate AllConstructible(schemas: seq<Schema>)
    decreases schemas, 1
  {
    schemas == [] || (Constructible(schemas[0]) && AllConstructible(schemas[1..]))
  }

  lemma {:induction false} EachConstructible(schemas: seq<Schema>, i: nat)
    requires AllConstructible(schemas) && i < |schemas|
    ensures Constructible(schemas[i])
  {
    if i > 0 {
      EachConstructible(schemas[1..], i - 1);
    }
  }

  /** A message container as it is constructed. */
  function Default(s: Schema): (m: Message)
    requires Constructible(s)
    ensures WellTyped(s, m)
    decreases s, 0
  {
    match s
    case Primitive(scalar, width) => Num(0)
    case Text => Str([])
    case Tuple(members) => Members(Defaults(members))
    case Struct(members) => Members(Defaults(members))
    case Union(alternatives) =>
      EachConstructible(alternatives, 0);
      Alternative(0, Default(alternatives[0]))
    case Array(element) => List([])
  }

  function Defaults(members: seq<Schema>): (items: seq<Message>)
    requires AllConstructible(members)
    ensures MembersTyped(members, items)
    decreases members, 1
  {
    if members == [] then [] else [Default(members[0])] + Defaults(members[1..])
  }

  /** get<i> on a union container: asking for another alternative replaces the value. */
  function Select(alternatives: seq<Schema>, held: Message, id: nat): (item: Message)
    requires AllConstructible(alternatives) && id < |alternatives|
    requires WellTyped(Union(alternatives), held)
    ensures WellTyped(alternatives[id], item)
  {
    EachConstructible(alternatives, id);
    if held.index == id then held.item else Default(alternatives[id])
  }

  /** resize on an array container: elements in front stay as they are. */
  function Resize(element: Schema, items: seq<Message>, n: nat): (r: seq<Message>)
    requires Constructible(element) && ListTyped(element, items)
    ensures |r| == n && ListTyped(element, r)
    decreases n
  {
    if n == 0 then []
    else if items == [] then [Default(element)] + Resize(element, [], n - 1)
    else [items[0]] + Resize(element, items[1..], n - 1)
  }

  /** A new container encodes as nothing but zero bytes. */
  lemma {:induction false} DefaultIsZeros(s: Schema)
    requires Constructible(s)
    ensures forall b :: b in Encode(s, Default(s)) ==> b == 0
    decreases s, 0
  {
    match s
    case Primitive(scalar, width) => LittleOfZero(width.Bytes());
    case Text => LittleOfZero(SIZE_BYTES);
    case Tuple(members) => DefaultsAreZeros(members);
    case Struct(members) => DefaultsAreZeros(members);
    case Union(alternatives) =>
      LittleOfZero(UNION_ID_BYTES);
      EachConstructible(alternatives, 0);
      DefaultIsZeros(alternatives[0]);
    case Array(element) => LittleOfZero(SIZE_BYTES);
  }

  lemma {:induction false} DefaultsAreZeros(members: seq<Schema>)
    requires AllConstructible(members)
    ensures forall b :: b in EncodeMembers(members, Defaults(members)) ==> b == 0
    decreases members, 1
  {
    if members != [] {
      DefaultIsZeros(members[0]);
      DefaultsAreZeros(members[1..]);
      assert Defaults(members)[1..] == Defaults(members[1..]);
    }
  }

  lemma {:induction false} LittleOfZero(width: nat)
    ensures forall b :: b in Little(0, width) ==> b == 0
  {
    if width > 0 {
      LittleOfZero(width - 1);
    }
  }

  /** get<i> on the alternative that is held changes nothing, on another one it starts anew. */
  lemma SelectKeepsOrClears(alternatives: seq<Schema>, held: Message, id: nat)
    requires AllConstructible(alternatives) && id < |alternatives|
    requires WellTyped(Union(alternatives), held)
    ensures Constructible(alternatives[id])
    ensures var item := Select(alternatives, held, id);
      (id == held.index ==> Alternative(id, item) == held) && (id != held.index ==> item == Default(alternatives[id]))
  {
    EachConstructible(alternatives, id);
  }

  /** resize keeps the elements in front and puts new ones behind them. */
  lemma {:induction false} ResizeAt(element: Schema, items: seq<Message>, n: nat, i: nat)
    requires Constructible(element) && ListTyped(element, items) && i < n
    ensures Resize(element, items, n)[i] == if i < |items| then items[i] else Default(element)
  {
    if i > 0 {
      ResizeAt(element, if items == [] then [] else items[1..], n - 1, i - 1);
    }
  }

  lemma {:induction false} ListTypedAt(element: Schema, items: seq<Message>, i: nat)
    requires ListTyped(element, items) && i < |items|
    ensures WellTyped(element, items[i])
  {
    if i > 0 {
      ListTypedAt(element, items[1..], i - 1);
    }
  }

  lemma {:induction false} ListTypedUpdate(element: Schema, items: seq<Message>, i: nat, item: Message)
    requires ListTyped(element, items) && i < |items| && WellTyped(element, item)
    ensures ListTyped(element, items[i := item])
  {
    if i > 0 {
      ListTypedUpdate(element, items[1..], i - 1, item);
      assert items[i := item][1..] == items[1..][i - 1 := item];
    } else {
      assert items[0 := item][1..] == items[1..];
    }
  }

  /** The outcome a parse result stands for. */
  function Outcome<T>(p: Parsed<T>): Error {
    match p
    case Done(value, used) => NoError
    case Short => Recoverable
    case Bad => Critical
  }

  method DecodeText(builder: seq<Byte>, view: BufferView) returns (error: Error, bytes: seq<Byte>)
    requires view.Valid() && |builder| < Pow256(SIZE_BYTES)
    modifies view`readOffset
    ensures view.Valid() && |bytes| < Pow256(SIZE_BYTES)
    ensures var p := Parse(Text, old(view.Contents()));
            && error == Outcome(p)
            && (p.Done? ==> p.value == Str(bytes) && view.readOffset == old(view.readOffset) + p.used)
  {
    hide RingBuffer.Contents, Pow256;
    ghost var b := view.Contents();
    bytes := builder;
    if SIZE_BYTES > view.ReadCompositeLength() {
      return Recoverable, bytes;
    }
    var size;
    error, size := DecodeNumber(SIZE_BYTES, view);
    LittleOfNumber(b[..SIZE_BYTES]);
    if size > view.ReadCompositeLength() {
      return Recoverable, bytes;
    }
    var text: seq<Byte> := [];
    for i := 0 to size
      invariant view.Valid() && view.readOffset == old(view.readOffset) + SIZE_BYTES
      invariant text == b[SIZE_BYTES..SIZE_BYTES + i]
    {
      var c := view.Read(i);
      assert c == b[SIZE_BYTES + i];
      assert b[SIZE_BYTES..SIZE_BYTES + i + 1] == b[SIZE_BYTES..SIZE_BYTES + i] + [c];
      text := text + [c];
    }
    view.ReadAdvance(size);
    return NoError, text;
  }

  method DecodePrimitive(scalar: Scalar, width: Width, view: BufferView) returns (error: Error, m: Message)
    requires view.Valid()
    modifies view`readOffset
    ensures view.Valid() && WellTyped(Primitive(scalar, width), m)
    ensures var p := Parse(Primitive(scalar, width), old(view.Contents()));
            error == Outcome(p) && (p.Done? ==> m == p.value && view.readOffset == old(view.readOffset) + p.used)
  {
    hide RingBuffer.Contents, Pow256;
    ghost var b := view.Contents();
    var raw;
    error, raw := DecodeNumber(width.Bytes(), view);
    if error.Failed() {
      NumberOfZero(width.Bytes());
    } else {
      LittleOfNumber(b[..width.Bytes()]);
    }
    m := Num(FromRaw(scalar, width, raw));
  }

  lemma AlternativeUnknown(alternatives: seq<Schema>, b: seq<Byte>)
    ensures |b| >= 4 && Four(b[..4]) >= |alternatives| ==> Outcome(Parse(Union(alternatives), b)) == Critical
  {
    RejectsIff(Union(alternatives), b);
  }

  method DecodeUnion(alternatives: seq<Schema>, builder: Message, view: BufferView)
    returns (error: Error, m: Message)
    requires AllConstructible(alternatives) && WellTyped(Union(alternatives), builder) && view.Valid()
    modifies view`readOffset
    ensures view.Valid() && WellTyped(Union(alternatives), m)
    ensures var p := Parse(Union(alternatives), old(view.Contents()));
            error == Outcome(p) && (p.Done? ==> m == p.value && view.readOffset == old(view.readOffset) + p.used)
    ensures var b := old(view.Contents());
            |b| >= 4 && Four(b[..4]) >= |alternatives| ==> error == Critical
    decreases alternatives, 1
  {
    hide RingBuffer.Contents, Pow256;
    ghost var b := view.Contents();
    m := builder;
    AlternativeUnknown(alternatives, b);
    var id;
    error, id := DecodeNumber(UNION_ID_BYTES, view);
    if error.Failed() {
      return;
    }
    if id >= |alternatives| {
      return Critical, m;
    }
    LittleOfNumber(b[..UNION_ID_BYTES]);
    EachConstructible(alternatives, id);
    DropTwice(view.ring.Contents(), old(view.readOffset), UNION_ID_BYTES);
    var item;
    error, item := DecodeMessage(alternatives[id], Select(alternatives, builder, id), view);
    m := Alternative(id, item);
  }

  method DecodeArray(element: Schema, builder: seq<Message>, view: BufferView) returns (error: Error, m: Message)
    requires Constructible(element) && ListTyped(element, builder) && |builder| < Pow256(SIZE_BYTES) && view.Valid()
    modifies view`readOffset
    ensures view.Valid() && WellTyped(Array(element), m)
    ensures var p := Parse(Array(element), old(view.Contents()));
            error == Outcome(p) && (p.Done? ==> m == p.value && view.readOffset == old(view.readOffset) + p.used)
    decreases element, 2
  {
    hide RingBuffer.Contents, Pow256;
    ghost var b := view.Contents();
    m := List(builder);
    var n;
    error, n := DecodeNumber(SIZE_BYTES, view);
    if error.Failed() {
      return;
    }
    LittleOfNumber(b[..SIZE_BYTES]);
    DropTwice(view.ring.Contents(), old(view.readOffset), SIZE_BYTES);
    var items;
    error, items := DecodeItems(element, Resize(element, builder, n), view);
    m := List(items);
  }

  /** Reads one message through the view into a builder, which may hold any message of the
      schema; the result does not depend on what it held. */
  method DecodeMessage(s: Schema, builder: Message, view: BufferView) returns (error: Error, m: Message)
    requires Constructible(s) && WellTyped(s, builder) && view.Valid()
    modifies view`readOffset
    ensures view.Valid() && WellTyped(s, m)
    ensures var p := Parse(s, old(view.Contents()));
            error == Outcome(p) && (p.Done? ==> m == p.value && view.readOffset == old(view.readOffset) + p.used)
    decreases s, 0
  {
    hide RingBuffer.Contents, BufferView.Contents, Pow256, Number;
    match s
    case Primitive(scalar, width) =>
      error, m := DecodePrimitive(scalar, width, view);
    case Text =>
      var bytes;
      error, bytes := DecodeText(builder.bytes, view);
      m := Str(bytes);
    case Tuple(members) =>
      var items;
      error, items := DecodeFields(members, builder.items, view);
      m := Members(items);
    case Struct(members) =>
      var items;
      error, items := DecodeFields(members, builder.items, view);
      m := Members(items);
    case Union(alternatives) =>
      error, m := DecodeUnion(alternatives, builder, view);
    case Array(element) =>
      error, m := DecodeArray(element, builder.items, view);
  }

  lemma NumberOfZero(width: nat)
    ensures 0 < Pow256(width)
  {
  }

  method DecodeFields(members: seq<Schema>, builder: seq<Message>, view: BufferView)
    returns (error: Error, items: seq<Message>)
    requires AllConstructible(members) && MembersTyped(members, builder) && view.Valid()
    modifies view`readOffset
    ensures view.Valid() && MembersTyped(members, items)
    ensures var p := ParseMembers(members, old(view.Contents()));
            error == Outcome(p) && (p.Done? ==> items == p.value && view.readOffset == old(view.readOffset) + p.used)
    decreases members, 1
  {
    hide RingBuffer.Contents, Parse, WellTyped, Constructible;
    if members == [] {
      return NoError, [];
    }
    ghost var p := Parse(members[0], view.Contents());
    var first;
    error, first := DecodeMessage(members[0], builder[0], view);
    items := [first] + builder[1..];
    if !error.Failed() {
      DropTwice(view.ring.Contents(), old(view.readOffset), p.used);
      var rest;
      error, rest := DecodeFields(members[1..], builder[1..], view);
      items := [first] + rest;
    }
  }

  /** What a parse of a list comes to when its first elements are already done. */
  ghost function Resume(done: seq<Message>, used: nat, rest: Parsed<seq<Message>>): Parsed<seq<Message>> {
    match rest
    case Done(items, more) => Done(done + items, used + more)
    case Short => Short
    case Bad => Bad
  }

  ghost function UsedBy<T>(p: Parsed<T>): nat {
    if p.Done? then p.used else 0
  }

  lemma ResumeMore(done: seq<Message>, item: Message, used: nat, more: nat, rest: Parsed<seq<Message>>)
    ensures Resume(done, used, Before(item, more, rest)) == Resume(done + [item], used + more, rest)
  {
    if rest.Done? {
      Assoc(done, [item], rest.value);
    }
  }

  /** One more element of the list is done, or the list cannot be parsed. */
  lemma ResumeStep(element: Schema, items: seq<Message>, i: nat, used: nat, n: nat, b: seq<Byte>)
    requires i < |items| && n > 0
    ensures var all, p := Resume(items[..i], used, ParseList(element, n, b)), Parse(element, b);
      && Outcome(p) == (if p.Done? then NoError else Outcome(all))
      && (p.Done? ==> all == Resume(items[i := p.value][..i + 1], used + p.used,
                                    ParseList(element, n - 1, b[p.used..])))
  {
    var p := Parse(element, b);
    ListUnfolds(element, n, b);
    hide ParseList, Parse, Before;
    if p.Done? {
      assert items[i := p.value][..i + 1] == items[..i] + [p.value];
      ResumeMore(items[..i], p.value, used, p.used, ParseList(element, n - 1, b[p.used..]));
    }
  }

  lemma ListUnfolds(element: Schema, n: nat, b: seq<Byte>)
    requires n > 0
    ensures var p := Parse(element, b);
      ParseList(element, n, b) == match p
                                  case Done(item, used) => Before(item, used, ParseList(element, n - 1, b[used..]))
                                  case Short => Short
                                  case Bad => Bad
  {
  }

  lemma ResumeBounds(element: Schema, items: seq<Message>, used: nat, b: seq<Byte>)
    ensures forall p :: Resume(items[..0], 0, p) == p
    ensures Resume(items[..|items|], used, ParseList(element, 0, b)) == Done(items, used)
  {
    forall p ensures Resume(items[..0], 0, p) == p {
      if p.Done? {
        assert items[..0] + p.value == p.value;
      }
    }
    assert items[..|items|] + [] == items;
  }

  method DecodeItems(element: Schema, builder: seq<Message>, view: BufferView)
    returns (error: Error, items: seq<Message>)
    requires Constructible(element) && ListTyped(element, builder) && view.Valid()
    modifies view`readOffset
    ensures view.Valid() && ListTyped(element, items) && |items| == |builder|
    ensures var p := ParseList(element, |builder|, old(view.Contents()));
            error == Outcome(p) && (p.Done? ==> items == p.value && view.readOffset == old(view.readOffset) + p.used)
    decreases element, 1
  {
    hide RingBuffer.Contents, Parse, ParseList, Resume, WellTyped, Constructible, ListTyped;
    items := builder;
    ghost var all := ParseList(element, |builder|, view.Contents());
    ResumeBounds(element, items, 0, []);
    for i := 0 to |builder|
      invariant view.Valid() && view.readOffset >= old(view.readOffset)
      invariant |items| == |builder| && ListTyped(element, items)
      invariant all == Resume(items[..i], view.readOffset - old(view.readOffset),
                              ParseList(element, |builder| - i, view.Contents()))
    {
      var item;
      ListTypedAt(element, items, i);
      ResumeStep(element, items, i, view.readOffset - old(view.readOffset), |builder| - i, view.Contents());
      DropTwice(view.ring.Contents(), view.readOffset, UsedBy(Parse(element, view.Contents())));
      error, item := DecodeMessage(element, items[i], view);
      ListTypedUpdate(element, items, i, item);
      items := items[i := item];
      if error.Failed() {
        return;
      }
    }
    ResumeBounds(element, items, view.readOffset - old(view.readOffset), view.Contents());
    return NoError, items;
  }

  // ----- the codec -----

  /** Writes header and message through the view. */
  method WritePacket(s: Schema, m: Message, length: nat, view: BufferView) returns (error: Error)
    requires WellTyped(s, m) && view.Valid() && length == Wrap(Size(s, m))
    modifies view`writeOffset, view.ring.buffer
    ensures view.Valid() && view.ring.Contents() == old(view.ring.Contents())
    ensures error == if SIZE_BYTES + Size(s, m) > old(view.WriteCompositeLength()) then Recoverable else NoError
    ensures error.Failed() ==>
      if old(view.WriteCompositeLength()) < SIZE_BYTES then unchanged(view) && unchanged(view.ring.buffer)
      else old(view.Written()) + Little(length, SIZE_BYTES) <= view.Written()
    ensures !error.Failed() ==> view.Written() == old(view.Written()) + Packet(s, m)
  {
    hide RingBuffer.Contents, RingBuffer.Spare, BufferView.Written, Little, Pow256, WellTyped, Size, Encode;
    SizesAreWords();
    view.ring.LengthsAddUp();
    error := EncodeNumber(length, SIZE_BYTES, view);
    if error.Failed() {
      return;
    }
    error := EncodeMessage(s, m, view);
    if !error.Failed() {
      WrapSmall(Size(s, m));
      Assoc(old(view.Written()), Little(length, SIZE_BYTES), Encode(s, m));
    }
  }

  /** Commits exactly one packet to the ring, or leaves what it holds alone if it lacks the
      space.  If only the 64-bit sum of size and header fits, the header is left behind in
      the free space. */
  method EncodePacket(s: Schema, m: Message, ring: RingBuffer) returns (error: Error)
    requires ring.Valid() && WellTyped(s, m)
    modifies ring, ring.buffer
    ensures ring.Valid()
    ensures error == if SIZE_BYTES + Size(s, m) > |old(ring.Spare())| then Recoverable else NoError
    ensures error.Failed() ==> unchanged(ring) && ring.Contents() == old(ring.Contents())
    ensures error.Failed() ==>
      if SIZE_BYTES <= |old(ring.Spare())| && Wrap(SIZE_BYTES + Size(s, m)) <= |old(ring.Spare())|
      then Little(Wrap(Size(s, m)), SIZE_BYTES) <= ring.Spare()
      else unchanged(ring.buffer)
    ensures !error.Failed() ==> ring.Contents() == old(ring.Contents()) + Packet(s, m)
  {
    hide RingBuffer.Contents, RingBuffer.Spare, BufferView.Written, BufferView.Contents;
    hide Packet, WellTyped, Size, Little, Wrap;
    var view := new BufferView(ring);
    var length := SizeOf(s, m);
    WrapAgain(Size(s, m), SIZE_BYTES);
    error := view.WriteRequireLength(Wrap(length + SIZE_BYTES));
    if error.Failed() {
      WrapIsLess(SIZE_BYTES + Size(s, m));
      return;
    }
    error := WritePacket(s, m, length, view);
    view.WrittenIsSpare();
    if error.Failed() {
      return;
    }
    assert view.Written() == Packet(s, m);
    ring.WriteAdvance(view.writeOffset);
  }

  lemma WrapIsLess(n: nat)
    ensures Wrap(n) <= n
  {
  }

  lemma ParsedSizeIsWord(s: Schema, b: seq<Byte>)
    requires |b| < WORD && Parse(s, b).Done?
    ensures var m := Parse(s, b).value; WellTyped(s, m) && Wrap(Size(s, m)) == Size(s, m)
  {
    ParseIsSound(s, b);
    SizeIsExact(s, Parse(s, b).value);
  }

  /** Reads header and message through the view and compares their sizes. */
  method ReadPacket(s: Schema, builder: Message, view: BufferView, limit: nat) returns (error: Error, m: Message)
    requires view.Valid() && Constructible(s) && WellTyped(s, builder)
    modifies view`readOffset
    ensures view.Valid() && WellTyped(s, m)
    ensures var p := ParsePacket(s, limit, old(view.Contents()));
      error == Outcome(p) && (p.Done? ==> m == p.value && view.readOffset == old(view.readOffset) + p.used)
  {
    hide RingBuffer.Contents, Parse, Size, WellTyped, Constructible, Number, Pow256, Wrap;
    ghost var b := view.Contents();
    m := builder;
    var length;
    error, length := DecodeNumber(SIZE_BYTES, view);
    if error.Failed() {
      return;
    }
    if length > limit {
      return Critical, m;
    }
    DropTwice(view.ring.Contents(), old(view.readOffset), SIZE_BYTES);
    assert view.Contents() == b[SIZE_BYTES..];
    error, m := DecodeMessage(s, builder, view);
    if error.Failed() {
      return;
    }
    ParsedSizeIsWord(s, b[SIZE_BYTES..]);
    var size := SizeOf(s, m);
    if size != length {
      return Critical, m;
    }
  }

  /** Takes one packet from the front of the ring, or leaves the ring alone. */
  method DecodePacket(s: Schema, builder: Message, ring: RingBuffer, limit: nat) returns (error: Error, m: Message)
    requires ring.Valid() && Constructible(s) && WellTyped(s, builder)
    modifies ring
    ensures ring.Valid() && WellTyped(s, m)
    ensures var p := ParsePacket(s, limit, old(ring.Contents()));
      && error == Outcome(p)
      && (p.Done? ==> m == p.value && ring.Contents() == old(ring.Contents())[p.used..])
      && (!p.Done? ==> unchanged(ring))
    ensures error == Critical <==> RejectsPacket(s, limit, old(ring.Contents()))
  {
    hide RingBuffer.Contents, BufferView.Contents, ParsePacket, WellTyped, Constructible, RejectsPacket;
    RejectsPacketIff(s, limit, ring.Contents());
    var view := new BufferView(ring);
    ghost var p := ParsePacket(s, limit, ring.Contents());
    error, m := ReadPacket(s, builder, view, limit);
    if error.Failed() {
      return;
    }
    assert p.Done? && view.readOffset == p.used;
    ring.ReadAdvance(view.readOffset);
  }
}
