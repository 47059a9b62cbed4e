/** The wire encoding of src/common/utils/byte_buffer.hpp: values of fixed size are copied as they are,
    strings and vectors carry a 32-bit count in front. */
module ByteBuffer {
  import opened Words
  import opened ByteSlices

  /** The largest object an address space of signed offsets can hold, and so the longest string. */
  const OBJECT_MAX: int := 0x7FFF_FFFF_FFFF_FFFF

  /** A trivially copyable value, a string, or a vector of values of one size. */
  datatype Field = Fixed(data: seq<Byte>) | Text(data: seq<Byte>) | Items(width: nat, items: seq<seq<Byte>>)

  datatype Shape = FixedShape(size: nat) | TextShape | ItemsShape(width: nat)

  /** A read gives a value and a new offset, or throws, leaving the offset where it got to. */
  datatype Outcome<+T> = Done(value: T, offset: nat) | Thrown(offset: nat)

  ghost predicate Typed(f: Field) {
    f.Items? ==> 0 < f.width < TWO_31 && forall item | item in f.items :: |item| == f.width
  }

  function ShapeOf(f: Field): Shape {
    match f
    case Fixed(data) => FixedShape(|data|)
    case Text(_) => TextShape
    case Items(width, _) => ItemsShape(width)
  }

  /** What a count in front of the data has to express. */
  function Count(f: Field): nat {
    match f
    case Fixed(_) => 0
    case Text(data) => |data|
    case Items(_, items) => |items|
  }

  /** `static_cast<uint32_t>` of a size. */
  function Cast32(n: nat): (d: Dword)
    ensures d <= n && (d == n <==> n < TWO_32)
  {
    n % TWO_32
  }

  function Join(items: seq<seq<Byte>>): seq<Byte> {
    if items == [] then [] else items[0] + Join(items[1..])
  }

  /** The size of `n` values of `width` bytes. */
  function Span(n: nat, width: nat): nat {
    if n == 0 then 0 else width + Span(n - 1, width)
  }

  /** Cutting `n` pieces off the front. */
  function Split(data: seq<Byte>, width: nat, n: nat): (items: seq<seq<Byte>>)
    requires Span(n, width) <= |data|
    ensures |items| == n
  {
    if n == 0 then []
    else
      [data[..width]] + Split(data[width..], width, n - 1)
  }

  /** The count is cast to 32 bits, whatever is written behind it. */
  function Encoding(f: Field): seq<Byte> {
    match f
    case Fixed(data) => data
    case Text(data) => Encode32(Cast32(|data|)) + data
    case Items(_, items) => Encode32(Cast32(|items|)) + Join(items)
  }

  function Encodings(fs: seq<Field>): seq<Byte> {
    if fs == [] then [] else Encoding(fs[0]) + Encodings(fs[1..])
  }

  function ShapesOf(fs: seq<Field>): (s: seq<Shape>)
    ensures |s| == |fs|
  {
    if fs == [] then [] else [ShapeOf(fs[0])] + ShapesOf(fs[1..])
  }

  function ReadBytes(buffer: seq<Byte>, offset: nat, n: nat): Outcome<seq<Byte>>
    requires offset <= |buffer|
  {
    if offset + n > |buffer| then Thrown(offset) else Done(buffer[offset..offset + n], offset + n)
  }

  function ReadCount(buffer: seq<Byte>, offset: nat): (r: Outcome<Dword>)
    requires offset <= |buffer|
    ensures offset <= r.offset <= |buffer|
  {
    match ReadBytes(buffer, offset, DWORD_SIZE)
    case Thrown(o) => Thrown(o)
    case Done(d, o) => Done(Decode32(d), o)
  }

  function ReadText(buffer: seq<Byte>, offset: nat): (r: Outcome<Field>)
    requires offset <= |buffer|
    ensures offset <= r.offset <= |buffer|
  {
    match ReadCount(buffer, offset)
    case Thrown(o) => Thrown(o)
    case Done(n, o) =>
      if o + n > |buffer| then Thrown(o) else Done(Text(buffer[o..o + n]), o + n)
  }

  function ReadItems(buffer: seq<Byte>, offset: nat, width: nat): (r: Outcome<Field>)
    requires offset <= |buffer|
    ensures offset <= r.offset <= |buffer|
  {
    match ReadCount(buffer, offset)
    case Thrown(o) => Thrown(o)
    case Done(n, o) =>
      var total := Span(n, width);
      if o + total > |buffer| then Thrown(o) else Done(Items(width, Split(buffer[o..o + total], width, n)), o + total)
  }

  function ReadField(buffer: seq<Byte>, offset: nat, shape: Shape): (r: Outcome<Field>)
    requires offset <= |buffer|
    ensures offset <= r.offset <= |buffer|
  {
    match shape
    case FixedShape(n) => (
      match ReadBytes(buffer, offset, n)
      case Thrown(o) => Thrown(o)
      case Done(d, o) => Done(Fixed(d), o))
    case TextShape => ReadText(buffer, offset)
    case ItemsShape(width) => ReadItems(buffer, offset, width)
  }

  function ReadFields(buffer: seq<Byte>, offset: nat, shapes: seq<Shape>): (r: Outcome<seq<Field>>)
    requires offset <= |buffer|
    ensures offset <= r.offset <= |buffer|
    decreases |shapes|
  {
    if shapes == [] then Done([], offset)
    else
      match ReadField(buffer, offset, shapes[0])
      case Thrown(o) => Thrown(o)
      case Done(f, o) =>
        match ReadFields(buffer, o, shapes[1..])
        case Thrown(p) => Thrown(p)
        case Done(fs, p) => Done([f] + fs, p)
  }

  // ---- When reading throws ----

  /** The count at an offset, least significant byte first. */
  ghost function CountAt(buffer: seq<Byte>, offset: nat): nat
    requires offset + 4 <= |buffer|
  {
    Number(buffer[offset], buffer[offset + 1], buffer[offset + 2], buffer[offset + 3])
  }

  /** The number of four digits to base 256, the lowest first. */
  function Number(a: int, b: int, c: int, d: int): int {
    a + 256 * (b + 256 * (c + 256 * d))
  }

  /** Exactly when a read throws, and where it leaves the offset: a value does when too few bytes are left, and the
      offset stays; a string or vector does when its count is cut off, and the offset stays, or when too few bytes
      are behind the count, and then the count has been consumed. */
  lemma ReadThrowsExactlyWhen(buffer: seq<Byte>, offset: nat, shape: Shape)
    requires offset <= |buffer|
    ensures var r, left := ReadField(buffer, offset, shape), |buffer| - offset;
            match shape
            case FixedShape(n) =>
              && (r.Thrown? <==> n > left)
              && r.offset == if r.Thrown? then offset else offset + n
            case TextShape =>
              && (r.Thrown? <==> left < 4 || 4 + CountAt(buffer, offset) > left)
              && r.offset == if left < 4 then offset else if r.Thrown? then offset + 4
                             else offset + 4 + CountAt(buffer, offset)
            case ItemsShape(width) =>
              && (r.Thrown? <==> left < 4 || 4 + CountAt(buffer, offset) * width > left)
              && r.offset == if left < 4 then offset else if r.Thrown? then offset + 4
                             else offset + 4 + CountAt(buffer, offset) * width
  {
    if offset + 4 <= |buffer| {
      CountRead(buffer, offset);
      match shape {
        case FixedShape(_) =>
        case TextShape =>
        case ItemsShape(width) => SpanIsProduct(CountAt(buffer, offset), width);
      }
    }
    hide CountAt, ReadCount, Span, Split;
  }

  lemma CountRead(buffer: seq<Byte>, offset: nat)
    requires offset + 4 <= |buffer|
    ensures ReadCount(buffer, offset).Done? && ReadCount(buffer, offset).value == CountAt(buffer, offset)
    ensures ReadCount(buffer, offset).offset == offset + 4
  {
    var s := buffer[offset..offset + 4];
    assert s[1..][1..] == s[2..] && s[2..][1..] == s[3..] && s[3..][1..] == [];
    assert FromLittleEndian(s[3..]) == s[3];
    assert FromLittleEndian(s[2..]) == Number(s[2], s[3], 0, 0);
    assert FromLittleEndian(s[1..]) == Number(s[1], s[2], s[3], 0);
  }

  // ---- Cutting and joining ----

  lemma {:induction false} JoinLength(items: seq<seq<Byte>>, width: nat)
    requires forall item | item in items :: |item| == width
    ensures |Join(items)| == Span(|items|, width)
  {
    if items != [] {
      assert items[0] in items && forall item | item in items[1..] :: item in items;
      JoinLength(items[1..], width);
    }
  }

  lemma {:induction false} SplitUndoesJoin(items: seq<seq<Byte>>, width: nat, n: nat)
    requires forall item | item in items :: |item| == width
    requires n <= |items|
    ensures Span(n, width) <= |Join(items)| && Split(Join(items)[..Span(n, width)], width, n) == items[..n]
    decreases n
  {
    JoinLength(items, width);
    Scale(n, |items|, width);
    if n > 0 {
      assert items[0] in items && forall item | item in items[1..] :: item in items;
      SplitUndoesJoin(items[1..], width, n - 1);
      assert Join(items)[..Span(n, width)][..width] == items[0];
      assert Join(items)[..Span(n, width)][width..] == Join(items[1..])[..Span(n - 1, width)];
      assert items[..n] == [items[0]] + items[1..][..n - 1];
    }
  }

  lemma {:induction false} Scale(n: nat, m: nat, width: nat)
    requires n <= m
    ensures Span(n, width) <= Span(m, width)
    decreases m
  {
    if n < m {
      Scale(n, m - 1, width);
    }
  }

  lemma {:induction false} JoinUndoesSplit(data: seq<Byte>, width: nat, n: nat)
    requires |data| == Span(n, width)
    ensures Join(Split(data, width, n)) == data
    ensures forall item | item in Split(data, width, n) :: |item| == width
    decreases n
  {
    if n > 0 {
      JoinUndoesSplit(data[width..], width, n - 1);
      assert data == data[..width] + data[width..];
    }
  }

  // ---- What is on the wire ----

  /** A string byte by byte: its length modulo 2^32 in four bytes, least significant first, and its characters. */
  lemma TextOnTheWire(text: seq<Byte>, k: nat)
    requires k < 4 + |text|
    ensures |Encoding(Text(text))| == 4 + |text|
    ensures Encoding(Text(text))[k] == if k < 4 then |text| % 0x1_0000_0000 / Pow256(k) % 256 else text[k - 4]
  {
    if k < 4 {
      LittleEndianDigit(Cast32(|text|), DWORD_SIZE, k);
    }
    hide LittleEndian, Pow256;
  }

  /** A vector: its length likewise, and byte `j` of element `i` behind all of the elements before it. */
  lemma ItemsOnTheWire(width: nat, items: seq<seq<Byte>>, i: nat, j: nat)
    requires (forall item | item in items :: |item| == width) && i < |items| && j < width
    ensures |Encoding(Items(width, items))| == 4 + Span(|items|, width) == 4 + |items| * width
    ensures Span(i, width) == i * width && Span(i, width) + j < Span(|items|, width)
    ensures Encoding(Items(width, items))[4 + Span(i, width) + j] == items[i][j]
    ensures forall k: nat | k < 4 ::
              Encoding(Items(width, items))[k] == |items| % 0x1_0000_0000 / Pow256(k) % 256
  {
    JoinLength(items, width);
    JoinAt(items, width, i, j);
    SpanIsProduct(|items|, width);
    SpanIsProduct(i, width);
    CountOnTheWire(|items|);
    hide Cast32, Encode32, Pow256, Join, Span;
    var data := Encoding(Items(width, items));
    assert data == Encode32(Cast32(|items|)) + Join(items);
  }

  lemma CountOnTheWire(n: nat)
    ensures forall k: nat | k < 4 :: Encode32(Cast32(n))[k] == n % 0x1_0000_0000 / Pow256(k) % 256
  {
    forall k: nat | k < 4
      ensures Encode32(Cast32(n))[k] == n % 0x1_0000_0000 / Pow256(k) % 256
    {
      LittleEndianDigit(Cast32(n), DWORD_SIZE, k);
    }
    hide LittleEndian, Pow256;
  }

  lemma {:induction false} JoinAt(items: seq<seq<Byte>>, width: nat, i: nat, j: nat)
    requires (forall item | item in items :: |item| == width) && i < |items| && j < width
    ensures Span(i, width) + j < |Join(items)| && Join(items)[Span(i, width) + j] == items[i][j]
  {
    assert items[0] in items && forall item | item in items[1..] :: item in items;
    JoinLength(items, width);
    if i > 0 {
      JoinAt(items[1..], width, i - 1, j);
    } else {
      Scale(1, |items|, width);
    }
  }

  // ---- Reading undoes writing ----

  lemma CountBack(buffer: seq<Byte>, offset: nat, n: nat)
    requires Holds(buffer, offset, Encode32(Cast32(n)))
    ensures ReadCount(buffer, offset) == Done(Cast32(n), offset + DWORD_SIZE)
  {
    Codec32(Cast32(n));
  }

  lemma TextBack(data: seq<Byte>, buffer: seq<Byte>, offset: nat)
    requires Holds(buffer, offset, Encoding(Text(data)))
    ensures ReadText(buffer, offset) == Done(Text(data[..Cast32(|data|)]), offset + 4 + Cast32(|data|))
  {
    hide ReadCount, Cast32;
    var n: int := Cast32(|data|);
    HoldsParts(buffer, offset, Encode32(n), data);
    CountBack(buffer, offset, |data|);
    HoldsPrefix(buffer, offset + DWORD_SIZE, data, n);
  }

  lemma ItemsBack(width: nat, items: seq<seq<Byte>>, buffer: seq<Byte>, offset: nat)
    requires forall item | item in items :: |item| == width
    requires Holds(buffer, offset, Encoding(Items(width, items)))
    ensures ReadItems(buffer, offset, width) ==
            Done(Items(width, items[..Cast32(|items|)]), offset + 4 + Span(Cast32(|items|), width))
  {
    hide ReadCount, Join, Split, Span, Holds, Encode32, Cast32;
    var n: int := Cast32(|items|);
    HoldsParts(buffer, offset, Encode32(n), Join(items));
    CountBack(buffer, offset, |items|);
    SplitUndoesJoin(items, width, n);
    HoldsPrefix(buffer, offset + DWORD_SIZE, Join(items), Span(n, width));
  }

  /** Anywhere in a buffer, reading what was written gives it back and stops behind it, exactly when the
      count fits 32 bits; a longer string or vector comes back cut short. */
  lemma ReadUndoesWriteExactlyWhen(f: Field, buffer: seq<Byte>, offset: nat)
    requires Typed(f) && Holds(buffer, offset, Encoding(f))
    ensures ReadField(buffer, offset, ShapeOf(f)) == Done(f, offset + |Encoding(f)|) <==> Count(f) < TWO_32
  {
    hide ReadText, ReadItems, Join, Span, Cast32;
    match f {
      case Fixed(data) =>
      case Text(data) =>
        TextBack(data, buffer, offset);
        CutShort(data);
      case Items(width, items) =>
        ItemsBack(width, items, buffer, offset);
        JoinLength(items, width);
        CutShort(items);
    }
  }

  lemma CutShort<T>(s: seq<T>)
    ensures s[..Cast32(|s|)] == s <==> |s| < TWO_32
  {
    if |s| >= TWO_32 {
      assert |s[..Cast32(|s|)]| < |s|;
    }
  }

  ghost predicate Writable(fs: seq<Field>) {
    forall f | f in fs :: Typed(f) && Count(f) < TWO_32
  }

  lemma WritableParts(fs: seq<Field>)
    requires fs != []
    ensures Writable(fs) <==> Typed(fs[0]) && Count(fs[0]) < TWO_32 && Writable(fs[1..])
  {
    assert fs == [fs[0]] + fs[1..];
    hide Typed;
  }

  /** Any sequence of typed writes, wherever it stands in a buffer, reads back to the same values and
      leaves the offset right behind it. */
  lemma {:induction false} ReadsUndoWrites(fs: seq<Field>, buffer: seq<Byte>, offset: nat)
    requires Writable(fs) && Holds(buffer, offset, Encodings(fs))
    ensures ReadFields(buffer, offset, ShapesOf(fs)) == Done(fs, offset + |Encodings(fs)|)
    decreases |fs|
  {
    hide ReadField, ShapeOf, Encoding, Holds, Writable, Typed;
    if fs != [] {
      WritableParts(fs);
      HoldsParts(buffer, offset, Encoding(fs[0]), Encodings(fs[1..]));
      ReadUndoesWriteExactlyWhen(fs[0], buffer, offset);
      ReadsUndoWrites(fs[1..], buffer, offset + |Encoding(fs[0])|);
      assert ShapesOf(fs)[1..] == ShapesOf(fs[1..]);
      HeadAndTail(fs);
    }
  }

  // ---- Writing undoes reading ----

  ghost predicate Sensible(shape: Shape) {
    shape.ItemsShape? ==> 0 < shape.width < TWO_31
  }

  /** On any input: a value that was read has the shape asked for, and writing it produces just the bytes
      that were consumed. */
  lemma WriteUndoesRead(buffer: seq<Byte>, offset: nat, shape: Shape)
    requires offset <= |buffer| && Sensible(shape)
    requires ReadField(buffer, offset, shape).Done?
    ensures var r := ReadField(buffer, offset, shape);
            && Typed(r.value) && Count(r.value) < TWO_32 && ShapeOf(r.value) == shape
            && Holds(buffer, offset, Encoding(r.value)) && r.offset == offset + |Encoding(r.value)|
  {
    hide ReadText, ReadItems;
    match shape {
      case FixedShape(n) =>
      case TextShape => TextAgain(buffer, offset);
      case ItemsShape(width) => ItemsAgain(buffer, offset, width);
    }
  }

  lemma TextAgain(buffer: seq<Byte>, offset: nat)
    requires offset <= |buffer| && ReadText(buffer, offset).Done?
    ensures var r := ReadText(buffer, offset);
            && r.value.Text? && |r.value.data| < TWO_32
            && Holds(buffer, offset, Encoding(r.value)) && r.offset == offset + |Encoding(r.value)|
  {
    CountAgain(buffer, offset);
    TextRead(buffer, offset);
    var n: int := ReadCount(buffer, offset).value;
    hide *;
    TextStands(buffer, offset, n);
  }

  lemma TextRead(buffer: seq<Byte>, offset: nat)
    requires offset <= |buffer| && ReadText(buffer, offset).Done? && ReadCount(buffer, offset).Done?
    requires ReadCount(buffer, offset).offset == offset + 4
    ensures var n: int, o := ReadCount(buffer, offset).value, offset + 4;
            o + n <= |buffer| && ReadText(buffer, offset) == Done(Text(buffer[o..o + n]), o + n)
  {
    hide ReadCount;
  }

  /** A count and as many bytes behind it are the encoding of a text. */
  lemma TextStands(buffer: seq<Byte>, offset: nat, n: nat)
    requires offset + 4 + n <= |buffer| && n < 0x1_0000_0000
    requires Cast32(n) == n && buffer[offset..offset + 4] == Encode32(n)
    ensures var t := Text(buffer[offset + 4..offset + 4 + n]);
            Holds(buffer, offset, Encoding(t)) && |Encoding(t)| == 4 + n
  {
    hide Holds, Encode32, Cast32;
    HoldsSlices(buffer, offset, offset + 4, offset + 4 + n);
    HoldsParts(buffer, offset, Encode32(n), buffer[offset + 4..offset + 4 + n]);
  }

  lemma ItemsAgain(buffer: seq<Byte>, offset: nat, width: nat)
    requires offset <= |buffer| && ReadItems(buffer, offset, width).Done?
    ensures var r := ReadItems(buffer, offset, width);
            && r.value.Items? && r.value.width == width && |r.value.items| < TWO_32
            && (forall item | item in r.value.items :: |item| == width)
            && Holds(buffer, offset, Encoding(r.value)) && r.offset == offset + |Encoding(r.value)|
  {
    CountAgain(buffer, offset);
    hide ReadCount, Split, Span, Join, Holds, Encode32, Cast32;
    var n: int, o := ReadCount(buffer, offset).value, offset + DWORD_SIZE;
    var total := Span(n, width);
    JoinUndoesSplit(buffer[o..o + total], width, n);
    HoldsSlices(buffer, offset, o, o + total);
    HoldsParts(buffer, offset, Encode32(n), buffer[o..o + total]);
  }

  lemma CountAgain(buffer: seq<Byte>, offset: nat)
    requires offset <= |buffer| && ReadCount(buffer, offset).Done?
    ensures ReadCount(buffer, offset).offset == offset + DWORD_SIZE <= |buffer|
    ensures Cast32(ReadCount(buffer, offset).value) == ReadCount(buffer, offset).value
    ensures buffer[offset..offset + DWORD_SIZE] == Encode32(ReadCount(buffer, offset).value)
  {
    Codec32Inverse(buffer[offset..offset + DWORD_SIZE]);
  }

  /** The bytes from `offset` to `end` are the encoding of values of these shapes. */
  ghost predicate IsMessage(buffer: seq<Byte>, offset: nat, shapes: seq<Shape>, fs: seq<Field>, end: nat) {
    && Writable(fs) && ShapesOf(fs) == shapes
    && Holds(buffer, offset, Encodings(fs)) && end == offset + |Encodings(fs)|
  }

  lemma {:induction false} WritesUndoReads(buffer: seq<Byte>, offset: nat, shapes: seq<Shape>)
    requires offset <= |buffer| && forall s | s in shapes :: Sensible(s)
    requires ReadFields(buffer, offset, shapes).Done?
    ensures var r := ReadFields(buffer, offset, shapes);
            IsMessage(buffer, offset, shapes, r.value, r.offset)
    decreases |shapes|
  {
    hide *;
    if shapes == [] {
      EmptyMessage(buffer, offset);
    } else {
      FirstOfMany(buffer, offset, shapes);
      WriteUndoesRead(buffer, offset, shapes[0]);
      var first := ReadField(buffer, offset, shapes[0]);
      assert forall s | s in shapes[1..] :: s in shapes;
      WritesUndoReads(buffer, first.offset, shapes[1..]);
      var rest := ReadFields(buffer, first.offset, shapes[1..]);
      OneMore(first.value, rest.value, buffer, offset, shapes[1..], rest.offset);
      HeadAndTail(shapes);
    }
  }

  lemma EmptyMessage(buffer: seq<Byte>, offset: nat)
    requires offset <= |buffer|
    ensures ReadFields(buffer, offset, []) == Done([], offset) && IsMessage(buffer, offset, [], [], offset)
  {
  }

  lemma FirstOfMany(buffer: seq<Byte>, offset: nat, shapes: seq<Shape>)
    requires offset <= |buffer| && shapes != [] && ReadFields(buffer, offset, shapes).Done?
    ensures var first := ReadField(buffer, offset, shapes[0]);
            && first.Done?
            && var rest := ReadFields(buffer, first.offset, shapes[1..]);
            && rest.Done? && ReadFields(buffer, offset, shapes) == Done([first.value] + rest.value, rest.offset)
  {
  }

  lemma OneMore(f: Field, fs: seq<Field>, buffer: seq<Byte>, offset: nat, shapes: seq<Shape>, end: nat)
    requires Typed(f) && Count(f) < TWO_32 && Holds(buffer, offset, Encoding(f))
    requires IsMessage(buffer, offset + |Encoding(f)|, shapes, fs, end)
    ensures IsMessage(buffer, offset, [ShapeOf(f)] + shapes, [f] + fs, end)
  {
    hide Typed, Encoding, ShapeOf, Holds, Writable;
    var all := [f] + fs;
    FirstAndRest(f, fs);
    WritableParts(all);
    HoldsParts(buffer, offset, Encoding(f), Encodings(fs));
  }

  lemma FirstAndRest(f: Field, fs: seq<Field>)
    ensures var all := [f] + fs;
            && all != [] && all[0] == f && all[1..] == fs
            && ShapesOf(all) == [ShapeOf(f)] + ShapesOf(fs) && Encodings(all) == Encoding(f) + Encodings(fs)
  {
    assert ([f] + fs)[1..] == fs;
    hide ShapeOf, Encoding;
  }

  lemma {:induction false} ShapesSensible(fs: seq<Field>)
    requires Writable(fs)
    ensures forall s | s in ShapesOf(fs) :: Sensible(s)
  {
    if fs != [] {
      assert fs[0] in fs && forall f | f in fs[1..] :: f in fs;
      ShapesSensible(fs[1..]);
    }
  }

  /** A message cut short anywhere is never read as a whole message: the matching reads throw. */
  lemma TruncatedMessageThrows(fs: seq<Field>, k: nat)
    requires Writable(fs) && k < |Encodings(fs)|
    ensures ReadFields(Encodings(fs)[..k], 0, ShapesOf(fs)).Thrown?
  {
    var whole := Encodings(fs);
    var r := ReadFields(whole[..k], 0, ShapesOf(fs));
    ShapesSensible(fs);
    ReadsUndoWrites(fs, whole, 0);
    if r.Done? {
      WritesUndoReads(whole[..k], 0, ShapesOf(fs));
      assert whole[..k][0..r.offset] == whole[0..r.offset];
      ReadsUndoWrites(r.value, whole, 0);
    }
  }

  // ---- The two objects ----

  class Serializer {
    var buffer: seq<Byte>

    constructor ()
      ensures buffer == []
    {
      buffer := [];
    }

    /** Values of fixed size, raw memory and vectors without a count. */
    method Write(data: seq<Byte>)
      modifies this
      ensures buffer == old(buffer) + Encoding(Fixed(data))
    {
      buffer := buffer + data;
    }

    method WriteString(text: seq<Byte>)
      modifies this
      ensures buffer == old(buffer) + Encoding(Text(text))
    {
      hide Encode32, Cast32;
      Write(Encode32(Cast32(|text|)));
      Write(text);
      assert buffer == old(buffer) + (Encode32(Cast32(|text|)) + text);
    }

    method WriteVector(width: nat, items: seq<seq<Byte>>)
      modifies this
      ensures buffer == old(buffer) + Encoding(Items(width, items))
    {
      hide Encode32, Cast32, Join;
      Write(Encode32(Cast32(|items|)));
      Write(Join(items));
      assert buffer == old(buffer) + (Encode32(Cast32(|items|)) + Join(items));
    }

    /** `write(const buffer_serializer&)`, which may be the object itself. */
    method WriteBuffer(other: Serializer)
      modifies this
      ensures buffer == old(buffer) + old(other.buffer)
      ensures other != this ==> other.buffer == old(other.buffer)
    {
      Write(other.buffer);
    }

    method MoveBuffer() returns (moved: seq<Byte>)
      modifies this
      ensures moved == old(buffer) && buffer == []
    {
      moved := buffer;
      buffer := [];
    }
  }

  class Deserializer {
    var offset: nat
    const buffer: seq<Byte>

    ghost predicate Valid()
      reads this
    {
      offset <= |buffer| <= OBJECT_MAX
    }

    constructor (buffer: seq<Byte>)
      requires |buffer| <= OBJECT_MAX
      ensures Valid() && this.buffer == buffer && offset == 0
    {
      this.buffer, offset := buffer, 0;
    }

    /** The bounds check adds in 64 bits; no destination is large enough for the sum to wrap. */
    method Read(length: nat) returns (r: Outcome<seq<Byte>>)
      requires Valid() && length <= OBJECT_MAX
      modifies this`offset
      ensures Valid() && r == ReadBytes(buffer, old(offset), length) && offset == r.offset
    {
      if Wrap(offset + length) > |buffer| {
        return Thrown(offset);
      }
      var data := buffer[offset..offset + length];
      offset := offset + length;
      r := Done(data, offset);
    }

    /** `read<T>` for a type of `size` bytes. */
    method ReadFixed(size: nat) returns (r: Outcome<Field>)
      requires Valid() && size <= OBJECT_MAX
      modifies this`offset
      ensures Valid() && r == ReadField(buffer, old(offset), FixedShape(size)) && offset == r.offset
    {
      var d := Read(size);
      r := if d.Thrown? then Thrown(d.offset) else Done(Fixed(d.value), d.offset);
    }

    method ReadString() returns (r: Outcome<Field>)
      requires Valid()
      modifies this`offset
      ensures Valid() && r == ReadField(buffer, old(offset), TextShape) && offset == r.offset
    {
      var count := Read(DWORD_SIZE);
      if count.Thrown? {
        return Thrown(count.offset);
      }
      var size: int := Decode32(count.value);
      if Wrap(offset + size) > |buffer| {
        return Thrown(offset);
      }
      var d := Read(size);
      r := Done(Text(d.value), d.offset);
    }

    /** The total size is a 64-bit product; a type is smaller than 2^31 bytes, so it does not wrap. */
    method ReadVector(width: nat) returns (r: Outcome<Field>)
      requires Valid() && 0 < width < TWO_31
      modifies this`offset
      ensures Valid() && r == ReadField(buffer, old(offset), ItemsShape(width)) && offset == r.offset
    {
      hide Span, Split, TotalSize, Decode32;
      var count := Read(DWORD_SIZE);
      if count.Thrown? {
        return Thrown(count.offset);
      }
      var size: int := Decode32(count.value);
      ProductFits(size, width);
      var total: int := TotalSize(size, width);
      if Wrap(offset + total) > |buffer| {
        return Thrown(offset);
      }
      var d := Read(total);
      r := Done(Items(width, Split(d.value, width, size)), d.offset);
    }

    method RemainingSize() returns (n: nat)
      requires Valid()
      ensures offset + n == |buffer|
    {
      n := |buffer| - offset;
    }

    method RemainingData() returns (r: Outcome<seq<Byte>>)
      requires Valid()
      modifies this`offset
      ensures r == Done(buffer[old(offset)..], |buffer|) && Valid() && offset == |buffer|
    {
      var n := RemainingSize();
      var from := offset;
      r := Read(n);
      assert buffer[from..from + n] == buffer[from..];
    }
  }

  /** The 64-bit product of an element count and an element size. */
  function TotalSize(size: nat, width: nat): Word {
    Wrap(size * width)
  }

  lemma {:induction false} SpanIsProduct(n: nat, width: nat)
    ensures Span(n, width) == n * width
  {
    if n > 0 {
      SpanIsProduct(n - 1, width);
      assert n * width == width + (n - 1) * width;
    }
  }

  lemma ProductFits(size: nat, width: nat)
    requires size < TWO_32 && width < TWO_31
    ensures TotalSize(size, width) == Span(size, width) < OBJECT_MAX - TWO_32
  {
    SpanIsProduct(size, width);
    ProductBound(size, width, TWO_32 - 1, TWO_31 - 1);
  }

  lemma ProductBound(a: nat, b: nat, c: nat, d: nat)
    requires a <= c && b <= d
    ensures 0 <= a * b <= c * d
  {
    assert (c - a) * b >= 0;
    assert c * (d - b) >= 0;
  }
}
