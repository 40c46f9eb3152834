/** Property records: 32 bytes for a key, the attributes and one or two values, and
    what reading them gives back. */
module PropertyRecords {
  import opened Words
  import H = HeapModel
  import Tracing

  datatype Key = Index(value: u32) | Name(handle: H.Handle) | Symbol(handle: H.Handle)

  datatype Value =
    | Undefined
    | Null
    | Boolean(truth: bool)
    | Number(bits: u64)
    | Text(handle: H.Handle)
    | Token(handle: H.Handle)
    | BigInt(handle: H.Handle)
    | Object(handle: H.Handle)

  datatype Attributes = Attributes(writable: bool, enumerable: bool, configurable: bool)

  const DEFAULT := Attributes(true, true, true)

  datatype Descriptor =
    | Data(attributes: Attributes, value: Value)
    | Accessor(attributes: Attributes, getter: Value, setter: Value)

  datatype Record = Record(key: Key, descriptor: Descriptor)

  // ----- what a record keeps -----

  const SHORT := 0x1_0000

  /** A setter's field has room for an object reference with half a generation. */
  function Cut(v: Value): Value {
    if v.Object? then Object(H.Handle(v.handle.index, v.handle.generation % SHORT)) else Undefined
  }

  function Stored(d: Descriptor): (r: Descriptor)
    ensures r.attributes == d.attributes && r.Data? == d.Data?
  {
    if d.Data? then d else d.(setter := Cut(d.setter))
  }

  /** What a record gives back whole. */
  predicate KeptWhole(d: Descriptor) {
    d.Data? || d.setter.Undefined? || (d.setter.Object? && d.setter.handle.generation < SHORT)
  }

  /** A record gives back the descriptor written into it exactly for data, and for
      accessors without a setter or with one whose generation fits sixteen bits. */
  lemma StoredIff(d: Descriptor)
    ensures Stored(d) == d <==> KeptWhole(d)
    ensures KeptWhole(Stored(d)) && Stored(Stored(d)) == Stored(d)
  {}

  // ----- bytes -----

  /** A handle as one word. */
  function Packed(h: H.Handle): u64 { h.generation * 0x1_0000_0000 + h.index }

  function Unpacked(bits: u64): H.Handle { H.Handle(bits % 0x1_0000_0000, bits / 0x1_0000_0000) }

  function TagOf(v: Value): byte {
    match v
    case Undefined => 0
    case Null => 1
    case Boolean(_) => 2
    case Number(_) => 3
    case Text(_) => 4
    case Token(_) => 5
    case BigInt(_) => 6
    case Object(_) => 7
  }

  function PayloadOf(v: Value): u64 {
    match v
    case Undefined => 0
    case Null => 0
    case Boolean(truth) => if truth then 1 else 0
    case Number(bits) => bits
    case Text(h) => Packed(h)
    case Token(h) => Packed(h)
    case BigInt(h) => Packed(h)
    case Object(h) => Packed(h)
  }

  /** The value of a tag and a payload; an unknown tag is no value. */
  function Decoded(tag: byte, payload: u64): Value {
    match tag
    case 1 => Null
    case 2 => Boolean(payload != 0)
    case 3 => Number(payload)
    case 4 => Text(Unpacked(payload))
    case 5 => Token(Unpacked(payload))
    case 6 => BigInt(Unpacked(payload))
    case 7 => Object(Unpacked(payload))
    case _ => Undefined
  }

  function ValueBytes(v: Value): (bytes: seq<byte>)
    ensures |bytes| == 9
  {
    [TagOf(v)] + ToLittleEndian(PayloadOf(v), 8)
  }

  function Wide(n: nat): u64 { n % 0x1_0000_0000_0000_0000 }

  function ReadValue(bytes: seq<byte>): Value
    requires |bytes| == 9
  {
    Decoded(bytes[0], Wide(FromLittleEndian(bytes[1..])))
  }

  /** The short form: a tag, an index and the low half of a generation. */
  function ShortBytes(v: Value): (bytes: seq<byte>)
    ensures |bytes| == 7
  {
    var h := Unpacked(PayloadOf(v));
    [TagOf(v)] + ToLittleEndian(h.index, 4) + ToLittleEndian(h.generation, 2)
  }

  /** Only an object reference is read from the short form. */
  function ReadShort(bytes: seq<byte>): Value
    requires |bytes| == 7
  {
    var refs := Tracing.ShortAt(bytes, 0);
    if refs == [] then Undefined else Object(refs[0])
  }

  function KindOf(k: Key): byte { if k.Index? then 0 else if k.Name? then 1 else 2 }

  function KeyWord(k: Key): u64 { if k.Index? then k.value else Packed(k.handle) }

  function AttributeByte(a: Attributes): byte {
    (if a.writable then 1 else 0) + (if a.enumerable then 2 else 0) + (if a.configurable then 4 else 0)
  }

  function ReadAttributes(b: byte): Attributes { Attributes(b % 2 == 1, b / 2 % 2 == 1, b / 4 % 2 == 1) }

  const RECORD := 32

  function Head(before: seq<byte>, k: Key, d: Descriptor): (bytes: seq<byte>)
    requires |before| == RECORD
    ensures |bytes| == 8
  {
    [KindOf(k), if d.Accessor? then 1 else 0, AttributeByte(d.attributes), 0] + before[4..8]
  }

  function First(d: Descriptor): Value { if d.Data? then d.value else d.getter }

  function Second(d: Descriptor): Value { if d.Data? then Undefined else d.setter }

  /** A record written over `before`, whose bytes 4 to 7 nothing touches. */
  function RecordBytes(before: seq<byte>, k: Key, d: Descriptor): (bytes: seq<byte>)
    requires |before| == RECORD
    ensures |bytes| == RECORD
  {
    Head(before, k, d) + ToLittleEndian(KeyWord(k), 8) + ValueBytes(First(d)) + ShortBytes(Second(d))
  }

  function ReadKey(record: seq<byte>): Key
    requires |record| == RECORD
  {
    var word := Wide(FromLittleEndian(record[8..16]));
    match record[0]
    case 0 => Index(word % 0x1_0000_0000)
    case 1 => Name(Unpacked(word))
    case _ => Symbol(Unpacked(word))
  }

  function ReadRecord(record: seq<byte>): Descriptor
    requires |record| == RECORD
  {
    var attributes, first := ReadAttributes(record[2]), ReadValue(record[16..25]);
    if record[1] == 0 then Data(attributes, first) else Accessor(attributes, first, ReadShort(record[25..32]))
  }

  // ----- round trips -----

  lemma UnpackedPacked(h: H.Handle)
    ensures Unpacked(Packed(h)) == h
  {
    DivisionUnique(Packed(h), 0x1_0000_0000, h.generation, h.index);
  }

  lemma WordReads(word: u64)
    ensures Wide(FromLittleEndian(ToLittleEndian(word, 8))) == word
  {
    hide FromLittleEndian, ToLittleEndian, Pow256;
    LittleEndianWriteRead(word, 8);
    Eight();
  }

  lemma Eight()
    ensures Pow256(8) == 0x1_0000_0000_0000_0000
  {
    assert Pow256(2) == 0x1_0000 && Pow256(4) == 0x1_0000 * Pow256(2);
    assert Pow256(6) == 0x1_0000 * Pow256(4) && Pow256(8) == 0x1_0000 * Pow256(6);
  }

  lemma ValueReads(v: Value)
    ensures ReadValue(ValueBytes(v)) == v
  {
    hide ToLittleEndian, FromLittleEndian, Packed, Unpacked, Wide;
    assert ValueBytes(v)[1..] == ToLittleEndian(PayloadOf(v), 8);
    WordReads(PayloadOf(v));
    if v.Text? || v.Token? || v.BigInt? || v.Object? { UnpackedPacked(v.handle); }
  }

  /** The short form loses everything but an object's index and half its generation. */
  lemma ShortReads(v: Value)
    ensures ReadShort(ShortBytes(v)) == Cut(v)
    ensures Tracing.ShortAt(ShortBytes(v), 0) == if v.Object? then [Cut(v).handle] else []
  {
    if v.Object? {
      UnpackedPacked(v.handle);
      hide ToLittleEndian, Packed, Unpacked, Tracing.ShortAt;
      assert ShortBytes(v) == Tracing.ShortBytes(v.handle);
      Tracing.ShortFormReads(v.handle);
    }
  }

  lemma AttributesRead(a: Attributes)
    ensures ReadAttributes(AttributeByte(a)) == a
  {}

  /** The fields of a record lie where they are read. */
  lemma Fields(before: seq<byte>, k: Key, d: Descriptor)
    requires |before| == RECORD
    ensures var r := RecordBytes(before, k, d);
            && r[0] == KindOf(k) && r[1] == (if d.Accessor? then 1 else 0) && r[2] == AttributeByte(d.attributes)
            && r[8..16] == ToLittleEndian(KeyWord(k), 8) && r[16..25] == ValueBytes(First(d)) && r[25..32] == ShortBytes(Second(d))
  {
    hide ToLittleEndian, ValueBytes, ShortBytes, KeyWord, AttributeByte;
    var r := RecordBytes(before, k, d);
    assert r[..8] == Head(before, k, d);
  }

  /** The first bytes of a record: the kind of its key, of its descriptor, and one bit
      for each attribute; four bytes stay as they were. */
  lemma RecordHead(before: seq<byte>, k: Key, d: Descriptor)
    requires |before| == RECORD
    ensures var r := RecordBytes(before, k, d);
            && (r[0] == 0 <==> k.Index?) && (r[0] == 1 <==> k.Name?) && (r[0] == 2 <==> k.Symbol?)
            && (r[1] == 0 <==> d.Data?) && (r[1] == 1 <==> d.Accessor?)
            && r[2] < 8 && (r[2] % 2 == 1 <==> d.attributes.writable)
            && (r[2] / 2 % 2 == 1 <==> d.attributes.enumerable) && (r[2] >= 4 <==> d.attributes.configurable)
            && r[4..8] == before[4..8]
  {
    hide ToLittleEndian, ValueBytes, ShortBytes, KeyWord;
    Fields(before, k, d);
    var r, head := RecordBytes(before, k, d), Head(before, k, d);
    assert r[..8] == head && r[4..8] == head[4..8];
  }

  /** Reading a record gives back its key, and of the descriptor what a record keeps. */
  lemma RecordReads(before: seq<byte>, k: Key, d: Descriptor)
    requires |before| == RECORD
    ensures ReadKey(RecordBytes(before, k, d)) == k && ReadRecord(RecordBytes(before, k, d)) == Stored(d)
  {
    hide ToLittleEndian, FromLittleEndian, ValueBytes, ShortBytes, AttributeByte, ReadAttributes, ReadValue, ReadShort, Cut,
         Wide, Packed, Unpacked, RecordBytes;
    Fields(before, k, d);
    WordReads(KeyWord(k));
    if !k.Index? { UnpackedPacked(k.handle); }
    AttributesRead(d.attributes);
    ValueReads(First(d));
    ShortReads(Second(d));
  }

  // ----- what the collector finds -----

  function ReferenceOf(v: Value): seq<H.Handle> {
    if v.Text? || v.Token? || v.BigInt? || v.Object? then [v.handle] else []
  }

  /** The collector follows what the record reads as: not the setter that was
      written, when its generation was cut. */
  lemma RecordRefs(before: seq<byte>, k: Key, d: Descriptor)
    requires |before| == RECORD
    ensures Tracing.PropertyRefs(RecordBytes(before, k, d)) ==
            (if k.Index? then [] else [k.handle]) + ReferenceOf(First(Stored(d))) + ReferenceOf(Second(Stored(d)))
  {
    hide ToLittleEndian, FromLittleEndian, ValueBytes, ShortBytes, AttributeByte, Packed, RecordBytes, Tracing.ValueAt,
         Tracing.ShortAt, Tracing.HandleAt;
    var r := RecordBytes(before, k, d);
    Fields(before, k, d);
    if !k.Index? { HandleReads(r, 8, k.handle); }
    ValueRefs(r, 16, First(d));
    ShortRefs(r, Second(d));
  }

  lemma HandleReads(r: seq<byte>, at: nat, h: H.Handle)
    requires at + 8 <= |r| && r[at..at + 8] == ToLittleEndian(Packed(h), 8)
    ensures Tracing.HandleAt(r, at) == Some(h)
  {
    HalvesOf(h);
    hide ToLittleEndian, FromLittleEndian, Packed;
    assert r[at..at + 4] == r[at..at + 8][..4] && r[at + 4..at + 8] == r[at..at + 8][4..];
  }

  /** A packed handle is its index and then its generation. */
  lemma HalvesOf(h: H.Handle)
    ensures var bytes := ToLittleEndian(Packed(h), 8);
            FromLittleEndian(bytes[..4]) == h.index && FromLittleEndian(bytes[4..]) == h.generation
  {
    hide ToLittleEndian, FromLittleEndian, Pow256;
    Tracing.Powers256();
    LittleEndianHalves(h.index, h.generation, 4);
    WordFieldReads(h.index);
    WordFieldReads(h.generation);
    var low, high := ToLittleEndian(h.index, 4), ToLittleEndian(h.generation, 4);
    assert (low + high)[..4] == low && (low + high)[4..] == high;
  }

  lemma WordFieldReads(word: u32)
    ensures FromLittleEndian(ToLittleEndian(word, 4)) == word
  {
    hide ToLittleEndian, FromLittleEndian, Pow256;
    Tracing.Powers256();
    LittleEndianWriteRead(word, 4);
  }

  lemma {:induction false} LittleEndianHalves(low: nat, high: nat, n: nat)
    requires low < Pow256(n)
    ensures ToLittleEndian(high * Pow256(n) + low, n + 4) == ToLittleEndian(low, n) + ToLittleEndian(high, 4)
    decreases n
  {
    if n > 0 {
      var p := Pow256(n - 1);
      assert Pow256(n) == 256 * p;
      hide Pow256, ToLittleEndian;
      var whole := high * Pow256(n) + low;
      OneByteOff(low, high, p);
      LittleEndianHalves(low / 256, high, n - 1);
      ByteFirst(whole, n + 4);
      ByteFirst(low, n);
    }
  }

  lemma ByteFirst(value: nat, n: nat)
    requires n > 0
    ensures ToLittleEndian(value, n) == [value % 256] + ToLittleEndian(value / 256, n - 1)
  {}

  lemma OneByteOff(low: nat, high: nat, p: nat)
    ensures (high * (256 * p) + low) / 256 == high * p + low / 256 && (high * (256 * p) + low) % 256 == low % 256
  {
    var q, r := low / 256, low % 256;
    assert high * (256 * p) == 256 * (high * p);
    DivisionUnique(high * (256 * p) + low, 256, high * p + q, r);
  }

  lemma ValueRefs(r: seq<byte>, at: nat, v: Value)
    requires at + 9 <= |r| && r[at..at + 9] == ValueBytes(v)
    ensures Tracing.ValueAt(r, at) == ReferenceOf(v)
  {
    hide ToLittleEndian, FromLittleEndian, Packed, Tracing.HandleAt;
    assert r[at] == r[at..at + 9][0] && r[at + 1..at + 9] == r[at..at + 9][1..];
    if v.Text? || v.Token? || v.BigInt? || v.Object? { HandleReads(r, at + 1, v.handle); }
  }

  lemma ShortRefs(r: seq<byte>, v: Value)
    requires |r| == RECORD && r[25..32] == ShortBytes(v)
    ensures Tracing.ShortAt(r, 25) == ReferenceOf(Cut(v))
  {
    hide ToLittleEndian, FromLittleEndian, Packed, Unpacked;
    ShortReads(v);
    assert r[25] == r[25..32][0];
    SliceOfSlice(r, 25, 7, 1, 5);
    SliceOfSlice(r, 25, 7, 5, 7);
  }

  /** A part of a field is a part of what the field lies in. */
  lemma SliceOfSlice(bytes: seq<byte>, at: nat, size: nat, low: nat, high: nat)
    requires at + size <= |bytes| && low <= high <= size
    ensures bytes[at..at + size][low..high] == bytes[at + low..at + high]
  {
    var a, b := bytes[at..at + size][low..high], bytes[at + low..at + high];
    assert forall k :: 0 <= k < high - low ==> a[k] == b[k];
  }
}
