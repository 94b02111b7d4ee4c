/** The fixed 164-byte header at the start of a DTX texture file, and its
    decoder. The source reinterprets the bytes in place as a `#[repr(C)]`
    record; here every field is read explicitly, little-endian, from its
    own offset. */
module DtxHeader {
  import opened Bytes
  import opened Wrappers
  import DtxFlags

  /** `COMMAND_STRING_SIZE`: length of the command-string field. */
  const CommandStringSize: nat := 128
  /** `size_of::<Header>()`: the number of bytes `parse` reads. */
  const HeaderSize: nat := 164
  /** The version a current DTX file carries (not enforced by the decoder). */
  const CurrentDtxVersion: i32 := -5

  type ExtraBytes = s: seq<byte> | |s| == 12 witness [0, 0, 0, 0, 0, 0, 0, 0, 0, 0, 0, 0]
  type ExtraWords = w: seq<u32> | |w| == 3 witness [0, 0, 0]
  type CommandBytes = s: seq<byte> | |s| == CommandStringSize witness seq(128, _ => 0)

  /** The `ExtraData` union: one 12-byte region. Its `extra` view is the
      bytes themselves; its `extra_long` view is ExtraLong below. */
  datatype ExtraData = ExtraData(extra: ExtraBytes)

  /** The `extra_long: [u32; 3]` view. The two views agree: word i is
      bytes 4i..4i+4 of `extra`, least significant first. */
  function ExtraLong(e: ExtraData): (w: ExtraWords)
    ensures forall i :: 0 <= i < 3 ==>
      w[i] == e.extra[4 * i] as int + 0x100 * e.extra[4 * i + 1] as int
              + 0x1_0000 * e.extra[4 * i + 2] as int + 0x100_0000 * e.extra[4 * i + 3] as int
  {
    LeValueOfFourBytes(e.extra[0..4]);
    LeValueOfFourBytes(e.extra[4..8]);
    LeValueOfFourBytes(e.extra[8..12]);
    [LeValue(e.extra[0..4]), LeValue(e.extra[4..8]), LeValue(e.extra[8..12])]
  }

  /** The union written through its `extra_long` view
      (as `Header::new` does with `ExtraData { extra_long: [0; 3] }`);
      reading the words back gives the words written. */
  function ExtraFromLong(w: ExtraWords): (e: ExtraData)
    ensures ExtraLong(e) == w
  {
    var b := LeBytes(w[0], 4) + LeBytes(w[1], 4) + LeBytes(w[2], 4);
    LeValueOfLeBytes(w[0], 4);
    LeValueOfLeBytes(w[1], 4);
    LeValueOfLeBytes(w[2], 4);
    assert b[0..4] == LeBytes(w[0], 4);
    assert b[4..8] == LeBytes(w[1], 4);
    assert b[8..12] == LeBytes(w[2], 4);
    ExtraData(b)
  }

  /** The decoded header record, field for field as declared in the source. */
  datatype Header = Header(
    resType: u32,
    baseWidth: u16,
    baseHeight: u16,
    version: i32,
    nMipmaps: u16,
    nSections: u16,
    iflags: i32,
    userFlags: i32,
    extra: ExtraData,
    commandString: CommandBytes)

  /** Why `parse` could not produce a header. */
  datatype ReadError =
    | ShortRead(available: nat)  // the file holds fewer than HeaderSize bytes

  // ---------------------------------------------------------------------------
  // The layout, as `#[repr(C)]` lays the record out

  datatype Field =
    | ResType | BaseWidth | BaseHeight | Version | NMipmaps | NSections
    | IFlags | UserFlags | Extra | CommandString

  /** The fields in declaration order. */
  const Fields: seq<Field> :=
    [ResType, BaseWidth, BaseHeight, Version, NMipmaps, NSections, IFlags, UserFlags, Extra, CommandString]

  /** `size_of` the field's type. */
  function Width(f: Field): nat
  {
    match f
    case ResType | Version | IFlags | UserFlags => 4
    case BaseWidth | BaseHeight | NMipmaps | NSections => 2
    case Extra => 12
    case CommandString => CommandStringSize
  }

  /** `align_of` the field's type: a union aligns as its most aligned view.
      No field is more aligned than the record. */
  function Align(f: Field): (a: nat)
    ensures 0 < a <= RecordAlign
  {
    match f
    case ResType | Version | IFlags | UserFlags | Extra => 4
    case BaseWidth | BaseHeight | NMipmaps | NSections => 2
    case CommandString => 1
  }

  /** Where the i-th field in declaration order starts when the fields are
      packed back to back: the sum of the widths of the fields before it.
      OffsetOfIndex(|Fields|) is the size of the whole record. */
  function OffsetOfIndex(i: nat): nat
    requires i <= |Fields|
  {
    if i == 0 then 0 else OffsetOfIndex(i - 1) + Width(Fields[i - 1])
  }

  /** Position of f in declaration order. */
  function FieldIndex(f: Field): (i: nat)
    ensures i < |Fields| && Fields[i] == f
  {
    match f
    case ResType => 0
    case BaseWidth => 1
    case BaseHeight => 2
    case Version => 3
    case NMipmaps => 4
    case NSections => 5
    case IFlags => 6
    case UserFlags => 7
    case Extra => 8
    case CommandString => 9
  }

  /** The packed offsets, worked out field by field. */
  lemma OffsetTable()
    ensures OffsetOfIndex(0) == 0 && OffsetOfIndex(1) == 4 && OffsetOfIndex(2) == 6
    ensures OffsetOfIndex(3) == 8 && OffsetOfIndex(4) == 12 && OffsetOfIndex(5) == 14
    ensures OffsetOfIndex(6) == 16 && OffsetOfIndex(7) == 20 && OffsetOfIndex(8) == 24
    ensures OffsetOfIndex(9) == 36 && OffsetOfIndex(10) == HeaderSize
  {
  }

  /** Where field f starts; it ends inside the record. */
  function Offset(f: Field): (o: nat)
    ensures o + Width(f) <= HeaderSize
  {
    OffsetTable();
    OffsetOfIndex(FieldIndex(f))
  }

  /** The offsets of the layout, which are those `Decode` reads from. */
  lemma LayoutTable()
    ensures Offset(ResType) == 0 && Offset(BaseWidth) == 4 && Offset(BaseHeight) == 6
    ensures Offset(Version) == 8 && Offset(NMipmaps) == 12 && Offset(NSections) == 14
    ensures Offset(IFlags) == 16 && Offset(UserFlags) == 20
    ensures Offset(Extra) == 24 && Offset(CommandString) == 36
    ensures OffsetOfIndex(|Fields|) == HeaderSize
  {
    OffsetTable();
  }

  /** The header is its fields packed back to back with no padding: the first
      starts at 0, each starts where the previous one ends, the last ends at
      HeaderSize, and the record size is the sum of the field widths. */
  lemma NoPadding(i: nat)
    requires i + 1 < |Fields|
    ensures Offset(Fields[0]) == 0
    ensures Offset(Fields[i + 1]) == Offset(Fields[i]) + Width(Fields[i])
    ensures Offset(Fields[|Fields| - 1]) + Width(Fields[|Fields| - 1]) == HeaderSize
  {
    LayoutTable();
  }

  /** Why `repr(C)` inserts no padding: every field already sits at a multiple
      of its alignment when packed, and the total is a multiple of the
      record's alignment. As for every Rust type, each field's size is a
      multiple of its alignment. */
  lemma NaturallyAligned(i: nat)
    requires i < |Fields|
    ensures OffsetOfIndex(i) % Align(Fields[i]) == 0
    ensures Width(Fields[i]) % Align(Fields[i]) == 0
    ensures HeaderSize % RecordAlign == 0
  {
    OffsetTable();
  }

  /** `align_of::<Header>()`: the largest alignment of any field. */
  const RecordAlign: nat := 4

  /** x rounded up to the next multiple of a. */
  function RoundUp(x: nat, a: nat): (r: nat)
    requires a > 0
    ensures r % a == 0 && x <= r < x + a
  {
    if x % a == 0 then x
    else
      NextMultiple(x, a);
      x + (a - x % a)
  }

  /** Adding what x lacks of the next multiple of a reaches that multiple. */
  lemma NextMultiple(x: nat, a: nat)
    requires a > 0
    ensures (x + (a - x % a)) % a == 0
  {
    var k := x / a + 1;
    assert x + (a - x % a) == a * k;
    DivModUnique(a * k, a, k, 0);
  }

  /** A multiple of a is not moved by rounding up to a multiple of a. */
  lemma RoundUpAligned(x: nat, a: nat)
    requires a > 0 && x % a == 0
    ensures RoundUp(x, a) == x
  {
  }

  /** The remainder of a * q + m by a is m, for any m below a. */
  lemma DivModUnique(x: nat, a: nat, q: nat, m: nat)
    requires a > 0 && m < a && x == a * q + m
    ensures x % a == m
  {
    var q' := x / a;
    assert a * q - a * q' == a * (q - q');
    MultipleAtLeast(a, q - q');
  }

  lemma MultipleAtLeast(a: nat, t: int)
    ensures t > 0 ==> a * t >= a
    ensures t < 0 ==> a * t + a <= 0
  {
  }

  /** The `repr(C)` layout rule: the first field starts at 0, and each
      further field starts at the end of the one before it, rounded up to its
      own alignment. */
  function ReprCOffset(i: nat): nat
    requires i < |Fields|
  {
    if i == 0 then 0 else RoundUp(ReprCOffset(i - 1) + Width(Fields[i - 1]), Align(Fields[i]))
  }

  /** The `repr(C)` size: the end of the last field, rounded up to the
      record's alignment. */
  function ReprCSize(): nat
  {
    RoundUp(ReprCOffset(|Fields| - 1) + Width(Fields[|Fields| - 1]), RecordAlign)
  }

  /** The `repr(C)` rule inserts no padding before any field: its offsets are
      the packed offsets. */
  lemma {:induction false} ReprCIsPacked(i: nat)
    requires i < |Fields|
    ensures ReprCOffset(i) == OffsetOfIndex(i)
  {
    if i > 0 {
      ReprCIsPacked(i - 1);
      ReprCStep(i);
    }
  }

  /** Each field's packed offset is already a multiple of its alignment, so
      the `repr(C)` rule's rounding up leaves it in place. */
  lemma ReprCStep(i: nat)
    requires 0 < i < |Fields|
    ensures RoundUp(OffsetOfIndex(i), Align(Fields[i])) == OffsetOfIndex(i)
  {
    NaturallyAligned(i);
    RoundUpAligned(OffsetOfIndex(i), Align(Fields[i]));
  }

  /** Every field sits where `repr(C)` puts it. */
  lemma ReprCOffsets(f: Field)
    ensures Offset(f) == ReprCOffset(FieldIndex(f))
  {
    ReprCIsPacked(FieldIndex(f));
  }

  /** The record's alignment is that of its most aligned field (Align bounds
      every field's), and `repr(C)` adds no tail padding: the record is
      HeaderSize bytes. */
  lemma ReprCSizeIsHeaderSize()
    ensures Align(ResType) == RecordAlign
    ensures ReprCSize() == HeaderSize
  {
    ReprCIsPacked(|Fields| - 1);
    OffsetTable();
    assert ReprCOffset(|Fields| - 1) + Width(Fields[|Fields| - 1]) == HeaderSize;
    assert RoundUp(HeaderSize, RecordAlign) == HeaderSize;
  }

  /** Every byte of the header belongs to some field. */
  function FieldAt(i: nat): (f: Field)
    requires i < HeaderSize
    ensures Offset(f) <= i < Offset(f) + Width(f)
  {
    LayoutTable();
    if i < 4 then ResType
    else if i < 6 then BaseWidth
    else if i < 8 then BaseHeight
    else if i < 12 then Version
    else if i < 14 then NMipmaps
    else if i < 16 then NSections
    else if i < 20 then IFlags
    else if i < 24 then UserFlags
    else if i < 36 then Extra
    else CommandString
  }

  /** No byte belongs to two fields. */
  lemma FieldsDisjoint(f: Field, g: Field, i: nat)
    requires Offset(f) <= i < Offset(f) + Width(f)
    requires Offset(g) <= i < Offset(g) + Width(g)
    ensures f == g
  {
    LayoutTable();
  }

  // ---------------------------------------------------------------------------
  // Encoding and decoding

  /** The bytes that represent field f of h in memory (little-endian). */
  function FieldBytes(h: Header, f: Field): (s: seq<byte>)
    ensures |s| == Width(f)
  {
    match f
    case ResType => LeBytes(h.resType, 4)
    case BaseWidth => LeBytes(h.baseWidth, 2)
    case BaseHeight => LeBytes(h.baseHeight, 2)
    case Version => LeBytes(FromI32(h.version), 4)
    case NMipmaps => LeBytes(h.nMipmaps, 2)
    case NSections => LeBytes(h.nSections, 2)
    case IFlags => LeBytes(FromI32(h.iflags), 4)
    case UserFlags => LeBytes(FromI32(h.userFlags), 4)
    case Extra => h.extra.extra
    case CommandString => h.commandString
  }

  /** The first n fields of h, in declaration order, packed back to back. */
  function EncodePrefix(h: Header, n: nat): (s: seq<byte>)
    requires n <= |Fields|
    ensures |s| == OffsetOfIndex(n)
  {
    if n == 0 then [] else EncodePrefix(h, n - 1) + FieldBytes(h, Fields[n - 1])
  }

  /** The in-memory image of a header: all its fields in declaration order. */
  function Encode(h: Header): (buf: seq<byte>)
    ensures |buf| == HeaderSize
  {
    OffsetTable();
    EncodePrefix(h, |Fields|)
  }

  /** `transmute::<[u8; 164], Header>`: each field read from its fixed offset,
      unsigned fields little-endian, signed fields as two's complement. */
  function Decode(buf: seq<byte>): (h: Header)
    requires |buf| == HeaderSize
  {
    Header(
      resType := LeValue(buf[0..4]),
      baseWidth := LeValue(buf[4..6]),
      baseHeight := LeValue(buf[6..8]),
      version := ToI32(LeValue(buf[8..12])),
      nMipmaps := LeValue(buf[12..14]),
      nSections := LeValue(buf[14..16]),
      iflags := ToI32(LeValue(buf[16..20])),
      userFlags := ToI32(LeValue(buf[20..24])),
      extra := ExtraData(buf[24..36]),
      commandString := buf[36..164])
  }

  /** `Header::parse`: read HeaderSize bytes from offset 0 of the file and
      decode them; a shorter file fails as a whole. */
  function Parse(file: seq<byte>): (r: Result<Header, ReadError>)
    ensures r.Success? <==> |file| >= HeaderSize
    ensures r.Failure? ==> r.error.available == |file|
  {
    if |file| < HeaderSize then Failure(ShortRead(|file|))
    else Success(Decode(file[..HeaderSize]))
  }

  /** `Header::new`: every field zero, the union set through `extra_long`. */
  function New(): (h: Header)
  {
    Header(0, 0, 0, 0, 0, 0, 0, 0, ExtraFromLong([0, 0, 0]), seq(128, _ => 0))
  }

  // ---------------------------------------------------------------------------
  // Properties

  /** The i-th field's bytes sit between OffsetOfIndex(i) and
      OffsetOfIndex(i + 1) of any longer packed prefix. */
  lemma {:induction false} EncodePrefixSlice(h: Header, n: nat, i: nat)
    requires i < n <= |Fields|
    ensures OffsetOfIndex(i + 1) <= OffsetOfIndex(n)
    ensures EncodePrefix(h, n)[OffsetOfIndex(i)..OffsetOfIndex(i + 1)] == FieldBytes(h, Fields[i])
  {
    var front, last := EncodePrefix(h, n - 1), FieldBytes(h, Fields[n - 1]);
    assert EncodePrefix(h, n) == front + last;
    if i + 1 < n {
      EncodePrefixSlice(h, n - 1, i);
      assert (front + last)[OffsetOfIndex(i)..OffsetOfIndex(i + 1)] == front[OffsetOfIndex(i)..OffsetOfIndex(i + 1)];
    } else {
      assert (front + last)[|front|..|front| + |last|] == last;
    }
  }

  /** Encoding puts each field at its own offset with its own width. */
  lemma EncodeField(h: Header, f: Field)
    ensures Offset(f) + Width(f) <= HeaderSize
    ensures Encode(h)[Offset(f)..Offset(f) + Width(f)] == FieldBytes(h, f)
  {
    EncodePrefixSlice(h, |Fields|, FieldIndex(f));
  }

  /** Decoding reads each field from exactly its own offset and width,
      and from no neighbouring byte. */
  lemma DecodeField(buf: seq<byte>, f: Field)
    requires |buf| == HeaderSize
    ensures Offset(f) + Width(f) <= HeaderSize
    ensures FieldBytes(Decode(buf), f) == buf[Offset(f)..Offset(f) + Width(f)]
  {
    match f
    case Extra | CommandString => LayoutTable();
    case ResType | BaseWidth | BaseHeight | NMipmaps | NSections => DecodeUnsignedField(buf, f);
    case Version | IFlags | UserFlags => DecodeSignedField(buf, f);
  }

  lemma DecodeUnsignedField(buf: seq<byte>, f: Field)
    requires |buf| == HeaderSize
    requires f == ResType || f == BaseWidth || f == BaseHeight || f == NMipmaps || f == NSections
    ensures FieldBytes(Decode(buf), f) == buf[Offset(f)..Offset(f) + Width(f)]
  {
    LayoutTable();
    LeBytesOfLeValue(buf[Offset(f)..Offset(f) + Width(f)]);
  }

  lemma DecodeSignedField(buf: seq<byte>, f: Field)
    requires |buf| == HeaderSize
    requires f == Version || f == IFlags || f == UserFlags
    ensures FieldBytes(Decode(buf), f) == buf[Offset(f)..Offset(f) + Width(f)]
  {
    LayoutTable();
    var s := buf[Offset(f)..Offset(f) + Width(f)];
    LeBytesOfLeValue(s);
    FromToI32(LeValue(s));
  }


  /** Two byte images that agree on every field agree everywhere. */
  lemma SameFieldsSameBytes(a: seq<byte>, b: seq<byte>)
    requires |a| == HeaderSize && |b| == HeaderSize
    requires forall f: Field :: a[Offset(f)..Offset(f) + Width(f)] == b[Offset(f)..Offset(f) + Width(f)]
    ensures a == b
  {
    LayoutTable();
    forall i | 0 <= i < HeaderSize
      ensures a[i] == b[i]
    {
      var f := FieldAt(i);
      assert a[Offset(f)..Offset(f) + Width(f)][i - Offset(f)] == a[i];
      assert b[Offset(f)..Offset(f) + Width(f)][i - Offset(f)] == b[i];
    }
  }

  /** The decode is lossless: re-encoding a decoded header gives back the
      original bytes. */
  lemma EncodeDecode(buf: seq<byte>)
    requires |buf| == HeaderSize
    ensures Encode(Decode(buf)) == buf
  {
    var h := Decode(buf);
    forall f: Field
      ensures Encode(h)[Offset(f)..Offset(f) + Width(f)] == buf[Offset(f)..Offset(f) + Width(f)]
    {
      EncodeField(h, f);
      DecodeField(buf, f);
    }
    SameFieldsSameBytes(Encode(h), buf);
  }

  /** A header is determined by the bytes of its fields. */
  lemma SameBytesSameHeader(a: Header, b: Header)
    requires forall f: Field :: FieldBytes(a, f) == FieldBytes(b, f)
    ensures a == b
  {
    assert Pow256(2) == 0x1_0000 && Pow256(4) == 0x1_0000_0000;
    assert a.resType == b.resType by {
      assert FieldBytes(a, ResType) == FieldBytes(b, ResType);
      LeBytesInjective(a.resType, b.resType, 4);
    }
    assert a.baseWidth == b.baseWidth by {
      assert FieldBytes(a, BaseWidth) == FieldBytes(b, BaseWidth);
      LeBytesInjective(a.baseWidth, b.baseWidth, 2);
    }
    assert a.baseHeight == b.baseHeight by {
      assert FieldBytes(a, BaseHeight) == FieldBytes(b, BaseHeight);
      LeBytesInjective(a.baseHeight, b.baseHeight, 2);
    }
    assert a.version == b.version by {
      assert FieldBytes(a, Version) == FieldBytes(b, Version);
      LeBytesInjective(FromI32(a.version), FromI32(b.version), 4);
    }
    assert a.nMipmaps == b.nMipmaps by {
      assert FieldBytes(a, NMipmaps) == FieldBytes(b, NMipmaps);
      LeBytesInjective(a.nMipmaps, b.nMipmaps, 2);
    }
    assert a.nSections == b.nSections by {
      assert FieldBytes(a, NSections) == FieldBytes(b, NSections);
      LeBytesInjective(a.nSections, b.nSections, 2);
    }
    assert a.iflags == b.iflags by {
      assert FieldBytes(a, IFlags) == FieldBytes(b, IFlags);
      LeBytesInjective(FromI32(a.iflags), FromI32(b.iflags), 4);
    }
    assert a.userFlags == b.userFlags by {
      assert FieldBytes(a, UserFlags) == FieldBytes(b, UserFlags);
      LeBytesInjective(FromI32(a.userFlags), FromI32(b.userFlags), 4);
    }
    assert FieldBytes(a, Extra) == FieldBytes(b, Extra);
    assert FieldBytes(a, CommandString) == FieldBytes(b, CommandString);
  }

  /** Decoding an encoded header gives back every field, whatever its value. */
  lemma DecodeEncode(h: Header)
    ensures Decode(Encode(h)) == h
  {
    var d := Decode(Encode(h));
    forall f: Field
      ensures FieldBytes(d, f) == FieldBytes(h, f)
    {
      EncodeField(h, f);
      DecodeField(Encode(h), f);
    }
    SameBytesSameHeader(d, h);
  }

  /** A successful parse is a lossless view of the file's first HeaderSize
      bytes; nothing after them is read. */
  lemma ParseLossless(file: seq<byte>)
    ensures Parse(file).Success? ==> Encode(Parse(file).value) == file[..HeaderSize]
  {
    if |file| >= HeaderSize {
      EncodeDecode(file[..HeaderSize]);
    }
  }

  /** `parse` reads from offset 0 and stops after HeaderSize bytes: whatever
      the file holds beyond them does not change the result. */
  lemma ParseIgnoresRest(file: seq<byte>, rest: seq<byte>)
    requires |file| >= HeaderSize
    ensures Parse(file + rest) == Parse(file)
  {
    assert (file + rest)[..HeaderSize] == file[..HeaderSize];
  }

  /** No field is validated: every header, with any version, dimensions,
      counts or flags, parses back out of its own bytes, whatever follows. */
  lemma ParseAcceptsAnyHeader(h: Header, rest: seq<byte>)
    ensures Parse(Encode(h) + rest) == Success(h)
  {
    assert (Encode(h) + rest)[..HeaderSize] == Encode(h);
    DecodeEncode(h);
  }

  /** The union's views share all 12 bytes: reading the words and writing
      them back restores the bytes (the converse is ExtraFromLong's contract). */
  lemma ExtraBytesRoundTrip(e: ExtraData)
    ensures ExtraFromLong(ExtraLong(e)) == e
  {
    var b, w := e.extra, ExtraLong(e);
    assert LeBytes(w[0], 4) == b[0..4] by { LeBytesOfLeValue(b[0..4]); }
    assert LeBytes(w[1], 4) == b[4..8] by { LeBytesOfLeValue(b[4..8]); }
    assert LeBytes(w[2], 4) == b[8..12] by { LeBytesOfLeValue(b[8..12]); }
    assert b == b[0..4] + b[4..8] + b[8..12];
  }

  /** 164 zero bytes decode to `Header::new`. */
  lemma ZerosDecodeToNew()
    ensures Decode(seq(HeaderSize, _ => 0)) == New()
  {
    var zeros: seq<byte> := seq(HeaderSize, _ => 0);
    var d := Decode(zeros);
    assert d.resType == 0 && d.version == 0 && d.iflags == 0 && d.userFlags == 0 by {
      ZeroBytes(4);
      assert zeros[0..4] == zeros[8..12] == zeros[16..20] == zeros[20..24] == seq(4, _ => 0);
    }
    assert d.baseWidth == 0 && d.baseHeight == 0 && d.nMipmaps == 0 && d.nSections == 0 by {
      ZeroBytes(2);
      assert zeros[4..6] == zeros[6..8] == zeros[12..14] == zeros[14..16] == seq(2, _ => 0);
    }
    assert d.extra == New().extra by {
      NewExtraIsZero();
      assert zeros[24..36] == seq(12, _ => 0);
    }
    assert d.commandString == New().commandString;
  }

  /** The union of `Header::new`, set through `extra_long: [0; 3]`, reads as
      twelve zero bytes. */
  lemma NewExtraIsZero()
    ensures New().extra.extra == seq(12, _ => 0)
  {
    ZeroBytes(4);
  }

  /** `Header::new` is the all-zero image: it encodes to 164 zero bytes. */
  lemma NewIsAllZero()
    ensures Encode(New()) == seq(HeaderSize, _ => 0)
  {
    ZerosDecodeToNew();
    EncodeDecode(seq(HeaderSize, _ => 0));
  }

  /** A texture of type 1, 256 x 256, version -5, 4 mipmaps, 1 section,
      flagged fullbrite and cubemap, every other byte zero: first as bytes... */
  const ExampleScalars: seq<byte> :=
    [1, 0, 0, 0, 0, 1, 0, 1, 0xFB, 0xFF, 0xFF, 0xFF, 4, 0, 1, 0, 0x01, 0x04, 0, 0, 0, 0, 0, 0]
  const ExampleBytes: seq<byte> := ExampleScalars + seq(140, _ => 0)

  /** ... then as the header those bytes stand for. The flag word is
      `DtxFullbrite | DtxCubemap`; adding the masks is the same as ORing them
      because they share no bit (FlagsDisjoint: their AND is 0). */
  const ExampleHeaderValue: Header :=
    Header(1, 256, 256, CurrentDtxVersion, 4, 1,
           DtxFlags.Mask(DtxFlags.DtxFullbrite) + DtxFlags.Mask(DtxFlags.DtxCubemap), 0,
           ExtraData(seq(12, _ => 0)), seq(128, _ => 0))

  lemma ExampleFieldBytes(f: Field)
    ensures ExampleBytes[Offset(f)..Offset(f) + Width(f)] == FieldBytes(ExampleHeaderValue, f)
  {
    match f
    case Extra | CommandString => ExampleBlobs(); LayoutTable();
    case Version => ExampleVersionField(); LayoutTable();
    case ResType | UserFlags => ExampleWordFields(); LayoutTable();
    case IFlags => ExampleFlagField(); LayoutTable();
    case BaseWidth | BaseHeight => ExampleDimensionFields(); LayoutTable();
    case NMipmaps | NSections => ExampleCountFields(); LayoutTable();
  }

  /** The example's first 24 bytes are its scalar fields... */
  lemma ExampleScalarBytes(i: nat, j: nat)
    requires i <= j <= |ExampleScalars|
    ensures ExampleBytes[i..j] == ExampleScalars[i..j]
  {
    assert forall k | i <= k < j :: ExampleBytes[k] == ExampleScalars[k];
  }

  /** ... and the rest are zero. */
  lemma ExampleZeroBytes(i: nat, j: nat)
    requires |ExampleScalars| <= i <= j <= HeaderSize
    ensures ExampleBytes[i..j] == seq(j - i, _ => 0)
  {
    forall k | i <= k < j
      ensures ExampleBytes[k] == 0
    {
      assert ExampleBytes[k] == seq(140, _ => 0)[k - |ExampleScalars|];
    }
  }

  lemma ExampleBlobs()
    ensures ExampleBytes[24..36] == FieldBytes(ExampleHeaderValue, Extra)
    ensures ExampleBytes[36..164] == FieldBytes(ExampleHeaderValue, CommandString)
  {
    ExampleZeroBytes(24, 36);
    ExampleZeroBytes(36, 164);
  }

  lemma ExampleVersionField()
    ensures ExampleBytes[8..12] == FieldBytes(ExampleHeaderValue, Version)
  {
    var word := ExampleBytes[8..12];
    ExampleScalarBytes(8, 12);
    assert word == [0xFB, 0xFF, 0xFF, 0xFF];
    LeValueOfFourBytes(word);
    LeBytesOfLeValue(word);
  }

  lemma ExampleWordFields()
    ensures ExampleBytes[0..4] == FieldBytes(ExampleHeaderValue, ResType)
    ensures ExampleBytes[20..24] == FieldBytes(ExampleHeaderValue, UserFlags)
  {
    ExampleScalarBytes(0, 4);
    assert ExampleScalars[0..4] == [1, 0, 0, 0] == LeBytes(1, 4);
    ExampleScalarBytes(20, 24);
    assert ExampleScalars[20..24] == [0, 0, 0, 0] == LeBytes(0, 4);
  }

  lemma ExampleFlagField()
    ensures ExampleBytes[16..20] == FieldBytes(ExampleHeaderValue, IFlags)
  {
    ExampleScalarBytes(16, 20);
    assert ExampleHeaderValue.iflags == 0x401 by {
      assert DtxFlags.Mask(DtxFlags.DtxFullbrite) == 1 && DtxFlags.Mask(DtxFlags.DtxCubemap) == 0x400;
    }
    assert ExampleScalars[16..20] == [0x01, 0x04, 0, 0] == LeBytes(0x401, 4);
  }

  lemma ExampleDimensionFields()
    ensures ExampleBytes[4..6] == FieldBytes(ExampleHeaderValue, BaseWidth)
    ensures ExampleBytes[6..8] == FieldBytes(ExampleHeaderValue, BaseHeight)
  {
    ExampleScalarBytes(4, 8);
    assert ExampleScalars[4..8] == [0, 1, 0, 1];
    assert LeBytes(256, 2) == [0, 1];
  }

  lemma ExampleCountFields()
    ensures ExampleBytes[12..14] == FieldBytes(ExampleHeaderValue, NMipmaps)
    ensures ExampleBytes[14..16] == FieldBytes(ExampleHeaderValue, NSections)
  {
    ExampleScalarBytes(12, 16);
    assert ExampleScalars[12..16] == [4, 0, 1, 0];
    assert LeBytes(4, 2) == [4, 0] && LeBytes(1, 2) == [1, 0];
  }

  /** The example's flag word 0x401 has fullbrite and cubemap set, bump map clear. */
  lemma ExampleFlags()
    ensures DtxFlags.Has(0x401, DtxFlags.DtxFullbrite)
    ensures DtxFlags.Has(0x401, DtxFlags.DtxCubemap)
    ensures !DtxFlags.Has(0x401, DtxFlags.DtxBumpmap)
  {
    assert DtxFlags.Bit(0x401, 0);
    assert DtxFlags.Bit(0x401, 10) == DtxFlags.Bit(0x200, 9) == DtxFlags.Bit(0x100, 8) == DtxFlags.Bit(0x80, 7)
        == DtxFlags.Bit(0x40, 6) == DtxFlags.Bit(0x20, 5) == DtxFlags.Bit(0x10, 4) == DtxFlags.Bit(8, 3)
        == DtxFlags.Bit(4, 2) == DtxFlags.Bit(2, 1) == DtxFlags.Bit(1, 0) == true;
    assert DtxFlags.Bit(0x401, 11) == DtxFlags.Bit(0x200, 10) == DtxFlags.Bit(0x100, 9) == DtxFlags.Bit(0x80, 8)
        == DtxFlags.Bit(0x40, 7) == DtxFlags.Bit(0x20, 6) == DtxFlags.Bit(0x10, 5) == DtxFlags.Bit(8, 4)
        == DtxFlags.Bit(4, 3) == DtxFlags.Bit(2, 2) == DtxFlags.Bit(1, 1) == DtxFlags.Bit(0, 0) == false;
    DtxFlags.HasIsBitTest(0x401, DtxFlags.DtxFullbrite);
    DtxFlags.HasIsBitTest(0x401, DtxFlags.DtxCubemap);
    DtxFlags.HasIsBitTest(0x401, DtxFlags.DtxBumpmap);
  }

  /** The example decodes to exactly those values; its internal flags have
      fullbrite and cubemap set and bump map clear. */
  lemma ExampleHeader()
    ensures Parse(ExampleBytes) == Success(ExampleHeaderValue)
    ensures var h := Parse(ExampleBytes).value;
      && h.version == CurrentDtxVersion
      && DtxFlags.Has(h.iflags, DtxFlags.DtxFullbrite)
      && DtxFlags.Has(h.iflags, DtxFlags.DtxCubemap)
      && !DtxFlags.Has(h.iflags, DtxFlags.DtxBumpmap)
  {
    var buf := ExampleBytes;
    assert buf[..HeaderSize] == buf;
    var h := Decode(buf);
    forall f: Field
      ensures FieldBytes(h, f) == FieldBytes(ExampleHeaderValue, f)
    {
      DecodeField(buf, f);
      ExampleFieldBytes(f);
    }
    SameBytesSameHeader(h, ExampleHeaderValue);
    assert h.iflags == 0x401;
    ExampleFlags();
  }
}
