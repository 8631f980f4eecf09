/** Frames: a magic number, a descriptor and a label in front of a region stream. */
module Frames {
  import opened Bytes
  import opened Lz4
  import opened Regions
  import opened Packing
  import opened Memory
  import opened Bearer
  import opened Values
  import opened Exactness
  import opened Decoder
  import opened EndToEnd

  const MAGIC_NUM: nat := 0x96EBCEA9
  const MASK_SEEDED: nat := 128
  const MASK_TIMESTAMP: nat := 64
  const MAX_DESCRIPTOR_LEN: nat := 9
  const MAX_LABEL_LEN: nat := 255

  datatype FrameError =
    | MalformedLabel
    | NonAsciiLabel
    | NoMagicNumber
    | MetadataError
    | EnvironmentMismatch

  datatype FrameFailure = FrameFailure(frame: FrameError) | ValueFailure(value: DecodeError)

  datatype Metadata = Metadata(seeded: bool, timestamp: Option<nat>, text: bytes) {
    /** What the setters of a frame let through. */
    predicate Valid() {
      && (timestamp.Some? ==> timestamp.value < Pow256(8))
      && ValidLabel(text)
    }
  }

  predicate IsAscii(b: bytes) {
    forall i :: 0 <= i < |b| ==> b[i] < 128
  }

  predicate ValidLabel(b: bytes) {
    IsAscii(b) && |b| <= MAX_LABEL_LEN
  }

  // Writing.

  /** The flags occupy the two high bits of the descriptor byte. */
  function FlagByte(m: Metadata): byte {
    (if m.seeded then MASK_SEEDED else 0) + (if m.timestamp.Some? then MASK_TIMESTAMP else 0)
  }

  function DescriptorBytes(m: Metadata): (b: bytes)
    ensures |b| == if m.timestamp.Some? then MAX_DESCRIPTOR_LEN else 1
  {
    [FlagByte(m)] + match m.timestamp case Some(t) => ToLe(t, 8) case None => []
  }

  function LabelBytes(text: bytes): bytes
    requires |text| <= MAX_LABEL_LEN
  {
    [|text|] + text
  }

  function MetadataBytes(m: Metadata): (b: bytes)
    requires |m.text| <= MAX_LABEL_LEN
    ensures |b| == 4 + 1 + (if m.timestamp.Some? then 8 else 0) + 1 + |m.text|
  {
    ToLe(MAGIC_NUM, 4) + DescriptorBytes(m) + LabelBytes(m.text)
  }

  // Reading.

  function HasFlag(b: byte, mask: nat): bool
    requires mask > 0
  {
    b / mask % 2 == 1
  }

  function DescriptorLen(flags: byte): nat {
    if HasFlag(flags, MASK_TIMESTAMP) then MAX_DESCRIPTOR_LEN else 1
  }

  /** The descriptor is parsed from a fixed lookahead of nine bytes. */
  function ParseDescriptor(src: bytes): Metadata
    requires |src| >= MAX_DESCRIPTOR_LEN
  {
    Metadata(
      HasFlag(src[0], MASK_SEEDED),
      if HasFlag(src[0], MASK_TIMESTAMP) then Some(FromLe(src[1..9])) else None,
      [])
  }

  datatype Parsed<+T> = Parsed(value: T, rest: bytes)

  function ParseLabel(src: bytes): Result<Parsed<bytes>, FrameError> {
    if |src| < 1 then Err(MetadataError)
    else
      var len: nat := src[0];
      if |src| < 1 + len then Err(MalformedLabel)
      else if !ValidLabel(src[1..1 + len]) then Err(NonAsciiLabel)
      else Ok(Parsed(src[1..1 + len], src[1 + len..]))
  }

  function ParseMetadata(src: bytes): Result<Parsed<Metadata>, FrameError> {
    if |src| < 4 then Err(MetadataError)
    else if FromLe(src[..4]) != MAGIC_NUM then Err(NoMagicNumber)
    else if |src| < 4 + MAX_DESCRIPTOR_LEN then Err(MetadataError)
    else
      var m := ParseDescriptor(src[4..]);
      match ParseLabel(src[4 + DescriptorLen(src[4])..])
      case Err(e) => Err(e)
      case Ok(l) => Ok(Parsed(m.(text := l.value), l.rest))
  }

  // What is accepted, told by the bytes.

  /** What the setters of a frame let through: timestamps of 64 bits and labels of up to 255 ASCII
      characters. */
  lemma ValidMetadataIff(m: Metadata)
    ensures m.Valid() <==>
      && (m.timestamp.Some? ==> m.timestamp.value < 0x1_0000_0000_0000_0000)
      && |m.text| <= 255 && forall i :: 0 <= i < |m.text| ==> m.text[i] < 128
  {
    PowersOf256();
  }

  lemma LabelOutcome(src: bytes)
    ensures src == [] ==> ParseLabel(src) == Err(MetadataError)
    ensures src != [] && |src| - 1 < src[0] as int ==> ParseLabel(src) == Err(MalformedLabel)
    ensures src != [] && |src| - 1 >= src[0] as int ==>
      var text, rest := src[1..1 + src[0] as int], src[1 + src[0] as int..];
      ParseLabel(src) == if forall i :: 0 <= i < |text| ==> text[i] < 128 then Ok(Parsed(text, rest))
                         else Err(NonAsciiLabel)
  {
  }

  /** The outcome of parsing metadata: too short for a magic number, another magic number, too short
      for the lookahead, or what the flags, the timestamp and the label say. */
  lemma MetadataOutcome(src: bytes)
    ensures |src| < 4 ==> ParseMetadata(src) == Err(MetadataError)
    ensures |src| >= 4 && src[..4] != [0xA9, 0xCE, 0xEB, 0x96] ==> ParseMetadata(src) == Err(NoMagicNumber)
    ensures 4 <= |src| < 13 && src[..4] == [0xA9, 0xCE, 0xEB, 0x96] ==> ParseMetadata(src) == Err(MetadataError)
    ensures |src| >= 13 && src[..4] == [0xA9, 0xCE, 0xEB, 0x96] ==>
      var timed := src[4] / 64 % 2 == 1;
      ParseMetadata(src) == match ParseLabel(src[if timed then 13 else 5..])
        case Err(e) => Err(e)
        case Ok(l) =>
          Ok(Parsed(Metadata(src[4] >= 128, if timed then Some(FromLe(src[5..13])) else None, l.value), l.rest))
  {
    if |src| >= 4 {
      ToFromLe(src[..4]);
      MagicBytes();
      PowersOf256();
      FromToLe(MAGIC_NUM, 4);
    }
    if |src| >= 13 {
      assert src[4..][1..9] == src[5..13];
      assert src[4] / 128 % 2 == 1 <==> src[4] >= 128;
    }
  }

  // Parsing against writing.

  lemma FlagsReadBack(m: Metadata)
    ensures HasFlag(FlagByte(m), MASK_SEEDED) == m.seeded
    ensures HasFlag(FlagByte(m), MASK_TIMESTAMP) == m.timestamp.Some?
    ensures FlagByte(m) % 64 == 0
  {
  }

  /** The layout of the specification, except that the magic number has four bytes: the code writes
      four where the specification's text says a 64-bit integer. */
  lemma MetadataLayout(m: Metadata)
    requires m.Valid()
    ensures var b := MetadataBytes(m);
      && b[..4] == [0xA9, 0xCE, 0xEB, 0x96]
      && (b[4] >= 128 <==> m.seeded) && (b[4] / 64 % 2 == 1 <==> m.timestamp.Some?)
      && (m.timestamp.Some? ==> FromLe(b[5..13]) == m.timestamp.value)
      && b[|b| - 1 - |m.text|] == |m.text| && b[|b| - |m.text|..] == m.text
  {
    var b, d := MetadataBytes(m), DescriptorBytes(m);
    MagicBytes();
    FlagsReadBack(m);
    assert b[..4] == ToLe(MAGIC_NUM, 4);
    assert b[4..4 + |d|] == d && b[4] == d[0];
    assert b[4 + |d|..] == LabelBytes(m.text);
    if m.timestamp.Some? {
      assert b[5..13] == d[1..] == ToLe(m.timestamp.value, 8);
      FromToLe(m.timestamp.value, 8);
    }
  }

  lemma MagicBytes()
    ensures ToLe(MAGIC_NUM, 4) == [0xA9, 0xCE, 0xEB, 0x96]
  {
    assert ToLe(0x96, 1) == [0x96] + ToLe(0, 0);
    assert ToLe(0x96EB, 2) == [0xEB] + ToLe(0x96, 1);
    assert ToLe(0x96EBCE, 3) == [0xCE] + ToLe(0x96EB, 2);
    assert ToLe(MAGIC_NUM, 4) == [0xA9] + ToLe(0x96EBCE, 3);
  }

  lemma DescriptorReadsBack(m: Metadata, tail: bytes)
    requires m.Valid() && |DescriptorBytes(m)| + |tail| >= MAX_DESCRIPTOR_LEN
    ensures ParseDescriptor(DescriptorBytes(m) + tail) == m.(text := [])
    ensures DescriptorLen((DescriptorBytes(m) + tail)[0]) == |DescriptorBytes(m)|
  {
    var src := DescriptorBytes(m) + tail;
    FlagsReadBack(m);
    assert src[0] == FlagByte(m);
    if m.timestamp.Some? {
      assert src[1..9] == ToLe(m.timestamp.value, 8);
      FromToLe(m.timestamp.value, 8);
    }
  }

  lemma LabelReadsBack(text: bytes, tail: bytes)
    requires ValidLabel(text)
    ensures ParseLabel(LabelBytes(text) + tail) == Ok(Parsed(text, tail))
  {
    var src := LabelBytes(text) + tail;
    assert src[1..1 + |text|] == text && src[1 + |text|..] == tail;
  }

  /** Metadata reads back with the stream left right behind it, exactly if nine bytes follow the
      magic number; a shorter frame cannot be opened. */
  lemma MetadataReadsBackIff(m: Metadata, stream: bytes)
    requires m.Valid()
    ensures var src := MetadataBytes(m) + stream;
      ParseMetadata(src) ==
        if |src| >= 4 + MAX_DESCRIPTOR_LEN then Ok(Parsed(m, stream)) else Err(MetadataError)
  {
    hide DescriptorBytes, LabelBytes, ParseDescriptor, ParseLabel, DescriptorLen, ToLe, FromLe;
    var src := MetadataBytes(m) + stream;
    var tail := LabelBytes(m.text) + stream;
    assert src == ToLe(MAGIC_NUM, 4) + (DescriptorBytes(m) + tail);
    assert src[..4] == ToLe(MAGIC_NUM, 4);
    PowersOf256();
    FromToLe(MAGIC_NUM, 4);
    if |src| >= 4 + MAX_DESCRIPTOR_LEN {
      assert src[4..] == DescriptorBytes(m) + tail && src[4] == (DescriptorBytes(m) + tail)[0];
      DescriptorReadsBack(m, tail);
      assert src[4 + |DescriptorBytes(m)|..] == tail;
      LabelReadsBack(m.text, stream);
    }
  }

  lemma ParsedLabelIsWritten(src: bytes)
    requires ParseLabel(src).Ok?
    ensures var x := ParseLabel(src).value;
      ValidLabel(x.value) && src == LabelBytes(x.value) + x.rest
  {
    var len: nat := src[0];
    assert src == [src[0]] + src[1..1 + len] + src[1 + len..];
  }

  lemma FlagByteOf(b: byte, m: Metadata)
    requires HasFlag(b, MASK_SEEDED) == m.seeded && HasFlag(b, MASK_TIMESTAMP) == m.timestamp.Some?
    ensures b == FlagByte(m) + b % 64
  {
  }

  lemma ParsedDescriptorIsWrittenIff(src: bytes, text: bytes)
    requires |src| >= MAX_DESCRIPTOR_LEN
    ensures var m, n := ParseDescriptor(src).(text := text), DescriptorLen(src[0]);
      && (m.timestamp.Some? ==> m.timestamp.value < Pow256(8))
      && |DescriptorBytes(m)| == n
      && (src[..n] == DescriptorBytes(m) <==> src[0] % 64 == 0)
  {
    var m, n := ParseDescriptor(src).(text := text), DescriptorLen(src[0]);
    ToFromLe(src[1..9]);
    FlagByteOf(src[0], m);
    assert src[..n] == [src[0]] + src[1..n];
    assert src[..n][0] == src[0];
    assert DescriptorBytes(m)[0] == FlagByte(m);
  }

  lemma ParsedMetadataParts(src: bytes)
    requires ParseMetadata(src).Ok?
    ensures var x, n := ParseMetadata(src).value, DescriptorLen(src[4]);
      && x.value.Valid() && |DescriptorBytes(x.value)| == n && 4 + n <= |src|
      && MetadataBytes(x.value) + x.rest == src[..4] + DescriptorBytes(x.value) + src[4 + n..]
      && (src[4..4 + n] == DescriptorBytes(x.value) <==> src[4] % 64 == 0)
  {
    var x := ParseMetadata(src).value;
    var m, n, d := x.value, DescriptorLen(src[4]), DescriptorBytes(x.value);
    var tail := src[4 + n..];
    ToFromLe(src[..4]);
    ParsedDescriptorIsWrittenIff(src[4..], m.text);
    ParsedLabelIsWritten(tail);
    assert src[4..][..n] == src[4..4 + n];
    assert src[..4] + d + LabelBytes(m.text) + x.rest == src[..4] + d + (LabelBytes(m.text) + x.rest);
  }

  /** Parsing loses nothing but the reserved bits: what was parsed is what would be written, and
      the parsed bytes are the written ones exactly when the six reserved bits are zero. */
  lemma ParsedMetadataIsWrittenIff(src: bytes)
    requires ParseMetadata(src).Ok?
    ensures var x := ParseMetadata(src).value;
      && x.value.Valid() && |src| == |MetadataBytes(x.value)| + |x.rest|
      && (src == MetadataBytes(x.value) + x.rest <==> src[4] % 64 == 0)
  {
    ParsedMetadataParts(src);
    var x, n := ParseMetadata(src).value, DescriptorLen(src[4]);
    var a, b, c := src[..4], src[4..4 + n], src[4 + n..];
    ThreeParts(src, 4, 4 + n);
    JoinedIff(a, b, DescriptorBytes(x.value), c);
  }

  lemma ThreeParts(src: bytes, i: nat, j: nat)
    requires i <= j <= |src|
    ensures src == src[..i] + src[i..j] + src[j..]
  {
  }

  lemma JoinedIff(a: bytes, b: bytes, b': bytes, c: bytes)
    requires |b| == |b'|
    ensures a + b + c == a + b' + c <==> b == b'
  {
    if a + b + c == a + b' + c {
      assert b == (a + b + c)[|a|..|a| + |b|] == (a + b' + c)[|a|..|a| + |b|] == b';
    }
  }

  // The operations of a frame.

  /** `FrameMetadata::encode_into_writer`: magic number and descriptor in one write, then the
      label. */
  method WriteMetadata(p: Platform, m: Metadata, dst: ByteVec)
    requires p.Lawful() && dst.Valid() && m.Valid()
    modifies dst, dst.data
    ensures dst.Valid() && dst.View() == old(dst.View()) + MetadataBytes(m)
    ensures dst.data == old(dst.data) || fresh(dst.data)
  {
    dst.ExtendFromSlice(p, ToLe(MAGIC_NUM, 4) + DescriptorBytes(m));
    dst.ExtendFromSlice(p, LabelBytes(m.text));
  }

  /** `Frame::encode`. */
  method EncodeFrame(p: Platform, dst: ByteVec, seed: Option<nat>, timestamp: Option<nat>, text: bytes,
                     s: Schema, v: Value, size: nat)
    requires p.Lawful() && dst.Valid() && Typed(s, v)
    requires Metadata(seed.Some?, timestamp, text).Valid()
    modifies dst, dst.data
    ensures dst.Valid()
    ensures dst.View() == old(dst.View()) + FrameBytes(p, seed, timestamp, text, s, v)
  {
    ghost var before := dst.View();
    var m := Metadata(seed.Some?, timestamp, text);
    WriteMetadata(p, m, dst);
    AppendStream(p, dst, seed, s, v, size);
    Associate(before, MetadataBytes(m), Written(p, seed, Writes(s, v)));
  }

  function FrameBytes(p: Platform, seed: Option<nat>, timestamp: Option<nat>, text: bytes, s: Schema, v: Value): bytes
    requires Typed(s, v) && Metadata(seed.Some?, timestamp, text).Valid()
  {
    MetadataBytes(Metadata(seed.Some?, timestamp, text)) + Written(p, seed, Writes(s, v))
  }

  /** `Frame::decode`: opens a frame, leaving the source at its stream. */
  method OpenFrame(src: SliceReader) returns (r: Result<Metadata, FrameError>)
    modifies src
    ensures match ParseMetadata(old(src.rest))
      case Err(e) => r == Err(e)
      case Ok(x) => r == Ok(x.value) && src.rest == x.rest
  {
    ghost var whole := src.rest;
    var magic := src.ReadBorrow(4);
    if magic == None { return Err(MetadataError); }
    if FromLe(magic.value) != MAGIC_NUM { return Err(NoMagicNumber); }
    src.Advance(4);
    var lookahead := src.ReadBorrow(MAX_DESCRIPTOR_LEN);
    if lookahead == None { return Err(MetadataError); }
    LookaheadSuffices(src.rest);
    var m := ParseDescriptor(lookahead.value);
    src.Advance(DescriptorLen(lookahead.value[0]));
    assert src.rest == whole[4 + DescriptorLen(whole[4])..];
    var text := ReadLabel(src);
    r := match text case Err(e) => Err(e) case Ok(t) => Ok(m.(text := t));
  }

  lemma LookaheadSuffices(src: bytes)
    requires |src| >= MAX_DESCRIPTOR_LEN
    ensures ParseDescriptor(src[..MAX_DESCRIPTOR_LEN]) == ParseDescriptor(src)
  {
    assert src[..MAX_DESCRIPTOR_LEN][1..9] == src[1..9];
  }

  /** `Label::decode_from_reader`. */
  method ReadLabel(src: SliceReader) returns (r: Result<bytes, FrameError>)
    modifies src
    ensures match ParseLabel(old(src.rest))
      case Err(e) => r == Err(e)
      case Ok(x) => r == Ok(x.value) && src.rest == x.rest
  {
    var len := src.ReadBorrow(1);
    if len == None { return Err(MetadataError); }
    var n: nat := len.value[0];
    src.Advance(1);
    var text := src.ReadBorrow(n);
    if text == None { return Err(MalformedLabel); }
    assert text.value == old(src.rest)[1..1 + n];
    if !ValidLabel(text.value) { return Err(NonAsciiLabel); }
    src.Advance(n);
    r := Ok(text.value);
  }

  /** What a frame in `src` yields under `seed`. */
  function FrameValue(p: Platform, seed: Option<nat>, s: Schema, src: bytes, size: nat): Result<Value, FrameFailure> {
    match ParseMetadata(src)
    case Err(e) => Err(FrameFailure(e))
    case Ok(x) =>
      if seed.Some? != x.value.seeded then Err(FrameFailure(EnvironmentMismatch))
      else match DecodeSource(p, seed, s, x.rest, size)
        case Err(e) => Err(ValueFailure(e))
        case Ok(v) => Ok(v)
  }

  /** `Frame::decode` followed by `Frame::get_value`. */
  method DecodeFrame(p: Platform, seed: Option<nat>, s: Schema, src: SliceReader, size: nat)
    returns (r: Result<Value, FrameFailure>)
    requires p.Lawful()
    modifies src
    ensures r == FrameValue(p, seed, s, old(src.rest), size)
  {
    var frame := OpenFrame(src);
    if frame.Err? { return Err(FrameFailure(frame.error)); }
    if seed.Some? != frame.value.seeded { return Err(FrameFailure(EnvironmentMismatch)); }
    var v := DecodeStream(p, seed, s, src.rest, size);
    r := match v case Err(e) => Err(ValueFailure(e)) case Ok(x) => Ok(x);
  }

  lemma StreamLengthIff(p: Platform, seed: Option<nat>, ws: seq<bytes>)
    requires p.Lawful() && Writable(ws)
    ensures if Concat(ws) == [] then Written(p, seed, ws) == [] else |Written(p, seed, ws)| > HEADER_SIZE
  {
    var rs := GroupRegions([], ws);
    RunAppends(p, seed, [], ws);
    FlushedRunIsFraming(p, seed, EncState([], [], []), ws);
    NothingWritten([], ws);
    GreedyRegionsArePacked([], ws);
    if rs != [] {
      PacketSize(p, seed, [], rs[0]);
    }
  }

  /** Frame round trip: the value comes back exactly if it wrote at least one byte and is countable.
      If it wrote nothing, a frame with enough metadata to fill the lookahead opens but holds no
      region, and a shorter one does not even open. */
  lemma FrameRoundTripIff(
      p: Platform, seed: Option<nat>, timestamp: Option<nat>, text: bytes, s: Schema, v: Value, size: nat)
    requires p.Lawful() && Typed(s, v) && StreamFits(p, s, v)
    requires Metadata(seed.Some?, timestamp, text).Valid()
    ensures var m := Metadata(seed.Some?, timestamp, text);
      var r := FrameValue(p, seed, s, FrameBytes(p, seed, timestamp, text, s, v), size);
      && (Concat(Writes(s, v)) != [] && Countable(s, v) ==> r == Ok(Meaning(s, v)))
      && (Distinct(s, v) && !Countable(s, v) ==> r != Ok(Meaning(s, v)))
      && (Concat(Writes(s, v)) == [] ==>
            r == if |MetadataBytes(m)| >= 4 + MAX_DESCRIPTOR_LEN then Err(ValueFailure(BearerError(ReadFailure)))
                 else Err(FrameFailure(MetadataError)))
  {
    WritesAreSmall(s, v);
    StreamLengthIff(p, seed, Writes(s, v));
    FrameOutcome(p, seed, timestamp, text, Written(p, seed, Writes(s, v)), s, size);
    SourceOutcome(p, seed, s, v, size);
  }

  /** A frame yields what its stream yields, if it can be opened. */
  lemma FrameOutcome(
      p: Platform, seed: Option<nat>, timestamp: Option<nat>, text: bytes, stream: bytes, s: Schema, size: nat)
    requires Metadata(seed.Some?, timestamp, text).Valid()
    ensures var src := MetadataBytes(Metadata(seed.Some?, timestamp, text)) + stream;
      FrameValue(p, seed, s, src, size) ==
        if |src| < 4 + MAX_DESCRIPTOR_LEN then Err(FrameFailure(MetadataError))
        else match DecodeSource(p, seed, s, stream, size)
          case Err(e) => Err(ValueFailure(e))
          case Ok(v) => Ok(v)
  {
    MetadataReadsBackIff(Metadata(seed.Some?, timestamp, text), stream);
  }

  /** The metadata of a frame with content is read without its value, and a reader that has a seed
      where the writer had none, or none where it had one, is refused. */
  lemma FrameOpensAndChecksEnvironment(
      p: Platform, seed: Option<nat>, timestamp: Option<nat>, text: bytes, s: Schema, v: Value,
      seed': Option<nat>, size: nat)
    requires p.Lawful() && Typed(s, v) && Concat(Writes(s, v)) != []
    requires Metadata(seed.Some?, timestamp, text).Valid()
    ensures var src := FrameBytes(p, seed, timestamp, text, s, v);
      && ParseMetadata(src) == Ok(Parsed(Metadata(seed.Some?, timestamp, text), Written(p, seed, Writes(s, v))))
      && (seed'.Some? != seed.Some? ==>
            FrameValue(p, seed', s, src, size) == Err(FrameFailure(EnvironmentMismatch)))
  {
    WritesAreSmall(s, v);
    StreamLengthIff(p, seed, Writes(s, v));
    MetadataReadsBackIff(Metadata(seed.Some?, timestamp, text), Written(p, seed, Writes(s, v)));
  }
}
