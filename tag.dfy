/** The trailing tag codec: a fixed-size frame
      checksum (2 bytes) ++ payload (N bytes) ++ header (1 byte)
    that is appended to any byte buffer and read back from its tail. */
module TagCodec {
  import opened Wrappers
  import opened Bytes
  import opened Crc16

  const CHECKSUM_SIZE: nat := 2
  const HEADER_SIZE: nat := 1

  /** The registered payload types. */
  datatype DataType = Tag | ByteSize {

    /** The numeric code written as the header byte. */
    function Code(): byte {
      match this
      case Tag => 0
      case ByteSize => 1
    }

    /** The payload size the registry assigns to the type. */
    function Size(): nat {
      match this
      case Tag => 14
      case ByteSize => 8
    }

    /** The size of a whole frame of this type. */
    function FrameSize(): nat {
      CHECKSUM_SIZE + Size() + HEADER_SIZE
    }
  }

  /** The errors the codec throws, one per distinct message. */
  datatype TagError =
    | BytesTooShort                                   // 'Bytes cannot be less than header size'
    | InvalidDataType                                 // 'Invalid data type'
    | WrongDataLength(dataType: int, expected: nat)   // 'Tag <type> must have <size> bytes'
    | HeaderTooLarge                                  // 'Data type must be less than 254'
    | MismatchedDataSize(actual: nat, expected: nat)  // 'Mismatched data size <actual> and header size <expected>'
    | InvalidChecksum                                 // 'Invalid checksum'

  /** What parseTag returns: the type named by the header and the payload. */
  datatype ParsedTag = ParsedTag(dataType: DataType, data: seq<byte>)

  /** The registry lookup `DataTypeSize[code]`: a type for exactly the
      registered codes. */
  function DataTypeOf(code: int): (r: Option<DataType>)
    ensures r.Some? <==> code == 0 || code == 1
    ensures r.Some? ==> r.value.Code() == code
    ensures forall t: DataType :: t.Code() == code ==> r == Some(t)
  {
    if code == 0 then Some(Tag)
    else if code == 1 then Some(ByteSize)
    else None
  }

  /** `createHeader`: the code itself, unless it is above 254. */
  function CreateHeader(dataType: int): (r: Result<int, TagError>)
    ensures r.Ok? <==> dataType < 255
    ensures r.Ok? ==> r.value == dataType
    ensures r.Err? ==> r.error == HeaderTooLarge
  {
    if dataType > 254 then Err(HeaderTooLarge) else Ok(dataType)
  }

  /** `parseHeader`: the header byte taken as a type code, unchanged; the
      cast checks nothing, so an unregistered code is left to the registry
      lookup that follows it. */
  function ParseHeader(header: byte): (dataType: int)
    ensures 0 <= dataType < 256 && dataType == header
  {
    header
  }

  /** A corollary of the contracts of createHeader and parseHeader, kept
      for the one fact it adds: 254 itself is accepted, although the error
      message speaks of "less than 254", and 255 is the first code refused.
      Every code createHeader accepts is a byte that parseHeader reads back
      unchanged. */
  lemma HeaderRoundTrip(code: int)
    ensures CreateHeader(code).Ok? && 0 <= code ==>
      CreateHeader(code).value < 255 && ParseHeader(CreateHeader(code).value) == code
    ensures CreateHeader(254) == Ok(254) && CreateHeader(255) == Err(HeaderTooLarge)
  {
  }

  /** `checksum`: the CRC-16/XMODEM of the data, high byte first
      (`(crc >> 8) & 0xFF`, then `crc & 0xFF`). */
  function Checksum(data: seq<byte>): (r: seq<byte>)
    ensures |r| == 2
    ensures r[0] as int * 256 + r[1] as int == Crc16Xmodem(data)
  {
    var crc := Crc16Xmodem(data);
    [crc / 256, crc % 256]
  }

  /** `verifyChecksum`: true exactly when the first two bytes of `check`
      are present and spell the CRC of `data`; later bytes are ignored. */
  function VerifyChecksum(data: seq<byte>, check: seq<byte>): (r: bool)
    ensures r <==> |check| >= 2 && check[0] as int * 256 + check[1] as int == Crc16Xmodem(data)
    ensures r <==> |check| >= 2 && check[..2] == Checksum(data)
  {
    var expected := Checksum(data);
    |check| >= 1 && expected[0] == check[0] && |check| >= 2 && expected[1] == check[1]
  }

  /** A checksum always verifies against the data it was computed from. */
  lemma ChecksumVerifies(data: seq<byte>)
    ensures VerifyChecksum(data, Checksum(data))
  {
  }

  /** The frame createTag produces for a type and a payload. */
  function Frame(t: DataType, data: seq<byte>): (r: seq<byte>)
    ensures |r| == |data| + CHECKSUM_SIZE + HEADER_SIZE
    ensures r[..2] == Checksum(r[2..]) && r[2..|r| - 1] == data && Last(r) == t.Code()
  {
    var body := data + [t.Code()];
    assert (Checksum(body) + body)[2..] == body;
    Checksum(body) + body
  }

  /** `createTag`: validates the type and the payload length, then builds
      the frame by pushing the header, putting the payload in front of it
      and putting the checksum of the two in front of everything. */
  method CreateTag(dataType: int, data: seq<byte>) returns (r: Result<seq<byte>, TagError>)
    ensures DataTypeOf(dataType).None? ==> r == Err(InvalidDataType)
    ensures DataTypeOf(dataType).Some? && |data| != DataTypeOf(dataType).value.Size() ==>
      r == Err(WrongDataLength(dataType, DataTypeOf(dataType).value.Size()))
    ensures r.Ok? <==> DataTypeOf(dataType).Some? && |data| == DataTypeOf(dataType).value.Size()
    ensures r.Ok? ==> r.value == Frame(DataTypeOf(dataType).value, data)
    ensures r.Ok? ==> |r.value| == DataTypeOf(dataType).value.FrameSize()
  {
    var tagBytes: seq<byte> := [];
    var t := DataTypeOf(dataType);
    if t.None? {
      return Err(InvalidDataType);
    } else if |data| != t.value.Size() {
      return Err(WrongDataLength(dataType, t.value.Size()));
    }
    // A registered code is far below 255, so createHeader cannot throw here.
    var header := CreateHeader(t.value.Code()).value;
    tagBytes := tagBytes + [header];
    tagBytes := data + tagBytes;
    assert tagBytes == data + [t.value.Code()];
    tagBytes := Checksum(tagBytes) + tagBytes;
    r := Ok(tagBytes);
  }

  /** The second half of `parseTag`: `tagBytes` holds the last FrameSize
      bytes of the buffer (all of it when it is shorter); its payload is
      `slice(2, -1)`, whose length is checked before the checksum. */
  function ParseFrame(t: DataType, tagBytes: seq<byte>): (r: Result<ParsedTag, TagError>)
    requires |tagBytes| <= t.FrameSize()
    ensures |tagBytes| < t.FrameSize() ==>
      r == Err(MismatchedDataSize(if |tagBytes| < 3 then 0 else |tagBytes| - 3, t.Size()))
    ensures |tagBytes| == t.FrameSize() && tagBytes[..2] != Checksum(tagBytes[2..]) ==>
      r == Err(InvalidChecksum)
    ensures |tagBytes| == t.FrameSize() && tagBytes[..2] == Checksum(tagBytes[2..]) ==>
      r == Ok(ParsedTag(t, tagBytes[2..|tagBytes| - 1]))
  {
    var checksumBytes := Slice(tagBytes, 0, 2);
    var noChecksum := Slice(tagBytes, 2, |tagBytes|);
    var data := Slice(tagBytes, 2, -1);
    if |data| != t.Size() then Err(MismatchedDataSize(|data|, t.Size()))
    else
      assert checksumBytes == tagBytes[..2] && noChecksum == tagBytes[2..];
      assert data == tagBytes[2..|tagBytes| - 1];
      if !VerifyChecksum(noChecksum, checksumBytes) then Err(InvalidChecksum)
      else Ok(ParsedTag(t, data))
  }

  /** `parseTag`: the last byte names the type, the last FrameSize bytes
      (or the whole buffer when it is shorter) are the frame, and its length
      and checksum are then checked. */
  function ParseTag(bytes: seq<byte>): (r: Result<ParsedTag, TagError>)
    ensures |bytes| < HEADER_SIZE ==> r == Err(BytesTooShort)
    ensures |bytes| >= HEADER_SIZE ==>
      match DataTypeOf(Last(bytes))
      case None => r == Err(InvalidDataType)
      case Some(t) =>
        if |bytes| < t.FrameSize() then
          r == Err(MismatchedDataSize(if |bytes| < 3 then 0 else |bytes| - 3, t.Size()))
        else
          var frame := bytes[|bytes| - t.FrameSize()..];
          if frame[..2] == Checksum(frame[2..]) then r == Ok(ParsedTag(t, frame[2..|frame| - 1]))
          else r == Err(InvalidChecksum)
    ensures r.Ok? ==>
      DataTypeOf(Last(bytes)) == Some(r.value.dataType) && |r.value.data| == r.value.dataType.Size() &&
      |bytes| >= r.value.dataType.FrameSize() &&
      bytes[|bytes| - r.value.dataType.FrameSize()..] == Frame(r.value.dataType, r.value.data)
  {
    if |bytes| < HEADER_SIZE then Err(BytesTooShort)
    else
      var header := ParseHeader(Slice(bytes, -(HEADER_SIZE as int), |bytes|)[0]);
      assert header == Last(bytes);
      match DataTypeOf(header)
      case None => Err(InvalidDataType)
      case Some(t) =>
        var tagBytes := Slice(bytes, -(t.FrameSize() as int), |bytes|);
        SliceLast(bytes, t.FrameSize());
        var r := ParseFrame(t, tagBytes);
        assert r.Ok? ==> tagBytes[2..] == r.value.data + [t.Code()] && tagBytes == tagBytes[..2] + tagBytes[2..];
        r
  }

  /** A frame parses back to the type and payload it was made from. */
  lemma RoundTrip(t: DataType, data: seq<byte>)
    requires |data| == t.Size()
    ensures ParseTag(Frame(t, data)) == Ok(ParsedTag(t, data))
  {
    var f := Frame(t, data);
    assert f[|f| - t.FrameSize()..] == f;
  }

  /** Only the last FrameSize bytes matter: whatever precedes a buffer that
      is long enough for the type its last byte names (or whose last byte
      names no type) does not change what parseTag makes of it. */
  lemma PrefixIndependence(prefix: seq<byte>, bytes: seq<byte>)
    requires |bytes| > 0
    requires DataTypeOf(Last(bytes)).Some? ==> |bytes| >= DataTypeOf(Last(bytes)).value.FrameSize()
    ensures ParseTag(prefix + bytes) == ParseTag(bytes)
  {
    var whole := prefix + bytes;
    assert Last(whole) == Last(bytes);
    if DataTypeOf(Last(bytes)).Some? {
      var n := DataTypeOf(Last(bytes)).value.FrameSize();
      assert whole[|whole| - n..] == bytes[|bytes| - n..];
    }
    SameTail(whole, bytes);
  }

  /** Two buffers with the same last byte parse alike when both are long
      enough for the type it names and end in the same FrameSize bytes. */
  lemma SameTail(a: seq<byte>, b: seq<byte>)
    requires |a| > 0 && |b| > 0 && Last(a) == Last(b)
    requires DataTypeOf(Last(a)).Some? ==>
      var n := DataTypeOf(Last(a)).value.FrameSize();
      |a| >= n && |b| >= n && a[|a| - n..] == b[|b| - n..]
    ensures ParseTag(a) == ParseTag(b)
  {
    match DataTypeOf(Last(a))
    case None =>
    case Some(t) =>
      TailFrame(a, t);
      TailFrame(b, t);
  }

  /** A buffer long enough for the type its last byte names parses as its
      last FrameSize bytes do. */
  lemma TailFrame(bytes: seq<byte>, t: DataType)
    requires |bytes| > 0 && DataTypeOf(Last(bytes)) == Some(t) && |bytes| >= t.FrameSize()
    ensures ParseTag(bytes) == ParseFrame(t, bytes[|bytes| - t.FrameSize()..])
  {
    SliceLast(bytes, t.FrameSize());
  }

  /** Two frames of one type are equal only for equal payloads. */
  lemma FrameInjective(t: DataType, data1: seq<byte>, data2: seq<byte>)
    requires Frame(t, data1) == Frame(t, data2)
    ensures data1 == data2
  {
    var f1, f2 := Frame(t, data1), Frame(t, data2);
    assert data1 == f1[2..|f1| - 1];
  }

  /** A tag appended to any buffer is recovered from the end of it. */
  lemma RecoverAfterPrefix(prefix: seq<byte>, t: DataType, data: seq<byte>)
    requires |data| == t.Size()
    ensures ParseTag(prefix + Frame(t, data)) == Ok(ParsedTag(t, data))
  {
    RoundTrip(t, data);
    PrefixIndependence(prefix, Frame(t, data));
  }

  /** Cutting bytes out of a frame while keeping its header at the end
      leaves too few bytes for the type: "Mismatched data size", carrying
      the length that `slice(2, -1)` saw. */
  lemma TruncatedFrame(t: DataType, data: seq<byte>, k: nat)
    requires |data| == t.Size() && k < t.Size() + 2
    ensures var f := Frame(t, data);
      ParseTag(f[..k] + [Last(f)]) == Err(MismatchedDataSize(if k < 2 then 0 else k - 2, t.Size()))
  {
    var f := Frame(t, data);
    assert Last(f[..k] + [Last(f)]) == t.Code();
  }

  /** Changing one payload byte of a frame is caught by the checksum. */
  lemma CorruptedPayload(t: DataType, data: seq<byte>, j: nat, v: byte)
    requires |data| == t.Size() && j < |data| && v != data[j]
    ensures ParseTag(Frame(t, data)[2 + j := v]) == Err(InvalidChecksum)
  {
    var f := Frame(t, data);
    var g := f[2 + j := v];
    var body := data + [t.Code()];
    assert f[2..] == body;
    assert g[2..] == body[j := v];
    assert Last(g) == t.Code();
    assert g[|g| - t.FrameSize()..] == g;
    assert g[..2] == Checksum(body);
    SingleByteChangeDetected(body, j, v);
    if Checksum(body[j := v]) == Checksum(body) {
      ChecksumDeterminesCrc(body[j := v], body);
    }
  }

  /** Changing one of the two checksum bytes of a frame is caught too. */
  lemma CorruptedChecksum(t: DataType, data: seq<byte>, j: nat, v: byte)
    requires |data| == t.Size() && j < 2 && v != Frame(t, data)[j]
    ensures ParseTag(Frame(t, data)[j := v]) == Err(InvalidChecksum)
  {
    var f := Frame(t, data);
    var g := f[j := v];
    assert g[2..] == f[2..];
    assert Last(g) == t.Code();
    assert g[|g| - t.FrameSize()..] == g;
    assert g[..2][j] != f[..2][j];
  }

  /** Equal checksums mean equal CRCs. */
  lemma ChecksumDeterminesCrc(a: seq<byte>, b: seq<byte>)
    requires Checksum(a) == Checksum(b)
    ensures Crc16Xmodem(a) == Crc16Xmodem(b)
  {
  }
}
