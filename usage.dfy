/** The use the library is built for: a BYTE_SIZE tag appended to a buffer
    records how many of the bytes in front of it are the content, so the
    content can be cut back out of the tagged buffer. */
module SizeTagUsage {
  import opened Wrappers
  import opened Bytes
  import opened TagCodec
  import opened Bn

  /** Appends to `content` the BYTE_SIZE tag of `size`, parses the tag back
      from the end of the tagged buffer, decodes the size it carries and
      returns that many leading bytes of the tagged buffer: the first
      `size` bytes of the content. */
  method RecoverContent(content: seq<byte>, size: nat) returns (recovered: seq<byte>)
    requires size <= |content| && size < TWO_64
    ensures recovered == content[..size]
  {
    var sizeBytes := BigIntToBytes(size);
    var tag := CreateTag(ByteSize.Code(), sizeBytes);
    assert DataTypeOf(ByteSize.Code()) == Some(ByteSize);
    SizeTagParses(content, size);
    var bytes := content + tag.value;
    var parsed := ParseTag(bytes);
    var decoded := BytesToBigInt(parsed.value.data);
    LeadingBytes(content, tag.value, size);
    recovered := bytes[..decoded.value];
  }

  /** The BYTE_SIZE frame of a size below 2^64, appended to any buffer,
      parses back to a payload that decodes to that size. */
  lemma SizeTagParses(content: seq<byte>, size: nat)
    requires size < TWO_64
    ensures var payload := BigEndian(size, WIDTH);
      ParseTag(content + Frame(ByteSize, payload)) == Ok(ParsedTag(ByteSize, payload)) &&
      BigEndianValue(payload) == size
  {
    RecoverAfterPrefix(content, ByteSize, BigEndian(size, WIDTH));
    SizeRoundTrip(size);
  }

  /** Cutting n <= |a| bytes from the front of a + b cuts them from a. */
  lemma LeadingBytes(a: seq<byte>, b: seq<byte>, n: nat)
    requires n <= |a|
    ensures (a + b)[..n] == a[..n]
  {
    assert forall k :: 0 <= k < n ==> (a + b)[..n][k] == a[k];
  }
}
