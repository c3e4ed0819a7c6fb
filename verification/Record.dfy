/** The fixed-width record prefix and its codec (crates/protocol/nwipc-record). */
module Record {
  import opened Wrappers
  import opened Words

  const PREFIX_SIZE: int := 24
  const ALIGNMENT: int := 8
  const MAX_INLINE_MESSAGE_SIZE: int := 0x10_0000

  type MessageId = x: u32 | x != 0 witness 1

  datatype RecordKind =
    | Hello | HelloAck | Data | Close | Reset | Ping | Pong | Padding | Error
    | Unknown(value: u16)
  {
    function ToWire(): u16 {
      match this
      case Hello => 1
      case HelloAck => 2
      case Data => 3
      case Close => 4
      case Reset => 5
      case Ping => 6
      case Pong => 7
      case Padding => 8
      case Error => 9
      case Unknown(v) => v
    }

    static function FromWire(v: u16): RecordKind {
      match v
      case 1 => Hello
      case 2 => HelloAck
      case 3 => Data
      case 4 => Close
      case 5 => Reset
      case 6 => Ping
      case 7 => Pong
      case 8 => Padding
      case 9 => Error
      case _ => Unknown(v)
    }

    /** The kind a reader sees. */
    function Seen(): RecordKind {
      FromWire(ToWire())
    }

    /** An unknown kind must not carry the wire value of a known one. */
    predicate Canonical() {
      Unknown? ==> !(1 <= value <= 9)
    }
  }

  /** Flag bits: 0 ends a message, 1 marks a fragment, 8..15 are required bits unknown here. */
  const NO_FLAGS: u16 := 0
  const END_OF_MESSAGE: u16 := 1
  const FRAGMENTED: u16 := 2

  predicate EndsMessage(flags: u16) {
    flags % 2 == 1
  }

  predicate IsFragmented(flags: u16) {
    flags / 2 % 2 == 1
  }

  predicate UnknownRequiredBits(flags: u16) {
    flags / 0x100 != 0
  }

  datatype Header = Header(
    recordLength: u32,
    payloadLength: u32,
    messageId: Option<MessageId>,
    sequence: u32,
    kind: RecordKind,
    flags: u16)

  /** The header a reader sees. */
  function Seen(h: Header): Header {
    h.(kind := h.kind.Seen())
  }

  /** Rounds up to the record alignment; absent when the result is not a u32. */
  function AlignUp(value: u32): Option<u32> {
    if value + 7 >= TWO32 then None else Some((value + 7) / 8 * 8)
  }

  function NewHeader(payloadLength: u32, id: MessageId, sequence: u32, kind: RecordKind, flags: u16)
    : Result<Header>
  {
    if kind == Padding || payloadLength > MAX_INLINE_MESSAGE_SIZE then
      Err(InvalidRange)
    else if UnknownRequiredBits(flags) then
      Err(UnknownRequiredFlag)
    else
      match AlignUp(PREFIX_SIZE + payloadLength)
      case None => Err(InvalidRange)
      case Some(length) => Ok(Header(length, payloadLength, Some(id), sequence, kind, flags))
  }

  function PaddingHeader(recordLength: u32, sequence: u32): Result<Header> {
    if recordLength < PREFIX_SIZE || recordLength % ALIGNMENT != 0 then
      Err(InvalidAlignment)
    else
      Ok(Header(recordLength, 0, None, sequence, Padding, NO_FLAGS))
  }

  /** The twenty-four prefix bytes of a header. */
  function Prefix(h: Header): (b: seq<u8>)
    ensures |b| == PREFIX_SIZE
  {
    Le32(h.recordLength)
    + Le32(h.payloadLength)
    + Le32(if h.messageId.None? then 0 else h.messageId.value)
    + Le32(h.sequence)
    + Le16(h.kind.ToWire())
    + Le16(h.flags)
    + Zeros(4)
  }

  /** Prefix, payload and the alignment bytes that fill the record. */
  function RecordBytes(h: Header, payload: seq<u8>): (b: seq<u8>)
    requires PREFIX_SIZE + |payload| <= h.recordLength
    ensures |b| == h.recordLength
  {
    Prefix(h) + payload + Zeros(h.recordLength - PREFIX_SIZE - |payload|)
  }

  function DecodeCommitted(committed: seq<u8>, maximumInline: u32): Result<Header> {
    if |committed| < PREFIX_SIZE then
      Err(Truncated)
    else
      var recordLength := FromLe32(committed[0..4]);
      var payloadLength := FromLe32(committed[4..8]);
      var rawId := FromLe32(committed[8..12]);
      var sequence := FromLe32(committed[12..16]);
      var kind := RecordKind.FromWire(FromLe16(committed[16..18]));
      var flags := FromLe16(committed[18..20]);
      var messageId := if rawId == 0 then None else Some(rawId);
      if FromLe32(committed[20..24]) != 0 then
        Err(ProtocolViolation)
      else if UnknownRequiredBits(flags) then
        Err(UnknownRequiredFlag)
      else if recordLength < PREFIX_SIZE || recordLength % ALIGNMENT != 0 then
        Err(InvalidAlignment)
      else if |committed| < recordLength then
        Err(Truncated)
      else if kind == Padding then
        if payloadLength != 0 || messageId.Some? || flags != NO_FLAGS then
          Err(ProtocolViolation)
        else
          Ok(Header(recordLength, payloadLength, messageId, sequence, kind, flags))
      else if payloadLength > maximumInline
           || payloadLength > MAX_INLINE_MESSAGE_SIZE
           || AlignUp(SaturatingAdd(PREFIX_SIZE, payloadLength)) != Some(recordLength) then
        Err(InvalidRange)
      else if messageId.None? then
        Err(ProtocolViolation)
      else
        Ok(Header(recordLength, payloadLength, messageId, sequence, kind, flags))
  }

  function SaturatingAdd(a: u32, b: u32): u32 {
    if a + b >= TWO32 then TWO32 - 1 else a + b
  }

  /** The headers that either constructor can produce, up to the inline limit. */
  predicate Encodable(h: Header, maximumInline: u32) {
    && h.recordLength % ALIGNMENT == 0
    && h.recordLength >= PREFIX_SIZE
    && !UnknownRequiredBits(h.flags)
    && h.kind.Canonical()
    && if h.kind == Padding then
         h.payloadLength == 0 && h.messageId.None? && h.flags == NO_FLAGS
       else
         && h.payloadLength <= maximumInline
         && h.payloadLength <= MAX_INLINE_MESSAGE_SIZE
         && h.messageId.Some?
         && AlignUp(PREFIX_SIZE + h.payloadLength) == Some(h.recordLength)
  }

  /** Each field of a header can be read back from its prefix. */
  lemma PrefixFields(h: Header, bytes: seq<u8>)
    requires |bytes| >= PREFIX_SIZE && bytes[..PREFIX_SIZE] == Prefix(h)
    ensures FromLe32(bytes[0..4]) == h.recordLength
    ensures FromLe32(bytes[4..8]) == h.payloadLength
    ensures FromLe32(bytes[8..12]) == if h.messageId.None? then 0 else h.messageId.value
    ensures FromLe32(bytes[12..16]) == h.sequence
    ensures FromLe16(bytes[16..18]) == h.kind.ToWire()
    ensures FromLe16(bytes[18..20]) == h.flags
    ensures FromLe32(bytes[20..24]) == 0
  {
    var id := if h.messageId.None? then 0 else h.messageId.value;
    PrefixParts(bytes, Le32(h.recordLength), Le32(h.payloadLength), Le32(id), Le32(h.sequence),
                Le16(h.kind.ToWire()), Le16(h.flags), Zeros(4));
    Le32RoundTrip(h.recordLength);
    Le32RoundTrip(h.payloadLength);
    Le32RoundTrip(id);
    Le32RoundTrip(h.sequence);
    Le16RoundTrip(h.kind.ToWire());
    Le16RoundTrip(h.flags);
  }

  lemma PrefixParts(bytes: seq<u8>, length: seq<u8>, payload: seq<u8>, id: seq<u8>, sequence: seq<u8>,
                    kind: seq<u8>, flags: seq<u8>, reserved: seq<u8>)
    requires |length| == |payload| == |id| == |sequence| == |reserved| == 4
    requires |kind| == |flags| == 2
    requires |bytes| >= PREFIX_SIZE
    requires bytes[..PREFIX_SIZE] == length + payload + id + sequence + kind + flags + reserved
    ensures bytes[0..4] == length && bytes[4..8] == payload && bytes[8..12] == id
    ensures bytes[12..16] == sequence && bytes[16..18] == kind && bytes[18..20] == flags
    ensures bytes[20..24] == reserved
  {
    var p := bytes[..PREFIX_SIZE];
    assert bytes[0..4] == p[0..4] && bytes[4..8] == p[4..8] && bytes[8..12] == p[8..12];
    assert bytes[12..16] == p[12..16] && bytes[16..18] == p[16..18];
    assert bytes[18..20] == p[18..20] && bytes[20..24] == p[20..24];
  }

  /** A committed range decodes to a header exactly when it starts with that header's prefix, holds
      the whole record, and the header is one the constructors can produce. */
  lemma DecodeExactly(bytes: seq<u8>, maximumInline: u32, h: Header)
    ensures DecodeCommitted(bytes, maximumInline) == Ok(h)
       <==> && |bytes| >= h.recordLength
            && |bytes| >= PREFIX_SIZE
            && bytes[..PREFIX_SIZE] == Prefix(h)
            && Encodable(h, maximumInline)
  {
    hide Prefix, FromLe16, FromLe32, UnknownRequiredBits;
    if |bytes| >= PREFIX_SIZE && bytes[..PREFIX_SIZE] == Prefix(h) {
      PrefixFields(h, bytes);
    }
    if DecodeCommitted(bytes, maximumInline) == Ok(h) {
      PrefixUnique(bytes, h);
    }
  }

  lemma PrefixUnique(bytes: seq<u8>, h: Header)
    requires |bytes| >= PREFIX_SIZE
    requires FromLe32(bytes[0..4]) == h.recordLength
    requires FromLe32(bytes[4..8]) == h.payloadLength
    requires FromLe32(bytes[8..12]) == if h.messageId.None? then 0 else h.messageId.value
    requires FromLe32(bytes[12..16]) == h.sequence
    requires FromLe16(bytes[16..18]) == h.kind.ToWire()
    requires FromLe16(bytes[18..20]) == h.flags
    requires FromLe32(bytes[20..24]) == 0
    ensures bytes[..PREFIX_SIZE] == Prefix(h)
  {
    Le32Unique(bytes[0..4]);
    Le32Unique(bytes[4..8]);
    Le32Unique(bytes[8..12]);
    Le32Unique(bytes[12..16]);
    Le16Unique(bytes[16..18]);
    Le16Unique(bytes[18..20]);
    Le32Unique(bytes[20..24]);
    assert Le32(0) == Zeros(4);
    assert bytes[..PREFIX_SIZE] ==
           bytes[0..4] + bytes[4..8] + bytes[8..12] + bytes[12..16] + bytes[16..18] + bytes[18..20] + bytes[20..24];
  }

  /** A kind survives the wire exactly when it is canonical; an unknown kind that carries a known
      wire value is read back as the known kind, even as padding. */
  lemma KindRoundTrip(k: RecordKind)
    ensures RecordKind.FromWire(k.ToWire()) == k <==> k.Canonical()
    ensures RecordKind.FromWire(Unknown(8).ToWire()) == Padding
  {
  }

  /** A record read from the front of a committed range gives back its header and payload. */
  lemma RecordRoundTrip(h: Header, payload: seq<u8>, rest: seq<u8>, maximumInline: u32)
    requires Encodable(h, maximumInline)
    requires |payload| == h.payloadLength
    requires PREFIX_SIZE + |payload| <= h.recordLength
    ensures DecodeCommitted(RecordBytes(h, payload) + rest, maximumInline) == Ok(h)
    ensures (RecordBytes(h, payload) + rest)[PREFIX_SIZE..PREFIX_SIZE + h.payloadLength] == payload
  {
    var bytes := RecordBytes(h, payload) + rest;
    assert bytes[..PREFIX_SIZE] == Prefix(h);
    DecodeExactly(bytes, maximumInline, h);
  }

  lemma SeenBytes(h: Header, payload: seq<u8>)
    requires PREFIX_SIZE + |payload| <= h.recordLength
    ensures RecordBytes(Seen(h), payload) == RecordBytes(h, payload)
  {
  }

  /** A padding record of every aligned length reads back with that length and the sequence number of the
      record behind it. */
  lemma PaddingReadsBack(length: u32, sequence: u32, rest: seq<u8>, maximumInline: u32)
    ensures PaddingHeader(length, sequence).Ok? <==> length >= PREFIX_SIZE && length % ALIGNMENT == 0
    ensures PaddingHeader(length, sequence).Ok? ==>
      DecodeCommitted(RecordBytes(PaddingHeader(length, sequence).value, []) + rest, maximumInline)
        == Ok(Header(length, 0, None, sequence, Padding, NO_FLAGS))
  {
    hide RecordBytes, DecodeCommitted;
    if length >= PREFIX_SIZE && length % ALIGNMENT == 0 {
      RecordRoundTrip(PaddingHeader(length, sequence).value, [], rest, maximumInline);
    }
  }

  /** A record of any kind that the header constructor takes is read back with the kind its wire value
      names, except exactly the unknown kind that carries the wire value of padding: no reader accepts it. */
  lemma SentIsReadableIff(
      h: Header, payload: seq<u8>, rest: seq<u8>, id: MessageId, sequence: u32, kind: RecordKind, flags: u16,
      maximumInline: u32)
    requires |payload| <= maximumInline && |payload| < TWO32
    requires NewHeader(|payload|, id, sequence, kind, flags) == Ok(h)
    ensures PREFIX_SIZE + |payload| <= h.recordLength
    ensures DecodeCommitted(RecordBytes(h, payload) + rest, maximumInline) ==
      if kind == Unknown(8) then Err(ProtocolViolation) else Ok(Seen(h))
  {
    hide RecordBytes, Prefix;
    if kind == Unknown(8) {
      PoisonedPrefix(h, payload, rest, maximumInline);
    } else {
      SeenBytes(h, payload);
      RecordRoundTrip(Seen(h), payload, rest, maximumInline);
    }
  }

  lemma PoisonedPrefix(h: Header, payload: seq<u8>, rest: seq<u8>, maximumInline: u32)
    requires h.kind.Seen() == Padding && h.messageId.Some? && !UnknownRequiredBits(h.flags)
    requires h.recordLength % ALIGNMENT == 0 && PREFIX_SIZE + |payload| <= h.recordLength
    ensures DecodeCommitted(RecordBytes(h, payload) + rest, maximumInline) == Err(ProtocolViolation)
  {
    var bytes := RecordBytes(h, payload) + rest;
    assert bytes[..PREFIX_SIZE] == Prefix(h);
    PrefixFields(h, bytes);
  }

  method PutU32(bytes: array<u8>, offset: nat, v: u32)
    requires offset + 4 <= bytes.Length
    modifies bytes
    ensures bytes[..] == Splice(old(bytes[..]), offset, Le32(v))
  {
    var le := Le32(v);
    bytes[offset], bytes[offset + 1], bytes[offset + 2], bytes[offset + 3] := le[0], le[1], le[2], le[3];
  }

  method PutU16(bytes: array<u8>, offset: nat, v: u16)
    requires offset + 2 <= bytes.Length
    modifies bytes
    ensures bytes[..] == Splice(old(bytes[..]), offset, Le16(v))
  {
    var le := Le16(v);
    bytes[offset], bytes[offset + 1] := le[0], le[1];
  }

  /** Writes the prefix into a zeroed record at the front of `output`. */
  method EncodeUnpublished(h: Header, output: array<u8>) returns (error: Option<ErrorCode>)
    requires h.recordLength >= PREFIX_SIZE
    modifies output
    ensures if output.Length < h.recordLength then
              error == Some(Truncated) && output[..] == old(output[..])
            else
              error == None && output[..] == RecordBytes(h, []) + old(output[h.recordLength..])
  {
    if output.Length < h.recordLength {
      return Some(Truncated);
    }
    for i := 0 to h.recordLength
      invariant output[..i] == Zeros(i)
      invariant output[i..] == old(output[i..])
    {
      output[i] := 0;
      assert output[..i + 1] == Zeros(i) + [0];
    }
    ghost var rest := old(output[h.recordLength..]);
    assert output[..] == Zeros(h.recordLength) + rest;
    var id := if h.messageId.None? then 0 else h.messageId.value;
    PutU32(output, 0, h.recordLength);
    PutU32(output, 4, h.payloadLength);
    PutU32(output, 8, id);
    PutU32(output, 12, h.sequence);
    PutU16(output, 16, h.kind.ToWire());
    PutU16(output, 18, h.flags);
    SplicedPrefix(h, rest, Le32(h.recordLength), Le32(h.payloadLength), Le32(id), Le32(h.sequence),
                  Le16(h.kind.ToWire()), Le16(h.flags));
    error := None;
  }

  lemma SplicedPrefix(h: Header, rest: seq<u8>, length: seq<u8>, payload: seq<u8>, id: seq<u8>, sequence: seq<u8>,
                      kind: seq<u8>, flags: seq<u8>)
    requires h.recordLength >= PREFIX_SIZE
    requires |length| == |payload| == |id| == |sequence| == 4 && |kind| == |flags| == 2
    requires Prefix(h) == length + payload + id + sequence + kind + flags + Zeros(4)
    ensures var zeroed := Zeros(h.recordLength) + rest;
            Splice(Splice(Splice(Splice(Splice(Splice(zeroed, 0, length), 4, payload), 8, id), 12, sequence), 16, kind), 18, flags)
            == RecordBytes(h, []) + rest
  {
    var n: nat := h.recordLength;
    SpliceNext([], length, n, rest);
    assert [] + Zeros(n) + rest == Zeros(n) + rest && [] + length == length;
    SpliceNext(length, payload, n - 4, rest);
    SpliceNext(length + payload, id, n - 8, rest);
    SpliceNext(length + payload + id, sequence, n - 12, rest);
    SpliceNext(length + payload + id + sequence, kind, n - 16, rest);
    SpliceNext(length + payload + id + sequence + kind, flags, n - 18, rest);
    assert Zeros(n - 20) == Zeros(4) + Zeros(n - PREFIX_SIZE);
  }

  lemma SpliceNext(done: seq<u8>, part: seq<u8>, n: nat, rest: seq<u8>)
    requires |part| <= n
    ensures Splice(done + Zeros(n) + rest, |done|, part) == (done + part) + Zeros(n - |part|) + rest
  {
  }

  /** Fills the exact payload range of an encoded record. */
  method FillPayload(h: Header, output: array<u8>, payload: seq<u8>)
    requires PREFIX_SIZE + |payload| <= h.recordLength == output.Length
    requires |payload| == h.payloadLength
    requires output[..] == RecordBytes(h, [])
    modifies output
    ensures output[..] == RecordBytes(h, payload)
  {
    ghost var empty := output[..];
    for i := 0 to |payload|
      invariant output[..] == Splice(empty, PREFIX_SIZE, payload[..i])
    {
      SpliceGrows(empty, PREFIX_SIZE, payload, i);
      output[PREFIX_SIZE + i] := payload[i];
    }
    assert payload[..|payload|] == payload;
    FilledRecord(h, payload);
  }

  lemma FilledRecord(h: Header, payload: seq<u8>)
    requires PREFIX_SIZE + |payload| <= h.recordLength
    ensures Splice(RecordBytes(h, []), PREFIX_SIZE, payload) == RecordBytes(h, payload)
  {
    hide Prefix;
  }

  /** A complete record in a fresh buffer. */
  method EncodeRecord(h: Header, payload: seq<u8>) returns (encoded: seq<u8>)
    requires PREFIX_SIZE + |payload| <= h.recordLength
    requires |payload| == h.payloadLength
    ensures encoded == RecordBytes(h, payload)
  {
    var buffer := new u8[h.recordLength](_ => 0);
    var error := EncodeUnpublished(h, buffer);
    assert error == None;
    FillPayload(h, buffer, payload);
    encoded := buffer[..];
  }
}
