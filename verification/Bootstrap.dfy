/** The bootstrap envelope and its tag-length-value codec (crates/bootstrap/nwipc-bootstrap-schema and
    nwipc-bootstrap-codec). */
module Bootstrap {
  import opened Wrappers
  import opened Words

  const MAGIC: seq<u8> := [0x4E, 0x57, 0x42, 0x53]
  const SCHEMA_VERSION: u16 := 1
  const HEADER_LENGTH: int := 6
  const FIELD_HEADER_LENGTH: int := 6
  const MAX_ENVELOPE_LENGTH: int := 16 * 1024
  const MAX_DESCRIPTOR_LENGTH: int := 4 * 1024
  const MAX_SECRET_LENGTH: int := 64
  const REQUIRED: u16 := 0x8000

  const SESSION: u16 := 1
  const GENERATION: u16 := 2
  const PROTOCOLS: u16 := 3
  const ROLE: u16 := 4
  const MEMORY: u16 := 5
  const SIGNAL: u16 := 6
  const SECRET: u16 := 7
  const REQUIRED_FIELDS: set<u16> := {1, 2, 3, 4, 5, 6, 7}

  datatype EndpointRole = Peer | Renderer {
    function ToWire(): u8 {
      if Peer? then 1 else 2
    }

    static function FromWire(b: u8): Option<EndpointRole> {
      if b == 1 then Some(Peer) else if b == 2 then Some(Renderer) else None
    }
  }

  datatype ProviderKind = ProcessTest | IoSurface | DarwinNotify | Poll | Hybrid | MachMemory | MachPort {
    function ToWire(): u8 {
      match this
      case ProcessTest => 1
      case IoSurface => 2
      case DarwinNotify => 3
      case Poll => 4
      case Hybrid => 5
      case MachMemory => 6
      case MachPort => 7
    }

    static function FromWire(b: u8): Option<ProviderKind> {
      match b
      case 1 => Some(ProcessTest)
      case 2 => Some(IoSurface)
      case 3 => Some(DarwinNotify)
      case 4 => Some(Poll)
      case 5 => Some(Hybrid)
      case 6 => Some(MachMemory)
      case 7 => Some(MachPort)
      case _ => None
    }
  }

  datatype ProtocolRange = ProtocolRange(minimum: u16, maximum: u16)

  datatype Descriptor = Descriptor(provider: ProviderKind, bytes: seq<u8>)

  datatype Envelope = Envelope(
    session: seq<u8>, generation: u64, protocols: ProtocolRange, role: EndpointRole,
    memory: Descriptor, signal: Descriptor, secret: seq<u8>)
  {
    /** Providers that fit their purpose. */
    function Validate(): Option<ErrorCode> {
      if !memory.provider.ProcessTest? && !memory.provider.IoSurface? && !memory.provider.MachMemory? then
        Some(ProtocolViolation)
      else if signal.provider.IoSurface? || signal.provider.MachMemory? then
        Some(ProtocolViolation)
      else
        None
    }

    /** What the constructors of an envelope and of its parts admit. */
    predicate Valid() {
      && |session| == 16 && session != Zeros(16)
      && generation > 0
      && 0 < protocols.minimum <= protocols.maximum
      && 0 < |memory.bytes| <= MAX_DESCRIPTOR_LENGTH
      && 0 < |signal.bytes| <= MAX_DESCRIPTOR_LENGTH
      && 0 < |secret| <= MAX_SECRET_LENGTH
      && Validate() == None
    }
  }

  function DecodeSession(value: seq<u8>): Result<seq<u8>> {
    if |value| != 16 then Err(InvalidRange)
    else if value == Zeros(16) then Err(ProtocolViolation)
    else Ok(value)
  }

  function DecodeGeneration(value: seq<u8>): Result<u64> {
    if |value| != 8 then Err(InvalidRange)
    else if FromLe64(value) == 0 then Err(ProtocolViolation)
    else Ok(FromLe64(value))
  }

  function DecodeProtocols(value: seq<u8>): Result<ProtocolRange> {
    if |value| != 4 then Err(InvalidRange)
    else
      var range := ProtocolRange(FromLe16(value[..2]), FromLe16(value[2..]));
      if range.minimum == 0 || range.minimum > range.maximum then Err(InvalidRange) else Ok(range)
  }

  function DecodeRole(value: seq<u8>): Result<EndpointRole> {
    if |value| != 1 then Err(InvalidRange)
    else
      match EndpointRole.FromWire(value[0])
      case None => Err(ProtocolViolation)
      case Some(role) => Ok(role)
  }

  function DecodeDescriptor(value: seq<u8>): Result<Descriptor> {
    if value == [] then Err(Truncated)
    else
      match ProviderKind.FromWire(value[0])
      case None => Err(ProtocolViolation)
      case Some(provider) =>
        if |value| == 1 || |value| - 1 > MAX_DESCRIPTOR_LENGTH then Err(InvalidRange)
        else Ok(Descriptor(provider, value[1..]))
  }

  function DecodeSecret(value: seq<u8>): Result<seq<u8>> {
    if value == [] || |value| > MAX_SECRET_LENGTH then Err(InvalidRange) else Ok(value)
  }

  predicate Known(kind: u16) {
    SESSION <= kind <= SECRET
  }

  /** The error that decoding the value of a known field gives, if any. */
  function Refusal(kind: u16, value: seq<u8>): Option<ErrorCode> {
    match kind
    case 1 => ErrorOf(DecodeSession(value))
    case 2 => ErrorOf(DecodeGeneration(value))
    case 3 => ErrorOf(DecodeProtocols(value))
    case 4 => ErrorOf(DecodeRole(value))
    case 5 => ErrorOf(DecodeDescriptor(value))
    case 6 => ErrorOf(DecodeDescriptor(value))
    case 7 => ErrorOf(DecodeSecret(value))
    case _ => None
  }

  function ErrorOf<T>(r: Result<T>): Option<ErrorCode> {
    if r.Err? then Some(r.error) else None
  }

  type Values = map<u16, seq<u8>>

  /** Reads fields until the input ends, collecting the values of the known ones. */
  function Scan(bytes: seq<u8>, values: Values): Result<Values>
    decreases |bytes|
  {
    if bytes == [] then Ok(values)
    else if |bytes| < FIELD_HEADER_LENGTH then Err(Truncated)
    else
      var wireKind, length := FromLe16(bytes[..2]), FromLe32(bytes[2..6]);
      if FIELD_HEADER_LENGTH + length > |bytes| then Err(Truncated)
      else
        var value, rest := bytes[6..6 + length], bytes[6 + length..];
        var next :- Absorb(wireKind, value, values);
        Scan(rest, next)
  }

  /** What one complete field does. The required bit matters for unknown kinds only. */
  function Absorb(wireKind: u16, value: seq<u8>, values: Values): Result<Values> {
    var kind := wireKind % REQUIRED;
    if !Known(kind) then
      if wireKind >= REQUIRED then Err(UnknownRequiredFlag) else Ok(values)
    else if kind in values then
      Err(ProtocolViolation)
    else if Refusal(kind, value).Some? then
      Err(Refusal(kind, value).value)
    else
      Ok(values[kind := value])
  }

  /** The envelope that seven accepted values make. */
  function Assemble(values: Values): Envelope
    requires values.Keys == REQUIRED_FIELDS
    requires forall k :: k in values ==> Refusal(k, values[k]) == None
  {
    assert Refusal(GENERATION, values[GENERATION]) == None && Refusal(PROTOCOLS, values[PROTOCOLS]) == None;
    assert Refusal(ROLE, values[ROLE]) == None && Refusal(MEMORY, values[MEMORY]) == None;
    assert Refusal(SIGNAL, values[SIGNAL]) == None;
    Envelope(
      values[SESSION], DecodeGeneration(values[GENERATION]).value, DecodeProtocols(values[PROTOCOLS]).value,
      DecodeRole(values[ROLE]).value, DecodeDescriptor(values[MEMORY]).value,
      DecodeDescriptor(values[SIGNAL]).value, values[SECRET])
  }

  predicate AllAccepted(values: Values) {
    forall k :: k in values ==> Known(k) && Refusal(k, values[k]) == None
  }

  lemma {:induction false} ScanAccepts(bytes: seq<u8>, values: Values)
    requires AllAccepted(values)
    ensures Scan(bytes, values).Ok? ==> AllAccepted(Scan(bytes, values).value)
    decreases |bytes|
  {
    hide Refusal, FromLe16, FromLe32;
    if |bytes| >= FIELD_HEADER_LENGTH {
      var wireKind, length := FromLe16(bytes[..2]), FromLe32(bytes[2..6]);
      if FIELD_HEADER_LENGTH + length <= |bytes| {
        var value := bytes[6..6 + length];
        if Absorb(wireKind, value, values).Ok? {
          ScanAccepts(bytes[6 + length..], Absorb(wireKind, value, values).value);
        }
      }
    }
  }

  /** Decoding: header, fields, completeness, validation. */
  function DecodeView(input: seq<u8>): Result<Envelope> {
    if |input| > MAX_ENVELOPE_LENGTH then Err(InvalidRange)
    else if |input| < HEADER_LENGTH then Err(Truncated)
    else if input[..4] != MAGIC then Err(InvalidMagic)
    else if FromLe16(input[4..6]) != SCHEMA_VERSION then Err(LayoutVersionMismatch)
    else
      var values :- Scan(input[HEADER_LENGTH..], map[]);
      if values.Keys != REQUIRED_FIELDS then Err(Truncated)
      else
        ScanAccepts(input[HEADER_LENGTH..], map[]);
        var e := Assemble(values);
        if e.Validate().Some? then Err(e.Validate().value) else Ok(e)
  }
}
