/** Protocol negotiation and the HELLO/ACK exchange (crates/protocol/nwipc-protocol,
    crates/domain/nwipc-capabilities). */
module Handshake {
  import opened Wrappers
  import opened Words
  import Record

  const MAGIC: seq<u8> := [0x4E, 0x57, 0x48, 0x50]
  const HELLO_KIND: u8 := 1
  const ACK_KIND: u8 := 2
  const HELLO_FIXED: int := 64
  const ACK_LENGTH: int := 56
  const MAX_PROOF_LENGTH: int := 64

  /** A set of capability bits, known and unknown. */
  type Capabilities = bv64

  predicate Contains(all: Capabilities, other: Capabilities) {
    all & other == other
  }

  /** Some of the bits are in the set. */
  predicate Meets(c: Capabilities, bits: Capabilities) {
    bits & c != 0
  }

  /** Containment is containment of bits, whichever of them are looked at. */
  lemma ContainsBits(all: Capabilities, other: Capabilities)
    ensures Contains(all, other) <==> forall bits: Capabilities :: Meets(other, bits) ==> Meets(all, bits)
  {
    hide Contains, Meets;
    MissingBits(all, other);
    if Contains(all, other) {
      forall bits: Capabilities | Meets(other, bits)
        ensures Meets(all, bits)
      {
        ContainedBits(all, other, bits);
      }
    }
  }

  lemma MissingBits(all: Capabilities, other: Capabilities)
    ensures !Meets(all, other & !all) && (!Contains(all, other) ==> Meets(other, other & !all))
  {
  }

  lemma ContainedBits(all: Capabilities, other: Capabilities, bits: Capabilities)
    requires Contains(all, other) && Meets(other, bits)
    ensures Meets(all, bits)
  {
  }

  /** Selects what is both requested and supported; every required bit must be both. */
  function Negotiate(supported: Capabilities, requested: Capabilities, required: Capabilities): Result<Capabilities> {
    if !Contains(requested, required) || !Contains(supported, required) then Err(RequiredCapabilityMissing)
    else Ok(supported & requested)
  }

  /** The selection succeeds exactly when every required bit is requested and supported; it lies between
      what is required and what is requested, and contains every set that both sides could use. */
  lemma NegotiationBetween(supported: Capabilities, requested: Capabilities, required: Capabilities, other: Capabilities)
    ensures var r := Negotiate(supported, requested, required);
            && (r.Ok? <==> Contains(requested, required) && Contains(supported, required))
            && (r.Ok? ==>
              && Contains(r.value, required) && Contains(requested, r.value) && Contains(supported, r.value)
              && (Contains(requested, other) && Contains(supported, other) ==> Contains(r.value, other)))
  {
    hide Contains;
    Within(supported, requested);
    if Contains(requested, required) && Contains(supported, required) {
      Meet(supported, requested, required);
    }
    if Contains(requested, other) && Contains(supported, other) {
      Meet(supported, requested, other);
    }
  }

  lemma Meet(a: Capabilities, b: Capabilities, c: Capabilities)
    requires Contains(a, c) && Contains(b, c)
    ensures Contains(a & b, c)
  {
  }

  lemma Within(a: Capabilities, b: Capabilities)
    ensures Contains(a, a & b) && Contains(b, a & b)
  {
  }

  function ByteOf(bits: bv8): u8 {
    bits as int
  }

  function BitsOf(b: u8): bv8 {
    b as bv8
  }

  /** Wire form of a capability set: its bits in eight little-endian bytes. */
  function ToWire(c: Capabilities): (b: seq<u8>)
    ensures |b| == 8
  {
    [ByteOf((c & 0xFF) as bv8), ByteOf(((c >> 8) & 0xFF) as bv8),
     ByteOf(((c >> 16) & 0xFF) as bv8), ByteOf(((c >> 24) & 0xFF) as bv8),
     ByteOf(((c >> 32) & 0xFF) as bv8), ByteOf(((c >> 40) & 0xFF) as bv8),
     ByteOf(((c >> 48) & 0xFF) as bv8), ByteOf((c >> 56) as bv8)]
  }

  function FromWire(b: seq<u8>): Capabilities
    requires |b| == 8
  {
    Joined(BitsOf(b[0]), BitsOf(b[1]), BitsOf(b[2]), BitsOf(b[3]),
           BitsOf(b[4]), BitsOf(b[5]), BitsOf(b[6]), BitsOf(b[7]))
  }

  function Joined(b0: bv8, b1: bv8, b2: bv8, b3: bv8, b4: bv8, b5: bv8, b6: bv8, b7: bv8): Capabilities {
    (b0 as bv64) | ((b1 as bv64) << 8) | ((b2 as bv64) << 16) | ((b3 as bv64) << 24)
    | ((b4 as bv64) << 32) | ((b5 as bv64) << 40) | ((b6 as bv64) << 48) | ((b7 as bv64) << 56)
  }

  lemma BitsOfByte(bits: bv8)
    ensures BitsOf(ByteOf(bits)) == bits
  {
  }

  lemma ByteSuccessor(bits: bv8)
    requires bits != 0xFF
    ensures ByteOf(bits + 1) == ByteOf(bits) + 1
  {
  }

  lemma {:induction false} ByteOfBits(b: u8)
    ensures ByteOf(BitsOf(b)) == b
  {
    if b > 0 {
      ByteOfBits(b - 1);
      var bits := BitsOf(b - 1);
      assert bits != 0xFF;
      ByteSuccessor(bits);
      BitsOfByte(bits + 1);
    }
  }

  lemma JoinedSplits(b0: bv8, b1: bv8, b2: bv8, b3: bv8, b4: bv8, b5: bv8, b6: bv8, b7: bv8)
    ensures var c := Joined(b0, b1, b2, b3, b4, b5, b6, b7);
            && (c & 0xFF) as bv8 == b0 && ((c >> 8) & 0xFF) as bv8 == b1
            && ((c >> 16) & 0xFF) as bv8 == b2 && ((c >> 24) & 0xFF) as bv8 == b3
            && ((c >> 32) & 0xFF) as bv8 == b4 && ((c >> 40) & 0xFF) as bv8 == b5
            && ((c >> 48) & 0xFF) as bv8 == b6 && (c >> 56) as bv8 == b7
  {
  }

  /** Capability bits and wire bytes determine each other. */
  lemma WireRoundTrip(c: Capabilities)
    ensures FromWire(ToWire(c)) == c
  {
    hide ByteOf, BitsOf;
    BitsOfByte((c & 0xFF) as bv8);
    BitsOfByte(((c >> 8) & 0xFF) as bv8);
    BitsOfByte(((c >> 16) & 0xFF) as bv8);
    BitsOfByte(((c >> 24) & 0xFF) as bv8);
    BitsOfByte(((c >> 32) & 0xFF) as bv8);
    BitsOfByte(((c >> 40) & 0xFF) as bv8);
    BitsOfByte(((c >> 48) & 0xFF) as bv8);
    BitsOfByte((c >> 56) as bv8);
  }

  lemma WireOfJoined(b0: bv8, b1: bv8, b2: bv8, b3: bv8, b4: bv8, b5: bv8, b6: bv8, b7: bv8)
    ensures ToWire(Joined(b0, b1, b2, b3, b4, b5, b6, b7))
         == [ByteOf(b0), ByteOf(b1), ByteOf(b2), ByteOf(b3), ByteOf(b4), ByteOf(b5), ByteOf(b6), ByteOf(b7)]
  {
    hide ByteOf, Joined;
    JoinedSplits(b0, b1, b2, b3, b4, b5, b6, b7);
  }

  lemma WireUnique(b: seq<u8>)
    requires |b| == 8
    ensures ToWire(FromWire(b)) == b
  {
    hide ByteOf, BitsOf, Joined, ToWire;
    var bits := seq(8, i requires 0 <= i < 8 => BitsOf(b[i]));
    WireOfJoined(bits[0], bits[1], bits[2], bits[3], bits[4], bits[5], bits[6], bits[7]);
    forall i | 0 <= i < 8
      ensures ByteOf(bits[i]) == b[i]
    {
      ByteOfBits(b[i]);
    }
  }

  /** Versions are ordered by major, then minor; zero is not a version on the wire. */
  function Major(v: u16): int {
    v / 0x100
  }

  datatype VersionRange = VersionRange(minimum: u16, maximum: u16) {
    /** What the constructor of a range admits. */
    predicate Valid() {
      minimum <= maximum && Major(minimum) == Major(maximum)
    }

    predicate Has(v: u16) {
      minimum <= v <= maximum
    }
  }

  function NegotiateVersion(local: VersionRange, remote: VersionRange): Result<u16> {
    if Major(local.minimum) != Major(remote.minimum) then Err(LayoutVersionMismatch)
    else
      var minimum := if local.minimum > remote.minimum then local.minimum else remote.minimum;
      var maximum := if local.maximum < remote.maximum then local.maximum else remote.maximum;
      if minimum > maximum then Err(LayoutVersionMismatch) else Ok(maximum)
  }

  /** The newest version both sides support, and a failure exactly when there is none. */
  lemma VersionIsGreatestCommon(local: VersionRange, remote: VersionRange)
    requires local.Valid() && remote.Valid()
    ensures var r := NegotiateVersion(local, remote);
            && (r.Ok? <==> exists v: u16 :: local.Has(v) && remote.Has(v))
            && (r.Ok? ==> local.Has(r.value) && remote.Has(r.value))
            && (r.Ok? ==> forall v: u16 :: local.Has(v) && remote.Has(v) ==> v <= r.value)
  {
    var r := NegotiateVersion(local, remote);
    if v: u16 :| local.Has(v) && remote.Has(v) {
      MajorMonotone(local.minimum, v);
      MajorMonotone(v, local.maximum);
      MajorMonotone(remote.minimum, v);
      MajorMonotone(v, remote.maximum);
    }
    if r.Ok? {
      assert local.Has(r.value) && remote.Has(r.value);
    }
  }

  lemma MajorMonotone(a: u16, b: u16)
    requires a <= b
    ensures Major(a) <= Major(b)
  {
  }

  datatype Role = Coordinator | Peer | Renderer {
    function ToWire(): u8 {
      match this
      case Coordinator => 1
      case Peer => 2
      case Renderer => 3
    }

    static function FromWire(b: u8): Option<Role> {
      match b
      case 1 => Some(Coordinator)
      case 2 => Some(Peer)
      case 3 => Some(Renderer)
      case _ => None
    }
  }

  datatype Identity = Identity(session: seq<u8>, generation: u64, role: Role) {
    predicate Valid() {
      |session| == 16 && session != Zeros(16) && generation > 0
    }
  }

  predicate LimitsOk(maximumMessage: u32, proof: seq<u8>) {
    maximumMessage > 0 && 0 < |proof| <= MAX_PROOF_LENGTH
  }

  datatype InitiatorConfig = InitiatorConfig(
    identity: Identity, remoteRole: Role, versions: VersionRange,
    requested: Capabilities, required: Capabilities, maximumMessage: u32, proof: seq<u8>)
  {
    predicate Valid() {
      identity.Valid() && versions.Valid() && LimitsOk(maximumMessage, proof)
    }
  }

  datatype AcceptorConfig = AcceptorConfig(
    identity: Identity, remoteRole: Role, versions: VersionRange,
    supported: Capabilities, maximumMessage: u32, proof: seq<u8>)
  {
    predicate Valid() {
      identity.Valid() && versions.Valid() && LimitsOk(maximumMessage, proof)
    }
  }

  datatype Selection = Selection(version: u16, capabilities: Capabilities, maximumMessage: u32)

  datatype Hello = Hello(
    identity: Identity, versions: VersionRange, requested: Capabilities, required: Capabilities,
    maximumMessage: u32, proof: seq<u8>)

  datatype Ack = Ack(identity: Identity, selection: Selection)

  predicate PrefixOk(frame: seq<u8>, kind: u8) {
    |frame| > 4 && frame[..4] == MAGIC && frame[4] == kind
  }

  function DecodeIdentity(frame: seq<u8>): Result<Identity>
    requires |frame| >= 36
  {
    match Role.FromWire(frame[5])
    case None => Err(ProtocolViolation)
    case Some(role) =>
      if frame[12..28] == Zeros(16) then Err(ProtocolViolation)
      else if FromLe64(frame[28..36]) == 0 then Err(ProtocolViolation)
      else Ok(Identity(frame[12..28], FromLe64(frame[28..36]), role))
  }

  function DecodeHello(frame: seq<u8>): Result<Hello> {
    if |frame| < HELLO_FIXED then Err(Truncated)
    else if !PrefixOk(frame, HELLO_KIND) then Err(ProtocolViolation)
    else if frame[56..64] != Zeros(8) then Err(ProtocolViolation)
    else if FromLe16(frame[6..8]) > MAX_PROOF_LENGTH || |frame| != HELLO_FIXED + FromLe16(frame[6..8]) then Err(InvalidRange)
    else
      var identity :- DecodeIdentity(frame);
      var versions := VersionRange(FromLe16(frame[8..10]), FromLe16(frame[10..12]));
      var maximumMessage := FromLe32(frame[52..56]);
      if versions.minimum == 0 || versions.maximum == 0 then Err(ProtocolViolation)
      else if !LimitsOk(maximumMessage, frame[HELLO_FIXED..]) then Err(InvalidRange)
      else if !versions.Valid() then Err(InvalidRange)
      else
        Ok(Hello(identity, versions, FromWire(frame[36..44]), FromWire(frame[44..52]),
                 maximumMessage, frame[HELLO_FIXED..]))
  }

  function DecodeAck(frame: seq<u8>): Result<Ack> {
    if |frame| != ACK_LENGTH then Err(Truncated)
    else if !PrefixOk(frame, ACK_KIND) then Err(ProtocolViolation)
    else if FromLe16(frame[6..8]) != 0 || FromLe16(frame[10..12]) != 0 || frame[48..56] != Zeros(8) then Err(ProtocolViolation)
    else if FromLe16(frame[8..10]) == 0 then Err(ProtocolViolation)
    else if FromLe32(frame[44..48]) == 0 then Err(InvalidRange)
    else
      var identity :- DecodeIdentity(frame);
      Ok(Ack(identity, Selection(FromLe16(frame[8..10]), FromWire(frame[36..44]), FromLe32(frame[44..48]))))
  }

  /** The HELLO frame of a configuration. */
  function HelloFrame(c: InitiatorConfig): seq<u8>
    requires c.Valid()
  {
    MAGIC + [HELLO_KIND] + [c.identity.role.ToWire()] + Le16(|c.proof|)
    + Le16(c.versions.minimum) + Le16(c.versions.maximum) + c.identity.session + Le64(c.identity.generation)
    + ToWire(c.requested) + ToWire(c.required) + Le32(c.maximumMessage) + Zeros(8) + c.proof
  }

  /** The ACK frame of a selection. */
  function AckFrame(identity: Identity, s: Selection): seq<u8> {
    MAGIC + [ACK_KIND] + [identity.role.ToWire()] + Zeros(2)
    + Le16(s.version) + Zeros(2) + identity.session + Le64(identity.generation)
    + ToWire(s.capabilities) + Le32(s.maximumMessage) + Zeros(8)
  }

  function IdentityError(actual: Identity, session: seq<u8>, generation: u64, role: Role): Option<ErrorCode> {
    if actual.session != session || actual.role != role then Some(ProtocolViolation)
    else if actual.generation != generation then Some(StaleGeneration)
    else None
  }

  /** What an acceptor makes of a frame: the ACK and the selection, or an error. */
  function AcceptFrame(c: AcceptorConfig, frame: seq<u8>): Result<(seq<u8>, Selection)> {
    var hello :- DecodeHello(frame);
    var mismatch := IdentityError(hello.identity, c.identity.session, c.identity.generation, c.remoteRole);
    if mismatch.Some? then Err(mismatch.value)
    else if hello.proof != c.proof then Err(ProtocolViolation)
    else
      var version :- NegotiateVersion(c.versions, hello.versions);
      var capabilities :- Negotiate(c.supported, hello.requested, hello.required);
      var selection := Selection(
        version, capabilities, if c.maximumMessage < hello.maximumMessage then c.maximumMessage else hello.maximumMessage);
      Ok((AckFrame(c.identity, selection), selection))
  }

  predicate WithinPolicy(c: InitiatorConfig, s: Selection) {
    && c.versions.Has(s.version)
    && Contains(c.requested, s.capabilities) && Contains(s.capabilities, c.required)
    && 0 < s.maximumMessage <= c.maximumMessage
  }

  /** What an initiator makes of an ACK: the selection it opens with, or an error. */
  function AcknowledgeFrame(c: InitiatorConfig, frame: seq<u8>): Result<Selection> {
    var ack :- DecodeAck(frame);
    var mismatch := IdentityError(ack.identity, c.identity.session, c.identity.generation, c.remoteRole);
    if mismatch.Some? then Err(mismatch.value)
    else if !WithinPolicy(c, ack.selection) then Err(ProtocolViolation)
    else Ok(ack.selection)
  }

  datatype InitiatorState = Ready | HelloSent | Open | Failed

  class InitiatorHandshake {
    const config: InitiatorConfig
    var state: InitiatorState

    constructor (config: InitiatorConfig)
      requires config.Valid()
      ensures this.config == config && state == Ready
    {
      this.config := config;
      state := Ready;
    }

    /** Rejects an empty message limit and proofs of invalid length. */
    static method Create(config: InitiatorConfig) returns (r: Result<InitiatorHandshake>)
      requires config.identity.Valid() && config.versions.Valid()
      ensures r.Ok? <==> config.maximumMessage > 0 && 0 < |config.proof| <= 64
      ensures r.Err? ==> r.error == InvalidRange
      ensures r.Ok? ==> fresh(r.value) && r.value.config == config && r.value.state == Ready
    {
      if !LimitsOk(config.maximumMessage, config.proof) {
        return Err(InvalidRange);
      }
      var handshake := new InitiatorHandshake(config);
      r := Ok(handshake);
    }

    /** Encodes the one HELLO. */
    method SendHello() returns (r: Result<seq<u8>>)
      requires config.Valid()
      modifies this
      ensures r == if old(state) == Ready then Ok(HelloFrame(config)) else Err(InvalidStateTransition)
      ensures state == InitiatorAfter(config, old(state), HelloCall)
    {
      if state != Ready {
        state := Failed;
        return Err(InvalidStateTransition);
      }
      var frame := EncodeHello(config);
      state := HelloSent;
      r := Ok(frame);
    }

    /** Validates the one ACK. */
    method Acknowledge(frame: seq<u8>) returns (r: Result<Selection>)
      modifies this
      ensures r == if old(state) == HelloSent then AcknowledgeFrame(config, frame) else Err(InvalidStateTransition)
      ensures state == InitiatorAfter(config, old(state), AckCall(frame))
    {
      if state != HelloSent {
        state := Failed;
        return Err(InvalidStateTransition);
      }
      r := AcknowledgeFrame(config, frame);
      state := if r.Ok? then Open else Failed;
    }
  }

  class AcceptorHandshake {
    const config: AcceptorConfig
    var consumed: bool

    constructor (config: AcceptorConfig)
      requires config.Valid()
      ensures this.config == config && !consumed
    {
      this.config := config;
      consumed := false;
    }

    /** Rejects an empty message limit and proofs of invalid length. */
    static method Create(config: AcceptorConfig) returns (r: Result<AcceptorHandshake>)
      requires config.identity.Valid() && config.versions.Valid()
      ensures r.Ok? <==> config.maximumMessage > 0 && 0 < |config.proof| <= 64
      ensures r.Err? ==> r.error == InvalidRange
      ensures r.Ok? ==> fresh(r.value) && r.value.config == config && !r.value.consumed
    {
      if !LimitsOk(config.maximumMessage, config.proof) {
        return Err(InvalidRange);
      }
      var handshake := new AcceptorHandshake(config);
      r := Ok(handshake);
    }

    /** Validates HELLO, negotiates, and answers. */
    method Accept(frame: seq<u8>) returns (r: Result<(seq<u8>, Selection)>)
      requires config.Valid()
      modifies this
      ensures consumed
      ensures r == if old(consumed) then Err(InvalidStateTransition) else AcceptFrame(config, frame)
    {
      if consumed {
        return Err(InvalidStateTransition);
      }
      consumed := true;
      var hello :- DecodeHello(frame);
      var mismatch := IdentityError(hello.identity, config.identity.session, config.identity.generation, config.remoteRole);
      if mismatch.Some? {
        return Err(mismatch.value);
      }
      if hello.proof != config.proof {
        return Err(ProtocolViolation);
      }
      var version :- NegotiateVersion(config.versions, hello.versions);
      var capabilities :- Negotiate(config.supported, hello.requested, hello.required);
      var selection := Selection(
        version, capabilities,
        if config.maximumMessage < hello.maximumMessage then config.maximumMessage else hello.maximumMessage);
      var ack := EncodeAck(config.identity, selection);
      r := Ok((ack, selection));
    }
  }

  method PutU64(bytes: array<u8>, offset: nat, v: u64)
    requires offset + 8 <= bytes.Length
    modifies bytes
    ensures bytes[..] == Splice(old(bytes[..]), offset, Le64(v))
  {
    PutBytes(bytes, offset, Le64(v));
  }

  method PutBytes(bytes: array<u8>, offset: nat, source: seq<u8>)
    requires offset + |source| <= bytes.Length
    modifies bytes
    ensures bytes[..] == Splice(old(bytes[..]), offset, source)
  {
    for i := 0 to |source|
      invariant bytes[..] == Splice(old(bytes[..]), offset, source[..i])
    {
      SpliceGrows(old(bytes[..]), offset, source, i);
      bytes[offset + i] := source[i];
    }
    assert source[..|source|] == source;
  }

  /** Fills a zeroed frame field by field. */
  method EncodeHello(c: InitiatorConfig) returns (frame: seq<u8>)
    requires c.Valid()
    ensures frame == HelloFrame(c)
  {
    hide Le16, Le32, Le64, ToWire, Splice;
    var n := |c.proof|;
    var buffer := new u8[HELLO_FIXED + n](_ => 0);
    assert buffer[..] == [] + Zeros(HELLO_FIXED + n);
    PutBytes(buffer, 0, MAGIC);
    Put([], MAGIC, HELLO_FIXED + n);
    PutBytes(buffer, 4, [HELLO_KIND]);
    Put([] + MAGIC, [HELLO_KIND], HELLO_FIXED + n - 4);
    PutBytes(buffer, 5, [c.identity.role.ToWire()]);
    ghost var done := [] + MAGIC + [HELLO_KIND];
    Put(done, [c.identity.role.ToWire()], HELLO_FIXED + n - 5);
    done := done + [c.identity.role.ToWire()];
    Record.PutU16(buffer, 6, n);
    Put(done, Le16(n), HELLO_FIXED + n - 6);
    done := done + Le16(n);
    Record.PutU16(buffer, 8, c.versions.minimum);
    Put(done, Le16(c.versions.minimum), HELLO_FIXED + n - 8);
    done := done + Le16(c.versions.minimum);
    Record.PutU16(buffer, 10, c.versions.maximum);
    Put(done, Le16(c.versions.maximum), HELLO_FIXED + n - 10);
    done := done + Le16(c.versions.maximum);
    PutBytes(buffer, 12, c.identity.session);
    Put(done, c.identity.session, HELLO_FIXED + n - 12);
    done := done + c.identity.session;
    PutU64(buffer, 28, c.identity.generation);
    Put(done, Le64(c.identity.generation), HELLO_FIXED + n - 28);
    done := done + Le64(c.identity.generation);
    PutBytes(buffer, 36, ToWire(c.requested));
    Put(done, ToWire(c.requested), HELLO_FIXED + n - 36);
    done := done + ToWire(c.requested);
    PutBytes(buffer, 44, ToWire(c.required));
    Put(done, ToWire(c.required), HELLO_FIXED + n - 44);
    done := done + ToWire(c.required);
    Record.PutU32(buffer, 52, c.maximumMessage);
    Put(done, Le32(c.maximumMessage), HELLO_FIXED + n - 52);
    done := done + Le32(c.maximumMessage) + Zeros(8);
    assert buffer[..] == done + Zeros(n);
    PutBytes(buffer, HELLO_FIXED, c.proof);
    Put(done, c.proof, n);
    assert [] + MAGIC == MAGIC && done + c.proof + Zeros(0) == done + c.proof;
    frame := buffer[..];
  }

  method EncodeAck(identity: Identity, s: Selection) returns (frame: seq<u8>)
    requires identity.Valid()
    ensures frame == AckFrame(identity, s)
  {
    hide Le16, Le32, Le64, ToWire, Splice;
    var buffer := new u8[ACK_LENGTH](_ => 0);
    assert buffer[..] == [] + Zeros(ACK_LENGTH);
    PutBytes(buffer, 0, MAGIC);
    Put([], MAGIC, ACK_LENGTH);
    PutBytes(buffer, 4, [ACK_KIND]);
    Put([] + MAGIC, [ACK_KIND], ACK_LENGTH - 4);
    PutBytes(buffer, 5, [identity.role.ToWire()]);
    ghost var done := [] + MAGIC + [ACK_KIND];
    Put(done, [identity.role.ToWire()], ACK_LENGTH - 5);
    done := done + [identity.role.ToWire()] + Zeros(2);
    assert buffer[..] == done + Zeros(ACK_LENGTH - 8);
    Record.PutU16(buffer, 8, s.version);
    Put(done, Le16(s.version), ACK_LENGTH - 8);
    done := done + Le16(s.version) + Zeros(2);
    assert buffer[..] == done + Zeros(ACK_LENGTH - 12);
    PutBytes(buffer, 12, identity.session);
    Put(done, identity.session, ACK_LENGTH - 12);
    done := done + identity.session;
    PutU64(buffer, 28, identity.generation);
    Put(done, Le64(identity.generation), ACK_LENGTH - 28);
    done := done + Le64(identity.generation);
    PutBytes(buffer, 36, ToWire(s.capabilities));
    Put(done, ToWire(s.capabilities), ACK_LENGTH - 36);
    done := done + ToWire(s.capabilities);
    Record.PutU32(buffer, 44, s.maximumMessage);
    Put(done, Le32(s.maximumMessage), ACK_LENGTH - 44);
    assert [] + MAGIC == MAGIC;
    frame := buffer[..];
  }

  lemma Put(done: seq<u8>, part: seq<u8>, n: nat)
    requires |part| <= n
    ensures Splice(done + Zeros(n), |done|, part) == (done + part) + Zeros(n - |part|)
  {
    assert Zeros(n)[|part|..] == Zeros(n - |part|);
  }

  /** The calls an initiator can receive. */
  datatype InitiatorCall = HelloCall | AckCall(frame: seq<u8>)

  function InitiatorAfter(c: InitiatorConfig, state: InitiatorState, call: InitiatorCall): InitiatorState {
    match call
    case HelloCall => if state == Ready then HelloSent else Failed
    case AckCall(frame) =>
      if state == HelloSent && AcknowledgeFrame(c, frame).Ok? then Open else Failed
  }

  /** How often sending and opening succeeded over a sequence of calls. */
  datatype Successes = Successes(state: InitiatorState, hellos: nat, opens: nat)

  function InitiatorRun(c: InitiatorConfig, s: Successes, calls: seq<InitiatorCall>): Successes
    decreases |calls|
  {
    if calls == [] then s
    else
      var after := InitiatorAfter(c, s.state, calls[0]);
      InitiatorRun(
        c,
        Successes(after, s.hellos + (if after == HelloSent then 1 else 0), s.opens + (if after == Open then 1 else 0)),
        calls[1..])
  }

  lemma {:induction false} RunCounts(c: InitiatorConfig, s: Successes, calls: seq<InitiatorCall>)
    ensures var end := InitiatorRun(c, s, calls);
            && s.hellos <= end.hellos <= s.hellos + (if s.state == Ready then 1 else 0)
            && end.opens <= s.opens + (if s.state == Ready || s.state == HelloSent then 1 else 0)
            && (s.state == Ready ==> end.opens - s.opens <= end.hellos - s.hellos)
    decreases |calls|
  {
    hide AcknowledgeFrame;
    if calls != [] {
      var after := InitiatorAfter(c, s.state, calls[0]);
      RunCounts(
        c,
        Successes(after, s.hellos + (if after == HelloSent then 1 else 0), s.opens + (if after == Open then 1 else 0)),
        calls[1..]);
    }
  }

  /** Over any sequence of calls an initiator sends one HELLO at most and opens once at most, and only
      after its HELLO. */
  lemma InitiatorOpensOnce(c: InitiatorConfig, calls: seq<InitiatorCall>)
    ensures var end := InitiatorRun(c, Successes(Ready, 0, 0), calls);
            end.opens <= end.hellos <= 1
  {
    RunCounts(c, Successes(Ready, 0, 0), calls);
  }

  lemma HelloParts(c: InitiatorConfig)
    requires c.Valid()
    ensures var f := HelloFrame(c);
            && |f| == HELLO_FIXED + |c.proof| && f[..4] == MAGIC && f[4] == HELLO_KIND && f[5] == c.identity.role.ToWire()
            && f[6..8] == Le16(|c.proof|) && f[8..10] == Le16(c.versions.minimum) && f[10..12] == Le16(c.versions.maximum)
            && f[12..28] == c.identity.session && f[28..36] == Le64(c.identity.generation)
            && f[36..44] == ToWire(c.requested) && f[44..52] == ToWire(c.required)
            && f[52..56] == Le32(c.maximumMessage) && f[56..64] == Zeros(8) && f[64..] == c.proof
  {
    hide Le16, Le32, Le64, ToWire;
    var head := MAGIC + [HELLO_KIND] + [c.identity.role.ToWire()] + Le16(|c.proof|)
                + Le16(c.versions.minimum) + Le16(c.versions.maximum);
    var body := c.identity.session + Le64(c.identity.generation) + ToWire(c.requested) + ToWire(c.required)
                + Le32(c.maximumMessage) + Zeros(8);
    var f := HelloFrame(c);
    assert f == head + body + c.proof;
    HeadParts(MAGIC, [HELLO_KIND], [c.identity.role.ToWire()], Le16(|c.proof|), Le16(c.versions.minimum),
              Le16(c.versions.maximum));
    BodyParts(c.identity.session, Le64(c.identity.generation), ToWire(c.requested), ToWire(c.required),
              Le32(c.maximumMessage), Zeros(8));
    FieldsOfFrame(f, head, body, c.proof);
  }

  lemma HeadParts(a: seq<u8>, b: seq<u8>, c: seq<u8>, d: seq<u8>, e: seq<u8>, g: seq<u8>)
    requires |a| == 4 && |b| == |c| == 1 && |d| == |e| == |g| == 2
    ensures var s := a + b + c + d + e + g;
            && |s| == 12 && s[..4] == a && [s[4]] == b && [s[5]] == c && s[6..8] == d && s[8..10] == e && s[10..12] == g
  {
  }

  lemma BodyParts(a: seq<u8>, b: seq<u8>, c: seq<u8>, d: seq<u8>, e: seq<u8>, g: seq<u8>)
    requires |a| == 16 && |b| == |c| == |d| == |g| == 8 && |e| == 4
    ensures var s := a + b + c + d + e + g;
            && |s| == 52 && s[..16] == a && s[16..24] == b && s[24..32] == c && s[32..40] == d
            && s[40..44] == e && s[44..52] == g
  {
  }

  lemma SliceOfSlice(f: seq<u8>, at: nat, end: nat, i: nat, j: nat)
    requires at <= end <= |f| && i <= j <= end - at
    ensures f[at + i..at + j] == f[at..end][i..j]
  {
    forall k | 0 <= k < j - i
      ensures f[at + i..at + j][k] == f[at..end][i..j][k]
    {
      assert f[at..end][i + k] == f[at + (i + k)];
    }
  }

  lemma FieldsOfFrame(f: seq<u8>, head: seq<u8>, body: seq<u8>, proof: seq<u8>)
    requires |head| == 12 && |body| == 52 && f == head + body + proof
    ensures f[..4] == head[..4] && f[4] == head[4] && f[5] == head[5]
    ensures f[6..8] == head[6..8] && f[8..10] == head[8..10] && f[10..12] == head[10..12]
    ensures f[12..28] == body[..16] && f[28..36] == body[16..24] && f[36..44] == body[24..32]
    ensures f[44..52] == body[32..40] && f[52..56] == body[40..44] && f[56..64] == body[44..52]
    ensures f[64..] == proof
  {
    assert f[0..12] == head && f[12..64] == body;
    SliceOfSlice(f, 0, 12, 0, 4);
    SliceOfSlice(f, 0, 12, 6, 8);
    SliceOfSlice(f, 0, 12, 8, 10);
    SliceOfSlice(f, 0, 12, 10, 12);
    SliceOfSlice(f, 12, 64, 0, 16);
    SliceOfSlice(f, 12, 64, 16, 24);
    SliceOfSlice(f, 12, 64, 24, 32);
    SliceOfSlice(f, 12, 64, 32, 40);
    SliceOfSlice(f, 12, 64, 40, 44);
    SliceOfSlice(f, 12, 64, 44, 52);
  }

  lemma AckParts(identity: Identity, s: Selection)
    requires identity.Valid()
    ensures var f := AckFrame(identity, s);
            && |f| == ACK_LENGTH && f[..4] == MAGIC && f[4] == ACK_KIND && f[5] == identity.role.ToWire()
            && f[6..8] == Zeros(2) && f[8..10] == Le16(s.version) && f[10..12] == Zeros(2)
            && f[12..28] == identity.session && f[28..36] == Le64(identity.generation)
            && f[36..44] == ToWire(s.capabilities) && f[44..48] == Le32(s.maximumMessage) && f[48..56] == Zeros(8)
  {
    hide Le16, Le32, Le64, ToWire;
  }

  lemma ZeroField()
    ensures FromLe16(Zeros(2)) == 0
  {
  }

  /** A HELLO decodes to its configuration, unless the configuration offers version zero. */
  lemma HelloDecodes(c: InitiatorConfig)
    requires c.Valid()
    ensures DecodeHello(HelloFrame(c)) ==
      if c.versions.minimum == 0 then Err(ProtocolViolation)
      else Ok(Hello(c.identity, c.versions, c.requested, c.required, c.maximumMessage, c.proof))
  {
    hide Le16, Le32, Le64, ToWire, HelloFrame, FromLe16, FromLe32, FromLe64, FromWire;
    HelloParts(c);
    Le16RoundTrip(|c.proof|);
    Le16RoundTrip(c.versions.minimum);
    Le16RoundTrip(c.versions.maximum);
    Le64RoundTrip(c.identity.generation);
    Le32RoundTrip(c.maximumMessage);
    WireRoundTrip(c.requested);
    WireRoundTrip(c.required);
  }

  lemma AckDecodes(identity: Identity, s: Selection)
    requires identity.Valid() && s.version != 0 && s.maximumMessage > 0
    ensures DecodeAck(AckFrame(identity, s)) == Ok(Ack(identity, s))
  {
    hide Le16, Le32, Le64, ToWire, AckFrame, FromLe16, FromLe32, FromLe64, FromWire;
    AckParts(identity, s);
    ZeroField();
    Le16RoundTrip(s.version);
    Le64RoundTrip(identity.generation);
    Le32RoundTrip(s.maximumMessage);
    WireRoundTrip(s.capabilities);
  }

  /** What an acceptor demands of an initiator. */
  predicate Compatible(i: InitiatorConfig, a: AcceptorConfig) {
    && i.identity.session == a.identity.session && i.identity.generation == a.identity.generation
    && i.identity.role == a.remoteRole && i.proof == a.proof
    && i.versions.minimum != 0
    && i.versions.minimum <= a.versions.maximum && a.versions.minimum <= i.versions.maximum
    && Contains(i.requested, i.required) && Contains(a.supported, i.required)
  }

  lemma RangesMeet(a: VersionRange, b: VersionRange)
    requires a.Valid() && b.Valid()
    ensures NegotiateVersion(a, b).Ok? <==> b.minimum <= a.maximum && a.minimum <= b.maximum
  {
    VersionIsGreatestCommon(a, b);
    if b.minimum <= a.maximum && a.minimum <= b.maximum {
      var v := if a.minimum > b.minimum then a.minimum else b.minimum;
      assert a.Has(v) && b.Has(v);
    }
  }

  /** Nothing that both parties could use is given up: the newest common version, every capability that
      is requested and supported, and the largest message both take. */
  ghost predicate Largest(
      s: Selection, ours: VersionRange, theirs: VersionRange, supported: Capabilities, requested: Capabilities,
      ourMaximum: u32, theirMaximum: u32)
  {
    && (forall v: u16 :: ours.Has(v) && theirs.Has(v) ==> v <= s.version)
    && (forall c: Capabilities :: Contains(supported, c) && Contains(requested, c) ==> Contains(s.capabilities, c))
    && (forall n: nat :: BothTake(n, ourMaximum, theirMaximum) ==> n <= s.maximumMessage)
  }

  predicate BothTake(n: nat, ourMaximum: u32, theirMaximum: u32) {
    n <= ourMaximum && n <= theirMaximum
  }

  lemma SelectionIsLargest(a: AcceptorConfig, hello: Hello)
    requires a.versions.Valid() && hello.versions.Valid()
    requires NegotiateVersion(a.versions, hello.versions).Ok?
    requires Negotiate(a.supported, hello.requested, hello.required).Ok?
    ensures var s := Selection(
              NegotiateVersion(a.versions, hello.versions).value,
              Negotiate(a.supported, hello.requested, hello.required).value,
              if a.maximumMessage < hello.maximumMessage then a.maximumMessage else hello.maximumMessage);
            Largest(s, a.versions, hello.versions, a.supported, hello.requested, a.maximumMessage, hello.maximumMessage)
  {
    hide NegotiateVersion, Negotiate, Contains;
    VersionIsGreatestCommon(a.versions, hello.versions);
    forall c: Capabilities | Contains(a.supported, c) && Contains(hello.requested, c)
      ensures Contains(Negotiate(a.supported, hello.requested, hello.required).value, c)
    {
      NegotiationBetween(a.supported, hello.requested, hello.required, c);
    }
  }

  /** Two-party agreement: the acceptor answers exactly the compatible initiators, and then the
      initiator opens with the identical selection exactly when the acceptor has the role it expects. */
  lemma BothAgree(i: InitiatorConfig, a: AcceptorConfig)
    requires i.Valid() && a.Valid()
    ensures var accepted := AcceptFrame(a, HelloFrame(i));
            && (accepted.Ok? <==> Compatible(i, a))
            && (accepted.Ok? ==>
              var (ack, selection) := accepted.value;
              && WithinPolicy(i, selection)
              && Largest(selection, a.versions, i.versions, a.supported, i.requested, a.maximumMessage, i.maximumMessage)
              && a.versions.Has(selection.version) && Contains(a.supported, selection.capabilities)
              && selection.maximumMessage <= a.maximumMessage
              && AcknowledgeFrame(i, ack)
                 == if a.identity.role == i.remoteRole then Ok(selection) else Err(ProtocolViolation))
  {
    hide HelloFrame, AckFrame, DecodeHello, DecodeAck, NegotiateVersion, Contains, Negotiate, Largest;
    HelloDecodes(i);
    VersionIsGreatestCommon(a.versions, i.versions);
    RangesMeet(a.versions, i.versions);
    NegotiationBetween(a.supported, i.requested, i.required, 0);
    var accepted := AcceptFrame(a, HelloFrame(i));
    if accepted.Ok? {
      SelectionIsLargest(a, DecodeHello(HelloFrame(i)).value);
      AckDecodes(a.identity, accepted.value.1);
    }
  }

  /** The ACK frames that decode are exactly the encoded ones: nothing in a frame is free. */
  lemma AckUnique(frame: seq<u8>)
    requires DecodeAck(frame).Ok?
    ensures var ack := DecodeAck(frame).value;
            frame == AckFrame(ack.identity, ack.selection) && ack.identity.Valid() && ack.selection.version != 0
  {
    hide Le16, Le32, Le64, ToWire, FromLe16, FromLe32, FromLe64, FromWire, AckFrame;
    Le16Unique(frame[6..8]);
    Le16Unique(frame[8..10]);
    Le16Unique(frame[10..12]);
    ZeroBytes();
    Le64Unique(frame[28..36]);
    WireUnique(frame[36..44]);
    Le32Unique(frame[44..48]);
    AckJoins(frame);
    AckFrameIs(DecodeAck(frame).value.identity, DecodeAck(frame).value.selection);
  }

  /** The HELLO frames that decode are exactly the encoded ones. */
  lemma HelloUnique(frame: seq<u8>)
    requires DecodeHello(frame).Ok?
    ensures var h := DecodeHello(frame).value;
            var c := InitiatorConfig(h.identity, Coordinator, h.versions, h.requested, h.required, h.maximumMessage, h.proof);
            c.Valid() && c.versions.minimum != 0 && frame == HelloFrame(c)
  {
    hide Le16, Le32, Le64, ToWire, FromLe16, FromLe32, FromLe64, FromWire, HelloFrame;
    Le16Unique(frame[6..8]);
    Le16Unique(frame[8..10]);
    Le16Unique(frame[10..12]);
    Le64Unique(frame[28..36]);
    WireUnique(frame[36..44]);
    WireUnique(frame[44..52]);
    Le32Unique(frame[52..56]);
    HelloJoins(frame);
    var h := DecodeHello(frame).value;
    HelloFrameIs(InitiatorConfig(h.identity, Coordinator, h.versions, h.requested, h.required, h.maximumMessage, h.proof));
  }

  lemma HelloFrameIs(c: InitiatorConfig)
    requires c.Valid()
    ensures HelloFrame(c)
      == MAGIC + [HELLO_KIND] + [c.identity.role.ToWire()] + Le16(|c.proof|)
         + Le16(c.versions.minimum) + Le16(c.versions.maximum) + c.identity.session + Le64(c.identity.generation)
         + ToWire(c.requested) + ToWire(c.required) + Le32(c.maximumMessage) + Zeros(8) + c.proof
  {
  }

  lemma HelloJoins(f: seq<u8>)
    requires |f| >= HELLO_FIXED
    ensures f == f[..4] + [f[4]] + [f[5]] + f[6..8] + f[8..10] + f[10..12] + f[12..28] + f[28..36] + f[36..44]
                 + f[44..52] + f[52..56] + f[56..64] + f[64..]
  {
    assert f[..12] == f[..4] + [f[4]] + [f[5]] + f[6..8] + f[8..10] + f[10..12];
    assert f == f[..12] + f[12..28] + f[28..36] + f[36..44] + f[44..52] + f[52..56] + f[56..64] + f[64..];
  }

  /** Why a HELLO is refused: the first of the reasons that applies, a stale generation only when everything
      else about the identity is right. */
  lemma RefusedBecause(i: InitiatorConfig, a: AcceptorConfig)
    requires i.Valid() && a.Valid() && AcceptFrame(a, HelloFrame(i)).Err?
    ensures AcceptFrame(a, HelloFrame(i)).error ==
      if i.versions.minimum == 0 || i.identity.session != a.identity.session || i.identity.role != a.remoteRole then
        ProtocolViolation
      else if i.identity.generation != a.identity.generation then StaleGeneration
      else if i.proof != a.proof then ProtocolViolation
      else if i.versions.minimum > a.versions.maximum || a.versions.minimum > i.versions.maximum then LayoutVersionMismatch
      else RequiredCapabilityMissing
  {
    hide HelloFrame, AckFrame, DecodeHello, NegotiateVersion, Contains;
    HelloDecodes(i);
    VersionIsGreatestCommon(a.versions, i.versions);
    RangesMeet(a.versions, i.versions);
    VersionsDiffer(a.versions, i.versions);
  }

  lemma VersionsDiffer(a: VersionRange, b: VersionRange)
    ensures NegotiateVersion(a, b).Err? ==> NegotiateVersion(a, b).error == LayoutVersionMismatch
  {
  }

  /** An ACK of another generation of the same session and role is refused as stale. */
  lemma StaleAckRefused(i: InitiatorConfig, generation: u64, s: Selection)
    requires i.Valid() && generation > 0 && s.version != 0 && s.maximumMessage > 0 && generation != i.identity.generation
    ensures AcknowledgeFrame(i, AckFrame(Identity(i.identity.session, generation, i.remoteRole), s)) == Err(StaleGeneration)
  {
    hide AckFrame, DecodeAck;
    AckDecodes(Identity(i.identity.session, generation, i.remoteRole), s);
  }

  lemma ZeroBytes()
    ensures Le16(0) == Zeros(2)
  {
  }

  lemma AckFrameIs(identity: Identity, s: Selection)
    ensures AckFrame(identity, s)
      == MAGIC + [ACK_KIND] + [identity.role.ToWire()] + Zeros(2)
         + Le16(s.version) + Zeros(2) + identity.session + Le64(identity.generation)
         + ToWire(s.capabilities) + Le32(s.maximumMessage) + Zeros(8)
  {
  }

  /** A frame is its fields, one after the other. */
  lemma AckJoins(f: seq<u8>)
    requires |f| == ACK_LENGTH
    ensures f == f[..4] + [f[4]] + [f[5]] + f[6..8] + f[8..10] + f[10..12] + f[12..28] + f[28..36] + f[36..44]
                 + f[44..48] + f[48..56]
  {
    assert f[..12] == f[..4] + [f[4]] + [f[5]] + f[6..8] + f[8..10] + f[10..12];
    assert f == f[..12] + f[12..28] + f[28..36] + f[36..44] + f[44..48] + f[48..56];
  }

  /** An initiator opens with a selection exactly on the ACK frame that encodes it for its session, its
      generation and the role it expects, and exactly if the selection is within its own policy. */
  lemma OpensExactlyWithinPolicy(i: InitiatorConfig, frame: seq<u8>, s: Selection)
    requires i.Valid()
    ensures AcknowledgeFrame(i, frame) == Ok(s) <==>
      && frame == AckFrame(Identity(i.identity.session, i.identity.generation, i.remoteRole), s)
      && s.version != 0 && i.versions.minimum <= s.version <= i.versions.maximum
      && Contains(i.requested, s.capabilities) && Contains(s.capabilities, i.required)
      && 0 < s.maximumMessage <= i.maximumMessage
  {
    hide DecodeAck, AckFrame, Contains;
    var identity := Identity(i.identity.session, i.identity.generation, i.remoteRole);
    if DecodeAck(frame).Ok? {
      AckUnique(frame);
    }
    if s.version != 0 && WithinPolicy(i, s) {
      AckDecodes(identity, s);
    }
  }

  /** The answers of an acceptor to a sequence of frames. */
  function AcceptorAnswers(c: AcceptorConfig, consumed: bool, frames: seq<seq<u8>>): (r: seq<Result<(seq<u8>, Selection)>>)
    ensures |r| == |frames|
    decreases |frames|
  {
    if frames == [] then []
    else
      [if consumed then Err(InvalidStateTransition) else AcceptFrame(c, frames[0])]
      + AcceptorAnswers(c, true, frames[1..])
  }

  lemma {:induction false} ConsumedRefusesAll(c: AcceptorConfig, frames: seq<seq<u8>>)
    ensures forall k :: 0 <= k < |frames| ==> AcceptorAnswers(c, true, frames)[k] == Err(InvalidStateTransition)
    decreases |frames|
  {
    hide AcceptFrame;
    if frames != [] {
      ConsumedRefusesAll(c, frames[1..]);
    }
  }

  /** Over any sequence of frames an acceptor judges the first alone and refuses every later one,
      whatever became of the first: at most one ACK leaves it. */
  lemma AcceptorAnswersOnce(c: AcceptorConfig, frames: seq<seq<u8>>, k: nat)
    requires k < |frames|
    ensures AcceptorAnswers(c, false, frames)[k]
         == if k == 0 then AcceptFrame(c, frames[0]) else Err(InvalidStateTransition)
  {
    hide AcceptFrame;
    ConsumedRefusesAll(c, frames[1..]);
  }

  /** Whatever the calls on one side and the frames on the other, an initiator fed by an acceptor's
      answers opens with nothing but the one selection that the acceptor negotiated. */
  lemma OnlyTheNegotiatedSelection(i: InitiatorConfig, a: AcceptorConfig, frames: seq<seq<u8>>, k: nat, s: Selection)
    requires i.Valid() && a.Valid() && k < |frames|
    requires AcceptorAnswers(a, false, frames)[k].Ok?
    requires AcknowledgeFrame(i, AcceptorAnswers(a, false, frames)[k].value.0) == Ok(s)
    ensures k == 0 && AcceptFrame(a, frames[0]).Ok? && s == AcceptFrame(a, frames[0]).value.1
    ensures a.versions.Has(s.version) && Contains(a.supported, s.capabilities) && s.maximumMessage <= a.maximumMessage
    ensures WithinPolicy(i, s)
    ensures DecodeHello(frames[0]).Ok?
    ensures var hello := DecodeHello(frames[0]).value;
            Largest(s, a.versions, hello.versions, a.supported, hello.requested, a.maximumMessage, hello.maximumMessage)
  {
    hide Largest, AcceptFrame, AckFrame, DecodeAck, Contains, AcceptorAnswers;
    AcceptorAnswersOnce(a, frames, k);
    AcceptedSelection(a, frames[0]);
    AckDecodes(a.identity, AcceptFrame(a, frames[0]).value.1);
  }

  lemma AcceptedSelection(a: AcceptorConfig, frame: seq<u8>)
    requires a.Valid() && AcceptFrame(a, frame).Ok?
    ensures var (ack, s) := AcceptFrame(a, frame).value;
            && ack == AckFrame(a.identity, s) && s.version != 0
            && a.versions.Has(s.version) && Contains(a.supported, s.capabilities)
            && 0 < s.maximumMessage <= a.maximumMessage
            && DecodeHello(frame).Ok?
            && var hello := DecodeHello(frame).value;
               && Contains(s.capabilities, hello.required)
               && Largest(s, a.versions, hello.versions, a.supported, hello.requested,
                          a.maximumMessage, hello.maximumMessage)
  {
    hide AckFrame, DecodeHello, Contains, Negotiate, NegotiateVersion, Largest;
    HelloIsValid(frame);
    var hello := DecodeHello(frame).value;
    VersionIsGreatestCommon(a.versions, hello.versions);
    NegotiationBetween(a.supported, hello.requested, hello.required, 0);
    SelectionIsLargest(a, hello);
  }

  lemma HelloIsValid(frame: seq<u8>)
    requires DecodeHello(frame).Ok?
    ensures var hello := DecodeHello(frame).value;
            hello.versions.Valid() && hello.versions.minimum != 0 && LimitsOk(hello.maximumMessage, hello.proof)
  {
    hide FromLe16, FromLe32, FromLe64, FromWire, PrefixOk;
  }
}
