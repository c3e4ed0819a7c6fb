/** The encoder and the decoder of bootstrap envelopes (crates/bootstrap/nwipc-bootstrap-codec). */
module BootstrapCodec {
  import opened Wrappers
  import opened Words
  import opened Bootstrap
  import opened BootstrapFields

  /** Appends one required field. */
  method AppendField(output: seq<u8>, kind: u16, value: seq<u8>) returns (r: Result<seq<u8>>)
    requires kind < REQUIRED
    ensures r == if |value| >= TWO32 then Err(InvalidRange) else Ok(output + FieldBytes(Field(kind + REQUIRED, value)))
  {
    if |value| >= TWO32 {
      return Err(InvalidRange);
    }
    var extended := output + Le16(kind + REQUIRED);
    extended := extended + Le32(|value|);
    extended := extended + value;
    assert extended == output + (Le16(kind + REQUIRED) + Le32(|value|) + value);
    r := Ok(extended);
  }

  method AppendDescriptor(output: seq<u8>, kind: u16, descriptor: Descriptor) returns (r: Result<seq<u8>>)
    requires kind < REQUIRED && |descriptor.bytes| <= MAX_DESCRIPTOR_LENGTH
    ensures r == Ok(output + FieldBytes(Field(kind + REQUIRED, [descriptor.provider.ToWire()] + descriptor.bytes)))
  {
    var value := [descriptor.provider.ToWire()];
    value := value + descriptor.bytes;
    r := AppendField(output, kind, value);
  }

  /** Encodes an envelope; every valid one fits, and decodes to itself. */
  method Encode(e: Envelope) returns (r: Result<seq<u8>>)
    requires e.Valid()
    ensures r == Ok(Wire(e))
    ensures DecodeView(Wire(e)) == Ok(e)
  {
    hide FieldBytes, Le16, Le32, Le64, Body, Canonical, DecodeView;
    CanonicalFits(e);
    RoundTrip(e);
    var protocols := Le16(e.protocols.minimum) + Le16(e.protocols.maximum);
    var output := AppendField(Header(), SESSION, e.session);
    output := AppendField(output.value, GENERATION, Le64(e.generation));
    output := AppendField(output.value, PROTOCOLS, protocols);
    output := AppendField(output.value, ROLE, [e.role.ToWire()]);
    output := AppendDescriptor(output.value, MEMORY, e.memory);
    output := AppendDescriptor(output.value, SIGNAL, e.signal);
    output := AppendField(output.value, SECRET, e.secret);
    SevenFields(e);
    if |output.value| > MAX_ENVELOPE_LENGTH {
      return Err(InvalidRange);
    }
    r := output;
  }

  lemma SevenFields(e: Envelope)
    requires e.Valid()
    ensures Wire(e)
      == Header() + FieldBytes(Field(SESSION + REQUIRED, e.session))
         + FieldBytes(Field(GENERATION + REQUIRED, Le64(e.generation)))
         + FieldBytes(Field(PROTOCOLS + REQUIRED, Le16(e.protocols.minimum) + Le16(e.protocols.maximum)))
         + FieldBytes(Field(ROLE + REQUIRED, [e.role.ToWire()]))
         + FieldBytes(Field(MEMORY + REQUIRED, [e.memory.provider.ToWire()] + e.memory.bytes))
         + FieldBytes(Field(SIGNAL + REQUIRED, [e.signal.provider.ToWire()] + e.signal.bytes))
         + FieldBytes(Field(SECRET + REQUIRED, e.secret))
  {
    hide FieldBytes, Le16, Le64, Body, Canonical, Header;
    OneField(e, 1);
    OneField(e, 2);
    OneField(e, 3);
    OneField(e, 4);
    OneField(e, 5);
    OneField(e, 6);
    OneField(e, 7);
    NoFields(e);
    Grouped(Header(), FieldBytes(Field(SESSION + REQUIRED, e.session)),
            FieldBytes(Field(GENERATION + REQUIRED, Le64(e.generation))),
            FieldBytes(Field(PROTOCOLS + REQUIRED, Le16(e.protocols.minimum) + Le16(e.protocols.maximum))),
            FieldBytes(Field(ROLE + REQUIRED, [e.role.ToWire()])),
            FieldBytes(Field(MEMORY + REQUIRED, [e.memory.provider.ToWire()] + e.memory.bytes)),
            FieldBytes(Field(SIGNAL + REQUIRED, [e.signal.provider.ToWire()] + e.signal.bytes)),
            FieldBytes(Field(SECRET + REQUIRED, e.secret)));
  }

  lemma Grouped(h: seq<u8>, a: seq<u8>, b: seq<u8>, c: seq<u8>, d: seq<u8>, e: seq<u8>, f: seq<u8>, g: seq<u8>)
    ensures h + (a + (b + (c + (d + (e + (f + (g + []))))))) == h + a + b + c + d + e + f + g
  {
    assert h + (a + (b + (c + (d + (e + (f + (g + []))))))) == (h + a) + (b + (c + (d + (e + (f + (g + []))))));
    assert (h + a) + (b + (c + (d + (e + (f + (g + [])))))) == (h + a + b) + (c + (d + (e + (f + (g + [])))));
    assert (h + a + b) + (c + (d + (e + (f + (g + []))))) == (h + a + b + c) + (d + (e + (f + (g + []))));
    assert (h + a + b + c) + (d + (e + (f + (g + [])))) == (h + a + b + c + d) + (e + (f + (g + [])));
  }

  lemma OneField(e: Envelope, kind: u16)
    requires e.Valid() && Known(kind)
    ensures |ValueFor(e, kind)| < TWO32 && Sized(Canonical(e, kind)) && Sized(Canonical(e, kind + 1))
    ensures Body(Canonical(e, kind)) == FieldBytes(Field(kind + REQUIRED, ValueFor(e, kind))) + Body(Canonical(e, kind + 1))
  {
    hide Body, FieldBytes, ValueFor, Envelope.Valid;
    ValueLength(e, kind);
    CanonicalLength(e, kind);
    CanonicalLength(e, kind + 1);
    BodyHead(Field(kind + REQUIRED, ValueFor(e, kind)), Canonical(e, kind + 1));
  }

  lemma NoFields(e: Envelope)
    ensures Sized(Canonical(e, 8)) && Body(Canonical(e, 8)) == []
  {
  }

  /** Takes a bounded range and moves the cursor behind it. */
  method Take(input: seq<u8>, cursor: nat, length: nat) returns (r: Result<seq<u8>>, next: nat)
    requires cursor <= |input|
    ensures r == if cursor + length > |input| then Err(Truncated) else Ok(input[cursor..cursor + length])
    ensures next == if r.Ok? then cursor + length else cursor
  {
    next := cursor;
    if cursor + length > |input| {
      return Err(Truncated), next;
    }
    next := cursor + length;
    r := Ok(input[cursor..next]);
  }

  /** The decoded components among the values accepted so far. */
  datatype Found = Found(
    session: Option<seq<u8>>, generation: Option<u64>, protocols: Option<ProtocolRange>, role: Option<EndpointRole>,
    memory: Option<Descriptor>, signal: Option<Descriptor>, secret: Option<seq<u8>>)

  function ValueOf<T>(r: Result<T>): Option<T> {
    if r.Ok? then Some(r.value) else None
  }

  function FoundIn(values: Values): Found {
    Found(
      if SESSION in values then ValueOf(DecodeSession(values[SESSION])) else None,
      if GENERATION in values then ValueOf(DecodeGeneration(values[GENERATION])) else None,
      if PROTOCOLS in values then ValueOf(DecodeProtocols(values[PROTOCOLS])) else None,
      if ROLE in values then ValueOf(DecodeRole(values[ROLE])) else None,
      if MEMORY in values then ValueOf(DecodeDescriptor(values[MEMORY])) else None,
      if SIGNAL in values then ValueOf(DecodeDescriptor(values[SIGNAL])) else None,
      if SECRET in values then ValueOf(DecodeSecret(values[SECRET])) else None)
  }

  /** Storing the value of one more known field. */
  lemma FoundNext(values: Values, kind: u16, value: seq<u8>)
    requires Known(kind)
    ensures var before, after := FoundIn(values), FoundIn(values[kind := value]);
      match kind
      case 1 => after == before.(session := ValueOf(DecodeSession(value)))
      case 2 => after == before.(generation := ValueOf(DecodeGeneration(value)))
      case 3 => after == before.(protocols := ValueOf(DecodeProtocols(value)))
      case 4 => after == before.(role := ValueOf(DecodeRole(value)))
      case 5 => after == before.(memory := ValueOf(DecodeDescriptor(value)))
      case 6 => after == before.(signal := ValueOf(DecodeDescriptor(value)))
      case _ => after == before.(secret := ValueOf(DecodeSecret(value)))
  {
    hide DecodeSession, DecodeGeneration, DecodeProtocols, DecodeRole, DecodeDescriptor, DecodeSecret;
  }

  /** What the next field of an input does to a scan. */
  lemma ScanStep(input: seq<u8>, cursor: nat, values: Values)
    requires cursor < |input|
    ensures var bytes := input[cursor..];
      if cursor + FIELD_HEADER_LENGTH > |input| then Scan(bytes, values) == Err(Truncated)
      else
        var header := input[cursor..cursor + FIELD_HEADER_LENGTH];
        var start := cursor + FIELD_HEADER_LENGTH;
        var length := FromLe32(header[2..6]);
        if start + length > |input| then Scan(bytes, values) == Err(Truncated)
        else
          var absorbed := Absorb(FromLe16(header[..2]), input[start..start + length], values);
          Scan(bytes, values) == if absorbed.Err? then absorbed else Scan(input[start + length..], absorbed.value)
  {
    hide FromLe16, FromLe32, Absorb;
    var bytes := input[cursor..];
    if |bytes| >= FIELD_HEADER_LENGTH {
      var header := input[cursor..cursor + FIELD_HEADER_LENGTH];
      assert header == bytes[..FIELD_HEADER_LENGTH];
      assert bytes[..FIELD_HEADER_LENGTH][2..6] == bytes[2..6] && bytes[..FIELD_HEADER_LENGTH][..2] == bytes[..2];
      var length := FromLe32(header[2..6]);
      if FIELD_HEADER_LENGTH + length <= |bytes| {
        var start := cursor + FIELD_HEADER_LENGTH;
        assert bytes[6..6 + length] == input[start..start + length] && bytes[6 + length..] == input[start + length..];
      }
    }
  }

  /** Decodes an input field by field. */
  method Decode(input: seq<u8>) returns (r: Result<Envelope>)
    ensures r == DecodeView(input)
  {
    hide FromLe16, FromLe32, DecodeSession, DecodeGeneration, DecodeProtocols, DecodeRole, DecodeDescriptor, DecodeSecret;
    hide Scan, FoundIn, Assemble;
    if |input| > MAX_ENVELOPE_LENGTH {
      return Err(InvalidRange);
    }
    if |input| < HEADER_LENGTH {
      return Err(Truncated);
    }
    if input[..4] != MAGIC {
      return Err(InvalidMagic);
    }
    if FromLe16(input[4..6]) != SCHEMA_VERSION {
      return Err(LayoutVersionMismatch);
    }
    var cursor: nat := HEADER_LENGTH;
    var seen: set<u16> := {};
    ghost var values: Values := map[];
    var session: Option<seq<u8>>, generation: Option<u64>, protocols: Option<ProtocolRange> := None, None, None;
    var role: Option<EndpointRole>, memory: Option<Descriptor>, signal: Option<Descriptor> := None, None, None;
    var secret: Option<seq<u8>> := None;
    AtTheEnd(input, values);
    while cursor < |input|
      invariant HEADER_LENGTH <= cursor <= |input|
      invariant seen == values.Keys && AllAccepted(values)
      invariant Found(session, generation, protocols, role, memory, signal, secret) == FoundIn(values)
      invariant Scan(input[HEADER_LENGTH..], map[]) == Scan(input[cursor..], values)
    {
      ScanStep(input, cursor, values);
      var header;
      header, cursor := Take(input, cursor, FIELD_HEADER_LENGTH);
      if header.Err? {
        return Err(header.error);
      }
      var wireKind, length := FromLe16(header.value[..2]), FromLe32(header.value[2..6]);
      var kind := wireKind % REQUIRED;
      var value;
      value, cursor := Take(input, cursor, length);
      if value.Err? {
        return Err(value.error);
      }
      if !Known(kind) {
        if wireKind >= REQUIRED {
          return Err(UnknownRequiredFlag);
        }
        continue;
      }
      if kind in seen {
        return Err(ProtocolViolation);
      }
      seen := seen + {kind};
      FoundNext(values, kind, value.value);
      match kind {
        case 1 =>
          var decoded := DecodeSession(value.value);
          if decoded.Err? { return Err(decoded.error); }
          session := Some(decoded.value);
        case 2 =>
          var decoded := DecodeGeneration(value.value);
          if decoded.Err? { return Err(decoded.error); }
          generation := Some(decoded.value);
        case 3 =>
          var decoded := DecodeProtocols(value.value);
          if decoded.Err? { return Err(decoded.error); }
          protocols := Some(decoded.value);
        case 4 =>
          var decoded := DecodeRole(value.value);
          if decoded.Err? { return Err(decoded.error); }
          role := Some(decoded.value);
        case 5 =>
          var decoded := DecodeDescriptor(value.value);
          if decoded.Err? { return Err(decoded.error); }
          memory := Some(decoded.value);
        case 6 =>
          var decoded := DecodeDescriptor(value.value);
          if decoded.Err? { return Err(decoded.error); }
          signal := Some(decoded.value);
        case _ =>
          var decoded := DecodeSecret(value.value);
          if decoded.Err? { return Err(decoded.error); }
          secret := Some(decoded.value);
      }
      values := values[kind := value.value];
    }
    AtTheEnd(input, values);
    if seen != REQUIRED_FIELDS {
      return Err(Truncated);
    }
    AllFound(values);
    var e := Envelope(session.value, generation.value, protocols.value, role.value, memory.value, signal.value, secret.value);
    if e.Validate().Some? {
      return Err(e.Validate().value);
    }
    r := Ok(e);
  }

  lemma AtTheEnd(input: seq<u8>, values: Values)
    ensures Scan(input[|input|..], values) == Ok(values)
    ensures FoundIn(map[]) == Found(None, None, None, None, None, None, None)
  {
  }

  lemma AllFound(values: Values)
    requires values.Keys == REQUIRED_FIELDS && AllAccepted(values)
    ensures var found := FoundIn(values);
            && found.session.Some? && found.generation.Some? && found.protocols.Some? && found.role.Some?
            && found.memory.Some? && found.signal.Some? && found.secret.Some?
            && Assemble(values) == Envelope(found.session.value, found.generation.value, found.protocols.value,
                                            found.role.value, found.memory.value, found.signal.value, found.secret.value)
  {
    assert Refusal(SESSION, values[SESSION]) == None && Refusal(GENERATION, values[GENERATION]) == None;
    assert Refusal(PROTOCOLS, values[PROTOCOLS]) == None && Refusal(ROLE, values[ROLE]) == None;
    assert Refusal(MEMORY, values[MEMORY]) == None && Refusal(SIGNAL, values[SIGNAL]) == None;
    assert Refusal(SECRET, values[SECRET]) == None;
  }
}
