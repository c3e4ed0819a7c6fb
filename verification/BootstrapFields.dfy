/** Exactly which inputs decode to which envelope: a round trip, in any order of the fields. */
module BootstrapFields {
  import opened Wrappers
  import opened Words
  import opened Bootstrap

  datatype Field = Field(wireKind: u16, value: seq<u8>) {
    function Kind(): u16 {
      wireKind % REQUIRED
    }
  }

  predicate Sized(fields: seq<Field>) {
    forall i :: 0 <= i < |fields| ==> |fields[i].value| < TWO32
  }

  function FieldBytes(f: Field): (b: seq<u8>)
    requires |f.value| < TWO32
    ensures |b| == FIELD_HEADER_LENGTH + |f.value|
  {
    Le16(f.wireKind) + Le32(|f.value|) + f.value
  }

  /** Fields one after the other. */
  function Body(fields: seq<Field>): seq<u8>
    requires Sized(fields)
  {
    if fields == [] then [] else FieldBytes(fields[0]) + Body(fields[1..])
  }

  /** Absorbing fields one after the other. */
  function ScanFields(fields: seq<Field>, values: Values): Result<Values>
    decreases |fields|
  {
    if fields == [] then Ok(values)
    else
      var next :- Absorb(fields[0].wireKind, fields[0].value, values);
      ScanFields(fields[1..], next)
  }

  lemma FieldInFront(f: Field, rest: seq<u8>)
    requires |f.value| < TWO32
    ensures var bytes := FieldBytes(f) + rest;
            && FromLe16(bytes[..2]) == f.wireKind && FromLe32(bytes[2..6]) == |f.value|
            && bytes[6..6 + |f.value|] == f.value && bytes[6 + |f.value|..] == rest
  {
    var bytes := FieldBytes(f) + rest;
    assert bytes[..2] == Le16(f.wireKind) && bytes[2..6] == Le32(|f.value|);
    Le16RoundTrip(f.wireKind);
    Le32RoundTrip(|f.value|);
  }

  /** Scanning the bytes of fields is absorbing the fields. */
  lemma {:induction false} ScanIsFieldwise(fields: seq<Field>, values: Values)
    requires Sized(fields)
    ensures Scan(Body(fields), values) == ScanFields(fields, values)
    decreases |fields|
  {
    hide FromLe16, FromLe32, FieldBytes, Absorb;
    if fields != [] {
      var f := fields[0];
      FieldInFront(f, Body(fields[1..]));
      if Absorb(f.wireKind, f.value, values).Ok? {
        ScanIsFieldwise(fields[1..], Absorb(f.wireKind, f.value, values).value);
      }
    }
  }

  /** Scanning absorbs the fields in front before it looks at what is behind them. */
  lemma {:induction false} ScanPrefix(fields: seq<Field>, rest: seq<u8>, values: Values)
    requires Sized(fields)
    ensures Scan(Body(fields) + rest, values) ==
      if ScanFields(fields, values).Err? then ScanFields(fields, values)
      else Scan(rest, ScanFields(fields, values).value)
    decreases |fields|
  {
    hide FromLe16, FromLe32, FieldBytes, Absorb;
    if fields == [] {
      assert [] + rest == rest;
    } else {
      var f := fields[0];
      var behind := Body(fields[1..]) + rest;
      assert Body(fields) + rest == FieldBytes(f) + behind;
      FieldInFront(f, behind);
      if Absorb(f.wireKind, f.value, values).Ok? {
        ScanPrefix(fields[1..], rest, Absorb(f.wireKind, f.value, values).value);
      }
    }
  }

  /** Bytes that scan are the bytes of some fields. */
  lemma {:induction false} SplitIntoFields(bytes: seq<u8>, values: Values) returns (fields: seq<Field>)
    requires Scan(bytes, values).Ok?
    ensures Sized(fields) && Body(fields) == bytes
    decreases |bytes|
  {
    hide FromLe16, FromLe32, Le16, Le32, Absorb;
    if bytes == [] {
      fields := [];
    } else {
      var wireKind, length := FromLe16(bytes[..2]), FromLe32(bytes[2..6]);
      var value, rest := bytes[6..6 + length], bytes[6 + length..];
      var more := SplitIntoFields(rest, Absorb(wireKind, value, values).value);
      var f := Field(wireKind, value);
      fields := [f] + more;
      Le16Unique(bytes[..2]);
      Le32Unique(bytes[2..6]);
      assert fields[1..] == more;
      assert FieldBytes(f) + rest == bytes;
    }
  }

  /** The values of all fields of a known kind, in order. */
  function ValuesOf(fields: seq<Field>, kind: u16): seq<seq<u8>> {
    if fields == [] then []
    else (if fields[0].Kind() == kind then [fields[0].value] else []) + ValuesOf(fields[1..], kind)
  }

  /** No unknown required field, and no known field with an invalid value. */
  predicate Acceptable(fields: seq<Field>) {
    forall i :: 0 <= i < |fields| ==>
      if Known(fields[i].Kind()) then Refusal(fields[i].Kind(), fields[i].value) == None
      else fields[i].wireKind < REQUIRED
  }

  function Held(values: Values, kind: u16): nat {
    if kind in values then 1 else 0
  }

  /** What fields contribute to the values already held. */
  predicate Extends(fields: seq<Field>, values: Values, all: Values) {
    forall k :: Known(k) ==>
      && (k in all <==> k in values || ValuesOf(fields, k) != [])
      && (k in values ==> all[k] == values[k])
      && (k !in values && ValuesOf(fields, k) != [] ==> all[k] == ValuesOf(fields, k)[0])
  }

  /** No known kind comes twice, counting the values already held. */
  predicate NoRepeats(fields: seq<Field>, values: Values) {
    forall k :: Known(k) ==> |ValuesOf(fields, k)| + Held(values, k) <= 1
  }

  lemma ValuesOfHead(f: Field, rest: seq<Field>)
    ensures forall k :: ValuesOf([f] + rest, k) == if f.Kind() == k then [f.value] + ValuesOf(rest, k) else ValuesOf(rest, k)
    ensures Acceptable([f] + rest) <==> Acceptable([f]) && Acceptable(rest)
  {
    hide Refusal;
    assert ([f] + rest)[1..] == rest;
    assert forall k :: [] + ValuesOf(rest, k) == ValuesOf(rest, k);
    if Acceptable([f] + rest) {
      assert forall i :: 0 <= i < |rest| ==> rest[i] == ([f] + rest)[i + 1];
      assert ([f] + rest)[0] == [f][0];
    }
  }

  /** Fields are absorbed exactly when they are acceptable and no known kind comes twice. */
  lemma {:induction false} ScanFieldsExactly(fields: seq<Field>, values: Values)
    ensures var r := ScanFields(fields, values);
            && (r.Ok? <==> Acceptable(fields) && NoRepeats(fields, values))
            && (r.Ok? ==> Extends(fields, values, r.value))
    decreases |fields|
  {
    hide Refusal, ValuesOf;
    if fields == [] {
      NoValues();
    } else {
      var f, rest := fields[0], fields[1..];
      assert fields == [f] + rest;
      ValuesOfHead(f, rest);
      var absorbed := Absorb(f.wireKind, f.value, values);
      if absorbed.Ok? {
        ScanFieldsExactly(rest, absorbed.value);
        assert Acceptable([f]);
      }
    }
  }

  lemma NoValues()
    ensures forall k :: ValuesOf([], k) == []
  {
  }

  /** The value that carries one component. */
  function ValueFor(e: Envelope, kind: u16): seq<u8> {
    match kind
    case 1 => e.session
    case 2 => Le64(e.generation)
    case 3 => Le16(e.protocols.minimum) + Le16(e.protocols.maximum)
    case 4 => [e.role.ToWire()]
    case 5 => [e.memory.provider.ToWire()] + e.memory.bytes
    case 6 => [e.signal.provider.ToWire()] + e.signal.bytes
    case _ => e.secret
  }

  /** A sequence of fields that carries an envelope: each component once, in any order and with or
      without the required bit, between any optional fields of unknown kinds. */
  predicate Carries(fields: seq<Field>, e: Envelope) {
    && (forall i :: 0 <= i < |fields| && !Known(fields[i].Kind()) ==> fields[i].wireKind < REQUIRED)
    && (forall k :: Known(k) ==> ValuesOf(fields, k) == [ValueFor(e, k)])
  }

  function Header(): (h: seq<u8>)
    ensures |h| == HEADER_LENGTH
  {
    MAGIC + Le16(SCHEMA_VERSION)
  }

  /** The values that stand for an envelope. */
  predicate StandsFor(values: Values, e: Envelope) {
    values.Keys == REQUIRED_FIELDS && forall k :: Known(k) ==> k in values && values[k] == ValueFor(e, k)
  }

  lemma ComponentsDecode(e: Envelope)
    requires e.Valid()
    ensures DecodeSession(e.session) == Ok(e.session)
    ensures DecodeGeneration(ValueFor(e, GENERATION)) == Ok(e.generation)
    ensures DecodeProtocols(ValueFor(e, PROTOCOLS)) == Ok(e.protocols)
    ensures DecodeRole(ValueFor(e, ROLE)) == Ok(e.role)
    ensures DecodeDescriptor(ValueFor(e, MEMORY)) == Ok(e.memory)
    ensures DecodeDescriptor(ValueFor(e, SIGNAL)) == Ok(e.signal)
    ensures DecodeSecret(e.secret) == Ok(e.secret)
    ensures forall k :: Known(k) ==> Refusal(k, ValueFor(e, k)) == None
  {
    hide Le16, Le64, FromLe16, FromLe64;
    Le64RoundTrip(e.generation);
    Le16RoundTrip(e.protocols.minimum);
    Le16RoundTrip(e.protocols.maximum);
    var protocols := ValueFor(e, PROTOCOLS);
    assert protocols[..2] == Le16(e.protocols.minimum) && protocols[2..] == Le16(e.protocols.maximum);
    assert ValueFor(e, MEMORY)[1..] == e.memory.bytes && ValueFor(e, SIGNAL)[1..] == e.signal.bytes;
  }

  /** Values that stand for a valid envelope are accepted and assemble to it. */
  lemma AssembleStands(values: Values, e: Envelope)
    requires e.Valid() && StandsFor(values, e)
    ensures AllAccepted(values) && Assemble(values) == e
  {
    hide Refusal, DecodeSession, DecodeGeneration, DecodeProtocols, DecodeRole, DecodeDescriptor, DecodeSecret;
    ComponentsDecode(e);
    assert forall k :: k in values ==> Known(k);
  }

  /** Accepted values stand for the envelope they assemble to. */
  lemma StandsAssembled(values: Values)
    requires values.Keys == REQUIRED_FIELDS && AllAccepted(values)
    requires Assemble(values).Validate() == None
    ensures Assemble(values).Valid() && StandsFor(values, Assemble(values))
  {
    assert Refusal(SESSION, values[SESSION]) == None && Refusal(GENERATION, values[GENERATION]) == None;
    assert Refusal(PROTOCOLS, values[PROTOCOLS]) == None && Refusal(ROLE, values[ROLE]) == None;
    assert Refusal(MEMORY, values[MEMORY]) == None && Refusal(SIGNAL, values[SIGNAL]) == None;
    assert Refusal(SECRET, values[SECRET]) == None;
    GenerationBytes(values[GENERATION]);
    ProtocolBytes(values[PROTOCOLS]);
    DescriptorBytes(values[MEMORY]);
    DescriptorBytes(values[SIGNAL]);
  }

  lemma GenerationBytes(v: seq<u8>)
    requires DecodeGeneration(v).Ok?
    ensures Le64(DecodeGeneration(v).value) == v
  {
    Le64Unique(v);
  }

  lemma ProtocolBytes(v: seq<u8>)
    requires DecodeProtocols(v).Ok?
    ensures Le16(DecodeProtocols(v).value.minimum) + Le16(DecodeProtocols(v).value.maximum) == v
  {
    Le16Unique(v[..2]);
    Le16Unique(v[2..]);
    assert v == v[..2] + v[2..];
  }

  lemma DescriptorBytes(v: seq<u8>)
    requires DecodeDescriptor(v).Ok?
    ensures [DecodeDescriptor(v).value.provider.ToWire()] + DecodeDescriptor(v).value.bytes == v
  {
    assert v == [v[0]] + v[1..];
  }

  lemma HeaderInFront(body: seq<u8>)
    ensures var input := Header() + body;
            && input[..4] == MAGIC && FromLe16(input[4..6]) == SCHEMA_VERSION && input[HEADER_LENGTH..] == body
  {
    var input := Header() + body;
    assert input[4..6] == Le16(SCHEMA_VERSION);
    Le16RoundTrip(SCHEMA_VERSION);
  }

  /** Whatever carries a valid envelope within the length limit decodes to it. */
  lemma CarriedDecodes(fields: seq<Field>, e: Envelope)
    requires e.Valid() && Sized(fields) && Carries(fields, e)
    requires HEADER_LENGTH + |Body(fields)| <= MAX_ENVELOPE_LENGTH
    ensures DecodeView(Header() + Body(fields)) == Ok(e)
  {
    hide Refusal, Scan, ScanFields, Body, Envelope.Valid, ValueFor;
    HeaderInFront(Body(fields));
    ScanIsFieldwise(fields, map[]);
    CarriedIsAcceptable(fields, e);
    ScanFieldsExactly(fields, map[]);
    ScanAccepts(Body(fields), map[]);
    var values := Scan(Body(fields), map[]).value;
    assert forall k :: Known(k) ==> k in values && values[k] == ValueFor(e, k);
    KnownKeys(values);
    AssembleStands(values, e);
    ValidValidates(e);
  }

  /** Which providers an envelope may name: memory is mapped by three of them, and two of those cannot
      signal. */
  lemma ProvidersFit(e: Envelope)
    ensures e.Validate() == None <==>
      && e.memory.provider in {ProcessTest, IoSurface, MachMemory}
      && e.signal.provider in {ProcessTest, DarwinNotify, Poll, Hybrid, MachPort}
  {
  }

  lemma ValidValidates(e: Envelope)
    requires e.Valid()
    ensures e.Validate() == None
  {
  }

  lemma KnownKeys(values: Values)
    requires AllAccepted(values) && forall k :: Known(k) ==> k in values
    ensures values.Keys == REQUIRED_FIELDS
  {
    assert forall k :: k in REQUIRED_FIELDS ==> Known(k);
  }

  lemma CarriedIsAcceptable(fields: seq<Field>, e: Envelope)
    requires e.Valid() && Carries(fields, e)
    ensures Acceptable(fields)
  {
    hide Refusal, ValueFor, Envelope.Valid;
    ComponentsDecode(e);
    forall i | 0 <= i < |fields| && Known(fields[i].Kind())
      ensures fields[i].value == ValueFor(e, fields[i].Kind())
    {
      ValueListed(fields, i);
    }
  }

  lemma {:induction false} ValueListed(fields: seq<Field>, i: nat)
    requires i < |fields|
    ensures fields[i].value in ValuesOf(fields, fields[i].Kind())
  {
    if i > 0 {
      ValueListed(fields[1..], i - 1);
    }
  }

  /** The first field that cannot be taken decides the error, whatever stands behind it: an unknown field
      that is required, a component that came before, or an invalid value. */
  lemma FirstBadFieldDecides(fields: seq<Field>, bad: Field, rest: seq<u8>)
    requires Sized(fields) && Acceptable(fields) && NoRepeats(fields, map[]) && |bad.value| < TWO32
    requires HEADER_LENGTH + |Body(fields) + (FieldBytes(bad) + rest)| <= MAX_ENVELOPE_LENGTH
    ensures var answer := DecodeView(Header() + (Body(fields) + (FieldBytes(bad) + rest)));
            && (!Known(bad.Kind()) && bad.wireKind >= REQUIRED ==> answer == Err(UnknownRequiredFlag))
            && (Known(bad.Kind()) && ValuesOf(fields, bad.Kind()) != [] ==> answer == Err(ProtocolViolation))
            && (Known(bad.Kind()) && ValuesOf(fields, bad.Kind()) == [] && Refusal(bad.Kind(), bad.value).Some? ==>
              answer == Err(Refusal(bad.Kind(), bad.value).value))
  {
    hide Refusal, Scan, ScanFields, Body, ValuesOf, FieldBytes, Acceptable, NoRepeats;
    var behind := FieldBytes(bad) + rest;
    HeaderInFront(Body(fields) + behind);
    ScanPrefix(fields, behind, map[]);
    ScanFieldsExactly(fields, map[]);
    var values := ScanFields(fields, map[]).value;
    if Absorb(bad.wireKind, bad.value, values).Err? {
      BadField(bad, rest, values);
    }
  }

  lemma BadField(bad: Field, rest: seq<u8>, values: Values)
    requires |bad.value| < TWO32 && Absorb(bad.wireKind, bad.value, values).Err?
    ensures Scan(FieldBytes(bad) + rest, values) == Err(Absorb(bad.wireKind, bad.value, values).error)
  {
    hide FromLe16, FromLe32, FieldBytes, Absorb;
    FieldInFront(bad, rest);
  }

  /** Fields that could all be taken but leave a component out are refused as truncated. */
  lemma MissingIsTruncated(fields: seq<Field>, kind: u16)
    requires Sized(fields) && Acceptable(fields) && NoRepeats(fields, map[])
    requires HEADER_LENGTH + |Body(fields)| <= MAX_ENVELOPE_LENGTH
    requires Known(kind) && ValuesOf(fields, kind) == []
    ensures DecodeView(Header() + Body(fields)) == Err(Truncated)
  {
    hide Refusal, Scan, ScanFields, Body, ValuesOf, Acceptable, NoRepeats;
    HeaderInFront(Body(fields));
    ScanIsFieldwise(fields, map[]);
    ScanFieldsExactly(fields, map[]);
    assert kind in REQUIRED_FIELDS;
  }

  /** Every accepted input carries the envelope it decodes to. */
  lemma DecodedIsCarried(input: seq<u8>, e: Envelope) returns (fields: seq<Field>)
    requires DecodeView(input) == Ok(e)
    ensures e.Valid() && |input| <= MAX_ENVELOPE_LENGTH
    ensures Sized(fields) && input == Header() + Body(fields) && Carries(fields, e)
  {
    hide Refusal, Scan, ScanFields, Body, Envelope.Valid, ValueFor, Assemble, FromLe16, Le16;
    var body := input[HEADER_LENGTH..];
    fields := SplitIntoFields(body, map[]);
    Le16Unique(input[4..6]);
    assert input == input[..4] + input[4..6] + body;
    ScanIsFieldwise(fields, map[]);
    ScanFieldsExactly(fields, map[]);
    ScanAccepts(body, map[]);
    var values := Scan(body, map[]).value;
    StandsAssembled(values);
    forall k | Known(k)
      ensures ValuesOf(fields, k) == [ValueFor(e, k)]
    {
      assert k in values;
    }
  }

  /** The fields in the order in which they are encoded, from one kind on. */
  function Canonical(e: Envelope, kind: u16): (fields: seq<Field>)
    requires 1 <= kind <= 8
    ensures |fields| == 8 - kind
    decreases 8 - kind
  {
    if kind == 8 then [] else [Field(kind + REQUIRED, ValueFor(e, kind))] + Canonical(e, kind + 1)
  }

  lemma RequiredKind(kind: u16, value: seq<u8>)
    requires kind < 8
    ensures Field(kind + REQUIRED, value).Kind() == kind
  {
  }

  lemma ValuesOfFirst(f: Field, rest: seq<Field>, k: u16)
    ensures ValuesOf([f] + rest, k) == (if f.Kind() == k then [f.value] else []) + ValuesOf(rest, k)
  {
    hide Field.Kind;
    assert ([f] + rest)[1..] == rest;
  }

  lemma {:induction false} CanonicalValues(e: Envelope, kind: u16, k: u16)
    requires 1 <= kind <= 8 && Known(k)
    ensures ValuesOf(Canonical(e, kind), k) == if kind <= k then [ValueFor(e, k)] else []
    decreases 8 - kind
  {
    hide ValueFor, ValuesOf, Field.Kind;
    if kind < 8 {
      CanonicalValues(e, kind + 1, k);
      RequiredKind(kind, ValueFor(e, kind));
      ValuesOfFirst(Field(kind + REQUIRED, ValueFor(e, kind)), Canonical(e, kind + 1), k);
    } else {
      NoValues();
    }
  }

  lemma {:induction false} CanonicalKinds(e: Envelope, kind: u16)
    requires 1 <= kind <= 8
    ensures forall i :: 0 <= i < 8 - kind ==> Known(Canonical(e, kind)[i].Kind())
    decreases 8 - kind
  {
    hide ValueFor;
    if kind < 8 {
      CanonicalKinds(e, kind + 1);
    }
  }

  lemma CanonicalCarries(e: Envelope)
    ensures Carries(Canonical(e, 1), e)
  {
    hide ValueFor, ValuesOf, Canonical;
    forall k | Known(k)
      ensures ValuesOf(Canonical(e, 1), k) == [ValueFor(e, k)]
    {
      CanonicalValues(e, 1, k);
    }
    CanonicalKinds(e, 1);
  }

  /** The longest value of a kind. */
  function LongestValue(kind: u16): nat {
    if kind == MEMORY || kind == SIGNAL then 1 + MAX_DESCRIPTOR_LENGTH else MAX_SECRET_LENGTH
  }

  function LongestBody(kind: u16): nat
    requires 1 <= kind <= 8
    decreases 8 - kind
  {
    if kind == 8 then 0 else FIELD_HEADER_LENGTH + LongestValue(kind) + LongestBody(kind + 1)
  }

  lemma ValueLength(e: Envelope, kind: u16)
    requires e.Valid() && Known(kind)
    ensures |ValueFor(e, kind)| <= LongestValue(kind)
  {
  }

  lemma {:induction false} CanonicalLength(e: Envelope, kind: u16)
    requires e.Valid() && 1 <= kind <= 8
    ensures Sized(Canonical(e, kind)) && |Body(Canonical(e, kind))| <= LongestBody(kind)
    decreases 8 - kind
  {
    hide FieldBytes, ValueFor, Envelope.Valid;
    if kind < 8 {
      ValueLength(e, kind);
      CanonicalLength(e, kind + 1);
      BodyHead(Field(kind + REQUIRED, ValueFor(e, kind)), Canonical(e, kind + 1));
    }
  }

  lemma BodyHead(f: Field, rest: seq<Field>)
    requires |f.value| < TWO32 && Sized(rest)
    ensures Sized([f] + rest) && Body([f] + rest) == FieldBytes(f) + Body(rest)
  {
    assert ([f] + rest)[1..] == rest;
  }

  /** The canonical form of every valid envelope is far below the length limit. */
  lemma CanonicalFits(e: Envelope)
    requires e.Valid()
    ensures Sized(Canonical(e, 1)) && HEADER_LENGTH + |Body(Canonical(e, 1))| <= 8562 <= MAX_ENVELOPE_LENGTH
  {
    CanonicalLength(e, 1);
    assert LongestBody(5) == 2 * (FIELD_HEADER_LENGTH + 1 + MAX_DESCRIPTOR_LENGTH) + FIELD_HEADER_LENGTH + MAX_SECRET_LENGTH by {
      assert LongestBody(7) == FIELD_HEADER_LENGTH + MAX_SECRET_LENGTH;
    }
    assert LongestBody(3) == 2 * (FIELD_HEADER_LENGTH + MAX_SECRET_LENGTH) + LongestBody(5);
    assert LongestBody(1) == 2 * (FIELD_HEADER_LENGTH + MAX_SECRET_LENGTH) + LongestBody(3);
  }

  /** The canonical wire form. */
  function Wire(e: Envelope): (b: seq<u8>)
    requires e.Valid()
    ensures |b| <= MAX_ENVELOPE_LENGTH
  {
    CanonicalFits(e);
    Header() + Body(Canonical(e, 1))
  }

  /** Encoding, then decoding, gives the envelope back. */
  lemma RoundTrip(e: Envelope)
    requires e.Valid()
    ensures DecodeView(Wire(e)) == Ok(e)
  {
    hide Body, Canonical, DecodeView, Carries;
    CanonicalFits(e);
    CanonicalCarries(e);
    CarriedDecodes(Canonical(e, 1), e);
  }

  /** The order of the fields does not matter. */
  lemma AnyOrderCarries(a: seq<Field>, b: seq<Field>, e: Envelope)
    requires multiset(a) == multiset(b) && Carries(a, e)
    ensures Carries(b, e)
  {
    hide ValuesOf, ValueFor;
    forall i | 0 <= i < |b| && !Known(b[i].Kind())
      ensures b[i].wireKind < REQUIRED
    {
      assert b[i] in multiset(a);
    }
    forall k | Known(k)
      ensures ValuesOf(b, k) == [ValueFor(e, k)]
    {
      PermutedValues(a, b, k);
      var v := ValueFor(e, k);
      assert |multiset(ValuesOf(b, k))| == 1;
      assert ValuesOf(b, k)[0] in multiset{v};
    }
  }

  lemma HeadElsewhere(a: seq<Field>, b: seq<Field>) returns (front: seq<Field>, back: seq<Field>)
    requires multiset(a) == multiset(b) && a != []
    ensures b == front + ([a[0]] + back) && multiset(a[1..]) == multiset(front + back)
  {
    assert a == [a[0]] + a[1..] && a[0] in multiset(b);
    var j :| 0 <= j < |b| && b[j] == a[0];
    front, back := b[..j], b[j + 1..];
    assert b == front + ([a[0]] + back);
    assert multiset(a) == multiset{a[0]} + multiset(a[1..]);
    assert multiset(b) == multiset(front) + (multiset{a[0]} + multiset(back));
    Cancel(multiset(a[1..]), multiset(front) + multiset(back), multiset{a[0]});
  }

  lemma Cancel(x: multiset<Field>, y: multiset<Field>, z: multiset<Field>)
    requires z + x == z + y
    ensures x == y
  {
    forall f
      ensures x[f] == y[f]
    {
      assert (z + x)[f] == (z + y)[f];
    }
  }

  lemma {:induction false} PermutedValues(a: seq<Field>, b: seq<Field>, k: u16)
    requires multiset(a) == multiset(b)
    ensures multiset(ValuesOf(a, k)) == multiset(ValuesOf(b, k))
    decreases |a|
  {
    hide ValuesOf;
    if a == [] {
      assert |multiset(b)| == 0;
    } else {
      var front, back := HeadElsewhere(a, b);
      var f, rest := a[0], a[1..];
      assert a == [f] + rest;
      PermutedValues(rest, front + back, k);
      ValuesAppend([f], rest, k);
      ValuesAppend(front, [f] + back, k);
      ValuesAppend([f], back, k);
      ValuesAppend(front, back, k);
    }
  }

  lemma {:induction false} ValuesAppend(a: seq<Field>, b: seq<Field>, k: u16)
    ensures ValuesOf(a + b, k) == ValuesOf(a, k) + ValuesOf(b, k)
  {
    if a == [] {
      assert a + b == b;
    } else {
      assert (a + b)[1..] == a[1..] + b;
      ValuesAppend(a[1..], b, k);
    }
  }

  /** Fields in any order decode to the same envelope, or to none. */
  lemma OrderIndependent(a: seq<Field>, b: seq<Field>, e: Envelope)
    requires Sized(a) && Sized(b) && multiset(a) == multiset(b)
    requires DecodeView(Header() + Body(a)) == Ok(e)
    ensures DecodeView(Header() + Body(b)) == Ok(e)
  {
    hide DecodeView, Body, Carries, Header;
    var fields := DecodedIsCarried(Header() + Body(a), e);
    assert (Header() + Body(a))[HEADER_LENGTH..] == Body(a) && (Header() + Body(fields))[HEADER_LENGTH..] == Body(fields);
    UniqueFields(a, fields);
    PermutedLength(a, b);
    AnyOrderCarries(a, b, e);
    CarriedDecodes(b, e);
  }

  /** A body is made of one sequence of fields only. */
  lemma {:induction false} UniqueFields(a: seq<Field>, b: seq<Field>)
    requires Sized(a) && Sized(b) && Body(a) == Body(b)
    ensures a == b
    decreases |a|
  {
    hide FromLe16, FromLe32, FieldBytes;
    if a != [] && b != [] {
      FieldInFront(a[0], Body(a[1..]));
      FieldInFront(b[0], Body(b[1..]));
      UniqueFields(a[1..], b[1..]);
      assert a == [a[0]] + a[1..] && b == [b[0]] + b[1..];
    }
  }

  lemma {:induction false} PermutedLength(a: seq<Field>, b: seq<Field>)
    requires Sized(a) && Sized(b) && multiset(a) == multiset(b)
    ensures |Body(a)| == |Body(b)|
    decreases |a|
  {
    hide FieldBytes;
    if a == [] {
      assert |multiset(b)| == 0;
    } else {
      var front, back := HeadElsewhere(a, b);
      var f, rest := a[0], a[1..];
      assert a == [f] + rest;
      SizedParts(front, f, back);
      PermutedLength(rest, front + back);
      BodyAppend(front, [f] + back);
      BodyAppend(front, back);
      BodyHead(f, back);
    }
  }

  lemma SizedParts(front: seq<Field>, f: Field, back: seq<Field>)
    requires Sized(front + ([f] + back))
    ensures Sized(front) && Sized(back) && Sized([f] + back) && Sized(front + back)
  {
    var all := front + ([f] + back);
    assert forall i :: 0 <= i < |front| ==> front[i] == all[i];
    assert forall i :: 0 <= i < |back| ==> back[i] == all[|front| + 1 + i];
    assert all[|front|] == f;
  }

  lemma {:induction false} BodyAppend(a: seq<Field>, b: seq<Field>)
    requires Sized(a) && Sized(b)
    ensures Sized(a + b) && Body(a + b) == Body(a) + Body(b)
  {
    hide FieldBytes;
    if a == [] {
      assert a + b == b;
    } else {
      assert (a + b)[1..] == a[1..] + b;
      BodyAppend(a[1..], b);
    }
  }
}
