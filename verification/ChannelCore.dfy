/** One side of a bidirectional channel over two opposite rings (crates/data-plane/nwipc-channel-core). */
module ChannelCore {
  import opened Wrappers
  import opened Words
  import opened Record
  import opened Layout
  import opened RingMemory
  import opened BatchPlan
  import opened Fragmentation
  import opened Reassembly
  import opened Delivery
  import Progress
  import Writer = RingWriter
  import Reader = RingReader
  import Flow = FlowControl

  datatype ChannelConfig = ChannelConfig(
    capacity: u32, maximumInline: u32, maximumMessage: u32, lowWatermark: u32, highWatermark: u32)
  {
    /** A largest message must fit an empty ring: with wrap padding when fragmentation is on, by its
        record bytes alone when it is off. */
    function ValidateCapacity(f: Fragmenter): Option<ErrorCode>
      requires f.Valid()
    {
      var wire := f.MaximumWireBytes();
      var worst := if maximumMessage > maximumInline then f.MaximumBatchBytes() else wire;
      if wire.Err? then Some(wire.error)
      else if worst.Err? then Some(worst.error)
      else if worst.value > capacity then Some(InvalidRange)
      else None
    }
  }

  datatype ChannelSend = ChannelSend(bufferedAmount: u32, notify: bool)

  class ChannelEndpoint {
    const writer: Writer.RingWriter
    const reader: Reader.RingReader
    const flow: Flow.FlowControl
    const fragmenter: Fragmenter
    const reassembler: Reassembler
    const fragmentationEnabled: bool
    var localClosed: bool
    var remoteClosed: bool

    ghost predicate Valid()
      reads this, writer, writer.ring, writer.ring.bytes, reader, reader.ring, reader.ring.bytes, flow, reassembler
    {
      && writer.Valid() && reader.Valid() && flow.Valid()
      && writer.ring != reader.ring && writer.ring.bytes != reader.ring.bytes
      && flow.capacity == writer.ring.capacity
      && fragmenter.Valid() && reassembler.limits == fragmenter
      && fragmentationEnabled == Enabled(fragmenter)
      && writer.maximumInline == Clamped(fragmenter.maximumInline)
    }

    /** Rings from whose state an endpoint that counts from zero can go on, as it can from new ones. */
    static ghost predicate Joins(outbound: SharedRing, inbound: SharedRing, maximumInline: u32)
      reads outbound, outbound.bytes, inbound, inbound.bytes
    {
      && outbound.Valid() && inbound.Valid() && outbound != inbound && outbound.bytes != inbound.bytes
      && Clamped(maximumInline) <= outbound.limit && Wrap(outbound.taken + |Records(outbound.items)|) == 0
      && maximumInline == inbound.limit && Wrap(inbound.taken) == 0
    }

    /** Builds an endpoint from opposite ring halves, or says what is wrong with the configuration. The
        state of the rings is not looked at. */
    static method FromMemories(outbound: SharedRing, inbound: SharedRing, config: ChannelConfig)
        returns (r: Result<ChannelEndpoint>)
      ensures r.Ok? <==>
        && 0 < config.maximumInline <= config.maximumMessage
        && config.ValidateCapacity(Fragmenter(config.maximumInline, config.maximumMessage)) == None
        && outbound.capacity == inbound.capacity == config.capacity
        && config.lowWatermark < config.highWatermark <= config.capacity
      ensures r.Err? ==> r.error == InvalidRange
      ensures r.Ok? ==>
        && fresh(r.value) && (r.value.Valid() <==> Joins(outbound, inbound, config.maximumInline))
        && r.value.writer.ring == outbound && r.value.reader.ring == inbound
        && !r.value.localClosed && !r.value.remoteClosed && r.value.reassembler.partial == None
    {
      var fragmenter := Fragmenter.New(config.maximumInline, config.maximumMessage);
      if fragmenter.Err? {
        return Err(fragmenter.error);
      }
      var invalid := config.ValidateCapacity(fragmenter.value);
      if invalid.Some? {
        return Err(invalid.value);
      }
      if outbound.capacity != config.capacity || inbound.capacity != config.capacity {
        return Err(InvalidRange);
      }
      if config.capacity == 0 || config.lowWatermark >= config.highWatermark || config.highWatermark > config.capacity {
        return Err(InvalidRange);
      }
      var endpoint := new ChannelEndpoint(outbound, inbound, config);
      r := Ok(endpoint);
    }

    constructor (outbound: SharedRing, inbound: SharedRing, config: ChannelConfig)
      requires 0 < config.maximumInline <= config.maximumMessage
      requires outbound.capacity == config.capacity
      requires config.lowWatermark < config.highWatermark <= config.capacity
      ensures Valid() <==> Joins(outbound, inbound, config.maximumInline)
      ensures writer.ring == outbound && reader.ring == inbound
      ensures !localClosed && !remoteClosed && reassembler.partial == None
    {
      writer := new Writer.RingWriter(outbound, config.maximumInline);
      reader := new Reader.RingReader(inbound, config.maximumInline);
      flow := new Flow.FlowControl(config.capacity, config.lowWatermark, config.highWatermark);
      fragmenter := Fragmenter(config.maximumInline, config.maximumMessage);
      reassembler := new Reassembler(Fragmenter(config.maximumInline, config.maximumMessage));
      fragmentationEnabled := config.maximumMessage > config.maximumInline;
      localClosed, remoteClosed := false, false;
    }

    /** Re-observes the occupancy of the outbound ring. */
    method RefreshFlow() returns (r: Result<Flow.FlowUpdate>)
      requires Valid()
      modifies flow
      ensures flow.backpressured
        == Flow.Throttled(flow.low, flow.high, old(flow.backpressured), writer.ring.published - writer.ring.consumed)
      ensures flow.buffered == writer.ring.published - writer.ring.consumed
      ensures r == Ok(Flow.FlowUpdate(
                        writer.ring.published - writer.ring.consumed, flow.backpressured,
                        old(flow.backpressured) && !flow.backpressured))
    {
      CommittedFacts(writer.ring.bytes[..], writer.ring.capacity, writer.ring.consumed, writer.ring.published,
                     writer.ring.items, writer.ring.taken, writer.ring.limit);
      var buffered := writer.BufferedAmount();
      r := flow.Update(buffered.value);
    }

    /** The conditions under which `Send` accepts a message. */
    ghost predicate Sends(payload: seq<u8>)
      requires Valid()
      reads this, writer, writer.ring, writer.ring.bytes, reader, reader.ring, reader.ring.bytes, flow, reassembler
    {
      && !localClosed && !remoteClosed
      && !Flow.Throttled(flow.low, flow.high, flow.backpressured, writer.ring.published - writer.ring.consumed)
      && fragmenter.Fragments(payload).Ok?
      && writer.Accepts(Data, fragmenter.Fragments(payload).value)
    }

    /** Sends one message: either nothing joins the ring, or exactly the batch that announces it. */
    method Send(payload: seq<u8>) returns (r: Result<ChannelSend>)
      requires Valid() && writer.ring.Seamless()
      modifies flow, writer`nextMessageId, writer`nextSequence,
               writer.ring`producer, writer.ring`published, writer.ring`items, writer.ring.bytes
      ensures Valid()
      ensures r.Ok? <==> old(Sends(payload))
      ensures r.Err? ==> unchanged(writer) && unchanged(writer.ring) && writer.ring.bytes[..] == old(writer.ring.bytes[..])
      ensures localClosed || remoteClosed ==> r == Err(ErrorCode.Closed) && unchanged(flow)
      ensures !localClosed && !remoteClosed ==>
        var throttled := old(Flow.Throttled(flow.low, flow.high, flow.backpressured, writer.ring.published - writer.ring.consumed));
        && (throttled ==> r == Err(Backpressured) && flow.backpressured)
        && (!throttled && |payload| > fragmenter.maximumMessage ==> r == Err(MessageTooLarge))
        && (r.Err? && fragmenter.Fragments(payload).Ok?
            && AllSendable(fragmenter.Fragments(payload).value, writer.ring.capacity, writer.maximumInline)
            ==> r.error == Backpressured)
      ensures r.Ok? ==>
        && r.value == ChannelSend(writer.ring.published - writer.ring.consumed, old(writer.ring.published) == writer.ring.consumed)
        && writer.nextMessageId == Writer.NextMessageId(old(writer.nextMessageId))
        && flow.backpressured == (writer.ring.published - writer.ring.consumed >= flow.high)
      ensures r.Ok? ==>
        && |old(Records(writer.ring.items))| <= |Records(writer.ring.items)|
        && Records(writer.ring.items)[..|old(Records(writer.ring.items))|] == old(Records(writer.ring.items))
        && Announces(fragmenter, Records(writer.ring.items)[|old(Records(writer.ring.items))|..],
                     old(writer.nextMessageId), old(writer.Count()), Message(payload))
    {
      hide Committed, Records, BatchSpan, BatchRecords, Wrap, AllSendable, Inline, Geometry.Seamless;
      if localClosed || remoteClosed {
        return Err(ErrorCode.Closed);
      }
      var update := RefreshFlow();
      if update.value.backpressured {
        return Err(Backpressured);
      }
      var fragments := fragmenter.Fragments(payload);
      if fragments.Err? {
        return Err(fragments.error);
      }
      var sent := writer.SendFragments(Data, fragments.value);
      if sent.Err? {
        return Err(sent.error);
      }
      var observed := flow.Update(sent.value.bufferedAmount);
      r := Ok(ChannelSend(sent.value.bufferedAmount, sent.value.signalNonEmpty));
    }

    /** Once the remote side has drained the ring, an open endpoint of at least `maximum_batch_bytes`
        sends a message within its limit from every producer position and whatever the throttle, exactly
        when the inline limit or the message is at most 1 MiB. */
    lemma DrainedRingSends(payload: seq<u8>)
      requires Valid() && !localClosed && !remoteClosed
      requires writer.ring.published == writer.ring.consumed
      requires fragmenter.MaximumBatchBytes().Ok? && fragmenter.MaximumBatchBytes().value <= writer.ring.capacity
      requires |payload| <= fragmenter.maximumMessage
      ensures Sends(payload) <==> fragmenter.maximumInline <= MAX_INLINE_MESSAGE_SIZE || |payload| <= MAX_INLINE_MESSAGE_SIZE
    {
      Flow.EmptyClears(flow.low, flow.high, flow.backpressured);
      Progress.EmptyRingFitsEveryMessage(fragmenter, writer.ring.capacity, writer.ring.published, payload);
      Progress.FragmentsFit(fragmenter, payload);
    }

    /** Queues a closing record behind everything sent before; afterwards nothing more can be sent. */
    method Finish(kind: RecordKind) returns (r: Result<ChannelSend>)
      requires Valid() && writer.ring.Seamless() && (kind == RecordKind.Close || kind == RecordKind.Reset)
      modifies this`localClosed, writer`nextMessageId, writer`nextSequence,
               writer.ring`producer, writer.ring`published, writer.ring`items, writer.ring.bytes
      ensures Valid()
      ensures r.Ok? <==> !old(localClosed) && old(writer.Accepts(kind, [Fragment([], END_OF_MESSAGE)]))
      ensures localClosed == (old(localClosed) || r.Ok?)
      ensures r.Err? ==> unchanged(writer) && unchanged(writer.ring) && writer.ring.bytes[..] == old(writer.ring.bytes[..])
      ensures r.Ok? ==>
        r.value == ChannelSend(writer.ring.published - writer.ring.consumed, old(writer.ring.published) == writer.ring.consumed)
      ensures old(localClosed) ==> r == Err(ErrorCode.Closed)
      ensures r.Ok? ==>
        Records(writer.ring.items) == old(Records(writer.ring.items))
        + [RecordFor(Fragment([], END_OF_MESSAGE), kind, old(writer.nextMessageId), old(writer.Count()))]
    {
      if localClosed {
        return Err(ErrorCode.Closed);
      }
      var sent := writer.Send(kind, END_OF_MESSAGE, []);
      if sent.Err? {
        return Err(sent.error);
      }
      localClosed := true;
      r := Ok(ChannelSend(sent.value.bufferedAmount, sent.value.signalNonEmpty));
    }

    /** Receives one event: takes records off the ring until one of them yields it. */
    method Receive() returns (r: Result<Option<ChannelEvent>>)
      requires Valid() && reader.ring.Seamless()
      modifies this`remoteClosed, reassembler`partial, reader`expectedSequence,
               reader.ring`consumer, reader.ring`consumed, reader.ring`items, reader.ring`taken
      ensures Valid()
      ensures Received(r, Records(reader.ring.items), reassembler.partial)
           == ReceiveNext(fragmenter, old(reassembler.partial), old(Records(reader.ring.items)))
      ensures remoteClosed == (old(remoteClosed) || (r.Ok? && r.value.Some? && Terminal(r.value.value)))
    {
      hide Committed, Records, PushStep, Wrap, Geometry.Seamless;
      while true
        invariant Valid() && reader.ring.Seamless()
        invariant remoteClosed == old(remoteClosed)
        invariant ReceiveNext(fragmenter, reassembler.partial, Records(reader.ring.items))
               == ReceiveNext(fragmenter, old(reassembler.partial), old(Records(reader.ring.items)))
        decreases |Records(reader.ring.items)|
      {
        ghost var records := Records(reader.ring.items);
        var received := reader.Receive();
        if received.Err? {
          return Err(received.error);
        }
        if received.value.None? {
          return Ok(None);
        }
        var record := received.value.value;
        var fragmented := IsFragmented(record.header.flags);
        if record.header.kind == Data {
          if fragmented && !fragmentationEnabled {
            return Err(ProtocolViolation);
          }
          var pushed := reassembler.Push(record.header, record.payload);
          if pushed.Err? {
            return Err(pushed.error);
          }
          if pushed.value.Complete? {
            return Ok(Some(Message(pushed.value.payload)));
          }
        } else if fragmented {
          return Err(ProtocolViolation);
        } else if record.header.kind == RecordKind.Close {
          reassembler.Discard();
          remoteClosed := true;
          return Ok(Some(ChannelEvent.Closed));
        } else if record.header.kind == RecordKind.Reset {
          reassembler.Discard();
          remoteClosed := true;
          return Ok(Some(ChannelEvent.Reset));
        } else {
          return Ok(Some(Control(record)));
        }
      }
    }
  }
}
