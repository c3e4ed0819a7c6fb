/** What a channel makes of any stream of records, said of the stream itself: the bytes gathered at its
    end, the events in it, and which streams are accepted. */
module StreamLaws {
  import opened Wrappers
  import opened Words
  import opened Record
  import opened Layout
  import opened Fragmentation
  import opened Reassembly
  import opened Delivery

  predicate Ends(r: OwnedRecord) {
    r.header.kind == RecordKind.Close || r.header.kind == RecordKind.Reset
    || (r.header.kind == Data && EndsMessage(r.header.flags))
  }

  /** The data since the last message or close, control records left out. */
  function Gathered(records: seq<OwnedRecord>): seq<u8> {
    if records == [] then []
    else
      var n := |records| - 1;
      if Ends(records[n]) then []
      else if records[n].header.kind == Data then Gathered(records[..n]) + records[n].payload
      else Gathered(records[..n])
  }

  /** The message those data belong to. */
  function OpenMessage(records: seq<OwnedRecord>): Option<MessageId> {
    if records == [] then None
    else
      var n := |records| - 1;
      if Ends(records[n]) then None
      else if records[n].header.kind == Data then records[n].header.messageId
      else OpenMessage(records[..n])
  }

  /** The event that a record brings behind others. */
  function Brings(front: seq<OwnedRecord>, r: OwnedRecord): seq<ChannelEvent> {
    if r.header.kind == Data then
      if EndsMessage(r.header.flags) then [Message(Gathered(front) + r.payload)] else []
    else if r.header.kind == RecordKind.Close then [ChannelEvent.Closed]
    else if r.header.kind == RecordKind.Reset then [ChannelEvent.Reset]
    else [Control(r)]
  }

  /** The events of a stream: every record but an inner fragment brings its own. */
  function EventsIn(records: seq<OwnedRecord>): seq<ChannelEvent> {
    if records == [] then []
    else
      var n := |records| - 1;
      EventsIn(records[..n]) + Brings(records[..n], records[n])
  }

  /** A whole message in one record. */
  predicate WholeMessage(front: seq<OwnedRecord>, r: OwnedRecord) {
    !IsFragmented(r.header.flags) && EndsMessage(r.header.flags) && OpenMessage(front) == None
  }

  /** A fragment that opens a message or goes on with the open one, within the limit. */
  predicate FragmentInPlace(f: Fragmenter, front: seq<OwnedRecord>, r: OwnedRecord) {
    && IsFragmented(r.header.flags) && Enabled(f)
    && r.payload != [] && |Gathered(front)| + |r.payload| <= f.maximumMessage
    && (OpenMessage(front) == None ==> !EndsMessage(r.header.flags))
    && (OpenMessage(front) != None ==> OpenMessage(front) == r.header.messageId)
  }

  /** A record that a channel accepts behind others. */
  predicate Admissible(f: Fragmenter, front: seq<OwnedRecord>, r: OwnedRecord) {
    && !Poisoned(r)
    && (r.header.kind != Data ==> !IsFragmented(r.header.flags))
    && (r.header.kind == Data ==>
      && r.header.messageId.Some?
      && |r.payload| == r.header.payloadLength && |r.payload| <= f.maximumInline
      && (WholeMessage(front, r) || FragmentInPlace(f, front, r)))
  }

  predicate AllAdmissible(f: Fragmenter, records: seq<OwnedRecord>) {
    forall i :: 0 <= i < |records| ==> Admissible(f, records[..i], records[i])
  }

  /** The partial message a channel holds stands for the gathered data. */
  predicate Holds(partial: Option<PartialMessage>, records: seq<OwnedRecord>) {
    match partial
    case None => OpenMessage(records) == None && Gathered(records) == []
    case Some(p) => OpenMessage(records) == Some(p.messageId) && Gathered(records) == p.payload
  }

  /** One more record: it faults exactly when it is not admissible, and otherwise brings its event. */
  lemma OneMoreRecord(f: Fragmenter, partial: Option<PartialMessage>, front: seq<OwnedRecord>, r: OwnedRecord)
    requires Holds(partial, front)
    ensures var step := ChannelStep(f, partial, r);
            && (step.Fault? <==> !Admissible(f, front, r))
            && (!step.Fault? ==>
              && Holds(step.partial, front + [r])
              && Brings(front, r) == if step.Emit? then [step.event] else [])
  {
    var all := front + [r];
    assert all[|all| - 1] == r && all[..|all| - 1] == front;
    assert [] + r.payload == r.payload;
  }

  lemma AdmissibleLast(f: Fragmenter, records: seq<OwnedRecord>)
    requires records != []
    ensures var n := |records| - 1;
            AllAdmissible(f, records) <==> AllAdmissible(f, records[..n]) && Admissible(f, records[..n], records[n])
  {
    var n := |records| - 1;
    assert forall i :: 0 <= i < n ==> records[..n][..i] == records[..i];
  }

  /** Over any stream: delivery goes through exactly if every record is admissible where it stands. The
      events are then those in the stream, in order, and the partial message holds the data gathered at
      its end. */
  lemma {:induction false} DeliveryIsTheStream(f: Fragmenter, records: seq<OwnedRecord>)
    ensures Deliver(f, None, records).Ok? <==> AllAdmissible(f, records)
    ensures Deliver(f, None, records).Ok? ==>
      var all := Deliver(f, None, records).value;
      all.events == EventsIn(records) && Holds(all.partial, records)
    decreases |records|
  {
    hide ChannelStep, Admissible, Brings, Gathered, OpenMessage, Ends;
    if records == [] {
      NothingYet();
    } else {
      var n := |records| - 1;
      var front, r := records[..n], records[n];
      assert records == front + [r];
      DeliveryIsTheStream(f, front);
      AdmissibleLast(f, records);
      if Deliver(f, None, records).Ok? {
        DeliverPrefix(f, None, front, [r]);
      }
      if Deliver(f, None, front).Ok? {
        var partial := Deliver(f, None, front).value.partial;
        OneMoreRecord(f, partial, front, r);
        DeliverAppend(f, None, front, [r]);
        DeliverOne(f, partial, r);
      }
    }
  }

  lemma NothingYet()
    ensures Holds(None, []) && EventsIn([]) == []
  {
  }
}
