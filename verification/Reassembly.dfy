/** Single-message reassembly (the `Reassembler` of crates/data-plane/nwipc-fragment). */
module Reassembly {
  import opened Wrappers
  import opened Words
  import opened Record
  import opened Layout
  import opened BatchPlan
  import opened Fragmentation

  datatype PartialMessage = PartialMessage(messageId: MessageId, payload: seq<u8>)

  datatype Outcome = Pending | Complete(payload: seq<u8>)

  /** The outcome of one push and the partial message it leaves. */
  datatype Pushed = Pushed(outcome: Result<Outcome>, partial: Option<PartialMessage>)

  function Refuse(code: ErrorCode): Pushed {
    Pushed(Err(code), None)
  }

  /** What `push` does to the partial message, under the limits of `f`. */
  function PushStep(f: Fragmenter, partial: Option<PartialMessage>, header: Header, payload: seq<u8>): Pushed {
    if header.messageId.None? then
      Refuse(ProtocolViolation)
    else if |payload| != header.payloadLength || |payload| > f.maximumInline then
      Refuse(ProtocolViolation)
    else if !IsFragmented(header.flags) then
      if !EndsMessage(header.flags) || partial.Some? then Refuse(ProtocolViolation)
      else Pushed(Ok(Complete(payload)), partial)
    else if payload == [] || (partial.None? && EndsMessage(header.flags)) then
      Refuse(ProtocolViolation)
    else
      var begun := if partial.Some? then partial.value else PartialMessage(header.messageId.value, []);
      if begun.messageId != header.messageId.value then
        Refuse(ProtocolViolation)
      else if |begun.payload| + |payload| > f.maximumMessage then
        Refuse(MessageTooLarge)
      else if EndsMessage(header.flags) then
        Pushed(Ok(Complete(begun.payload + payload)), None)
      else
        Pushed(Ok(Pending), Some(begun.(payload := begun.payload + payload)))
  }

  /** Exactly the fragments that would carry their own message over the limit are refused as too large. */
  lemma TooLargeExactly(f: Fragmenter, partial: Option<PartialMessage>, header: Header, payload: seq<u8>)
    ensures PushStep(f, partial, header, payload).outcome == Err(MessageTooLarge) <==>
      && header.messageId.Some? && IsFragmented(header.flags)
      && 0 < |payload| == header.payloadLength <= f.maximumInline
      && match partial
         case None => !EndsMessage(header.flags) && |payload| > f.maximumMessage
         case Some(p) => p.messageId == header.messageId.value && |p.payload| + |payload| > f.maximumMessage
  {
  }

  class Reassembler {
    const limits: Fragmenter
    var partial: Option<PartialMessage>

    constructor (limits: Fragmenter)
      requires limits.Valid()
      ensures this.limits == limits && partial == None
    {
      this.limits := limits;
      partial := None;
    }

    method Discard()
      modifies this`partial
      ensures partial == None
    {
      partial := None;
    }

    method Fail(code: ErrorCode) returns (r: Result<Outcome>)
      modifies this`partial
      ensures r == Err(code) && partial == None
    {
      Discard();
      r := Err(code);
    }

    /** Buffers or completes one data record; every error leaves nothing pending. */
    method Push(header: Header, payload: seq<u8>) returns (r: Result<Outcome>)
      modifies this`partial
      ensures Pushed(r, partial) == PushStep(limits, old(partial), header, payload)
      ensures r.Err? ==> partial == None
    {
      if header.messageId.None? {
        r := Fail(ProtocolViolation);
        return;
      }
      var messageId := header.messageId.value;
      if |payload| != header.payloadLength || |payload| > limits.maximumInline {
        r := Fail(ProtocolViolation);
        return;
      }
      var endsMessage := EndsMessage(header.flags);
      if !IsFragmented(header.flags) {
        if !endsMessage || partial.Some? {
          r := Fail(ProtocolViolation);
          return;
        }
        return Ok(Complete(payload));
      }
      if payload == [] || (partial.None? && endsMessage) {
        r := Fail(ProtocolViolation);
        return;
      }
      if partial.None? {
        partial := Some(PartialMessage(messageId, []));
      }
      if partial.value.messageId != messageId {
        r := Fail(ProtocolViolation);
        return;
      }
      var combined := |partial.value.payload| + |payload|;
      if combined > limits.maximumMessage {
        r := Fail(MessageTooLarge);
        return;
      }
      partial := Some(partial.value.(payload := partial.value.payload + payload));
      if endsMessage {
        r := Ok(Complete(partial.value.payload));
        partial := None;
      } else {
        r := Ok(Pending);
      }
    }
  }

  /** The partial message after pushing a whole stream of records from a clean start. */
  function PartialAfter(f: Fragmenter, stream: seq<OwnedRecord>): Option<PartialMessage> {
    if stream == [] then None
    else
      var last := stream[|stream| - 1];
      PushStep(f, PartialAfter(f, stream[..|stream| - 1]), last.header, last.payload).partial
  }

  function JoinedPayloads(stream: seq<OwnedRecord>): seq<u8> {
    if stream == [] then [] else JoinedPayloads(stream[..|stream| - 1]) + stream[|stream| - 1].payload
  }

  /** An uninterrupted run of non-final fragments of one message. */
  predicate OpenRun(run: seq<OwnedRecord>, id: MessageId) {
    run != [] && forall i :: 0 <= i < |run| ==>
      && run[i].header.messageId == Some(id)
      && IsFragmented(run[i].header.flags) && !EndsMessage(run[i].header.flags)
      && run[i].payload != []
  }

  /** What a push that leaves a pending message must have been given. */
  lemma PushLeavesPending(f: Fragmenter, partial: Option<PartialMessage>, r: OwnedRecord)
    requires PushStep(f, partial, r.header, r.payload).partial.Some?
    ensures var p := PushStep(f, partial, r.header, r.payload).partial.value;
            && OpenRun([r], p.messageId)
            && p.payload == (if partial.None? then [] else partial.value.payload) + r.payload
            && (partial.Some? ==> partial.value.messageId == p.messageId)
            && |p.payload| <= f.maximumMessage
  {
  }

  lemma OpenRunGrows(run: seq<OwnedRecord>, r: OwnedRecord, id: MessageId)
    requires OpenRun([r], id) && OpenRun(run, id)
    ensures OpenRun(run + [r], id)
    ensures JoinedPayloads(run + [r]) == JoinedPayloads(run) + r.payload
  {
    assert [r][0] == r;
    assert (run + [r])[..|run|] == run;
  }

  lemma JoinedOne(r: OwnedRecord)
    ensures JoinedPayloads([r]) == r.payload
  {
    assert [r][..0] == [];
  }

  /** Whatever was pushed before, a pending message is the join of the latest uninterrupted run of
      fragments with its identity, within the message limit. */
  lemma {:induction false} PendingIsARun(f: Fragmenter, stream: seq<OwnedRecord>) returns (start: nat)
    requires PartialAfter(f, stream).Some?
    ensures start < |stream|
    ensures var p := PartialAfter(f, stream).value;
            && OpenRun(stream[start..], p.messageId)
            && p.payload == JoinedPayloads(stream[start..])
            && |p.payload| <= f.maximumMessage
  {
    hide PushStep, OpenRun, JoinedPayloads;
    var n := |stream| - 1;
    var front, last := stream[..n], stream[n];
    var p := PartialAfter(f, stream).value;
    PushLeavesPending(f, PartialAfter(f, front), last);
    if PartialAfter(f, front).None? {
      start := n;
      assert stream[n..] == [last] && [] + last.payload == last.payload;
      JoinedOne(last);
    } else {
      start := PendingIsARun(f, front);
      assert stream[start..] == front[start..] + [last];
      OpenRunGrows(front[start..], last, p.messageId);
    }
  }

  /** On any stream of records, a fragmented message completes exactly as the join of the run of
      same-identity fragments that the final fragment ends; nothing of another message is in it. */
  lemma CompletedIsARun(f: Fragmenter, stream: seq<OwnedRecord>, last: OwnedRecord) returns (start: nat)
    requires PushStep(f, PartialAfter(f, stream), last.header, last.payload).outcome.Ok?
    requires PushStep(f, PartialAfter(f, stream), last.header, last.payload).outcome.value.Complete?
    ensures var message := PushStep(f, PartialAfter(f, stream), last.header, last.payload).outcome.value.payload;
            if IsFragmented(last.header.flags) then
              && start < |stream| && last.header.messageId.Some?
              && OpenRun(stream[start..], last.header.messageId.value)
              && EndsMessage(last.header.flags)
              && message == JoinedPayloads(stream[start..]) + last.payload
              && |message| <= f.maximumMessage
            else
              message == last.payload && PartialAfter(f, stream).None? && |message| <= f.maximumInline
  {
    start := 0;
    if IsFragmented(last.header.flags) {
      start := PendingIsARun(f, stream);
    }
  }

  /** The message begun when `done` bytes of it were pushed. */
  function Begun(id: MessageId, done: seq<u8>): Option<PartialMessage> {
    if done == [] then None else Some(PartialMessage(id, done))
  }

  /** Pushing one piece of a message behind the pieces already pushed. */
  lemma PiecePush(f: Fragmenter, id: MessageId, count: nat, done: seq<u8>, piece: Fragment)
    requires f.Valid() && piece.payload != [] && |piece.payload| <= f.maximumInline <= MAX_INLINE_MESSAGE_SIZE
    requires |done| + |piece.payload| <= f.maximumMessage
    requires piece.flags == FRAGMENTED || (piece.flags == LAST_FRAGMENT && done != [])
    ensures var r := RecordFor(piece, Data, id, count);
            PushStep(f, Begun(id, done), r.header, r.payload) ==
              if piece.flags == LAST_FRAGMENT then Pushed(Ok(Complete(done + piece.payload)), None)
              else Pushed(Ok(Pending), Begun(id, done + piece.payload))
  {
    hide RecordLength;
    assert [] + piece.payload == piece.payload;
  }

  /** Reassembling the fragments of a message answers pending until the last fragment and then gives
      exactly the message. */
  lemma {:induction false} PiecesPush(
      f: Fragmenter, id: MessageId, count: nat, done: seq<u8>, rest: seq<u8>, k: nat)
    requires f.Valid() && f.maximumInline <= MAX_INLINE_MESSAGE_SIZE
    requires |done| + |rest| <= f.maximumMessage && rest != []
    requires done == [] ==> |rest| > f.maximumInline
    requires k < |Pieces(rest, f.maximumInline)|
    ensures Inline(Pieces(rest, f.maximumInline))
    ensures var records := BatchRecords(Pieces(rest, f.maximumInline), Data, id, count);
            var before := PushAll(f, Begun(id, done), records[..k]);
            var step := PushStep(f, before, records[k].header, records[k].payload);
            if k == |records| - 1 then step == Pushed(Ok(Complete(done + rest)), None)
            else step.outcome == Ok(Pending)
    decreases |rest|
  {
    hide PushStep, RecordFor, Begun;
    var inline := f.maximumInline;
    var pieces := Pieces(rest, inline);
    PiecesFit(rest, inline);
    var records := BatchRecords(pieces, Data, id, count);
    assert records[0] == RecordFor(pieces[0], Data, id, count);
    if |rest| <= inline || k == 0 {
      assert records[..0] == [];
      PiecePush(f, id, count, done, pieces[0]);
    } else {
      var head, tail := rest[..inline], rest[inline..];
      assert done + rest == done + head + tail && pieces[1..] == Pieces(tail, inline);
      PiecePush(f, id, count, done, pieces[0]);
      PiecesPush(f, id, count + 1, done + head, tail, k - 1);
      PushAllHead(f, Begun(id, done), records, k);
    }
  }

  lemma PushAllHead(f: Fragmenter, partial: Option<PartialMessage>, records: seq<OwnedRecord>, k: nat)
    requires 0 < k <= |records|
    ensures PushAll(f, partial, records[..k])
            == PushAll(f, PushStep(f, partial, records[0].header, records[0].payload).partial, records[1..][..k - 1])
  {
    assert records[..k][1..] == records[1..][..k - 1];
  }

  /** The partial message after pushing some more records. */
  function PushAll(f: Fragmenter, partial: Option<PartialMessage>, records: seq<OwnedRecord>): Option<PartialMessage>
    decreases |records|
  {
    if records == [] then partial
    else PushAll(f, PushStep(f, partial, records[0].header, records[0].payload).partial, records[1..])
  }
}
