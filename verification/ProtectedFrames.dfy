/** Authenticated frames in strict order (crates/data-plane/nwipc-crypto).

    The cipher is a parameter: a pair of functions for one key, nonce prefix and associated data. What
    the theorems need of it is stated where they need it. */
module ProtectedFrames {
  import opened Wrappers
  import opened Words

  const COUNTER_LENGTH: int := 8
  const TAG_LENGTH: int := 16
  const FRAME_OVERHEAD: int := COUNTER_LENGTH + TAG_LENGTH

  /** Sealing yields ciphertext and tag; opening yields the plaintext or nothing. */
  datatype Aead = Aead(seal: (u64, seq<u8>) -> seq<u8>, open: (u64, seq<u8>) -> Option<seq<u8>>)

  /** What was sealed opens to what was sealed. */
  ghost predicate Faithful(a: Aead) {
    forall c: u64, p: seq<u8> :: |a.seal(c, p)| == |p| + TAG_LENGTH && a.open(c, a.seal(c, p)) == Some(p)
  }

  /** The wire frame of a plaintext under a counter. */
  function Frame(a: Aead, counter: u64, plaintext: seq<u8>): seq<u8> {
    Le64(counter) + a.seal(counter, plaintext)
  }

  function Following(counter: u64): Option<u64> {
    if counter + 1 < TWO64 then Some(counter + 1) else None
  }

  /** What opening a frame answers and which counter is expected afterwards. */
  datatype Opened = Opened(answer: Result<seq<u8>>, expected: Option<u64>)

  function OpenFrame(a: Aead, expected: Option<u64>, bytes: seq<u8>): Opened {
    if |bytes| < FRAME_OVERHEAD then Opened(Err(AuthenticationFailed), expected)
    else
      var counter := FromLe64(bytes[..COUNTER_LENGTH]);
      if expected != Some(counter) then Opened(Err(ReplayDetected), expected)
      else
        match a.open(counter, bytes[COUNTER_LENGTH..])
        case None => Opened(Err(AuthenticationFailed), expected)
        case Some(plaintext) => Opened(Ok(plaintext), Following(counter))
  }

  datatype PendingFrame = PendingFrame(counter: u64, bytes: seq<u8>)

  class FrameSealer {
    const cipher: Aead
    var nextCounter: Option<u64>

    constructor (cipher: Aead)
      ensures this.cipher == cipher && nextCounter == Some(0)
    {
      this.cipher := cipher;
      nextCounter := Some(0);
    }

    /** Seals under the next counter without consuming it. */
    method Prepare(plaintext: seq<u8>) returns (r: Result<PendingFrame>)
      ensures r == if nextCounter.None? then Err(ProtocolViolation)
                   else Ok(PendingFrame(nextCounter.value, Frame(cipher, nextCounter.value, plaintext)))
    {
      if nextCounter.None? {
        return Err(ProtocolViolation);
      }
      var counter := nextCounter.value;
      var bytes := Le64(counter);
      bytes := bytes + cipher.seal(counter, plaintext);
      r := Ok(PendingFrame(counter, bytes));
    }

    /** Consumes the counter of a published frame. */
    method Commit(pending: PendingFrame)
      requires nextCounter == Some(pending.counter)
      modifies this
      ensures nextCounter == Following(pending.counter)
    {
      nextCounter := if pending.counter + 1 < TWO64 then Some(pending.counter + 1) else None;
    }
  }

  class FrameOpener {
    const cipher: Aead
    var expectedCounter: Option<u64>

    constructor (cipher: Aead)
      ensures this.cipher == cipher && expectedCounter == Some(0)
    {
      this.cipher := cipher;
      expectedCounter := Some(0);
    }

    /** Opens the next frame; a rejected one changes nothing. */
    method Open(protected: seq<u8>) returns (r: Result<seq<u8>>)
      modifies this
      ensures Opened(r, expectedCounter) == OpenFrame(cipher, old(expectedCounter), protected)
      ensures r.Err? ==> unchanged(this)
    {
      if |protected| < FRAME_OVERHEAD {
        return Err(AuthenticationFailed);
      }
      var counter := FromLe64(protected[..COUNTER_LENGTH]);
      if expectedCounter != Some(counter) {
        return Err(ReplayDetected);
      }
      var plaintext := cipher.open(counter, protected[COUNTER_LENGTH..]);
      if plaintext.None? {
        return Err(AuthenticationFailed);
      }
      expectedCounter := Following(counter);
      r := Ok(plaintext.value);
    }
  }

  /** One direction: the counters of both ends, the plaintexts committed and accepted so far, and the
      frames that were put on the wire. */
  datatype Wire = Wire(
    next: Option<u64>, expected: Option<u64>, committed: seq<seq<u8>>, frames: seq<seq<u8>>, accepted: seq<seq<u8>>)

  /** The sender seals and drops a frame or commits it; the wire delivers any bytes at all. */
  datatype Action = DropPending(plaintext: seq<u8>) | CommitFrame(plaintext: seq<u8>) | Deliver(bytes: seq<u8>)

  function Act(a: Aead, w: Wire, action: Action): Wire {
    match action
    case DropPending(_) => w
    case CommitFrame(p) =>
      if w.next.None? then w
      else
        w.(next := Following(w.next.value), committed := w.committed + [p],
           frames := w.frames + [Frame(a, w.next.value, p)])
    case Deliver(bytes) =>
      var outcome := OpenFrame(a, w.expected, bytes);
      if outcome.answer.Err? then w.(expected := outcome.expected)
      else w.(expected := outcome.expected, accepted := w.accepted + [outcome.answer.value])
  }

  function ActAll(a: Aead, w: Wire, actions: seq<Action>): Wire
    decreases |actions|
  {
    if actions == [] then w else ActAll(a, Act(a, w, actions[0]), actions[1..])
  }

  /** The authenticity of an ideal cipher: bytes that open are bytes the sender put on the wire. Which
      frame that was, when, and under which counter is not part of it; the wire may lose, repeat, reorder
      or alter frames at will. */
  ghost predicate Authentic(a: Aead, w: Wire, bytes: seq<u8>) {
    |bytes| >= FRAME_OVERHEAD && a.open(FromLe64(bytes[..COUNTER_LENGTH]), bytes[COUNTER_LENGTH..]).Some? ==>
      bytes in w.frames
  }

  ghost predicate AuthenticRun(a: Aead, w: Wire, actions: seq<Action>)
    decreases |actions|
  {
    actions != [] ==>
    && (actions[0].Deliver? ==> Authentic(a, w, actions[0].bytes))
    && AuthenticRun(a, Act(a, w, actions[0]), actions[1..])
  }

  const FRESH_WIRE: Wire := Wire(Some(0), Some(0), [], [], [])

  /** The counter after n frames. */
  function CounterAfter(n: nat): Option<u64> {
    if n < TWO64 then Some(n) else None
  }

  /** Frame k on the wire is the k-th committed plaintext sealed under counter k. */
  predicate Numbered(a: Aead, w: Wire) {
    && |w.frames| == |w.committed| <= TWO64
    && forall k :: 0 <= k < |w.frames| ==> w.frames[k] == Frame(a, k, w.committed[k])
  }

  predicate InOrder(a: Aead, w: Wire) {
    && Numbered(a, w)
    && w.next == CounterAfter(|w.committed|)
    && w.accepted <= w.committed
    && w.expected == CounterAfter(|w.accepted|)
  }

  lemma FrameCounter(a: Aead, k: u64, p: seq<u8>)
    ensures Frame(a, k, p)[..COUNTER_LENGTH] == Le64(k) && Frame(a, k, p)[COUNTER_LENGTH..] == a.seal(k, p)
    ensures FromLe64(Frame(a, k, p)[..COUNTER_LENGTH]) == k
  {
    Le64RoundTrip(k);
  }

  lemma ActKeepsOrder(a: Aead, w: Wire, action: Action)
    requires Faithful(a) && InOrder(a, w)
    requires action.Deliver? ==> Authentic(a, w, action.bytes)
    ensures InOrder(a, Act(a, w, action))
  {
    hide Le64, FromLe64, Frame;
    if action.Deliver? && OpenFrame(a, w.expected, action.bytes).answer.Ok? {
      var k :| 0 <= k < |w.frames| && w.frames[k] == action.bytes;
      FrameCounter(a, k, w.committed[k]);
      assert k == |w.accepted|;
    }
  }

  lemma {:induction false} RunKeepsOrder(a: Aead, w: Wire, actions: seq<Action>)
    requires Faithful(a) && InOrder(a, w) && AuthenticRun(a, w, actions)
    ensures InOrder(a, ActAll(a, w, actions))
    decreases |actions|
  {
    hide Faithful, InOrder, Authentic, Act;
    if actions != [] {
      ActKeepsOrder(a, w, actions[0]);
      RunKeepsOrder(a, Act(a, w, actions[0]), actions[1..]);
    }
  }

  /** Whatever the wire does, the accepted plaintexts are the first committed ones in order; frame k on
      the wire is sealed under counter k, so that no counter is used twice or left out, and after 2^64
      frames nothing more is sealed. */
  lemma AcceptedIsPrefix(a: Aead, actions: seq<Action>)
    requires Faithful(a) && AuthenticRun(a, FRESH_WIRE, actions)
    ensures var w := ActAll(a, FRESH_WIRE, actions);
            && w.accepted <= w.committed
            && Numbered(a, w)
            && w.next == (if |w.committed| < TWO64 then Some(|w.committed|) else None)
            && w.expected == (if |w.accepted| < TWO64 then Some(|w.accepted|) else None)
  {
    RunKeepsOrder(a, FRESH_WIRE, actions);
  }

  /** Bytes are accepted exactly when they are the next frame on the wire: what was lost, repeated or
      reordered is refused, and the next frame in order always gets through. */
  lemma AcceptedIffNext(a: Aead, actions: seq<Action>, bytes: seq<u8>)
    requires Faithful(a) && AuthenticRun(a, FRESH_WIRE, actions)
    requires Authentic(a, ActAll(a, FRESH_WIRE, actions), bytes)
    ensures var w := ActAll(a, FRESH_WIRE, actions);
            var n := |w.accepted|;
            && (OpenFrame(a, w.expected, bytes).answer.Ok? <==> n < |w.frames| && bytes == w.frames[n])
            && (forall k :: 0 <= k < |w.frames| && k != n ==>
              OpenFrame(a, w.expected, w.frames[k]).answer == Err(ReplayDetected))
  {
    hide Le64, FromLe64, Frame, ActAll, AuthenticRun;
    AcceptedIsPrefix(a, actions);
    var w := ActAll(a, FRESH_WIRE, actions);
    var n := |w.accepted|;
    forall k | 0 <= k < |w.frames| && k != n
      ensures OpenFrame(a, w.expected, w.frames[k]).answer == Err(ReplayDetected)
    {
      FrameCounter(a, k, w.committed[k]);
      FrameLength(a, k, w.committed[k]);
    }
    if OpenFrame(a, w.expected, bytes).answer.Ok? {
      var k :| 0 <= k < |w.frames| && w.frames[k] == bytes;
      FrameCounter(a, k, w.committed[k]);
    } else if n < |w.frames| {
      FrameCounter(a, n, w.committed[n]);
      FrameLength(a, n, w.committed[n]);
    }
  }

  /** Bytes that are too short, or carry the expected counter and do not open, fail authentication; the
      expected counter stays. */
  lemma ForgeriesFail(a: Aead, expected: Option<u64>, bytes: seq<u8>)
    requires |bytes| < FRAME_OVERHEAD
          || (expected == Some(FromLe64(bytes[..COUNTER_LENGTH]))
              && a.open(expected.value, bytes[COUNTER_LENGTH..]).None?)
    ensures OpenFrame(a, expected, bytes) == Opened(Err(AuthenticationFailed), expected)
  {
  }

  lemma FrameLength(a: Aead, k: u64, p: seq<u8>)
    requires Faithful(a)
    ensures |Frame(a, k, p)| == |p| + FRAME_OVERHEAD
  {
  }
}
