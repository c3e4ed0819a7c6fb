/** Byte-based backpressure with high and low watermarks (crates/data-plane/nwipc-flow-control). */
module FlowControl {
  import opened Wrappers
  import opened Words

  datatype FlowUpdate = FlowUpdate(buffered: u32, backpressured: bool, becameWritable: bool)

  /** Whether a producer that observes `buffered` bytes is backpressured. */
  predicate Throttled(low: u32, high: u32, was: bool, buffered: u32) {
    if was then buffered > low else buffered >= high
  }

  class FlowControl {
    const capacity: u32
    const low: u32
    const high: u32
    var backpressured: bool
    var buffered: u32

    ghost predicate Valid() {
      low < high <= capacity
    }

    constructor (capacity: u32, low: u32, high: u32)
      requires low < high <= capacity
      ensures Valid() && !backpressured && buffered == 0
      ensures this.capacity == capacity && this.low == low && this.high == high
    {
      this.capacity, this.low, this.high := capacity, low, high;
      backpressured, buffered := false, 0;
    }

    /** Watermarks must satisfy low < high <= capacity. */
    static method Create(capacity: u32, low: u32, high: u32) returns (r: Result<FlowControl>)
      ensures r.Ok? <==> low < high <= capacity
      ensures r.Err? ==> r.error == InvalidRange
      ensures r.Ok? ==>
        && fresh(r.value) && r.value.Valid() && !r.value.backpressured
        && r.value.capacity == capacity && r.value.low == low && r.value.high == high
    {
      if capacity == 0 || low >= high || high > capacity {
        return Err(InvalidRange);
      }
      var flow := new FlowControl(capacity, low, high);
      r := Ok(flow);
    }

    /** Observes the buffered bytes and reports the edge back to writable once. */
    method Update(observed: u32) returns (r: Result<FlowUpdate>)
      modifies this
      ensures r.Err? <==> observed > capacity
      ensures r.Err? ==> r.error == InvalidCursor && unchanged(this)
      ensures r.Ok? ==>
        && backpressured == Throttled(low, high, old(backpressured), observed)
        && buffered == observed
        && r.value == FlowUpdate(observed, backpressured, old(backpressured) && !backpressured)
    {
      if observed > capacity {
        return Err(InvalidCursor);
      }
      var was := backpressured;
      if backpressured {
        if observed <= low {
          backpressured := false;
        }
      } else if observed >= high {
        backpressured := true;
      }
      buffered := observed;
      r := Ok(FlowUpdate(observed, backpressured, was && !backpressured));
    }
  }

  /** The throttle after a sequence of observations from a fresh start. */
  predicate ThrottledAfter(low: u32, high: u32, observed: seq<u32>) {
    observed != [] &&
    var n := |observed| - 1;
    Throttled(low, high, ThrottledAfter(low, high, observed[..n]), observed[n])
  }

  /** Observation i is the edge back to writable. */
  predicate WritableEdge(low: u32, high: u32, observed: seq<u32>, i: nat)
    requires i < |observed|
  {
    ThrottledAfter(low, high, observed[..i]) && !ThrottledAfter(low, high, observed[..i + 1])
  }

  /** A throttled producer saw the high watermark, and since then never fell to the low one. */
  lemma {:induction false} ThrottledSince(low: u32, high: u32, observed: seq<u32>) returns (i: nat)
    requires low < high && ThrottledAfter(low, high, observed)
    ensures i < |observed| && observed[i] >= high
    ensures forall k :: i <= k < |observed| ==> observed[k] > low
  {
    var n := |observed| - 1;
    if ThrottledAfter(low, high, observed[..n]) {
      i := ThrottledSince(low, high, observed[..n]);
    } else {
      i := n;
    }
  }

  /** A producer is throttled exactly from an observation of the high watermark on until one of the low
      watermark: in between, whatever is observed, it stays so, and at no other time is it throttled. */
  lemma {:induction false} ThrottledIff(low: u32, high: u32, observed: seq<u32>)
    requires low < high
    ensures ThrottledAfter(low, high, observed)
       <==> exists i :: 0 <= i < |observed| && observed[i] >= high && forall k :: i <= k < |observed| ==> observed[k] > low
    decreases |observed|
  {
    if ThrottledAfter(low, high, observed) {
      var i := ThrottledSince(low, high, observed);
    } else if i :| 0 <= i < |observed| && observed[i] >= high && forall k :: i <= k < |observed| ==> observed[k] > low {
      StaysThrottled(low, high, observed, i);
      assert false;
    }
  }

  lemma {:induction false} StaysThrottled(low: u32, high: u32, observed: seq<u32>, i: nat)
    requires low < high && i < |observed| && observed[i] >= high
    requires forall k :: i <= k < |observed| ==> observed[k] > low
    ensures ThrottledAfter(low, high, observed)
    decreases |observed|
  {
    var n := |observed| - 1;
    if i < n {
      StaysThrottled(low, high, observed[..n], i);
    }
  }

  /** The edge back to writable is exactly the first observation of the low watermark since one of the
      high watermark. */
  lemma EdgeIff(low: u32, high: u32, observed: seq<u32>, i: nat)
    requires low < high && i < |observed|
    ensures WritableEdge(low, high, observed, i)
       <==> && observed[i] <= low
            && exists j :: 0 <= j < i && observed[j] >= high && forall k :: j <= k < i ==> observed[k] > low
  {
    var before := observed[..i];
    assert observed[..i + 1][..i] == before;
    ThrottledIff(low, high, before);
    assert forall k :: 0 <= k < i ==> before[k] == observed[k];
    if j :| 0 <= j < i && observed[j] >= high && forall k :: j <= k < i ==> observed[k] > low {
      assert before[j] >= high;
    }
    if ThrottledAfter(low, high, before) {
      var j := ThrottledSince(low, high, before);
      assert observed[j] >= high;
    }
  }

  /** Two writable edges never come without the high watermark observed in between. */
  lemma EdgesAlternate(low: u32, high: u32, observed: seq<u32>, i: nat, j: nat) returns (k: nat)
    requires low < high && i < j < |observed|
    requires WritableEdge(low, high, observed, i) && WritableEdge(low, high, observed, j)
    ensures i < k < j && observed[k] >= high
  {
    assert observed[..i + 1][..i] == observed[..i];
    assert observed[i] <= low;
    assert observed[..j][i] == observed[i];
    k := ThrottledSince(low, high, observed[..j]);
  }

  /** An empty ring clears backpressure, whatever was observed before. */
  lemma EmptyClears(low: u32, high: u32, was: bool)
    requires low < high
    ensures !Throttled(low, high, was, 0)
  {
  }
}
