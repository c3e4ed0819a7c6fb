/** Bounded payload slabs with exclusive ownership (crates/data-plane/nwipc-chunk-pool).

    Every public call changes the shared state under one lock, so the calls of both sides in any order
    are the calls below in any order. */
module ChunkPool {
  import opened Wrappers
  import opened Words

  /** The indices of all slabs. */
  function Slabs(count: nat): (s: set<nat>)
    ensures forall i :: i in s <==> 0 <= i < count
  {
    if count == 0 then {} else Slabs(count - 1) + {count - 1}
  }

  lemma {:induction false} SlabCount(count: nat)
    ensures |Slabs(count)| == count
  {
    if count > 0 {
      SlabCount(count - 1);
    }
  }

  function Indexes(ready: seq<(nat, nat)>): (r: seq<nat>)
    ensures |r| == |ready| && forall k :: 0 <= k < |r| ==> r[k] == ready[k].0
  {
    seq(|ready|, k requires 0 <= k < |ready| => ready[k].0)
  }

  /** Each slab has exactly one owner: the free queue, the ready queue, a loan or a receipt. */
  predicate Partition(count: nat, free: seq<nat>, ready: seq<(nat, nat)>, loans: map<nat, nat>, receipts: map<nat, nat>) {
    multiset(free) + multiset(Indexes(ready)) + multiset(loans.Keys) + multiset(receipts.Keys) == multiset(Slabs(count))
  }

  /** A slab with an owner has no other. */
  lemma OneOwner(count: nat, free: seq<nat>, ready: seq<(nat, nat)>, loans: map<nat, nat>, receipts: map<nat, nat>, i: nat)
    requires Partition(count, free, ready, loans, receipts)
    ensures i in free || i in Indexes(ready) || i in loans || i in receipts <==> i < count
    ensures i in free ==> i !in Indexes(ready) && i !in loans && i !in receipts
    ensures i in Indexes(ready) ==> i !in loans && i !in receipts
    ensures i in loans ==> i !in receipts
  {
    var all := multiset(free) + multiset(Indexes(ready)) + multiset(loans.Keys) + multiset(receipts.Keys);
    assert all[i] <= 1 && (i in all <==> i < count);
  }

  /** Neither queue holds a slab twice. */
  lemma NoDuplicates(count: nat, free: seq<nat>, ready: seq<(nat, nat)>, loans: map<nat, nat>, receipts: map<nat, nat>)
    requires Partition(count, free, ready, loans, receipts)
    ensures forall j, k :: 0 <= j < k < |free| ==> free[j] != free[k]
    ensures forall j, k :: 0 <= j < k < |ready| ==> ready[j].0 != ready[k].0
  {
    var all := multiset(free) + multiset(Indexes(ready)) + multiset(loans.Keys) + multiset(receipts.Keys);
    forall x: nat
      ensures multiset(free)[x] <= 1 && multiset(Indexes(ready))[x] <= 1
    {
      assert all[x] <= 1;
    }
    Distinct(free);
    Distinct(Indexes(ready));
    assert forall k :: 0 <= k < |ready| ==> ready[k].0 == Indexes(ready)[k];
  }

  lemma Distinct(s: seq<nat>)
    requires forall x :: multiset(s)[x] <= 1
    ensures forall j, k :: 0 <= j < k < |s| ==> s[j] != s[k]
  {
    forall j, k | 0 <= j < k < |s|
      ensures s[j] != s[k]
    {
      assert s == s[..k] + s[k..];
      assert s[j] in s[..k] && s[k] in s[k..];
      assert multiset(s)[s[j]] == multiset(s[..k])[s[j]] + multiset(s[k..])[s[j]];
    }
  }

  /** The four counts of a partition add up to the number of slabs. */
  lemma CountsAddUp(count: nat, free: seq<nat>, ready: seq<(nat, nat)>, loans: map<nat, nat>, receipts: map<nat, nat>)
    requires Partition(count, free, ready, loans, receipts)
    ensures |free| + |ready| + |loans| + |receipts| == count
  {
    SlabCount(count);
    assert |loans.Keys| == |loans| && |receipts.Keys| == |receipts|;
    assert |multiset(free) + multiset(Indexes(ready)) + multiset(loans.Keys) + multiset(receipts.Keys)| == count;
  }

  datatype PoolDiagnostics = PoolDiagnostics(chunkCount: nat, free: nat, loaned: nat, ready: nat, received: nat)

  /** A slab in the hands of the producer or of the consumer. */
  datatype Chunk = Chunk(index: nat, length: nat, buffer: seq<u8>) {
    function Payload(): seq<u8> {
      if length <= |buffer| then buffer[..length] else []
    }
  }

  /** The producer may rewrite the payload prefix and nothing else. */
  function Filled(loan: Chunk, payload: seq<u8>): (r: Chunk)
    requires |payload| == loan.length <= |loan.buffer|
    ensures r.index == loan.index && r.length == loan.length && |r.buffer| == |loan.buffer|
    ensures r.Payload() == payload && r.buffer[r.length..] == loan.buffer[loan.length..]
  {
    loan.(buffer := payload + loan.buffer[loan.length..])
  }

  function Without(m: map<nat, nat>, i: nat): map<nat, nat> {
    map k | k in m && k != i :: m[k]
  }

  type Slots = seq<Option<seq<u8>>>

  /** All slabs, in order. */
  function FreeQueue(count: nat): (q: seq<nat>)
    ensures |q| == count && forall k :: 0 <= k < count ==> q[k] == k
  {
    seq(count, k => k)
  }

  /** A slot holds its slab exactly when the slab is free or ready. */
  predicate Stored(slots: Slots, capacity: nat, free: seq<nat>, ready: seq<(nat, nat)>) {
    forall i :: 0 <= i < |slots| ==>
      && (slots[i].Some? <==> i in free || i in Indexes(ready))
      && (slots[i].Some? ==> |slots[i].value| == capacity)
  }

  /** The ready queue holds, in order, the payloads committed and not yet received. */
  predicate Queued(slots: Slots, capacity: nat, ready: seq<(nat, nat)>, waiting: seq<seq<u8>>) {
    && |ready| == |waiting|
    && forall k :: 0 <= k < |ready| ==>
      && ready[k].0 < |slots| && ready[k].1 <= capacity
      && slots[ready[k].0].Some? && |slots[ready[k].0].value| == capacity
      && slots[ready[k].0].value[..ready[k].1] == waiting[k]
  }

  const LARGEST_ALLOCATION: int := 0x7FFF_FFFF_FFFF_FFFF

  class Pool {
    const chunkCount: nat
    const chunkCapacity: nat
    const slots: array<Option<seq<u8>>>
    var free: seq<nat>
    var ready: seq<(nat, nat)>
    var loaned: nat
    var received: nat

    /** Lengths of the outstanding loans and receipts; all payloads committed, and how many of them
        were received. */
    ghost var loans: map<nat, nat>
    ghost var receipts: map<nat, nat>
    ghost var committed: seq<seq<u8>>
    ghost var delivered: nat

    ghost predicate Valid()
      reads this, slots
    {
      && slots.Length == chunkCount
      && Partition(chunkCount, free, ready, loans, receipts)
      && loaned == |loans| && received == |receipts|
      && Stored(slots[..], chunkCapacity, free, ready)
      && delivered <= |committed|
      && Queued(slots[..], chunkCapacity, ready, committed[delivered..])
    }

    constructor (chunkCount: nat, chunkCapacity: nat)
      requires chunkCount > 0 && chunkCapacity > 0
      ensures Valid() && fresh(slots)
      ensures this.chunkCount == chunkCount && this.chunkCapacity == chunkCapacity
      ensures committed == [] && delivered == 0 && loans == receipts == map[]
    {
      hide Partition, Stored, Queued, FreeQueue;
      this.chunkCount, this.chunkCapacity := chunkCount, chunkCapacity;
      slots := new Option<seq<u8>>[chunkCount](_ => Some(Zeros(chunkCapacity)));
      free := FreeQueue(chunkCount);
      ready, loaned, received := [], 0, 0;
      loans, receipts, committed, delivered := map[], map[], [], 0;
      new;
      EverySlabFree(chunkCount);
      StoredInitially(slots[..], chunkCapacity);
    }

    /** Rejects empty pools and allocations beyond the address space, and reports an allocator that does
        not deliver the slabs. */
    static method Create(chunkCount: nat, chunkCapacity: nat, hasMemory: bool) returns (r: Result<Pool>)
      ensures var addressable := chunkCount > 0 && chunkCapacity > 0 && chunkCount * chunkCapacity <= LARGEST_ALLOCATION;
        && (r.Ok? <==> addressable && hasMemory)
        && (r.Err? ==> r.error == if addressable then Backpressured else InvalidRange)
      ensures r.Ok? ==> fresh(r.value) && r.value.Valid() && r.value.committed == []
      ensures r.Ok? ==> r.value.chunkCount == chunkCount && r.value.chunkCapacity == chunkCapacity
    {
      if chunkCount * chunkCapacity > LARGEST_ALLOCATION || chunkCount == 0 || chunkCapacity == 0 {
        return Err(InvalidRange);
      }
      if !hasMemory {
        return Err(Backpressured);
      }
      var pool := new Pool(chunkCount, chunkCapacity);
      r := Ok(pool);
    }

    /** Loans the slab that has been free longest; only size and backpressure refuse it. */
    method Loan(length: nat) returns (r: Result<Chunk>)
      requires Valid()
      modifies this`free, this`loaned, this`loans, slots
      ensures Valid()
      ensures r.Ok? <==> length <= chunkCapacity && old(free) != []
      ensures r.Err? ==> r.error == (if length > chunkCapacity then MessageTooLarge else Backpressured)
      ensures r.Err? ==> unchanged(this) && unchanged(slots)
      ensures r.Ok? ==>
        && r.value.index == old(free[0]) && r.value.length == length && |r.value.buffer| == chunkCapacity
        && r.value.index < slots.Length && old(slots[..])[r.value.index] == Some(r.value.buffer)
        && slots[..] == old(slots[..])[r.value.index := None]
        && free == old(free[1..]) && loans == old(loans)[r.value.index := length] && r.value.index !in old(loans)
    {
      hide Partition, Stored, Queued;
      if length > chunkCapacity {
        return Err(MessageTooLarge);
      }
      if free == [] {
        return Err(Backpressured);
      }
      var index := free[0];
      TakeFree(slots[..], chunkCapacity, free, ready, loans, receipts, committed[delivered..], length);
      free := free[1..];
      loaned := loaned + 1;
      loans := loans[index := length];
      var buffer := slots[index].value;
      slots[index] := None;
      r := Ok(Chunk(index, length, buffer));
    }

    /** Publishes a loan at the end of the ready queue. */
    method Commit(loan: Chunk)
      requires Valid() && loan.index in loans && loans[loan.index] == loan.length <= chunkCapacity
      requires |loan.buffer| == chunkCapacity
      modifies this`ready, this`loaned, this`loans, this`committed, slots
      ensures Valid()
      ensures committed == old(committed) + [loan.Payload()] && loans == Without(old(loans), loan.index)
      ensures ready == old(ready) + [(loan.index, loan.length)]
      ensures loan.index < slots.Length && slots[..] == old(slots[..])[loan.index := Some(loan.buffer)]
    {
      hide Partition, Stored, Queued;
      PutReady(slots[..], chunkCapacity, free, ready, loans, receipts, committed[delivered..], loan);
      slots[loan.index] := Some(loan.buffer);
      loaned := loaned - 1;
      loans := Without(loans, loan.index);
      ready := ready + [(loan.index, loan.length)];
      assert (committed + [loan.Payload()])[delivered..] == committed[delivered..] + [loan.Payload()];
      committed := committed + [loan.Payload()];
    }

    /** Dropping a loan returns its slab to the free queue. */
    method DropLoan(loan: Chunk)
      requires Valid() && loan.index in loans && |loan.buffer| == chunkCapacity
      modifies this`free, this`loaned, this`loans, slots
      ensures Valid()
      ensures free == old(free) + [loan.index] && loans == Without(old(loans), loan.index)
      ensures loan.index < slots.Length && slots[..] == old(slots[..])[loan.index := Some(loan.buffer)]
    {
      hide Partition, Stored, Queued;
      PutFree(slots[..], chunkCapacity, free, ready, loans, receipts, committed[delivered..], loan.index, loan.buffer);
      slots[loan.index] := Some(loan.buffer);
      loaned := loaned - 1;
      loans := Without(loans, loan.index);
      free := free + [loan.index];
    }

    /** Hands out the oldest committed payload that was not received yet, unchanged. */
    method Receive() returns (r: Result<Option<Chunk>>)
      requires Valid()
      modifies this`ready, this`received, this`receipts, this`delivered, slots
      ensures Valid() && r.Ok?
      ensures r.value.None? <==> old(delivered) == |committed|
      ensures r.value.None? ==> unchanged(this) && unchanged(slots)
      ensures r.value.Some? ==>
        && r.value.value.Payload() == committed[old(delivered)] && delivered == old(delivered) + 1
        && |r.value.value.buffer| == chunkCapacity
        && old(ready) == [(r.value.value.index, r.value.value.length)] + ready
        && r.value.value.index < slots.Length && old(slots[..])[r.value.value.index] == Some(r.value.value.buffer)
        && slots[..] == old(slots[..])[r.value.value.index := None]
        && receipts == old(receipts)[r.value.value.index := r.value.value.length]
        && r.value.value.index !in old(receipts)
    {
      hide Partition, Stored;
      if ready == [] {
        return Ok(None);
      }
      var (index, length) := ready[0];
      TakeReady(slots[..], chunkCapacity, free, ready, loans, receipts, committed[delivered..]);
      ready := ready[1..];
      received := received + 1;
      receipts := receipts[index := length];
      var buffer := slots[index].value;
      slots[index] := None;
      assert committed[delivered..][1..] == committed[delivered + 1..];
      delivered := delivered + 1;
      r := Ok(Some(Chunk(index, length, buffer)));
    }

    /** Dropping or releasing a receipt returns its slab to the free queue. */
    method Release(receipt: Chunk)
      requires Valid() && receipt.index in receipts && |receipt.buffer| == chunkCapacity
      modifies this`free, this`received, this`receipts, slots
      ensures Valid()
      ensures free == old(free) + [receipt.index] && receipts == Without(old(receipts), receipt.index)
      ensures receipt.index < slots.Length && slots[..] == old(slots[..])[receipt.index := Some(receipt.buffer)]
    {
      hide Partition, Stored, Queued;
      Swapped(chunkCount, free, ready, loans, receipts);
      PutFree(slots[..], chunkCapacity, free, ready, receipts, loans, committed[delivered..], receipt.index, receipt.buffer);
      slots[receipt.index] := Some(receipt.buffer);
      received := received - 1;
      receipts := Without(receipts, receipt.index);
      free := free + [receipt.index];
      Swapped(chunkCount, free, ready, receipts, loans);
    }

    /** One exchange over an otherwise drained pool: whatever the slab held before, the consumer gets
        exactly the bytes the producer wrote, and afterwards every slab that was free is free again. */
    method Exchange(payload: seq<u8>) returns (r: Result<seq<u8>>)
      requires Valid() && delivered == |committed|
      modifies this, slots
      ensures Valid() && delivered == |committed|
      ensures r.Ok? <==> |payload| <= chunkCapacity && old(free) != []
      ensures r.Ok? ==> r.value == payload && committed == old(committed) + [payload]
      ensures r.Ok? ==> free == old(free[1..] + [free[0]])
      ensures r.Err? ==> unchanged(this) && unchanged(slots)
    {
      hide Partition, Stored, Without;
      assert ready == [];
      var loaned :- Loan(|payload|);
      var filled := Filled(loaned, payload);
      Commit(filled);
      var received := Receive();
      var receipt := received.value.value;
      r := Ok(receipt.Payload());
      Release(receipt);
    }

    /** The counts of a snapshot always account for every slab. */
    method Diagnostics() returns (d: PoolDiagnostics)
      requires Valid()
      ensures d == PoolDiagnostics(chunkCount, |free|, |loans|, |ready|, |receipts|)
      ensures d.free + d.loaned + d.ready + d.received == d.chunkCount
    {
      CountsAddUp(chunkCount, free, ready, loans, receipts);
      d := PoolDiagnostics(chunkCount, |free|, loaned, |ready|, received);
    }
  }

  lemma {:induction false} EverySlabFree(count: nat)
    ensures Partition(count, FreeQueue(count), [], map[], map[])
  {
    if count > 0 {
      EverySlabFree(count - 1);
      assert FreeQueue(count) == FreeQueue(count - 1) + [count - 1];
      var last: nat := count - 1;
      assert multiset(Slabs(count)) == multiset(Slabs(last)) + multiset{last};
    }
  }

  lemma StoredInitially(slots: Slots, capacity: nat)
    requires forall i :: 0 <= i < |slots| ==> slots[i].Some? && |slots[i].value| == capacity
    ensures Stored(slots, capacity, FreeQueue(|slots|), []) && Queued(slots, capacity, [], [])
  {
    forall i | 0 <= i < |slots|
      ensures i in FreeQueue(|slots|)
    {
      assert FreeQueue(|slots|)[i] == i;
    }
  }

  lemma Swapped(count: nat, free: seq<nat>, ready: seq<(nat, nat)>, loans: map<nat, nat>, receipts: map<nat, nat>)
    requires Partition(count, free, ready, loans, receipts)
    ensures Partition(count, free, ready, receipts, loans)
  {
  }

  lemma KeyLeaves(m: map<nat, nat>, i: nat)
    requires i in m
    ensures multiset(m.Keys) == multiset(Without(m, i).Keys) + multiset{i}
    ensures |m| == |Without(m, i)| + 1
  {
    assert m.Keys == Without(m, i).Keys + {i};
    assert |m| == |m.Keys| && |Without(m, i)| == |Without(m, i).Keys|;
  }

  lemma KeyJoins(m: map<nat, nat>, i: nat, n: nat)
    requires i !in m
    ensures multiset(m[i := n].Keys) == multiset(m.Keys) + multiset{i}
    ensures |m[i := n]| == |m| + 1
  {
    assert m[i := n].Keys == m.Keys + {i};
    assert |m| == |m.Keys| && |m[i := n]| == |m[i := n].Keys|;
  }

  /** A slab moves from the free queue to a loan. */
  lemma TakeFree(slots: Slots, capacity: nat, free: seq<nat>, ready: seq<(nat, nat)>, loans: map<nat, nat>,
                 receipts: map<nat, nat>, waiting: seq<seq<u8>>, length: nat)
    requires Partition(|slots|, free, ready, loans, receipts) && free != []
    requires Stored(slots, capacity, free, ready) && Queued(slots, capacity, ready, waiting)
    ensures free[0] < |slots| && free[0] !in loans && slots[free[0]].Some? && |slots[free[0]].value| == capacity
    ensures var after := slots[free[0] := None];
            && Partition(|slots|, free[1..], ready, loans[free[0] := length], receipts)
            && Stored(after, capacity, free[1..], ready) && Queued(after, capacity, ready, waiting)
    ensures |loans[free[0] := length]| == |loans| + 1
  {
    var i := free[0];
    OneOwner(|slots|, free, ready, loans, receipts, i);
    NoDuplicates(|slots|, free, ready, loans, receipts);
    KeyJoins(loans, i, length);
    assert free == [i] + free[1..];
    assert forall k :: 0 <= k < |ready| ==> ready[k].0 == Indexes(ready)[k] && Indexes(ready)[k] in Indexes(ready);
  }

  /** A slab moves from a loan to the end of the ready queue. */
  lemma PutReady(slots: Slots, capacity: nat, free: seq<nat>, ready: seq<(nat, nat)>, loans: map<nat, nat>,
                 receipts: map<nat, nat>, waiting: seq<seq<u8>>, loan: Chunk)
    requires Partition(|slots|, free, ready, loans, receipts)
    requires loan.index in loans && loan.length <= capacity == |loan.buffer|
    requires Stored(slots, capacity, free, ready) && Queued(slots, capacity, ready, waiting)
    ensures loan.index < |slots|
    ensures var after := slots[loan.index := Some(loan.buffer)];
            var queue := ready + [(loan.index, loan.length)];
            && Partition(|slots|, free, queue, Without(loans, loan.index), receipts)
            && Stored(after, capacity, free, queue)
            && Queued(after, capacity, queue, waiting + [loan.Payload()])
    ensures |loans| == |Without(loans, loan.index)| + 1
  {
    OneOwner(|slots|, free, ready, loans, receipts, loan.index);
    KeyLeaves(loans, loan.index);
    assert Indexes(ready + [(loan.index, loan.length)]) == Indexes(ready) + [loan.index];
    assert forall k :: 0 <= k < |ready| ==> ready[k].0 == Indexes(ready)[k] && Indexes(ready)[k] in Indexes(ready);
  }

  /** A slab moves from a loan (or a receipt) to the end of the free queue. */
  lemma PutFree(slots: Slots, capacity: nat, free: seq<nat>, ready: seq<(nat, nat)>, loans: map<nat, nat>,
                receipts: map<nat, nat>, waiting: seq<seq<u8>>, i: nat, buffer: seq<u8>)
    requires Partition(|slots|, free, ready, loans, receipts) && i in loans && |buffer| == capacity
    requires Stored(slots, capacity, free, ready) && Queued(slots, capacity, ready, waiting)
    ensures i < |slots|
    ensures var after := slots[i := Some(buffer)];
            && Partition(|slots|, free + [i], ready, Without(loans, i), receipts)
            && Stored(after, capacity, free + [i], ready) && Queued(after, capacity, ready, waiting)
    ensures |loans| == |Without(loans, i)| + 1
  {
    OneOwner(|slots|, free, ready, loans, receipts, i);
    KeyLeaves(loans, i);
    assert forall k :: 0 <= k < |ready| ==> ready[k].0 == Indexes(ready)[k] && Indexes(ready)[k] in Indexes(ready);
  }

  /** A slab moves from the front of the ready queue to a receipt. */
  lemma TakeReady(slots: Slots, capacity: nat, free: seq<nat>, ready: seq<(nat, nat)>, loans: map<nat, nat>,
                  receipts: map<nat, nat>, waiting: seq<seq<u8>>)
    requires Partition(|slots|, free, ready, loans, receipts) && ready != []
    requires Stored(slots, capacity, free, ready) && Queued(slots, capacity, ready, waiting)
    ensures ready[0].0 < |slots| && ready[0].0 !in receipts
    ensures var after := slots[ready[0].0 := None];
            && Partition(|slots|, free, ready[1..], loans, receipts[ready[0].0 := ready[0].1])
            && Stored(after, capacity, free, ready[1..]) && Queued(after, capacity, ready[1..], waiting[1..])
    ensures |receipts[ready[0].0 := ready[0].1]| == |receipts| + 1
  {
    hide Partition;
    var i := ready[0].0;
    FrontMoves(|slots|, free, ready, loans, receipts);
    OneOwner(|slots|, free, ready, loans, receipts, i);
    NoDuplicates(|slots|, free, ready, loans, receipts);
  }

  lemma FrontMoves(count: nat, free: seq<nat>, ready: seq<(nat, nat)>, loans: map<nat, nat>, receipts: map<nat, nat>)
    requires Partition(count, free, ready, loans, receipts) && ready != []
    ensures ready[0].0 < count && ready[0].0 !in receipts
    ensures Partition(count, free, ready[1..], loans, receipts[ready[0].0 := ready[0].1])
    ensures |receipts[ready[0].0 := ready[0].1]| == |receipts| + 1
    ensures Indexes(ready) == [ready[0].0] + Indexes(ready[1..])
  {
    var i := ready[0].0;
    assert Indexes(ready) == [i] + Indexes(ready[1..]);
    OneOwner(count, free, ready, loans, receipts, i);
    KeyJoins(receipts, i, ready[0].1);
  }
}
