/** Bounded fragmentation and single-message reassembly (crates/data-plane/nwipc-fragment). */
module Fragmentation {
  import opened Wrappers
  import opened Words
  import opened Record
  import opened Geometry
  import opened BatchPlan

  const LAST_FRAGMENT: u16 := FRAGMENTED + END_OF_MESSAGE

  /** Splitting into chunks of `inline` bytes, the last one possibly shorter. */
  function Pieces(payload: seq<u8>, inline: nat): (p: seq<Fragment>)
    requires inline > 0
    ensures |p| > 0
    decreases |payload|
  {
    if |payload| <= inline then [Fragment(payload, LAST_FRAGMENT)]
    else [Fragment(payload[..inline], FRAGMENTED)] + Pieces(payload[inline..], inline)
  }

  function Payloads(fragments: seq<Fragment>): seq<u8> {
    if fragments == [] then [] else fragments[0].payload + Payloads(fragments[1..])
  }

  /** The limits; the constructor below admits exactly the valid ones. */
  datatype Fragmenter = Fragmenter(maximumInline: u32, maximumMessage: u32) {

    predicate Valid() {
      0 < maximumInline <= maximumMessage
    }

    static function New(maximumInline: u32, maximumMessage: u32): (r: Result<Fragmenter>)
      ensures r.Ok? ==> r.value.Valid()
    {
      if maximumInline == 0 || maximumMessage < maximumInline then Err(InvalidRange)
      else Ok(Fragmenter(maximumInline, maximumMessage))
    }

    function Fragments(payload: seq<u8>): Result<seq<Fragment>>
      requires Valid()
    {
      if |payload| >= TWO32 || |payload| > maximumMessage then
        Err(MessageTooLarge)
      else if |payload| <= maximumInline then
        Ok([Fragment(payload, END_OF_MESSAGE)])
      else
        Ok(Pieces(payload, maximumInline))
    }

    function MaximumWireBytes(): Result<u32>
      requires Valid()
    {
      WireBytes(maximumInline, maximumMessage)
    }

    function MaximumRecordLength(): Result<u32> {
      CheckedRecordLength(maximumInline)
    }

    function MaximumBatchBytes(): Result<u32>
      requires Valid()
    {
      var wire :- MaximumWireBytes();
      var length :- MaximumRecordLength();
      if wire + length >= TWO32 || wire + length < ALIGNMENT then Err(InvalidRange)
      else Ok(wire + length - ALIGNMENT)
    }
  }

  function CheckedRecordLength(payload: u32): Result<u32> {
    if PREFIX_SIZE + payload + ALIGNMENT - 1 >= TWO32 then Err(InvalidRange) else Ok(RecordLength(payload))
  }

  function Times(a: nat, b: nat): nat {
    a * b
  }

  function WireBytes(inline: u32, message: u32): Result<u32>
    requires inline > 0
  {
    var each :- CheckedRecordLength(inline);
    var fullBytes := Times(each, message / inline);
    if fullBytes >= TWO32 then Err(InvalidRange)
    else if message % inline == 0 then Ok(fullBytes)
    else
      var last :- CheckedRecordLength(message % inline);
      if fullBytes + last >= TWO32 then Err(InvalidRange) else Ok(fullBytes + last)
  }

  /** A record with a full inline payload is too long for a u32. */
  predicate LargestRecordOverflows(inline: u32) {
    PREFIX_SIZE + inline + ALIGNMENT - 1 >= TWO32
  }

  /** Encoded bytes of a batch, without wrap padding. */
  function RecordBytesOf(fragments: seq<Fragment>): nat {
    if fragments == [] then 0 else RecordLength(|fragments[0].payload|) + RecordBytesOf(fragments[1..])
  }

  /** Fragments put together again are the message. */
  lemma {:induction false} PiecesRejoin(payload: seq<u8>, inline: nat)
    requires inline > 0
    ensures Payloads(Pieces(payload, inline)) == payload
    decreases |payload|
  {
    if |payload| <= inline {
      assert Payloads([Fragment(payload, LAST_FRAGMENT)]) == payload + Payloads([]);
    } else {
      PiecesRejoin(payload[inline..], inline);
      assert payload == payload[..inline] + payload[inline..];
      assert Pieces(payload, inline)[1..] == Pieces(payload[inline..], inline);
    }
  }

  /** Fragment k is chunk k of the payload: deterministic boundaries, and only the last one ends the
      message. */
  lemma {:induction false} PieceAt(payload: seq<u8>, inline: nat, k: nat)
    requires inline > 0 && k < |Pieces(payload, inline)|
    ensures k * inline <= |payload|
    ensures var rest := payload[k * inline..];
            Pieces(payload, inline)[k] ==
              if k == |Pieces(payload, inline)| - 1 then Fragment(rest, LAST_FRAGMENT)
              else if |rest| > inline then Fragment(rest[..inline], FRAGMENTED) else Fragment([], 0)
    ensures k < |Pieces(payload, inline)| - 1 <==> |payload| > (k + 1) * inline
    decreases |payload|
  {
    if |payload| > inline {
      var more := Pieces(payload[inline..], inline);
      if k == 0 {
        assert payload[0..] == payload;
      } else {
        PieceAt(payload[inline..], inline, k - 1);
        assert k * inline == (k - 1) * inline + inline;
        assert (k + 1) * inline == k * inline + inline;
        assert payload[inline..][(k - 1) * inline..] == payload[k * inline..];
      }
    } else {
      assert payload[0..] == payload;
    }
  }

  predicate Fits(fragments: seq<Fragment>, inline: nat) {
    forall i :: 0 <= i < |fragments| ==>
      |fragments[i].payload| <= inline && !UnknownRequiredBits(fragments[i].flags)
  }

  lemma {:induction false} PiecesFit(payload: seq<u8>, inline: nat)
    requires inline > 0
    ensures Fits(Pieces(payload, inline), inline)
    decreases |payload|
  {
    if |payload| > inline {
      PiecesFit(payload[inline..], inline);
    }
  }

  /** Total encoded length of a non-empty message of n bytes. */
  function WireSum(n: nat, inline: nat): nat
    requires inline > 0
    decreases n
  {
    if n == 0 then 0
    else if n <= inline then RecordLength(n)
    else RecordLength(inline) + WireSum(n - inline, inline)
  }

  lemma {:induction false} PiecesWireSum(payload: seq<u8>, inline: nat)
    requires inline > 0 && payload != []
    ensures RecordBytesOf(Pieces(payload, inline)) == WireSum(|payload|, inline)
    decreases |payload|
  {
    if |payload| <= inline {
      assert RecordBytesOf([Fragment(payload, LAST_FRAGMENT)]) == RecordLength(|payload|) + RecordBytesOf([]);
    } else {
      PiecesWireSum(payload[inline..], inline);
      assert Pieces(payload, inline)[1..] == Pieces(payload[inline..], inline);
    }
  }

  function Quotient(n: nat, m: nat): nat
    requires m > 0
  {
    n / m
  }

  function Remainder(n: nat, m: nat): nat
    requires m > 0
  {
    n % m
  }

  lemma DivideSmall(n: nat, m: nat)
    requires n < m
    ensures Quotient(n, m) == 0 && Remainder(n, m) == n
  {
    RemainderUnique(n, 0, n, m);
    QuotientUnique(n, 0, n, m);
  }

  lemma DivideStep(n: nat, m: nat)
    requires 0 < m <= n
    ensures Quotient(n, m) == Quotient(n - m, m) + 1 && Remainder(n, m) == Remainder(n - m, m)
  {
    var q, r := (n - m) / m, (n - m) % m;
    assert n - m == q * m + r;
    assert (q + 1) * m == q * m + m;
    RemainderUnique(n, q + 1, r, m);
    QuotientUnique(n, q + 1, r, m);
  }

  lemma {:induction false} WireSumClosed(n: nat, inline: nat)
    requires inline > 0
    ensures WireSum(n, inline) == Times(RecordLength(inline), Quotient(n, inline))
                                  + if Remainder(n, inline) == 0 then 0 else RecordLength(Remainder(n, inline))
    decreases n
  {
    hide RecordLength, Times, Quotient, Remainder;
    if n < inline {
      TimesZero(RecordLength(inline));
      DivideSmall(n, inline);
    } else {
      WireSumClosed(n - inline, inline);
      DivideStep(n, inline);
      TimesNext(RecordLength(inline), Quotient(n - inline, inline));
      if n == inline {
        DivideSmall(0, inline);
        TimesZero(RecordLength(inline));
      }
    }
  }

  lemma TimesZero(a: nat)
    ensures Times(a, 0) == 0
  {
  }

  lemma TimesNext(a: nat, b: nat)
    ensures Times(a, b + 1) == Times(a, b) + a
    ensures Times(a, 0) == 0
  {
  }

  lemma {:induction false} WireSumMonotone(a: nat, b: nat, inline: nat)
    requires inline > 0 && a <= b
    ensures WireSum(a, inline) <= WireSum(b, inline)
    decreases b
  {
    if 0 < a && a <= inline && b <= inline {
    } else if a > inline {
      WireSumMonotone(a - inline, b - inline, inline);
    }
  }

  /** `wire_bytes` is the total encoded length of every non-empty message, and fails exactly when that
      total or a largest record is not a u32. */
  lemma WireBytesIsBatchLength(f: Fragmenter, payload: seq<u8>)
    requires f.Valid() && f.Fragments(payload).Ok? && payload != []
    ensures var total := RecordBytesOf(f.Fragments(payload).value);
            && total == WireSum(|payload|, f.maximumInline)
            && WireBytes(f.maximumInline, |payload|)
               == if LargestRecordOverflows(f.maximumInline) || total >= TWO32 then Err(InvalidRange) else Ok(total)
  {
    hide WireBytes, WireSum, RecordLength, RecordBytesOf;
    WireBytesIsWireSum(f.maximumInline, |payload|);
    if |payload| <= f.maximumInline {
      OneRecord(payload, f.maximumInline);
    } else {
      PiecesWireSum(payload, f.maximumInline);
    }
  }

  lemma WireBytesIsWireSum(inline: u32, message: u32)
    requires inline > 0
    ensures WireBytes(inline, message) ==
      if LargestRecordOverflows(inline) || WireSum(message, inline) >= TWO32 then Err(InvalidRange)
      else Ok(WireSum(message, inline))
  {
    hide WireSum, RecordLength, Times;
    WireSumClosed(message, inline);
    RecordLengthAligned(Remainder(message, inline));
  }

  lemma OneRecord(payload: seq<u8>, inline: nat)
    requires payload != [] && |payload| <= inline
    ensures RecordBytesOf([Fragment(payload, END_OF_MESSAGE)]) == WireSum(|payload|, inline)
  {
    hide RecordLength;
    assert RecordBytesOf([Fragment(payload, END_OF_MESSAGE)]) == RecordLength(|payload|) + RecordBytesOf([]);
  }
}
