/**
  The back-pressure test leaves the padding out. These lemmas say exactly when that matters and how
  far the damage reaches; FaultyRun.dfy shows that it does happen.
 */
module Overshoot {
  import opened Ring
  import opened ArenaModel
  import opened Invariant
  import opened Refinement
  import opened Runs

  /** The next record, if its payload has this length, is laid over the byte that `v` addresses. */
  predicate Overwrites(head: nat, length: nat, v: nat) {
    (v % SIZE - (head + Pad(head))) % SIZE < HDR + length
  }

  /** The back-pressure test lets a payload of this length pass. */
  predicate Granting(head: nat, tail: nat, length: nat) {
    tail <= head && 0 < length <= MAX_PAYLOAD_LENGTH && head + HDR + length - tail < SIZE
  }

  /** How far the record written next would reach into the lap before it. */
  function Overlap(head: nat, tail: nat, length: nat): int {
    head + Pad(head) + HDR + length - (tail + SIZE)
  }

  lemma OverwrittenBytes(head: nat, tail: nat, length: nat, v: nat)
    requires Granting(head, tail, length) && tail <= v < head
    ensures Overwrites(head, length, v) <==> v < tail + Overlap(head, tail, length)
  {
    var start := head + Pad(head);
    hide Pad;
    assert (v + SIZE) % SIZE == v % SIZE;
    Distance(start, v + SIZE);
  }

  /** A granted write spares every byte of the window if and only if it fits. */
  lemma WriteSparesWindowIffFits(head: nat, tail: nat, length: nat)
    requires Granting(head, tail, length)
    ensures (forall v: nat :: tail <= v < head ==> !Overwrites(head, length, v)) <==>
            Fits(head, tail, length)
  {
    forall v: nat | tail <= v < head
      ensures Overwrites(head, length, v) <==> v < tail + Overlap(head, tail, length)
    {
      OverwrittenBytes(head, tail, length, v);
    }
    if Overlap(head, tail, length) > 0 {
      assert Overwrites(head, length, tail);
    }
  }

  /**
    A granted record overshoots by at most ten bytes. It then finds the oldest record at the
    tail, never padding, and stays inside that record's header.
   */
  lemma OvershootHitsTheOldestHeader(a: Arena, q: seq<Record>, length: nat)
    requires Inv(a, q) && Granting(a.head, a.tail, length)
    ensures Overlap(a.head, a.tail, length) <= 10 < HDR
    ensures !Fits(a.head, a.tail, length) ==>
              0 < Overlap(a.head, a.tail, length) && q != [] && q[0].start == a.tail
  {
  }

  lemma LastByteIndex(head: nat, tail: nat, length: nat)
    requires Granting(head, tail, length) && !Fits(head, tail, length)
    ensures var k := Overlap(head, tail, length) - 1;
            k >= 0 && tail + k + SIZE == head + Pad(head) + (HDR + length - 1)
  {
  }

  lemma LastByteOfRecord(node: Uint32, payload: seq<Byte>)
    requires 0 < |payload| <= MAX_PAYLOAD_LENGTH
    ensures RecordBytes(node, payload)[HDR + |payload| - 1] == payload[|payload| - 1]
  {
    hide HeaderBytes;
  }

  /** A byte laid down one lap ahead is found in this lap. */
  lemma ByteLands(mem: Memory, v: nat, bytes: seq<Byte>, m: nat, u: nat, k: nat)
    requires m < |bytes| <= SIZE && u + k + SIZE == v + m
    ensures Slice(Put(mem, v, bytes), u, k + 1)[k] == bytes[m]
  {
    hide Put;
    PutThenSlice(mem, v, bytes);
    assert Slice(Put(mem, v, bytes), v, |bytes|)[m] == Put(mem, v, bytes)[(v + m) % SIZE];
  }

  /** Where the last byte of an overshooting record ends up. */
  lemma LastByteLands(mem: Memory, head: nat, tail: nat, node: Uint32, payload: seq<Byte>)
    requires Granting(head, tail, |payload|) && !Fits(head, tail, |payload|)
    ensures var k := Overlap(head, tail, |payload|) - 1;
            k >= 0 &&
            Slice(Put(mem, head + Pad(head), RecordBytes(node, payload)), tail, k + 1)[k] == payload[|payload| - 1]
  {
    hide Put, Slice, RecordBytes, Pad, Overlap, Fits;
    LastByteIndex(head, tail, |payload|);
    LastByteOfRecord(node, payload);
    ByteLands(mem, head + Pad(head), RecordBytes(node, payload), HDR + |payload| - 1,
              tail, Overlap(head, tail, |payload|) - 1);
  }

  lemma StoredByte(mem: Memory, r: Record, k: nat)
    requires Stored(mem, r) && k < HDR + |r.payload|
    ensures Slice(mem, r.start, k + 1)[k] == RecordBytes(r.node, r.payload)[k]
  {
  }

  lemma IndexInHeader(v: nat, k: nat)
    requires v % SIZE + HDR <= SIZE && k < HDR
    ensures (v + k) % SIZE == v % SIZE + k
  {
  }

  lemma HeaderByte(mem: Memory, r: Record, k: nat)
    requires r.node < TOTAL_MAX_SLOTS && |r.payload| <= MAX_PAYLOAD_LENGTH && r.start % SIZE + HDR <= SIZE && k < HDR
    requires HeaderAt(mem, r.start % SIZE) == PayloadHeader(VALID_IDENTIFIER, r.node, |r.payload|)
    ensures Slice(mem, r.start, k + 1)[k] == RecordBytes(r.node, r.payload)[k]
  {
    var i := r.start % SIZE;
    var h := PayloadHeader(VALID_IDENTIFIER, r.node, |r.payload|);
    BytesOfHeaderAt(mem, i);
    IndexInHeader(r.start, k);
    hide HeaderAt, HeaderBytes;
    assert mem[i..i + HDR][k] == mem[i + k];
    assert RecordBytes(r.node, r.payload)[k] == HeaderBytes(h)[k];
  }

  /** A byte of its header changed is enough for a record to be lost. */
  lemma HeaderLost(mem: Memory, r: Record, k: nat)
    requires r.node < TOTAL_MAX_SLOTS && |r.payload| <= MAX_PAYLOAD_LENGTH && r.start % SIZE + HDR <= SIZE && k < HDR
    requires Slice(mem, r.start, k + 1)[k] != RecordBytes(r.node, r.payload)[k]
    ensures !Stored(mem, r)
    ensures HeaderAt(mem, r.start % SIZE) != PayloadHeader(VALID_IDENTIFIER, r.node, |r.payload|)
  {
    hide Slice, RecordBytes, HeaderAt, Stored;
    if Stored(mem, r) {
      StoredByte(mem, r, k);
    }
    if HeaderAt(mem, r.start % SIZE) == PayloadHeader(VALID_IDENTIFIER, r.node, |r.payload|) {
      HeaderByte(mem, r, k);
    }
  }

  lemma OldestIsAtTail(a: Arena, q: seq<Record>, length: nat)
    requires Inv(a, q) && Granting(a.head, a.tail, length) && !Fits(a.head, a.tail, length)
    ensures q != [] && q[0].start == a.tail && a.tail % SIZE + HDR <= SIZE
    ensures q[0].node < TOTAL_MAX_SLOTS && |q[0].payload| <= MAX_PAYLOAD_LENGTH
    ensures 0 < Overlap(a.head, a.tail, length) <= HDR
  {
    OvershootHitsTheOldestHeader(a, q, length);
    assert Stored(a.mem, q[0]);
  }

  /** A payload of this length whose record changes the header at the tail. */
  lemma UnfitPayloadDestroys(a: Arena, q: seq<Record>, node: nat, length: nat) returns (payload: seq<Byte>)
    requires Inv(a, q) && Granting(a.head, a.tail, length) && !Fits(a.head, a.tail, length)
    requires node < TOTAL_MAX_SLOTS
    ensures |payload| == length && q != [] && q[0].start == a.tail && a.tail % SIZE + HDR <= SIZE
    ensures q[0].node < TOTAL_MAX_SLOTS && |q[0].payload| <= MAX_PAYLOAD_LENGTH
    ensures var mem := Append(a, a.head + Pad(a.head), node, payload).mem;
            !Stored(mem, q[0]) &&
            HeaderAt(mem, a.tail % SIZE) != PayloadHeader(VALID_IDENTIFIER, q[0].node, |q[0].payload|)
  {
    OldestIsAtTail(a, q, length);
    hide Inv, Put, Slice, RecordBytes, HeaderAt, Stored, Fits, Pad, Overlap;
    var k := Overlap(a.head, a.tail, length) - 1;
    var there := RecordBytes(q[0].node, q[0].payload)[k];
    payload := seq(length, _ => (there as int + 1) % 256);
    LastByteLands(a.mem, a.head, a.tail, node, payload);
    HeaderLost(Append(a, a.head + Pad(a.head), node, payload).mem, q[0], k);
  }

  lemma FitPayloadSpares(a: Arena, q: seq<Record>, node: nat, payload: seq<Byte>)
    requires Inv(a, q) && Granting(a.head, a.tail, |payload|) && Fits(a.head, a.tail, |payload|)
    requires q != [] && node < TOTAL_MAX_SLOTS
    ensures Stored(Append(a, a.head + Pad(a.head), node, payload).mem, q[0])
  {
    assert Stored(a.mem, q[0]);
    StoredSurvivesPut(a.mem, q[0], a.head + Pad(a.head), RecordBytes(node, payload));
  }

  /**
    The exact condition. The oldest record survives a granted write whatever its payload if and
    only if the record fits with its padding counted, which can be tested before the call.
   */
  lemma OldestRecordSafeIffFits(a: Arena, q: seq<Record>, node: nat, length: nat)
    requires Inv(a, q) && Granting(a.head, a.tail, length) && q != [] && node < TOTAL_MAX_SLOTS
    ensures (forall payload: seq<Byte> :: |payload| == length ==>
              Stored(Append(a, a.head + Pad(a.head), node, payload).mem, q[0])) <==>
            Fits(a.head, a.tail, length)
  {
    hide Inv, Stored, Append, Fits;
    if Fits(a.head, a.tail, length) {
      forall payload: seq<Byte> | |payload| == length
        ensures Stored(Append(a, a.head + Pad(a.head), node, payload).mem, q[0])
      {
        FitPayloadSpares(a, q, node, payload);
      }
    } else {
      var payload := UnfitPayloadDestroys(a, q, node, length);
    }
  }

  lemma FollowingNeedsHeader(a: Arena, q: seq<Record>)
    requires a.head > a.tail + SIZE && a.head <= a.tail + SIZE + HDR && q != [] && a.tail % SIZE + HDR <= SIZE
    requires q[0].node < TOTAL_MAX_SLOTS && |q[0].payload| <= MAX_PAYLOAD_LENGTH
    requires HeaderAt(a.mem, a.tail % SIZE) != PayloadHeader(VALID_IDENTIFIER, q[0].node, |q[0].payload|)
    ensures !FollowsTheRecords(a, q)
  {
    hide HeaderAt, Slice, Put, RecordBytes;
  }

  lemma FitSetIsFollowed(a: Arena, q: seq<Record>, node: nat, payload: seq<Byte>)
    requires Inv(a, q) && Granting(a.head, a.tail, |payload|) && Fits(a.head, a.tail, |payload|)
    requires node < TOTAL_MAX_SLOTS
    ensures FollowsTheRecords(SetCache(a, node, payload).0, q + [Record(a.head + Pad(a.head), node, payload)])
  {
    hide Inv, FollowsTheRecords;
    AllocateGrants(a, q, |payload|);
    SetCacheKeepsInv(a, q, node, payload);
    InvMeansFollowing(SetCache(a, node, payload).0, q + [Record(a.head + Pad(a.head), node, payload)]);
  }

  lemma UnfitSetIsNotFollowed(a: Arena, q: seq<Record>, node: nat, length: nat) returns (payload: seq<Byte>)
    requires Inv(a, q) && Granting(a.head, a.tail, length) && !Fits(a.head, a.tail, length)
    requires node < TOTAL_MAX_SLOTS
    ensures |payload| == length
    ensures !FollowsTheRecords(SetCache(a, node, payload).0, q + [Record(a.head + Pad(a.head), node, payload)])
  {
    hide Inv, FollowsTheRecords, Stored, HeaderAt, Put, RecordBytes;
    payload := UnfitPayloadDestroys(a, q, node, length);
    AllocateGrants(a, q, length);
    WindowIsOrdered(a, q);
    var b, r := SetCache(a, node, payload).0, Record(a.head + Pad(a.head), node, payload);
    assert (q + [r])[0] == q[0];
    FollowingNeedsHeader(b, q + [r]);
  }

  /**
    The exact condition for the collector. After a granted SetCache its next iteration goes by the
    records, whatever bytes the payload has, if and only if the record fits.
   */
  lemma CollectorFollowsIffFits(a: Arena, q: seq<Record>, node: nat, length: nat)
    requires Inv(a, q) && Granting(a.head, a.tail, length) && node < TOTAL_MAX_SLOTS
    ensures (forall payload: seq<Byte> :: |payload| == length ==>
              FollowsTheRecords(SetCache(a, node, payload).0,
                                q + [Record(a.head + Pad(a.head), node, payload)])) <==>
            Fits(a.head, a.tail, length)
  {
    hide Inv, FollowsTheRecords, SetCache, Fits;
    if Fits(a.head, a.tail, length) {
      forall payload: seq<Byte> | |payload| == length
        ensures FollowsTheRecords(SetCache(a, node, payload).0,
                                  q + [Record(a.head + Pad(a.head), node, payload)])
      {
        FitSetIsFollowed(a, q, node, payload);
      }
    } else {
      var payload := UnfitSetIsNotFollowed(a, q, node, length);
    }
  }
}
