/**
  The arena as the source has it: arrays and counters updated in place. Every method is
  proved to compute the step of ArenaModel.dfy that it stands for.
 */
module MemoryArenas {
  import opened Node
  import opened Ring
  import opened ArenaModel
  import opened Invariant
  import opened Refinement
  import opened Collector
  import opened CosineSimilarity

  // ----- laying bytes down piece by piece -----

  /** Two adjacent writes are one. */
  lemma PutInTwo(mem: Memory, v: nat, x: seq<Byte>, y: seq<Byte>)
    requires |x| + |y| <= SIZE
    ensures Put(Put(mem, v, x), v + |x|, y) == Put(mem, v, x + y)
  {
  }

  /** A write that does not cross the border is a plain copy. */
  lemma PutContiguous(mem: Memory, v: nat, bytes: seq<Byte>)
    requires v % SIZE + |bytes| <= SIZE
    ensures var i := v % SIZE; Put(mem, v, bytes) == mem[..i] + bytes + mem[i + |bytes|..]
  {
  }

  /** A write that crosses the border is two plain copies, the second at the very start. */
  lemma PutAcrossBorder(mem: Memory, v: nat, bytes: seq<Byte>)
    requires |bytes| <= SIZE < v % SIZE + |bytes|
    ensures var i, c := v % SIZE, SIZE - v % SIZE;
            Put(mem, v, bytes) == bytes[c..] + (mem[..i] + bytes[..c])[|bytes| - c..]
  {
  }

  lemma SliceContiguous(mem: Memory, v: nat, n: nat)
    requires v % SIZE + n <= SIZE
    ensures Slice(mem, v, n) == mem[v % SIZE..v % SIZE + n]
  {
  }

  lemma SliceInTwo(mem: Memory, v: nat, n: nat, m: nat)
    ensures Slice(mem, v, n) + Slice(mem, v + n, m) == Slice(mem, v, n + m)
  {
  }

  lemma NothingPut(mem: Memory, src: nat, dst: nat)
    ensures Put(mem, dst, Slice(mem, src, 0)) == mem
  {
  }

  /** The index at which byte `done` of a window from `v` on lies. */
  function Index(v: nat, done: nat): (i: nat)
    ensures i < SIZE
  {
    (v + done) % SIZE
  }

  /** One chunk of the rescue copy, on the buffer as a whole. */
  lemma ChunkCopied(before: Memory, src: nat, dst: nat, done: nat, chunk: nat, mid: Memory, after: Memory)
    requires src + done + chunk <= dst && dst + done + chunk <= src + SIZE
    requires mid == Put(before, dst, Slice(before, src, done))
    requires Index(src, done) + chunk <= SIZE && Index(dst, done) + chunk <= SIZE
    requires var s, d := Index(src, done), Index(dst, done);
             after == mid[..d] + mid[s..s + chunk] + mid[d + chunk..]
    ensures after == Put(before, dst, Slice(before, src, done + chunk))
  {
    hide Put, Slice;
    PutFrame(before, dst, Slice(before, src, done), src + done, chunk);
    SliceContiguous(mid, src + done, chunk);
    PutContiguous(mid, dst + done, Slice(before, src + done, chunk));
    PutInTwo(before, dst, Slice(before, src, done), Slice(before, src + done, chunk));
    SliceInTwo(before, src, done, chunk);
  }

  /** What one collector iteration needs so as not to touch memory it does not own. */
  predicate MemorySafe(a: Arena) {
    && a.tail <= a.head <= a.tail + SIZE + HDR
    && !Collect(a).1.ForeignHeader?
    && (Collect(a).1.Rescued? ==> Collect(a).0.tail <= a.head)
  }

  lemma InvIsMemorySafe(a: Arena, q: seq<Record>)
    requires Inv(a, q)
    ensures MemorySafe(a)
  {
    CollectorSeesTheQueue(a, q);
    if Collect(a).1.Rescued? {
      RescueCopiesTheOldest(a, q);
    }
  }

  lemma StartOfCollects(a: Arena)
    ensures Collects(a, 0) == a
  {
  }

  /** The head after the first k moves of other threads. */
  function MovedHead(head: nat, moves: seq<nat>, k: nat): nat
    requires k <= |moves|
  {
    if k == 0 then head else MovedHead(head, moves, k - 1) + moves[k - 1]
  }

  class MemoryArena {
    // Vector Arena
    const metadata: array<MetaNode>
    const vectors: array<Vector>
    // Payload Arena
    const bufferPayload: array<Byte>
    var writeHead: nat
    var readTail: nat

    ghost predicate Valid()
      reads this
    {
      && metadata.Length == TOTAL_MAX_SLOTS
      && vectors.Length == TOTAL_MAX_SLOTS
      && bufferPayload.Length == SIZE
    }

    ghost predicate ValidVectors()
      requires Valid()
      reads this, vectors
    {
      forall i :: 0 <= i < TOTAL_MAX_SLOTS ==> |vectors[i]| == VECTOR_DIM
    }

    /** Every control word fits its 64 bits. */
    ghost predicate ValidWords()
      requires Valid()
      reads this, metadata
    {
      forall i :: 0 <= i < TOTAL_MAX_SLOTS ==> metadata[i].control.length <= MAX_PAYLOAD_LENGTH
    }

    ghost function Model(): Arena
      requires Valid()
      reads this, metadata, bufferPayload
    {
      Arena(bufferPayload[..], writeHead, readTail, metadata[..])
    }

    constructor ()
      ensures Valid() && fresh(metadata) && fresh(vectors) && fresh(bufferPayload)
      ensures Model() == Initial() && ValidVectors() && ValidWords()
    {
      writeHead, readTail := 0, 0;
      metadata := new MetaNode[TOTAL_MAX_SLOTS](_ => MetaNode(0, Control(Dead, Cold, 0, 0)));
      vectors := new Vector[TOTAL_MAX_SLOTS](_ => seq(VECTOR_DIM, _ => 0.0));
      bufferPayload := new Byte[SIZE](_ => 0);
    }

    /** memcpy from outside the buffer. */
    method CopyIn(index: nat, bytes: seq<Byte>)
      requires Valid() && index + |bytes| <= SIZE
      modifies bufferPayload
      ensures bufferPayload[..] ==
              old(bufferPayload[..index]) + bytes + old(bufferPayload[index + |bytes|..])
    {
      forall k | 0 <= k < |bytes| {
        bufferPayload[index + k] := bytes[k];
      }
    }

    /** memcpy inside the buffer: undefined unless the two ranges are disjoint. */
    method CopyWithin(dst: nat, src: nat, n: nat)
      requires Valid() && dst + n <= SIZE && src + n <= SIZE
      requires dst + n <= src || src + n <= dst
      modifies bufferPayload
      ensures bufferPayload[..] ==
              old(bufferPayload[..dst]) + old(bufferPayload[src..src + n]) + old(bufferPayload[dst + n..])
    {
      forall k | 0 <= k < n {
        bufferPayload[dst + k] := bufferPayload[src + k];
      }
    }

    /**
      The compare-and-swap loop. `moves` tells how far other threads move the head before each
      swap of this thread that fails, 0 standing for a spurious failure; Allocator.dfy follows those
      threads too. The outcome is that of the atomic allocation at the head that the last try met.
     */
    method AllocatePayload(length: nat, moves: seq<nat>) returns (r: Allocation, tries: nat)
      requires Valid()
      modifies this`writeHead
      ensures tries <= |moves| && (r.Granted? ==> tries == |moves|)
      ensures r == Allocate(MovedHead(old(writeHead), moves, tries), readTail, length)
      ensures forall k :: 0 <= k < tries ==> Allocate(MovedHead(old(writeHead), moves, k), readTail, length).Granted?
      ensures writeHead == if r.Granted? then r.offset + HDR + length else MovedHead(old(writeHead), moves, tries)
    {
      var totalSize := HDR + length;
      var currWrite := writeHead;
      tries := 0;
      while true
        invariant tries <= |moves| && currWrite == writeHead == MovedHead(old(writeHead), moves, tries)
        invariant forall k :: 0 <= k < tries ==>
                    Allocate(MovedHead(old(writeHead), moves, k), readTail, length).Granted?
        decreases |moves| - tries
      {
        if (currWrite + totalSize - readTail) % UINT64 >= SIZE {
          return Exhausted, tries;
        }
        var actualIndex, padding := currWrite % SIZE, 0;
        if SIZE - actualIndex < HDR {
          padding := SIZE - actualIndex;
        }
        var allocatedOffset := currWrite + padding;
        if tries == |moves| {
          writeHead := allocatedOffset + totalSize;
          return Granted(allocatedOffset), tries;
        }
        writeHead := writeHead + moves[tries];
        currWrite, tries := writeHead, tries + 1;
      }
    }

    /** The text of a record goes down in one chunk, or in two where it meets the border. */
    method CopyText(start: nat, text: seq<Byte>)
      requires Valid() && |text| <= SIZE
      modifies bufferPayload
      ensures bufferPayload[..] == Put(old(bufferPayload[..]), start, text)
    {
      hide Put;
      ghost var before := bufferPayload[..];
      var textIndex := start % SIZE;
      if SIZE - textIndex >= |text| {
        CopyIn(textIndex, text);
        PutContiguous(before, start, text);
      } else {
        var chunk1 := SIZE - textIndex;
        CopyIn(textIndex, text[..chunk1]);
        CopyIn(0, text[chunk1..]);
        PutAcrossBorder(before, start, text);
      }
    }

    method WritePayload(nodeId: Uint32, payload: seq<Byte>) returns (r: Allocation)
      requires Valid() && |payload| <= MAX_PAYLOAD_LENGTH
      modifies this`writeHead, bufferPayload
      ensures r == Allocate(old(writeHead), readTail, |payload|)
      ensures Model() == if r.Granted? then Append(old(Model()), r.offset, nodeId, payload) else old(Model())
    {
      ghost var before := bufferPayload[..];
      var allocation, _ := AllocatePayload(|payload|, []);
      r := allocation;
      if r.Granted? {
        var header := PayloadHeader(VALID_IDENTIFIER, nodeId, |payload|);
        CopyIn(r.offset % SIZE, HeaderBytes(header));
        PutContiguous(before, r.offset, HeaderBytes(header));
        CopyText(r.offset + HDR, payload);
        PutInTwo(before, r.offset, HeaderBytes(header), payload);
      }
    }

    method ReadPayload(vOffset: nat, length: nat) returns (payload: seq<Byte>)
      requires Valid() && length <= SIZE
      ensures payload == Slice(bufferPayload[..], vOffset + HDR, length)
    {
      if length == 0 {
        return [];
      }
      ghost var mem := bufferPayload[..];
      var textIndex := (vOffset + HDR) % SIZE;
      if SIZE - textIndex >= length {
        payload := bufferPayload[textIndex..textIndex + length];
        SliceContiguous(mem, vOffset + HDR, length);
      } else {
        var chunk1 := SIZE - textIndex;
        payload := bufferPayload[textIndex..textIndex + chunk1] + bufferPayload[..length - chunk1];
        SliceContiguous(mem, vOffset + HDR, chunk1);
        assert (vOffset + HDR + chunk1) % SIZE == 0;
        SliceContiguous(mem, vOffset + HDR + chunk1, length - chunk1);
        SliceInTwo(mem, vOffset + HDR, chunk1, length - chunk1);
      }
    }

    /**
      The rescue copy: two indices run round the ring at once and a chunk ends where either
      meets the border. No memcpy overlaps itself, no source byte is lost before it is copied,
      and there are never more than three chunks.
     */
    method CopyRecordText(src: nat, dst: nat, textLen: nat) returns (chunks: nat)
      requires Valid() && src + textLen <= dst && dst + textLen <= src + SIZE
      modifies bufferPayload
      ensures bufferPayload[..] == Put(old(bufferPayload[..]), dst, Slice(old(bufferPayload[..]), src, textLen))
      ensures chunks <= 3
    {
      hide Put, Slice, Crossed, Index, Min;
      ghost var before := bufferPayload[..];
      var srcIdx, dstIdx, bytesLeft := src % SIZE, dst % SIZE, textLen;
      ghost var done := 0;
      chunks := 0;
      NothingPut(before, src, dst);
      StartOfWindow(src);
      StartOfWindow(dst);
      while bytesLeft > 0
        invariant 0 <= bytesLeft <= textLen && done == textLen - bytesLeft
        invariant srcIdx == Index(src, done) && dstIdx == Index(dst, done)
        invariant bufferPayload[..] == Put(before, dst, Slice(before, src, done))
        invariant bytesLeft > 0 ==> chunks <= Crossed(src, done) + Crossed(dst, done)
        invariant chunks <= 3
      {
        var chunkSize := Min(bytesLeft, Min(SIZE - srcIdx, SIZE - dstIdx));
        ghost var mid := bufferPayload[..];
        ChunkAdvances(src, dst, textLen, done, chunkSize);
        CopyWithin(dstIdx, srcIdx, chunkSize);
        ChunkCopied(before, src, dst, done, chunkSize, mid, bufferPayload[..]);
        bytesLeft := bytesLeft - chunkSize;
        done := done + chunkSize;
        srcIdx := (srcIdx + chunkSize) % SIZE;
        dstIdx := (dstIdx + chunkSize) % SIZE;
        chunks := chunks + 1;
      }
    }

    /** Lays a copy of the record at the tail down at `offset`. */
    method RescueRecord(offset: nat, header: PayloadHeader)
      requires Valid() && header.identifier == VALID_IDENTIFIER && header.length <= MAX_PAYLOAD_LENGTH
      requires offset % SIZE + HDR <= SIZE
      requires readTail + HDR + header.length <= offset && offset + header.length <= readTail + SIZE
      modifies bufferPayload
      ensures bufferPayload[..] ==
              Put(old(bufferPayload[..]), offset,
                  RecordBytes(header.nodeId, Slice(old(bufferPayload[..]), readTail + HDR, header.length)))
    {
      hide Put, Slice, HeaderBytes;
      ghost var before := bufferPayload[..];
      CopyIn(offset % SIZE, HeaderBytes(header));
      PutContiguous(before, offset, HeaderBytes(header));
      PutFrame(before, offset, HeaderBytes(header), readTail + HDR, header.length);
      var _ := CopyRecordText(readTail + HDR, offset + HDR, header.length);
      PutInTwo(before, offset, HeaderBytes(header), Slice(before, readTail + HDR, header.length));
    }

    /** The second chance of the record at the tail: a copy of it at the head, which its slot takes over. */
    method Rescue(header: PayloadHeader) returns (r: Allocation)
      requires Valid() && header.identifier == VALID_IDENTIFIER
      requires header.nodeId < TOTAL_MAX_SLOTS && header.length <= MAX_PAYLOAD_LENGTH
      requires readTail <= writeHead <= readTail + SIZE + HDR
      requires Allocate(writeHead, readTail, header.length).Granted? ==> readTail + HDR + header.length <= writeHead
      modifies this`writeHead, metadata, bufferPayload
      ensures r == Allocate(old(writeHead), readTail, header.length)
      ensures var a, n := old(Model()), header.nodeId;
              var c := a.nodes[n].control;
              Model() ==
              if r.Granted? then
                Append(a, r.offset, n, Slice(a.mem, a.tail + HDR, header.length)).(
                  nodes := SetControl(a.nodes, n, Packed(c.state, Cold, c.length, r.offset)))
              else a
    {
      hide Put, Slice, RecordBytes;
      var allocation, _ := AllocatePayload(header.length, []);
      r := allocation;
      if r.Granted? {
        RescueRecord(r.offset, header);
        var node := metadata[header.nodeId];
        metadata[header.nodeId] := node.(control := Packed(node.control.state, Cold, node.control.length, r.offset));
      }
    }

    /** One iteration of the collector loop, after its sleeps. */
    method CollectorIteration() returns (o: Outcome)
      requires Valid() && MemorySafe(Model())
      modifies this, metadata, bufferPayload
      ensures (Model(), o) == Collect(old(Model()))
    {
      hide Put, Slice, HeaderAt, RecordBytes, Pad;
      if (writeHead - readTail) % UINT64 < LOW_WATERMARK_THRESHOLD {
        return Idle;
      }
      var tailIndex := readTail % SIZE;
      var padding := SIZE - tailIndex;
      if padding < HDR {
        readTail := readTail + padding;
        return Leapt;
      }
      var header := HeaderAt(bufferPayload[..], tailIndex);
      if header.identifier != VALID_IDENTIFIER {
        readTail := readTail + 1;
        return BadHeader;
      }
      var totalSize := HDR + header.length;
      var node := metadata[header.nodeId];
      var c := node.control;
      if c.state.Dead? || c.offset != readTail % OFFSET_MODULUS {
        readTail := readTail + totalSize;
        return Skipped;
      }
      if c.refBit.Cold? {
        metadata[header.nodeId] := MetaNode(0, c.(state := Dead));
        o := Evicted(header.nodeId);
      } else {
        var allocation := Rescue(header);
        if allocation.Exhausted? {
          return RescueFailed;
        }
        o := Rescued(header.nodeId, allocation.offset);
      }
      readTail := readTail + totalSize;
    }

    /**
      The collector thread, for any readings of the shutdown flag. `terminated` tells that it did
      not return: a rescue found the ring exhausted, the exception left the thread's function, and
      the engine's process ended with it.
     */
    method RunGarbageCollector(shutdown: seq<bool>, ghost q: seq<Record>)
      returns (iterations: nat, terminated: bool, ghost q': seq<Record>)
      requires Valid() && Inv(Model(), q)
      modifies this, metadata, bufferPayload
      ensures iterations <= |shutdown|
      ensures Model() == Collects(old(Model()), iterations) && Inv(Model(), q')
      ensures Within(Contents(Model()), Contents(old(Model())))
      ensures forall k :: 0 <= k < iterations ==> !shutdown[k]
      ensures terminated <==> iterations < |shutdown| && !shutdown[iterations]
      ensures terminated ==> Collect(Model()).1.RescueFailed?
    {
      hide Inv, Contents, Collects, Collect;
      ghost var a := Model();
      q', iterations, terminated := q, 0, false;
      StartOfCollects(a);
      while iterations < |shutdown| && !shutdown[iterations]
        invariant iterations <= |shutdown| && forall k :: 0 <= k < iterations ==> !shutdown[k]
        invariant Model() == Collects(a, iterations) && Inv(Model(), q')
        invariant Within(Contents(Model()), Contents(a))
      {
        ghost var b := Model();
        CollectKeepsInv(b, q');
        CollectRefines(b, q');
        CollectMakesProgress(b, q');
        InvIsMemorySafe(b, q');
        var o := CollectorIteration();
        if o.RescueFailed? {
          terminated := true;
          return;
        }
        CollectsOneMore(a, iterations);
        q' := QueueAfter(q', o);
        iterations := iterations + 1;
      }
    }
  }

  function Min(x: nat, y: nat): nat {
    if x < y then x else y
  }

  /** 1 once an index that started at `v` has run past the border. */
  function Crossed(v: nat, done: nat): nat {
    if v % SIZE + done >= SIZE then 1 else 0
  }

  /** A chunk that ends at the border is the one that crosses it, and there is only one. */
  lemma CrossingsAfterChunk(v: nat, total: nat, done: nat, chunk: nat)
    requires total <= SIZE && done + chunk <= total && 0 < chunk <= SIZE - Index(v, done)
    ensures Crossed(v, done) <= Crossed(v, done + chunk) <= 1
    ensures chunk == SIZE - Index(v, done) && done + chunk < total ==>
              Crossed(v, done) == 0 && Crossed(v, done + chunk) == 1
  {
  }

  lemma StartOfWindow(v: nat)
    ensures Index(v, 0) == v % SIZE
  {
  }

  lemma IndexAfterChunk(v: nat, done: nat, chunk: nat)
    ensures Index(v, done + chunk) == (Index(v, done) + chunk) % SIZE
  {
  }

  lemma ChunksDisjoint(u: nat, v: nat, n: nat)
    requires u + n <= v && v + n <= u + SIZE
    requires u % SIZE + n <= SIZE && v % SIZE + n <= SIZE
    ensures u % SIZE + n <= v % SIZE || v % SIZE + n <= u % SIZE || n == 0
  {
  }

  /** What the choice of a chunk's size means for the copy as a whole. */
  lemma ChunkAdvances(src: nat, dst: nat, total: nat, done: nat, chunk: nat)
    requires src + total <= dst && dst + total <= src + SIZE && done < total
    requires chunk == Min(total - done, Min(SIZE - Index(src, done), SIZE - Index(dst, done)))
    ensures 0 < chunk <= total - done
    ensures var s, d := Index(src, done), Index(dst, done);
            s + chunk <= SIZE && d + chunk <= SIZE && (d + chunk <= s || s + chunk <= d) &&
            Index(src, done + chunk) == (s + chunk) % SIZE && Index(dst, done + chunk) == (d + chunk) % SIZE
    ensures done + chunk < total ==>
              Crossed(src, done) + Crossed(dst, done) < Crossed(src, done + chunk) + Crossed(dst, done + chunk)
    ensures Crossed(src, done) + Crossed(dst, done) <= 2
  {
    CrossingsAfterChunk(src, total, done, chunk);
    CrossingsAfterChunk(dst, total, done, chunk);
    hide Crossed;
    IndexAfterChunk(src, done, chunk);
    IndexAfterChunk(dst, done, chunk);
    ChunksDisjoint(src + done, dst + done, chunk);
  }
}
