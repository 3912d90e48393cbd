/** The two RPCs (engine/src/service.cc), each as one atomic step on the arena's arrays. */
module Service {
  import opened Node
  import opened Ring
  import opened ArenaModel
  import opened MemoryArenas
  import opened CosineSimilarity
  import opened Embedder
  import opened Scan
  import opened Races

  predicate ValidWord(w: Option<Control>) {
    w.Some? ==> w.value.length <= MAX_PAYLOAD_LENGTH
  }

  /** What other threads store are words of 64 bits, too. */
  predicate ValidRace(race: Race) {
    ValidWord(race.atBest) && ValidWord(race.atHit) && ValidWord(race.atClaim) && ValidWord(race.atSwap)
  }

  class SemanticService {
    const memoryArena: MemoryArena

    constructor (arena: MemoryArena)
      ensures memoryArena == arena
    {
      memoryArena := arena;
    }

    ghost predicate Valid()
      reads this, memoryArena, memoryArena.vectors, memoryArena.metadata
    {
      memoryArena.Valid() && memoryArena.ValidVectors() && memoryArena.ValidWords()
    }

    /** The loop over the L0 slots: search, first free slot and expiry at once. */
    method ScanL0(query: Vector, now: nat) returns (maxScore: real, best: int, reusable: int)
      requires Valid() && |query| == VECTOR_DIM
      modifies memoryArena.metadata
      ensures var before := old(memoryArena.metadata[..]);
              memoryArena.metadata[..] == Scanned(before, now) &&
              IsBest(before, memoryArena.vectors[..], query, now, L0_MAX_SLOTS, best) &&
              maxScore == (if best == -1 then -1.0 else Dot(query, memoryArena.vectors[best])) &&
              IsFirstDead(Scanned(before, now), L0_MAX_SLOTS, reusable)
      ensures Valid() && -1 <= best < L0_MAX_SLOTS && -1 <= reusable < L0_MAX_SLOTS
    {
      var metadata, vectors := memoryArena.metadata, memoryArena.vectors;
      ghost var before, vecs := metadata[..], vectors[..];
      ghost var after := Scanned(before, now);
      hide Dot;
      maxScore, best, reusable := -1.0, -1, -1;
      for i := 0 to L0_MAX_SLOTS
        invariant forall k :: 0 <= k < i ==> metadata[k] == after[k]
        invariant forall k :: i <= k < TOTAL_MAX_SLOTS ==> metadata[k] == before[k]
        invariant IsBest(before, vecs, query, now, i, best)
        invariant maxScore == if best == -1 then -1.0 else Dot(query, vecs[best])
        invariant IsFirstDead(after, i, reusable)
      {
        var node := metadata[i];
        var state := node.control.state;
        if state.Dead? && reusable == -1 {
          reusable := i;
        }
        var isValid := state.Ready? || state.Migrating?;
        if state.Pending? {
          var birthTime := node.createdAt;
          if birthTime == 0 {
            continue;
          }
          if Age(now, birthTime) > PENDING_LIFESPAN {
            metadata[i] := MetaNode(0, node.control.(state := Dead));
            if reusable == -1 {
              reusable := i;
            }
          } else {
            isValid := true;
          }
        }
        if isValid {
          var currScore := CosineSimilarityAvx(query, vectors[i]);
          if currScore > maxScore {
            maxScore, best := currScore, i;
          }
        }
      }
      assert metadata[..] == after;
    }

    /** Another thread's swap. */
    method Meddle(n: nat, other: Option<Control>)
      requires Valid() && n < TOTAL_MAX_SLOTS && ValidWord(other)
      modifies memoryArena.metadata
      ensures Valid() && memoryArena.Model() == Meddled(old(memoryArena.Model()), n, other)
    {
      if other.Some? {
        memoryArena.metadata[n] := memoryArena.metadata[n].(control := other.value);
      }
      assert memoryArena.metadata[..] ==
             old(SetControl(memoryArena.metadata[..], n, Met(memoryArena.metadata[n].control, other)));
    }

    /** compare_exchange_strong, with what another thread may put there first. */
    method CompareExchange(n: nat, expected: Control, desired: MetaNode, other: Option<Control>) returns (taken: bool)
      requires Valid() && n < TOTAL_MAX_SLOTS && ValidWord(other) && desired.control.length <= MAX_PAYLOAD_LENGTH
      requires memoryArena.metadata[n].control == expected
      modifies memoryArena.metadata
      ensures Valid() && memoryArena.Model() == Swapped(old(memoryArena.Model()), n, other, desired)
      ensures taken <==> Met(expected, other) == expected
    {
      ghost var a := memoryArena.Model();
      Meddle(n, other);
      taken := memoryArena.metadata[n].control == expected;
      if taken {
        memoryArena.metadata[n] := desired;
        assert memoryArena.metadata[..] == a.nodes[n := desired];
      }
    }

    /** The last part of CheckCache: the slot may have gone to another thread by now. */
    method ClaimSlot(n: nat, query: Vector, now: nat, race: Race) returns (reply: CheckReply)
      requires Valid() && n < TOTAL_MAX_SLOTS && |query| == VECTOR_DIM && ValidRace(race)
      modifies memoryArena.metadata, memoryArena.vectors
      ensures Valid()
      ensures ClaimAnswers(old(memoryArena.Model()), old(memoryArena.vectors[..]), query, now, n, race,
                           reply, memoryArena.Model(), memoryArena.vectors[..])
    {
      Meddle(n, race.atClaim);
      var expected := memoryArena.metadata[n].control;
      if expected.state.Dead? {
        var taken := CompareExchange(n, expected, MetaNode(now, Packed(Pending, Hot, 0, 0)), race.atSwap);
        if taken {
          memoryArena.vectors[n] := query;
          return CacheMiss(n);
        }
      }
      reply := CacheMissUnclaimed;
    }

    /**
      CheckCache. `encoding` is what the embedder made of the prompt and `now` the clock reading;
      both come from outside, and so does `race`, what other threads do after the scan.
     */
    method CheckCache(prompt: seq<Byte>, encoding: Encoding, now: nat, race: Race)
      returns (reply: CheckReply, ghost best: int, ghost reusable: int)
      requires Valid() && (encoding.Encoded? ==> |encoding.vector| == VECTOR_DIM)
      requires ValidRace(race)
      modifies memoryArena.metadata, memoryArena.vectors
      ensures Valid()
      ensures prompt == [] || !encoding.Encoded? ==>
                memoryArena.Model() == old(memoryArena.Model()) &&
                memoryArena.vectors[..] == old(memoryArena.vectors[..]) &&
                reply == (if prompt == [] then BadPrompt else Failed)
      ensures prompt != [] && encoding.Encoded? ==>
                RacedAnswers(old(memoryArena.Model()), old(memoryArena.vectors[..]), encoding.vector, now,
                             best, reusable, race, reply, memoryArena.Model(), memoryArena.vectors[..])
    {
      hide Dot, IsBest, IsFirstDead, Scanned, Slice;
      best, reusable := -1, -1;
      if prompt == [] {
        reply := BadPrompt;
        return;
      }
      if !encoding.Encoded? {
        reply := Failed;
        return;
      }
      var maxScore, bestNodeId, reusableNodeId := ScanL0(encoding.vector, now);
      best, reusable := bestNodeId, reusableNodeId;
      if maxScore >= SIMILARITY_THRESHOLD {
        Meddle(bestNodeId, race.atBest);
        var node := memoryArena.metadata[bestNodeId];
        var c := node.control;
        match c.state {
          case Ready | Migrating =>
            var payload := memoryArena.ReadPayload(c.offset, c.length);
            var _ := CompareExchange(bestNodeId, c, node.(control := c.(refBit := Hot)), race.atHit);
            reply := CacheHit(payload);
            return;
          case Pending =>
            reply := CachePending(bestNodeId);
            return;
          case Dead =>
            reusableNodeId := bestNodeId;
        }
      }
      if reusableNodeId == -1 {
        reply := Failed;
        return;
      }
      reply := ClaimSlot(reusableNodeId, encoding.vector, now, race);
    }

    /**
      SetCache. `others` are the words that other threads put into the slot before each swap of this
      thread that fails; the same word again stands for a spurious failure. The outcome is that of
      the atomic SetCache on the word that the last try met, and all words before it were pending.
     */
    method SetCache(nodeId: int, payload: seq<Byte>, others: seq<Control>)
      returns (status: SetStatus, ghost tries: nat)
      requires Valid() && nodeId < TOTAL_MAX_SLOTS
      requires forall k :: 0 <= k < |others| ==> others[k].length <= MAX_PAYLOAD_LENGTH
      modifies memoryArena`writeHead, memoryArena.bufferPayload, memoryArena.metadata
      ensures Valid()
      ensures tries <= |others| && (status == Ok(true) ==> tries == |others|)
      ensures others == [] || !status.Ok? ==>
                (memoryArena.Model(), status) == ArenaModel.SetCache(old(memoryArena.Model()), nodeId, payload)
      ensures status.Ok? ==>
                var a := old(memoryArena.Model());
                nodeId >= 0 &&
                var words := [a.nodes[nodeId].control] + others;
                (forall k :: 0 <= k < tries ==> words[k].state.Pending?) &&
                (memoryArena.Model(), status) ==
                ArenaModel.SetCache(a.(nodes := SetControl(a.nodes, nodeId, words[tries])), nodeId, payload)
    {
      hide Put, RecordBytes;
      tries := 0;
      if nodeId < 0 || payload == [] || |payload| > MAX_PAYLOAD_LENGTH {
        return InvalidArgument, 0;
      }
      ghost var a := memoryArena.Model();
      var allocation := memoryArena.WritePayload(nodeId, payload);
      if allocation.Exhausted? {
        return Internal, 0;
      }
      var desired := Packed(Ready, Hot, |payload|, allocation.offset);
      var metadata := memoryArena.metadata;
      ghost var words := [a.nodes[nodeId].control] + others;
      ghost var w := Append(a, allocation.offset, nodeId, payload);
      assert SetControl(a.nodes, nodeId, words[0]) == a.nodes;
      var k := 0;
      var expected := metadata[nodeId].control;
      while true
        invariant 0 <= k <= |others| && tries == k
        invariant memoryArena.Model() == w.(nodes := SetControl(a.nodes, nodeId, words[k]))
        invariant Valid() && expected == words[k]
        invariant forall i :: 0 <= i < k ==> words[i].state.Pending?
        decreases |others| - k
      {
        if !expected.state.Pending? {
          return Ok(false), k;
        }
        if k == |others| {
          metadata[nodeId] := metadata[nodeId].(control := desired);
          assert metadata[..] == SetControl(SetControl(a.nodes, nodeId, words[k]), nodeId, desired);
          return Ok(true), k;
        }
        metadata[nodeId] := metadata[nodeId].(control := others[k]);
        expected, k, tries := metadata[nodeId].control, k + 1, k + 1;
        assert metadata[..] == SetControl(a.nodes, nodeId, words[k]);
      }
    }
  }
}
