/**
  What CheckCache's scan of the L0 slots is meant to find, stated without its loop, and what
  the scan keeps of the arena's invariant and contents.
 */
module Scan {
  import opened Node
  import opened Ring
  import opened ArenaModel
  import opened Invariant
  import opened Refinement
  import opened CosineSimilarity
  import opened Embedder

  const L0_MAX_SLOTS: nat := 1_000
  const PENDING_LIFESPAN: nat := 30
  const SIMILARITY_THRESHOLD: real := 0.85

  /** Ages are unsigned differences of seconds. */
  function Age(now: nat, birth: nat): nat {
    (now - birth) % UINT64
  }

  predicate Expired(m: MetaNode, now: nat) {
    m.control.state.Pending? && m.createdAt != 0 && Age(now, m.createdAt) > PENDING_LIFESPAN
  }

  /** A slot whose vector takes part in the search. */
  predicate Live(m: MetaNode, now: nat) {
    || Readable(m.control)
    || (m.control.state.Pending? && m.createdAt != 0 && Age(now, m.createdAt) <= PENDING_LIFESPAN)
  }

  function AfterScan(m: MetaNode, now: nat): MetaNode {
    if Expired(m, now) then MetaNode(0, m.control.(state := Dead)) else m
  }

  /** The table after the first n slots have been scanned. */
  function ScannedTo(nodes: Table, now: nat, n: nat): Table {
    seq(TOTAL_MAX_SLOTS, i requires 0 <= i < TOTAL_MAX_SLOTS =>
      if i < n then AfterScan(nodes[i], now) else nodes[i])
  }

  function Scanned(nodes: Table, now: nat): Table {
    ScannedTo(nodes, now, L0_MAX_SLOTS)
  }

  /** The live slot among the first n that scores highest, the lowest index winning ties. */
  ghost predicate IsBest(nodes: Table, vectors: seq<Vector>, query: Vector, now: nat, n: nat, best: int)
    requires n <= TOTAL_MAX_SLOTS && |vectors| == TOTAL_MAX_SLOTS
    requires forall i :: 0 <= i < |vectors| ==> |vectors[i]| == |query|
  {
    if best == -1 then
      forall i :: 0 <= i < n && Live(nodes[i], now) ==> Dot(query, vectors[i]) <= -1.0
    else
      && 0 <= best < n && Live(nodes[best], now) && Dot(query, vectors[best]) > -1.0
      && (forall i :: 0 <= i < n && Live(nodes[i], now) ==> Dot(query, vectors[i]) <= Dot(query, vectors[best]))
      && (forall i :: 0 <= i < best && Live(nodes[i], now) ==> Dot(query, vectors[i]) < Dot(query, vectors[best]))
  }

  /** The first dead slot among the first n. */
  ghost predicate IsFirstDead(nodes: Table, n: nat, r: int)
    requires n <= TOTAL_MAX_SLOTS
  {
    if r == -1 then forall i :: 0 <= i < n ==> !nodes[i].control.state.Dead?
    else 0 <= r < n && nodes[r].control.state.Dead? && forall i :: 0 <= i < r ==> !nodes[i].control.state.Dead?
  }

  // ----- the answer -----

  datatype CheckReply =
    | BadPrompt               // INVALID_ARGUMENT
    | Failed                  // INTERNAL: no embedding, or "High traffic"
    | CacheHit(payload: seq<Byte>)
    | CachePending(node: nat)
    | CacheMiss(claimed: nat)
    | CacheMissUnclaimed      // MISS with node id -1; Race.dfy says when

  /** What CheckCache may answer to a query and how it leaves the arena and the vectors. */
  ghost predicate Answers(a: Arena, vectors: seq<Vector>, query: Vector, now: nat, best: int, reusable: int,
                          reply: CheckReply, a': Arena, vectors': seq<Vector>)
  {
    && |vectors| == TOTAL_MAX_SLOTS && (forall i :: 0 <= i < |vectors| ==> |vectors[i]| == |query|)
    && IsBest(a.nodes, vectors, query, now, L0_MAX_SLOTS, best)
    && IsFirstDead(Scanned(a.nodes, now), L0_MAX_SLOTS, reusable)
    && var s := a.(nodes := Scanned(a.nodes, now));
       if best != -1 && Dot(query, vectors[best]) >= SIMILARITY_THRESHOLD then
         && vectors' == vectors
         && if a.nodes[best].control.state.Pending? then reply == CachePending(best) && a' == s
            else reply == CacheHit(Read(a.mem, a.nodes[best].control)) && a' == Hit(s, best)
       else if reusable == -1 then reply == Failed && a' == s && vectors' == vectors
       else reply == CacheMiss(reusable) && a' == Claim(s, reusable, now) && vectors' == vectors[reusable := query]
  }

  /** The specification of the scan has one answer. */
  lemma BestIsUnique(nodes: Table, vectors: seq<Vector>, query: Vector, now: nat, n: nat, b: int, c: int)
    requires n <= TOTAL_MAX_SLOTS && |vectors| == TOTAL_MAX_SLOTS
    requires forall i :: 0 <= i < |vectors| ==> |vectors[i]| == |query|
    requires IsBest(nodes, vectors, query, now, n, b) && IsBest(nodes, vectors, query, now, n, c)
    ensures b == c
  {
  }

  /** A slot is dead exactly when it has no claim time; this needs a clock that is past zero. */
  ghost predicate Dated(a: Arena) {
    forall n :: 0 <= n < TOTAL_MAX_SLOTS ==> (a.nodes[n].control.state.Dead? <==> a.nodes[n].createdAt == 0)
  }

  lemma StepKeepsDated(a: Arena, e: Event)
    requires Dated(a) && InTable(e) && (e.DoClaim? ==> e.now > 0)
    ensures Dated(Step(a, e).0)
  {
  }

  lemma InitialDated()
    ensures Dated(Initial())
  {
  }

  lemma AnswersKeepDated(a: Arena, vectors: seq<Vector>, query: Vector, now: nat,
                         best: int, reusable: int, reply: CheckReply, a': Arena, vectors': seq<Vector>)
    requires Dated(a) && now > 0 && Answers(a, vectors, query, now, best, reusable, reply, a', vectors')
    ensures Dated(a')
  {
    hide Dot;
  }

  /** After a scan no scanned slot is an overdue claim, and every live slot is still what it was. */
  lemma ScanLeavesNoOverdueClaim(a: Arena, now: nat, i: nat)
    requires Dated(a) && i < L0_MAX_SLOTS
    ensures var m := Scanned(a.nodes, now)[i];
            (m.control.state.Pending? ==> 0 < m.createdAt && Age(now, m.createdAt) <= PENDING_LIFESPAN) &&
            (m.control.state.Dead? <==> a.nodes[i].control.state.Dead? || Expired(a.nodes[i], now)) &&
            (Live(a.nodes[i], now) <==> !m.control.state.Dead?) &&
            (Live(a.nodes[i], now) ==> m == a.nodes[i])
  {
  }

  // ----- the scan as atomic steps -----

  function Steps(a: Arena, events: seq<Event>): Arena
    requires forall k :: 0 <= k < |events| ==> InTable(events[k])
  {
    if events == [] then a else Step(Steps(a, events[..|events| - 1]), events[|events| - 1]).0
  }

  /** The expiries that scanning the first n slots amounts to. */
  function ScanEvents(nodes: Table, now: nat, n: nat): (events: seq<Event>)
    requires n <= TOTAL_MAX_SLOTS
    ensures forall k :: 0 <= k < |events| ==> events[k].DoExpire? && InTable(events[k])
  {
    if n == 0 then []
    else if Expired(nodes[n - 1], now) then ScanEvents(nodes, now, n - 1) + [DoExpire(n - 1)]
    else ScanEvents(nodes, now, n - 1)
  }

  /** A scan is a sequence of atomic expiries, so what every run keeps it keeps. */
  lemma {:induction false} ScanIsExpiries(a: Arena, now: nat, n: nat)
    requires n <= TOTAL_MAX_SLOTS
    ensures Steps(a, ScanEvents(a.nodes, now, n)) == a.(nodes := ScannedTo(a.nodes, now, n))
  {
    if n == 0 {
      assert ScannedTo(a.nodes, now, 0) == a.nodes;
    } else {
      ScanIsExpiries(a, now, n - 1);
      var before, after := ScannedTo(a.nodes, now, n - 1), ScannedTo(a.nodes, now, n);
      if Expired(a.nodes[n - 1], now) {
        var events := ScanEvents(a.nodes, now, n);
        assert events[..|events| - 1] == ScanEvents(a.nodes, now, n - 1);
        assert after == before[n - 1 := MetaNode(0, a.nodes[n - 1].control.(state := Dead))];
      } else {
        assert after == before;
      }
    }
  }

  lemma {:induction false} ExpiriesKeep(a: Arena, q: seq<Record>, events: seq<Event>)
    requires Sound(a, q)
    requires forall k :: 0 <= k < |events| ==> events[k].DoExpire? && InTable(events[k])
    ensures var b := Steps(a, events);
            Sound(b, q) && Contents(b) == Contents(a) && b.head == a.head && b.tail == a.tail
  {
    hide Inv, Sound, Contents;
    if events != [] {
      var last := events[|events| - 1];
      var b := Steps(a, events[..|events| - 1]);
      ExpiriesKeep(a, q, events[..|events| - 1]);
      StepKeepsSound(b, q, last);
      StepRefines(b, q, last);
      SlotStepKeepsWindow(b, last);
    }
  }

  lemma ScanKeeps(a: Arena, q: seq<Record>, now: nat)
    requires Sound(a, q)
    ensures Sound(a.(nodes := Scanned(a.nodes, now)), q)
    ensures Contents(a.(nodes := Scanned(a.nodes, now))) == Contents(a)
  {
    hide Inv, Sound, Contents;
    ScanIsExpiries(a, now, L0_MAX_SLOTS);
    ExpiriesKeep(a, q, ScanEvents(a.nodes, now, L0_MAX_SLOTS));
  }

  // ----- what an answer means -----

  /**
    An answer is made of atomic steps: it keeps the invariant, even after an overshoot what is left
    of it, and forgets no entry.
   */
  lemma AnswersKeep(a: Arena, q: seq<Record>, vectors: seq<Vector>, query: Vector, now: nat,
                    best: int, reusable: int, reply: CheckReply, a': Arena, vectors': seq<Vector>)
    requires Sound(a, q) && Answers(a, vectors, query, now, best, reusable, reply, a', vectors')
    ensures Sound(a', q) && (Inv(a, q) <==> Inv(a', q))
    ensures Contents(a') == Contents(a) && a'.head == a.head && a'.tail == a.tail
  {
    hide Inv, Sound, Contents;
    ScanKeeps(a, q, now);
    var s := a.(nodes := Scanned(a.nodes, now));
    if reply.CacheHit? {
      StepKeepsSound(s, q, DoHit(best));
      StepRefines(s, q, DoHit(best));
    } else if reply.CacheMiss? {
      StepKeepsSound(s, q, DoClaim(reusable, now));
      StepRefines(s, q, DoClaim(reusable, now));
    }
    SoundMeansInv(a, q);
    SoundMeansInv(a', q);
  }

  /**
    End to end: a hit serves the entry that the cache holds for the best slot, that slot scores
    at least the threshold, and no live slot scores higher.
   */
  lemma HitServesTheBestEntry(a: Arena, q: seq<Record>, vectors: seq<Vector>, query: Vector, now: nat,
                              best: int, reusable: int, reply: CheckReply, a': Arena, vectors': seq<Vector>)
    requires Sound(a, q) && Answers(a, vectors, query, now, best, reusable, reply, a', vectors')
    requires reply.CacheHit?
    ensures 0 <= best < L0_MAX_SLOTS && best in Contents(a) && reply.payload == Contents(a)[best]
    ensures Dot(query, vectors[best]) >= SIMILARITY_THRESHOLD
    ensures forall i :: 0 <= i < L0_MAX_SLOTS && Live(a.nodes[i], now) ==>
              Dot(query, vectors[i]) < Dot(query, vectors[best]) ||
              (Dot(query, vectors[i]) == Dot(query, vectors[best]) && best <= i)
  {
    NoneMigrating(a, q);
  }

  /**
    Whom to wait for: a request that is told to wait is given the pending slot that scores highest
    among the live ones, at least the threshold, ties going to the lowest index.
   */
  lemma PendingNamesTheBestClaim(a: Arena, vectors: seq<Vector>, query: Vector, now: nat,
                                 best: int, reusable: int, reply: CheckReply, a': Arena, vectors': seq<Vector>)
    requires Answers(a, vectors, query, now, best, reusable, reply, a', vectors')
    requires reply.CachePending?
    ensures reply.node < L0_MAX_SLOTS
    ensures a.nodes[reply.node].control.state.Pending? && Live(a.nodes[reply.node], now)
    ensures Dot(query, vectors[reply.node]) >= SIMILARITY_THRESHOLD
    ensures forall i :: 0 <= i < L0_MAX_SLOTS && Live(a.nodes[i], now) ==>
              Dot(query, vectors[i]) < Dot(query, vectors[reply.node]) ||
              (Dot(query, vectors[i]) == Dot(query, vectors[reply.node]) && reply.node <= i)
  {
    hide Dot;
  }

  /** An answer is the expiries of its scan followed by at most one step, a hit or a claim. */
  lemma AnswersAreSteps(a: Arena, vectors: seq<Vector>, query: Vector, now: nat,
                        best: int, reusable: int, reply: CheckReply, a': Arena, vectors': seq<Vector>)
    requires Answers(a, vectors, query, now, best, reusable, reply, a', vectors')
    ensures var s := Steps(a, ScanEvents(a.nodes, now, L0_MAX_SLOTS));
            if reply.CacheHit? then
              0 <= best < L0_MAX_SLOTS && Step(s, DoHit(best)) == (a', Served(reply.payload)) &&
              a'.nodes[best] == a.nodes[best].(control := a.nodes[best].control.(refBit := Hot))
            else if reply.CacheMiss? then
              reply.claimed < L0_MAX_SLOTS && s.nodes[reply.claimed].control.state.Dead? &&
              a' == Step(s, DoClaim(reply.claimed, now)).0 &&
              a'.nodes[reply.claimed] == MetaNode(now, Control(Pending, Hot, 0, 0))
            else a' == s
  {
    hide Dot, Read;
    ScanIsExpiries(a, now, L0_MAX_SLOTS);
    hide ScanEvents, Steps;
  }

  /** The model is asked exactly when no live slot reaches the threshold. */
  lemma MissIffNothingSimilar(a: Arena, vectors: seq<Vector>, query: Vector, now: nat,
                              best: int, reusable: int, reply: CheckReply, a': Arena, vectors': seq<Vector>)
    requires Answers(a, vectors, query, now, best, reusable, reply, a', vectors')
    ensures reply.CacheMiss? || reply.Failed? <==>
            forall i :: 0 <= i < L0_MAX_SLOTS && Live(a.nodes[i], now) ==>
              Dot(query, vectors[i]) < SIMILARITY_THRESHOLD
    ensures reply.CacheMiss? ==>
              Expired(a.nodes[reply.claimed], now) || a.nodes[reply.claimed].control.state.Dead?
    ensures reply.CacheMiss? ==>
              forall i :: 0 <= i < reply.claimed ==> !Expired(a.nodes[i], now) && !a.nodes[i].control.state.Dead?
    ensures reply.Failed? ==>
              forall i :: 0 <= i < L0_MAX_SLOTS ==> !Expired(a.nodes[i], now) && !a.nodes[i].control.state.Dead?
  {
    if reply.CacheMiss? {
      forall i | 0 <= i < reply.claimed ensures !Expired(a.nodes[i], now) && !a.nodes[i].control.state.Dead? {
        assert !Scanned(a.nodes, now)[i].control.state.Dead?;
      }
    }
    if reply.Failed? {
      forall i | 0 <= i < L0_MAX_SLOTS ensures !Expired(a.nodes[i], now) && !a.nodes[i].control.state.Dead? {
        assert !Scanned(a.nodes, now)[i].control.state.Dead?;
      }
    }
  }

  /** Every slot in use holds a vector of length one. */
  ghost predicate Normalised(a: Arena, vectors: seq<Vector>) {
    |vectors| == TOTAL_MAX_SLOTS &&
    forall n :: 0 <= n < TOTAL_MAX_SLOTS && !a.nodes[n].control.state.Dead? ==> Dot(vectors[n], vectors[n]) == 1.0
  }

  /** No step but a claim brings a slot back to life. */
  lemma StepKeepsNormalised(a: Arena, vectors: seq<Vector>, e: Event)
    requires Normalised(a, vectors) && InTable(e) && !e.DoClaim?
    ensures Normalised(Step(a, e).0, vectors)
  {
    hide Put, Slice, RecordBytes, HeaderAt, Dot;
  }

  /** Claims bring normalised vectors with them, and no other vector changes. */
  lemma AnswersKeepNormalised(a: Arena, vectors: seq<Vector>, query: Vector, now: nat, best: int, reusable: int,
                              reply: CheckReply, a': Arena, vectors': seq<Vector>)
    requires Answers(a, vectors, query, now, best, reusable, reply, a', vectors')
    requires Normalised(a, vectors) && Dot(query, query) == 1.0
    ensures Normalised(a', vectors')
    ensures |vectors'| == |vectors|
    ensures forall n :: 0 <= n < |vectors| && reply != CacheMiss(n) ==> vectors'[n] == vectors[n]
  {
    hide Dot;
  }

  /**
    A prompt is not sent to the model twice: while a slot holds its own normalised vector and is
    live, the answer is a hit or a request to wait, on a slot with the same vector.
   */
  lemma SamePromptIsRecognised(a: Arena, vectors: seq<Vector>, query: Vector, now: nat, best: int, reusable: int,
                               reply: CheckReply, a': Arena, vectors': seq<Vector>, n: nat)
    requires Answers(a, vectors, query, now, best, reusable, reply, a', vectors')
    requires Normalised(a, vectors) && Dot(query, query) == 1.0
    requires n < L0_MAX_SLOTS && Live(a.nodes[n], now) && vectors[n] == query
    ensures reply.CacheHit? || reply.CachePending?
    ensures best != -1 && vectors[best] == query
    ensures reply.CachePending? ==> reply.node < L0_MAX_SLOTS && vectors[reply.node] == query
  {
    ScoresAreBounded(query, vectors[best]);
    ScoreOneIffEqual(query, vectors[best]);
  }

  /** A claim made at `now` takes part in searches for thirty seconds and is overdue thereafter. */
  lemma ClaimLivesThirtySeconds(a: Arena, vectors: seq<Vector>, query: Vector, now: nat, best: int, reusable: int,
                                reply: CheckReply, a': Arena, vectors': seq<Vector>, t: nat)
    requires Answers(a, vectors, query, now, best, reusable, reply, a', vectors') && reply.CacheMiss?
    requires 0 < now <= t < now + UINT64
    ensures reply.claimed < L0_MAX_SLOTS && a'.nodes[reply.claimed].control.state.Pending?
    ensures Live(a'.nodes[reply.claimed], t) <==> t <= now + PENDING_LIFESPAN
    ensures Expired(a'.nodes[reply.claimed], t) <==> t > now + PENDING_LIFESPAN
  {
  }

  /** The herd: for thirty seconds after a miss the same prompt is told to wait or is served. */
  lemma SecondRequestIsHeld(a: Arena, vectors: seq<Vector>, query: Vector, now: nat, best: int, reusable: int,
                            reply: CheckReply, a': Arena, vectors': seq<Vector>,
                            t: nat, best': int, reusable': int, reply': CheckReply, a'': Arena, vectors'': seq<Vector>)
    requires Answers(a, vectors, query, now, best, reusable, reply, a', vectors') && reply.CacheMiss?
    requires Answers(a', vectors', query, t, best', reusable', reply', a'', vectors'')
    requires 0 < now <= t <= now + PENDING_LIFESPAN && Dot(query, query) == 1.0 && Normalised(a, vectors)
    ensures reply'.CacheHit? || reply'.CachePending?
    ensures best' != -1 && vectors'[best'] == query
    ensures reply'.CachePending? ==> reply'.node < L0_MAX_SLOTS && vectors'[reply'.node] == query
  {
    AnswersKeepNormalised(a, vectors, query, now, best, reusable, reply, a', vectors');
    ClaimLivesThirtySeconds(a, vectors, query, now, best, reusable, reply, a', vectors', t);
    SamePromptIsRecognised(a', vectors', query, t, best', reusable', reply', a'', vectors'', reply.claimed);
  }

  /** Ages are unsigned: a clock that has been set back makes every earlier claim overdue at once. */
  lemma ClockSetBackExpiresClaims(m: MetaNode, now: nat)
    requires m.control.state.Pending? && now < m.createdAt <= now + 0xFFFF_FFFF_FFFF_FF00
    ensures Expired(m, now) && !Live(m, now)
  {
  }
}
