/**
  CheckCache with other threads at work behind its scan: what it answers, when it misses without
  handing out a slot, and that then another request has claimed that slot.
 */
module Races {
  import opened Node
  import opened ArenaModel
  import opened CosineSimilarity
  import opened Scan
  import L = Lifecycle

  /**
    The words, if any, that other threads put into the best slot before CheckCache loads it again,
    into it before the swap to hot, into the slot to be claimed before its load, and into that one
    before the claiming swap.
   */
  datatype Race = Race(atBest: Option<Control>, atHit: Option<Control>,
                       atClaim: Option<Control>, atSwap: Option<Control>)

  const NO_RACE := Race(None, None, None, None)

  /** The word w, or what another thread has replaced it by. */
  function Met(w: Control, other: Option<Control>): Control {
    if other.Some? then other.value else w
  }

  function Meddled(a: Arena, n: nat, other: Option<Control>): Arena
    requires n < TOTAL_MAX_SLOTS
  {
    a.(nodes := SetControl(a.nodes, n, Met(a.nodes[n].control, other)))
  }

  /** A strong compare-and-swap takes if and only if the word is still the one loaded. */
  function Swapped(a: Arena, n: nat, other: Option<Control>, m: MetaNode): Arena
    requires n < TOTAL_MAX_SLOTS
  {
    if Met(a.nodes[n].control, other) == a.nodes[n].control then a.(nodes := a.nodes[n := m])
    else Meddled(a, n, other)
  }

  /** A claim of a slot with word w fails: the word is not dead when loaded, or not the same when swapped. */
  predicate ClaimLost(w: Control, race: Race) {
    var loaded := Met(w, race.atClaim);
    !loaded.state.Dead? || Met(loaded, race.atSwap) != loaded
  }

  /** The end of CheckCache: slot n is claimed, unless that comes too late. */
  ghost predicate ClaimAnswers(a: Arena, vectors: seq<Vector>, query: Vector, now: nat, n: nat, race: Race,
                               reply: CheckReply, a': Arena, vectors': seq<Vector>)
    requires n < TOTAL_MAX_SLOTS && |vectors| == TOTAL_MAX_SLOTS
  {
    var found := Meddled(a, n, race.atClaim);
    if !found.nodes[n].control.state.Dead? then reply == CacheMissUnclaimed && a' == found && vectors' == vectors
    else
      && a' == Swapped(found, n, race.atSwap, MetaNode(now, Packed(Pending, Hot, 0, 0)))
      && if Met(found.nodes[n].control, race.atSwap) == found.nodes[n].control
         then reply == CacheMiss(n) && vectors' == vectors[n := query]
         else reply == CacheMissUnclaimed && vectors' == vectors
  }

  /** As `Answers`, with other threads at work between the scan and the answer. */
  ghost predicate RacedAnswers(a: Arena, vectors: seq<Vector>, query: Vector, now: nat, best: int, reusable: int,
                               race: Race, reply: CheckReply, a': Arena, vectors': seq<Vector>)
  {
    && |vectors| == TOTAL_MAX_SLOTS && (forall i :: 0 <= i < |vectors| ==> |vectors[i]| == |query|)
    && IsBest(a.nodes, vectors, query, now, L0_MAX_SLOTS, best)
    && IsFirstDead(Scanned(a.nodes, now), L0_MAX_SLOTS, reusable)
    && var s := a.(nodes := Scanned(a.nodes, now));
       if best != -1 && Dot(query, vectors[best]) >= SIMILARITY_THRESHOLD then
         var found := Meddled(s, best, race.atBest);
         var m := found.nodes[best];
         if Readable(m.control) then
           && reply == CacheHit(Read(a.mem, m.control)) && vectors' == vectors
           && a' == Swapped(found, best, race.atHit, m.(control := m.control.(refBit := Hot)))
         else if m.control.state.Pending? then reply == CachePending(best) && a' == found && vectors' == vectors
         else ClaimAnswers(found, vectors, query, now, best, race, reply, a', vectors')
       else if reusable == -1 then reply == Failed && a' == s && vectors' == vectors
       else ClaimAnswers(s, vectors, query, now, reusable, race, reply, a', vectors')
  }

  /** Left alone, CheckCache answers as the atomic model does. */
  lemma AloneAnswers(a: Arena, vectors: seq<Vector>, query: Vector, now: nat, best: int, reusable: int,
                     reply: CheckReply, a': Arena, vectors': seq<Vector>)
    ensures RacedAnswers(a, vectors, query, now, best, reusable, NO_RACE, reply, a', vectors') <==>
            Answers(a, vectors, query, now, best, reusable, reply, a', vectors')
  {
    hide Dot, Read;
    var s := a.(nodes := Scanned(a.nodes, now));
    assert forall n: nat :: n < TOTAL_MAX_SLOTS ==> Meddled(s, n, None) == s;
  }

  /** The word of the slot that CheckCache sets out to claim, as it saw it last, or none. */
  ghost function Target(a: Arena, vectors: seq<Vector>, query: Vector, now: nat, best: int, reusable: int, race: Race)
    : Option<Control>
    requires |vectors| == TOTAL_MAX_SLOTS && forall i :: 0 <= i < |vectors| ==> |vectors[i]| == |query|
    requires -1 <= best < TOTAL_MAX_SLOTS && -1 <= reusable < TOTAL_MAX_SLOTS
  {
    var nodes := Scanned(a.nodes, now);
    if best != -1 && Dot(query, vectors[best]) >= SIMILARITY_THRESHOLD then
      var w := Met(nodes[best].control, race.atBest);
      if w.state.Dead? then Some(w) else None
    else if reusable == -1 then None
    else Some(nodes[reusable].control)
  }

  /**
    Exactly when CheckCache answers a miss with node id -1: it set out to claim a slot, and another
    thread's word was there at the load or at the swap. Such an answer leaves every vector alone, and
    so does every answer but a claim.
   */
  lemma UnclaimedIffLost(a: Arena, vectors: seq<Vector>, query: Vector, now: nat, best: int, reusable: int,
                         race: Race, reply: CheckReply, a': Arena, vectors': seq<Vector>)
    requires RacedAnswers(a, vectors, query, now, best, reusable, race, reply, a', vectors')
    ensures -1 <= best < L0_MAX_SLOTS && -1 <= reusable < L0_MAX_SLOTS
    ensures var target := Target(a, vectors, query, now, best, reusable, race);
            (target.Some? ==> target.value.state.Dead?) &&
            (reply == CacheMissUnclaimed <==> target.Some? && ClaimLost(target.value, race)) &&
            (reply.CacheMiss? <==> target.Some? && !ClaimLost(target.value, race))
    ensures reply.CacheMiss? ==>
              reply.claimed ==
              if best != -1 && Dot(query, vectors[best]) >= SIMILARITY_THRESHOLD then best else reusable
    ensures |vectors'| == |vectors|
    ensures forall n :: 0 <= n < |vectors| && reply != CacheMiss(n) ==> vectors'[n] == vectors[n]
    ensures reply.CacheMiss? ==>
              reply.claimed < L0_MAX_SLOTS && vectors'[reply.claimed] == query &&
              a'.nodes[reply.claimed] == MetaNode(now, Packed(Pending, Hot, 0, 0))
  {
    hide Dot, Read;
  }

  /**
    Served or told to wait in a race: the node id is that of the slot that scored highest when it was
    scanned; it was met readable and its payload copied, or met pending. A served slot becomes hot
    unless another thread's word is there by then.
   */
  lemma RacedHitOrPending(a: Arena, vectors: seq<Vector>, query: Vector, now: nat, best: int, reusable: int,
                          race: Race, reply: CheckReply, a': Arena, vectors': seq<Vector>)
    requires RacedAnswers(a, vectors, query, now, best, reusable, race, reply, a', vectors')
    requires reply.CacheHit? || reply.CachePending?
    ensures 0 <= best < L0_MAX_SLOTS && Live(a.nodes[best], now) && Dot(query, vectors[best]) >= SIMILARITY_THRESHOLD
    ensures forall i :: 0 <= i < L0_MAX_SLOTS && Live(a.nodes[i], now) ==>
              Dot(query, vectors[i]) < Dot(query, vectors[best]) ||
              (Dot(query, vectors[i]) == Dot(query, vectors[best]) && best <= i)
    ensures var c := Met(a.nodes[best].control, race.atBest);
            if c.state.Pending? then reply == CachePending(best) && a'.nodes[best].control == c
            else
              Readable(c) && reply == CacheHit(Read(a.mem, c)) &&
              a'.nodes[best].control == if Met(c, race.atHit) == c then c.(refBit := Hot) else Met(c, race.atHit)
  {
    hide Dot, Read;
  }

  /** Whatever other threads do to them, CheckCache itself touches two slots only once its scan is over. */
  lemma RacedAnswersTouchTwoSlots(a: Arena, vectors: seq<Vector>, query: Vector, now: nat, best: int, reusable: int,
                                  race: Race, reply: CheckReply, a': Arena, vectors': seq<Vector>, n: nat)
    requires RacedAnswers(a, vectors, query, now, best, reusable, race, reply, a', vectors')
    requires n < TOTAL_MAX_SLOTS && n != best && n != reusable
    ensures a'.mem == a.mem && a'.head == a.head && a'.tail == a.tail
    ensures a'.nodes[n] == if n < L0_MAX_SLOTS && Expired(a.nodes[n], now)
                           then MetaNode(0, a.nodes[n].control.(state := Dead)) else a.nodes[n]
  {
    hide Dot, Read;
  }

  /**
    What the other threads did, by the log of their swaps: a slot seen dead and not handed out has
    been claimed by another request in the meantime, and a claim that is still alive is enough.
   */
  lemma UnclaimedHadRival(log: seq<L.Entry>, seen: nat, loaded: nat, swapped: nat, n: nat, race: Race)
    requires L.Sequential(log) && seen <= loaded <= swapped <= |log|
    requires L.WordAfter(log, seen, n).state.Dead?
    requires race.atClaim == Some(L.WordAfter(log, loaded, n)) && race.atSwap == Some(L.WordAfter(log, swapped, n))
    ensures ClaimLost(L.WordAfter(log, seen, n), race) ==> L.ClaimedBetween(log, seen, swapped, n)
    ensures L.ClaimedBetween(log, seen, swapped, n) && !L.DeathBetween(log, seen, swapped, n) ==>
              ClaimLost(L.WordAfter(log, seen, n), race)
  {
    L.ClaimFailsByRival(log, seen, loaded, swapped, n);
  }

  /**
    The answer that the protocol file does not foresee does occur: on the very first request, if
    another one claims slot 0 between this one's load of its word and its swap.
   */
  lemma FirstRequestMissesWithoutSlot(vectors: seq<Vector>, query: Vector)
    requires |vectors| == TOTAL_MAX_SLOTS && forall i :: 0 <= i < |vectors| ==> |vectors[i]| == |query|
    ensures var rival := Packed(Pending, Hot, 0, 0);
            var race := NO_RACE.(atSwap := Some(rival));
            L.Desired(L.Claim, Initial().nodes[0].control) == Some(rival) &&
            RacedAnswers(Initial(), vectors, query, 1, -1, 0, race, CacheMissUnclaimed,
                         Meddled(Initial(), 0, Some(rival)), vectors)
  {
    hide Dot;
    var s := Initial().(nodes := Scanned(Initial().nodes, 1));
    assert s.nodes == Initial().nodes;
    assert Meddled(s, 0, None) == s;
  }
}
