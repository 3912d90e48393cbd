/**
  Whole runs as a client sees them: arbitrary sequences of the two RPCs and of collector
  iterations from start-up on, with the vectors, the clock and the answers of CheckCache.
 */
module Sessions {
  import opened Ring
  import opened ArenaModel
  import opened Invariant
  import opened Refinement
  import opened CosineSimilarity
  import opened Scan

  datatype World = World(arena: Arena, vectors: seq<Vector>)

  datatype Call =
    | Check(query: Vector, now: nat, best: int, reusable: int, reply: CheckReply)
    | Store(node: int, payload: seq<Byte>)
    | Sweep

  function StartUp(): World {
    World(Initial(), seq(TOTAL_MAX_SLOTS, _ => seq(VECTOR_DIM, _ => 0.0)))
  }

  /** The call takes the world from w to w'. The clock is past zero. */
  ghost predicate Performs(w: World, c: Call, w': World) {
    match c
    case Check(query, now, best, reusable, reply) =>
      && now > 0 && |query| == VECTOR_DIM
      && Answers(w.arena, w.vectors, query, now, best, reusable, reply, w'.arena, w'.vectors)
    case Store(n, payload) => n < TOTAL_MAX_SLOTS && w' == w.(arena := SetCache(w.arena, n, payload).0)
    case Sweep => w' == w.(arena := Collect(w.arena).0)
  }

  /** One call after the other, from whatever world. */
  ghost predicate Proceeds(worlds: seq<World>, calls: seq<Call>) {
    && |worlds| == |calls| + 1
    && forall k :: 0 <= k < |calls| ==> Performs(worlds[k], calls[k], worlds[k + 1])
  }

  ghost predicate Session(worlds: seq<World>, calls: seq<Call>) {
    Proceeds(worlds, calls) && worlds[0] == StartUp()
  }

  /** CheckCache answers that the prompt's own slot is now n. */
  predicate Claims(c: Call, n: nat) {
    c.Check? && c.reply == CacheMiss(n)
  }

  /** SetCache fills n and reports success. */
  predicate Fills(w: World, c: Call, n: nat) {
    n < TOTAL_MAX_SLOTS && c.Store? && c.node == n && SetCache(w.arena, n, c.payload).1 == Ok(true)
  }

  predicate Evicts(w: World, c: Call, n: nat) {
    c.Sweep? && Collect(w.arena).1 == Evicted(n)
  }

  // ----- the invariant -----

  /** The queue of allocated records after a call. */
  ghost function QueueAfterCall(w: World, q: seq<Record>, c: Call): seq<Record> {
    match c
    case Check(_, _, _, _, _) => q
    case Store(n, payload) => if n < TOTAL_MAX_SLOTS then NextQueue(w.arena, q, DoSet(n, payload)) else q
    case Sweep => NextQueue(w.arena, q, DoCollect)
  }

  ghost function Allocated(worlds: seq<World>, calls: seq<Call>, k: nat): seq<Record>
    requires Session(worlds, calls) && k <= |calls|
  {
    if k == 0 then [] else QueueAfterCall(worlds[k - 1], Allocated(worlds, calls, k - 1), calls[k - 1])
  }

  /** A granted record fits with its padding counted. */
  predicate CallFits(w: World, c: Call) {
    c.Store? && c.node < TOTAL_MAX_SLOTS ==> StepFits(w.arena, DoSet(c.node, c.payload))
  }

  /** The collector never runs on a window longer than the buffer. */
  ghost predicate Settled(worlds: seq<World>, calls: seq<Call>)
    requires Session(worlds, calls)
  {
    forall k :: 0 <= k < |calls| && calls[k].Sweep? ==> SpanFits(worlds[k].arena)
  }

  lemma CallKeepsInv(w: World, q: seq<Record>, c: Call, w': World)
    requires Inv(w.arena, q) && Performs(w, c, w')
    ensures Inv(w'.arena, QueueAfterCall(w, q, c)) <==> CallFits(w, c)
  {
    hide Inv, Answers, StepFits;
    match c
    case Check(query, now, best, reusable, reply) =>
      SoundMeansInv(w.arena, q);
      AnswersKeep(w.arena, q, w.vectors, query, now, best, reusable, reply, w'.arena, w'.vectors);
    case Store(n, payload) => StepKeepsInv(w.arena, q, DoSet(n, payload));
    case Sweep => CollectStepKeepsInv(w.arena, q, DoCollect);
  }

  lemma {:induction false} FittingSessionKeepsInv(worlds: seq<World>, calls: seq<Call>, k: nat)
    requires Session(worlds, calls) && k <= |calls|
    requires forall i :: 0 <= i < |calls| ==> CallFits(worlds[i], calls[i])
    ensures Inv(worlds[k].arena, Allocated(worlds, calls, k))
  {
    hide Inv, CallFits, Performs, QueueAfterCall;
    if k == 0 {
      InitialInv();
    } else {
      FittingSessionKeepsInv(worlds, calls, k - 1);
      CallKeepsInv(worlds[k - 1], Allocated(worlds, calls, k - 1), calls[k - 1], worlds[k]);
    }
  }

  /** The arena's invariant holds throughout a session if and only if all its records fit. */
  lemma SessionKeepsInv(worlds: seq<World>, calls: seq<Call>)
    requires Session(worlds, calls)
    ensures (forall k :: 0 <= k < |calls| ==> CallFits(worlds[k], calls[k])) <==>
            forall k :: 0 <= k <= |calls| ==> Inv(worlds[k].arena, Allocated(worlds, calls, k))
  {
    hide Inv, CallFits, Performs, QueueAfterCall;
    if forall k :: 0 <= k < |calls| ==> CallFits(worlds[k], calls[k]) {
      forall k | 0 <= k <= |calls| ensures Inv(worlds[k].arena, Allocated(worlds, calls, k)) {
        FittingSessionKeepsInv(worlds, calls, k);
      }
    }
    if forall k :: 0 <= k <= |calls| ==> Inv(worlds[k].arena, Allocated(worlds, calls, k)) {
      forall k | 0 <= k < |calls| ensures CallFits(worlds[k], calls[k]) {
        CallKeepsInv(worlds[k], Allocated(worlds, calls, k), calls[k], worlds[k + 1]);
        assert Inv(worlds[k + 1].arena, Allocated(worlds, calls, k + 1));
      }
    }
  }

  // ----- the map -----

  function ChangeBy(w: World, c: Call, n: nat): Change {
    if Fills(w, c, n) then Filled(c.payload) else if Evicts(w, c, n) then Dropped else Kept
  }

  /** What a call does to the map, and that it leaves the arena sound. */
  lemma CallRefines(w: World, q: seq<Record>, c: Call, w': World, n: nat)
    requires Sound(w.arena, q) && Performs(w, c, w') && (c.Sweep? ==> SpanFits(w.arena))
    ensures Sound(w'.arena, QueueAfterCall(w, q, c))
    ensures Changes(Contents(w.arena), Contents(w'.arena), n, ChangeBy(w, c, n))
  {
    hide Inv, Sound, Answers, Contents, SpanFits, SetCache, Collect;
    match c
    case Check(query, now, best, reusable, reply) =>
      AnswersKeep(w.arena, q, w.vectors, query, now, best, reusable, reply, w'.arena, w'.vectors);
    case Store(m, payload) =>
      StepKeepsSound(w.arena, q, DoSet(m, payload));
      StepRefines(w.arena, q, DoSet(m, payload));
    case Sweep =>
      StepKeepsSound(w.arena, q, DoCollect);
      StepRefines(w.arena, q, DoCollect);
  }

  lemma {:induction false} SessionIsSound(worlds: seq<World>, calls: seq<Call>, k: nat)
    requires Session(worlds, calls) && Settled(worlds, calls) && k <= |calls|
    ensures Sound(worlds[k].arena, Allocated(worlds, calls, k))
  {
    hide Inv, Sound, SpanFits, Performs, QueueAfterCall, Contents;
    if k == 0 {
      InitialInv();
      SoundMeansInv(Initial(), []);
    } else {
      SessionIsSound(worlds, calls, k - 1);
      CallRefines(worlds[k - 1], Allocated(worlds, calls, k - 1), calls[k - 1], worlds[k], 0);
    }
  }

  /** Call j is the latest successful SetCache for n before k, and n has not been evicted since. */
  ghost predicate LatestFill(worlds: seq<World>, calls: seq<Call>, k: nat, n: nat, j: nat)
    requires Session(worlds, calls) && k <= |calls|
  {
    && j < k && Fills(worlds[j], calls[j], n)
    && forall i :: j < i < k ==> !Fills(worlds[i], calls[i], n) && !Evicts(worlds[i], calls[i], n)
  }

  /** Over every session: the cache holds for n exactly the payload of its latest SetCache, until evicted. */
  lemma HeldIffFilled(worlds: seq<World>, calls: seq<Call>, k: nat, n: nat)
    requires Session(worlds, calls) && Settled(worlds, calls) && k <= |calls|
    ensures n in Contents(worlds[k].arena) <==> exists j: nat :: LatestFill(worlds, calls, k, n, j)
    ensures forall j: nat :: LatestFill(worlds, calls, k, n, j) ==>
              calls[j].Store? && n in Contents(worlds[k].arena) &&
              Contents(worlds[k].arena)[n] == calls[j].payload
  {
    hide Evicts, Contents, Performs, Sound, SetCache;
    var maps := seq(|worlds|, i requires 0 <= i < |worlds| => Contents(worlds[i].arena));
    var changes := seq(|calls|, i requires 0 <= i < |calls| && i < |worlds| => ChangeBy(worlds[i], calls[i], n));
    ContentsAre(Initial(), map[]);
    forall i | 0 <= i < |changes| ensures Changes(maps[i], maps[i + 1], n, changes[i]) {
      SessionIsSound(worlds, calls, i);
      CallRefines(worlds[i], Allocated(worlds, calls, i), calls[i], worlds[i + 1], n);
    }
    HeldIffLatest(maps, changes, n, k);
    forall j: nat ensures Latest(changes, k, j) <==> LatestFill(worlds, calls, k, n, j) {
      LatestFillIsLatest(worlds, calls, k, n, j, changes);
    }
  }

  lemma LatestFillIsLatest(worlds: seq<World>, calls: seq<Call>, k: nat, n: nat, j: nat, changes: seq<Change>)
    requires Session(worlds, calls) && k <= |calls| == |changes|
    requires forall i :: 0 <= i < |calls| ==> changes[i] == ChangeBy(worlds[i], calls[i], n)
    ensures Latest(changes, k, j) <==> LatestFill(worlds, calls, k, n, j)
  {
    hide Fills, Evicts, Performs;
    assert forall i :: 0 <= i < k ==>
                         (changes[i].Kept? <==> !Fills(worlds[i], calls[i], n) && !Evicts(worlds[i], calls[i], n));
  }

  /**
    A SetCache of the right size for a pending slot is what the cache holds for it afterwards, as soon
    as the ring has room; nothing else is.
   */
  lemma StoreIsHeldIffPending(worlds: seq<World>, calls: seq<Call>, k: nat)
    requires Session(worlds, calls) && Settled(worlds, calls) && k < |calls|
    requires calls[k].Store? && 0 <= calls[k].node < TOTAL_MAX_SLOTS
    ensures var n, payload, a := calls[k].node, calls[k].payload, worlds[k].arena;
            (LatestFill(worlds, calls, k + 1, n, k) <==>
             a.nodes[n].control.state.Pending? && 0 < |payload| <= 0xFF_FFFF &&
             a.head + 12 + |payload| - a.tail < 0x1_0000_0000) &&
            (LatestFill(worlds, calls, k + 1, n, k) ==>
               n in Contents(worlds[k + 1].arena) && Contents(worlds[k + 1].arena)[n] == payload)
  {
    hide Performs, Sound, SetCache, Contents;
    var n := calls[k].node;
    SessionIsSound(worlds, calls, k);
    SetCacheAnswers(worlds[k].arena, Allocated(worlds, calls, k), n, calls[k].payload);
    HeldIffFilled(worlds, calls, k + 1, n);
  }

  // ----- claims, vectors and times -----

  /** Only a miss gives a slot a vector, a claim time and life. */
  lemma SlotAfterCall(w: World, c: Call, w': World, n: nat)
    requires Performs(w, c, w') && n < TOTAL_MAX_SLOTS && |w.vectors| == TOTAL_MAX_SLOTS
    ensures |w'.vectors| == TOTAL_MAX_SLOTS
    ensures var m, m' := w.arena.nodes[n], w'.arena.nodes[n];
            if Claims(c, n) then
              n < L0_MAX_SLOTS && m'.control.state.Pending? && m'.createdAt == c.now && w'.vectors[n] == c.query &&
              (m.control.state.Dead? || Expired(m, c.now))
            else
              w'.vectors[n] == w.vectors[n] &&
              (!m'.control.state.Dead? ==> !m.control.state.Dead? && m'.createdAt == m.createdAt)
  {
    hide Put, Slice, RecordBytes, HeaderAt, Dot;
  }

  lemma {:induction false} VectorsStayInPlace(worlds: seq<World>, calls: seq<Call>, k: nat)
    requires Session(worlds, calls) && k <= |calls|
    ensures |worlds[k].vectors| == TOTAL_MAX_SLOTS
  {
    hide Performs;
    if k > 0 {
      VectorsStayInPlace(worlds, calls, k - 1);
      SlotAfterCall(worlds[k - 1], calls[k - 1], worlds[k], 0);
    }
  }

  /** Call j is the latest miss before k that was answered with slot n. */
  ghost predicate LatestClaim(calls: seq<Call>, k: nat, n: nat, j: nat)
    requires k <= |calls|
  {
    j < k && Claims(calls[j], n) && forall i :: j < i < k ==> !Claims(calls[i], n)
  }

  /**
    Over every session, without any condition: a slot in use carries the vector and the time of
    its latest claim.
   */
  lemma {:induction false} SlotHoldsItsClaim(worlds: seq<World>, calls: seq<Call>, k: nat, n: nat)
    returns (j: nat)
    requires Session(worlds, calls) && k <= |calls| && n < TOTAL_MAX_SLOTS
    requires !worlds[k].arena.nodes[n].control.state.Dead?
    ensures LatestClaim(calls, k, n, j) && n < L0_MAX_SLOTS
    ensures |worlds[k].vectors| == TOTAL_MAX_SLOTS && worlds[k].vectors[n] == calls[j].query
    ensures worlds[k].arena.nodes[n].createdAt == calls[j].now
  {
    hide Performs;
    VectorsStayInPlace(worlds, calls, k);
    if k > 0 {
      VectorsStayInPlace(worlds, calls, k - 1);
      SlotAfterCall(worlds[k - 1], calls[k - 1], worlds[k], n);
      if Claims(calls[k - 1], n) {
        j := k - 1;
      } else {
        j := SlotHoldsItsClaim(worlds, calls, k - 1, n);
      }
    }
  }

  // ----- every state of every session -----

  lemma CallKeepsDated(w: World, c: Call, w': World)
    requires Dated(w.arena) && Performs(w, c, w')
    ensures Dated(w'.arena)
  {
    hide Answers, Dated, SetCache, Collect;
    match c
    case Check(query, now, best, reusable, reply) =>
      AnswersKeepDated(w.arena, w.vectors, query, now, best, reusable, reply, w'.arena, w'.vectors);
    case Store(n, payload) => StepKeepsDated(w.arena, DoSet(n, payload));
    case Sweep => StepKeepsDated(w.arena, DoCollect);
  }

  /** In every state of every session a slot is dead exactly when its claim time is zero. */
  lemma {:induction false} SessionIsDated(worlds: seq<World>, calls: seq<Call>, k: nat)
    requires Session(worlds, calls) && k <= |calls|
    ensures Dated(worlds[k].arena)
  {
    hide Performs, Dated;
    if k == 0 {
      InitialDated();
    } else {
      SessionIsDated(worlds, calls, k - 1);
      CallKeepsDated(worlds[k - 1], calls[k - 1], worlds[k]);
    }
  }

  /** The embedder hands out vectors of length one. */
  predicate UnitQueries(calls: seq<Call>) {
    forall k :: 0 <= k < |calls| && calls[k].Check? ==> Dot(calls[k].query, calls[k].query) == 1.0
  }

  /** If all queries are normalised, so is the vector of every slot in use, in every state. */
  lemma SessionIsNormalised(worlds: seq<World>, calls: seq<Call>, k: nat)
    requires Session(worlds, calls) && UnitQueries(calls) && k <= |calls|
    ensures Normalised(worlds[k].arena, worlds[k].vectors)
  {
    hide Performs, Dot;
    VectorsStayInPlace(worlds, calls, k);
    forall n | 0 <= n < TOTAL_MAX_SLOTS && !worlds[k].arena.nodes[n].control.state.Dead?
      ensures Dot(worlds[k].vectors[n], worlds[k].vectors[n]) == 1.0
    {
      var j := SlotHoldsItsClaim(worlds, calls, k, n);
    }
  }

  /** Over every session: right after a CheckCache no scanned slot has been pending for over thirty seconds. */
  lemma NoOverdueClaimAfterCheck(worlds: seq<World>, calls: seq<Call>, k: nat, i: nat)
    requires Session(worlds, calls) && k < |calls| && calls[k].Check? && i < L0_MAX_SLOTS
    requires worlds[k + 1].arena.nodes[i].control.state.Pending?
    ensures var m := worlds[k + 1].arena.nodes[i];
            0 < m.createdAt && Age(calls[k].now, m.createdAt) <= PENDING_LIFESPAN
  {
    SessionIsDated(worlds, calls, k);
    CheckLeavesNoOverdueClaim(worlds[k], calls[k], worlds[k + 1], i);
  }

  lemma CheckLeavesNoOverdueClaim(w: World, c: Call, w': World, i: nat)
    requires Performs(w, c, w') && c.Check? && Dated(w.arena) && i < L0_MAX_SLOTS
    requires w'.arena.nodes[i].control.state.Pending?
    ensures var m := w'.arena.nodes[i]; 0 < m.createdAt && Age(c.now, m.createdAt) <= PENDING_LIFESPAN
  {
    hide Dot, Slice;
    ScanLeavesNoOverdueClaim(w.arena, c.now, i);
  }

  // ----- end to end -----

  lemma ReadyIsNotClaimed(w: World, c: Call, w': World, n: nat)
    requires Performs(w, c, w') && IsReady(w.arena, n) && |w.vectors| == TOTAL_MAX_SLOTS
    ensures !Claims(c, n)
  {
    SlotAfterCall(w, c, w', n);
  }

  lemma {:induction false} NoClaimSinceFill(worlds: seq<World>, calls: seq<Call>, k: nat, n: nat, f: nat, i: nat)
    requires Session(worlds, calls) && Settled(worlds, calls) && k <= |calls|
    requires LatestFill(worlds, calls, k, n, f) && f <= i < k
    ensures !Claims(calls[i], n)
  {
    hide Performs, Contents, SetCache, Settled;
    if f < i {
      assert LatestFill(worlds, calls, i, n, f);
      HeldIffFilled(worlds, calls, i, n);
      HeldIsReady(worlds[i].arena, n);
      VectorsStayInPlace(worlds, calls, i);
      ReadyIsNotClaimed(worlds[i], calls[i], worlds[i + 1], n);
    }
  }

  lemma HeldIsReady(a: Arena, n: nat)
    ensures n in Contents(a) <==> IsReady(a, n)
  {
  }

  /** Every fill comes after the latest claim of its slot: an entry belongs to one claim. */
  lemma ClaimPrecedesFill(worlds: seq<World>, calls: seq<Call>, k: nat, n: nat, f: nat) returns (c: nat)
    requires Session(worlds, calls) && Settled(worlds, calls) && k <= |calls|
    requires LatestFill(worlds, calls, k, n, f)
    ensures c < f && LatestClaim(calls, k, n, c) && n < L0_MAX_SLOTS
    ensures |worlds[k].vectors| == TOTAL_MAX_SLOTS && worlds[k].vectors[n] == calls[c].query
  {
    hide Performs, Contents, LatestFill, Settled;
    HeldIffFilled(worlds, calls, k, n);
    HeldIsReady(worlds[k].arena, n);
    c := SlotHoldsItsClaim(worlds, calls, k, n);
    if c >= f {
      FillComesFirst(worlds, calls, k, n, f);
      NoClaimSinceFill(worlds, calls, k, n, f, c);
    }
  }

  lemma FillComesFirst(worlds: seq<World>, calls: seq<Call>, k: nat, n: nat, f: nat)
    requires Session(worlds, calls) && k <= |calls| && LatestFill(worlds, calls, k, n, f)
    ensures f < k
  {
  }

  /**
    End to end. Whenever CheckCache answers a hit, its payload is that of the latest successful
    SetCache for some slot, which has not been evicted since; that SetCache came after the slot's
    latest claim; the prompt of that claim scores at least the threshold against this one; and no
    live slot scores higher, nor as high at a lower index.
   */
  lemma HitIsTheBestStoredAnswer(worlds: seq<World>, calls: seq<Call>, k: nat) returns (c: nat, f: nat)
    requires Session(worlds, calls) && Settled(worlds, calls) && k < |calls|
    requires calls[k].Check? && calls[k].reply.CacheHit?
    ensures var n, w := calls[k].best, worlds[k];
            0 <= n < L0_MAX_SLOTS && c < f < k && LatestClaim(calls, k, n, c) &&
            LatestFill(worlds, calls, k, n, f) && calls[f].Store? && calls[k].reply.payload == calls[f].payload &&
            |w.vectors| == TOTAL_MAX_SLOTS && w.vectors[n] == calls[c].query &&
            IsTopScore(w, calls[k].query, calls[k].now, n)
  {
    hide Sound, Contents, LatestFill, LatestClaim, Settled, Answers, IsTopScore;
    var n, q := calls[k].best, Allocated(worlds, calls, k);
    SessionIsSound(worlds, calls, k);
    HitIsTop(worlds[k], q, calls[k], worlds[k + 1]);
    HeldIffFilled(worlds, calls, k, n);
    f :| LatestFill(worlds, calls, k, n, f);
    c := ClaimPrecedesFill(worlds, calls, k, n, f);
    FillComesFirst(worlds, calls, k, n, f);
  }

  /** Slot n reaches the threshold, no live slot beats it, and those that equal it come later. */
  ghost predicate IsTopScore(w: World, query: Vector, now: nat, n: nat)
    requires |w.vectors| == TOTAL_MAX_SLOTS && n < L0_MAX_SLOTS
  {
    && (forall i :: 0 <= i < TOTAL_MAX_SLOTS ==> |w.vectors[i]| == |query|)
    && Dot(query, w.vectors[n]) >= SIMILARITY_THRESHOLD
    && forall i :: 0 <= i < L0_MAX_SLOTS && Live(w.arena.nodes[i], now) ==>
         Dot(query, w.vectors[i]) < Dot(query, w.vectors[n]) ||
         (Dot(query, w.vectors[i]) == Dot(query, w.vectors[n]) && n <= i)
  }

  lemma HitIsTop(w: World, q: seq<Record>, c: Call, w': World)
    requires Sound(w.arena, q) && Performs(w, c, w') && c.Check? && c.reply.CacheHit?
    ensures 0 <= c.best < L0_MAX_SLOTS && c.best in Contents(w.arena)
    ensures c.reply.payload == Contents(w.arena)[c.best]
    ensures |w.vectors| == TOTAL_MAX_SLOTS && IsTopScore(w, c.query, c.now, c.best)
  {
    hide Dot, Contents, Sound;
    HitServesTheBestEntry(w.arena, q, w.vectors, c.query, c.now, c.best, c.reusable, c.reply, w'.arena, w'.vectors);
  }

  /**
    Whom a request waits for: the slot it is told has been handed out by an earlier miss, not more than
    thirty seconds ago, for a prompt that scores at least the threshold and highest among the live ones.
   */
  lemma PendingWaitsForAPioneer(worlds: seq<World>, calls: seq<Call>, k: nat) returns (c: nat)
    requires Session(worlds, calls) && k < |calls| && calls[k].Check? && calls[k].reply.CachePending?
    ensures var n, w := calls[k].reply.node, worlds[k];
            n < L0_MAX_SLOTS && LatestClaim(calls, k, n, c) && w.arena.nodes[n].control.state.Pending? &&
            Age(calls[k].now, calls[c].now) <= PENDING_LIFESPAN &&
            |w.vectors| == TOTAL_MAX_SLOTS && w.vectors[n] == calls[c].query &&
            IsTopScore(w, calls[k].query, calls[k].now, n)
  {
    hide LatestClaim, IsTopScore, Performs;
    PendingIsTop(worlds[k], calls[k], worlds[k + 1]);
    c := SlotHoldsItsClaim(worlds, calls, k, calls[k].reply.node);
  }

  lemma PendingIsTop(w: World, c: Call, w': World)
    requires Performs(w, c, w') && c.Check? && c.reply.CachePending?
    ensures c.reply.node < L0_MAX_SLOTS && |w.vectors| == TOTAL_MAX_SLOTS
    ensures w.arena.nodes[c.reply.node].control.state.Pending? && Live(w.arena.nodes[c.reply.node], c.now)
    ensures IsTopScore(w, c.query, c.now, c.reply.node)
  {
    hide Dot;
    PendingNamesTheBestClaim(w.arena, w.vectors, c.query, c.now, c.best, c.reusable, c.reply, w'.arena, w'.vectors);
  }

  // ----- second chance -----

  /** A call that makes slot n hot: it is claimed, filled or served. */
  predicate Uses(w: World, c: Call, n: nat) {
    Claims(c, n) || Fills(w, c, n) || (c.Check? && c.reply.CacheHit? && c.best == n)
  }

  predicate Rescues(w: World, c: Call, n: nat) {
    c.Sweep? && Collect(w.arena).1.Rescued? && Collect(w.arena).1.node == n
  }

  lemma HotAfterCall(w: World, c: Call, w': World, n: nat)
    requires Performs(w, c, w') && n < TOTAL_MAX_SLOTS
    ensures Uses(w, c, n) || (w.arena.nodes[n].control.refBit.Hot? && !Rescues(w, c, n)) ==>
              w'.arena.nodes[n].control.refBit.Hot?
    ensures Evicts(w, c, n) ==> w.arena.nodes[n].control.refBit.Cold?
  {
    hide Put, Slice, RecordBytes, HeaderAt, Dot;
  }

  lemma {:induction false} HotUntilRescued(worlds: seq<World>, calls: seq<Call>, j: nat, k: nat, n: nat)
    requires Proceeds(worlds, calls) && j < k <= |calls| && n < TOTAL_MAX_SLOTS && Uses(worlds[j], calls[j], n)
    requires forall i :: j < i < k ==> !Rescues(worlds[i], calls[i], n)
    ensures worlds[k].arena.nodes[n].control.refBit.Hot?
  {
    hide Performs, Uses, Rescues, Evicts;
    if j < k - 1 {
      HotUntilRescued(worlds, calls, j, k - 1, n);
    }
    HotAfterCall(worlds[k - 1], calls[k - 1], worlds[k], n);
  }

  /**
    The second chance, as clients see it: between any claim, fill or hit of a slot and its eviction the
    collector has come by and rescued it once, whatever happened in between.
   */
  lemma UsedSlotGetsSecondChance(worlds: seq<World>, calls: seq<Call>, j: nat, k: nat, n: nat)
    requires Proceeds(worlds, calls) && j < k < |calls| && n < TOTAL_MAX_SLOTS
    requires Uses(worlds[j], calls[j], n) && Evicts(worlds[k], calls[k], n)
    ensures exists i :: j < i < k && Rescues(worlds[i], calls[i], n)
  {
    hide Performs, Uses, Rescues, Evicts;
    if forall i :: j < i < k ==> !Rescues(worlds[i], calls[i], n) {
      HotUntilRescued(worlds, calls, j, k, n);
      HotAfterCall(worlds[k], calls[k], worlds[k + 1], n);
      assert false;
    }
  }

  // ----- one question to the model -----

  /** A slot claimed at `birth` for `query` and in use since. */
  predicate Keeps(w: World, n: nat, query: Vector, birth: nat)
    requires n < TOTAL_MAX_SLOTS && |w.vectors| == TOTAL_MAX_SLOTS
  {
    !w.arena.nodes[n].control.state.Dead? && w.arena.nodes[n].createdAt == birth && w.vectors[n] == query
  }

  lemma CallKeepsClaim(w: World, c: Call, w': World, n: nat, query: Vector, birth: nat)
    requires Performs(w, c, w') && |w.vectors| == |w'.vectors| == TOTAL_MAX_SLOTS && n < TOTAL_MAX_SLOTS
    requires Keeps(w, n, query, birth) && !Evicts(w, c, n)
    requires c.Check? ==> birth <= c.now <= birth + PENDING_LIFESPAN
    ensures Keeps(w', n, query, birth)
  {
    hide Put, Slice, RecordBytes, HeaderAt, Dot;
  }

  /** The clock neither runs backwards behind call j nor gets more than thirty seconds ahead of it. */
  predicate WithinThirtySeconds(calls: seq<Call>, j: nat, k: nat)
    requires j <= k < |calls| && calls[j].Check?
  {
    forall i :: j <= i <= k && calls[i].Check? ==> calls[j].now <= calls[i].now <= calls[j].now + PENDING_LIFESPAN
  }

  lemma {:induction false} ClaimIsKept(worlds: seq<World>, calls: seq<Call>, j: nat, k: nat, n: nat, last: nat)
    requires Session(worlds, calls) && j < k <= last < |calls| && Claims(calls[j], n)
    requires WithinThirtySeconds(calls, j, last)
    requires forall i :: j < i < k ==> !Evicts(worlds[i], calls[i], n)
    ensures n < L0_MAX_SLOTS && |worlds[k].vectors| == TOTAL_MAX_SLOTS
    ensures Keeps(worlds[k], n, calls[j].query, calls[j].now)
  {
    hide Performs, Evicts;
    VectorsStayInPlace(worlds, calls, k);
    VectorsStayInPlace(worlds, calls, k - 1);
    ClaimInTable(worlds[j], calls[j], worlds[j + 1], n);
    if k == j + 1 {
      SlotAfterCall(worlds[j], calls[j], worlds[k], n);
    } else {
      ClaimIsKept(worlds, calls, j, k - 1, n, last);
      CallKeepsClaim(worlds[k - 1], calls[k - 1], worlds[k], n, calls[j].query, calls[j].now);
    }
  }

  lemma ClaimInTable(w: World, c: Call, w': World, n: nat)
    requires Performs(w, c, w') && Claims(c, n)
    ensures n < L0_MAX_SLOTS && c.now > 0
  {
  }

  lemma LiveSlotAnswers(w: World, c: Call, w': World, n: nat)
    requires Performs(w, c, w') && c.Check? && Normalised(w.arena, w.vectors) && Dot(c.query, c.query) == 1.0
    requires n < L0_MAX_SLOTS && Live(w.arena.nodes[n], c.now) && w.vectors[n] == c.query
    ensures c.reply.CacheHit? || c.reply.CachePending?
    ensures 0 <= c.best < TOTAL_MAX_SLOTS && w.vectors[c.best] == c.query
    ensures c.reply.CachePending? ==> c.reply.node < L0_MAX_SLOTS && w.vectors[c.reply.node] == c.query
  {
    hide Dot, Normalised;
    SamePromptIsRecognised(w.arena, w.vectors, c.query, c.now, c.best, c.reusable, c.reply, w'.arena, w'.vectors, n);
  }

  /**
    The herd. For thirty seconds after a miss the same prompt is served or told to wait, on a slot
    with its own vector, whatever calls come in between, unless the collector takes the slot away.
   */
  lemma MissHoldsTheHerd(worlds: seq<World>, calls: seq<Call>, j: nat, k: nat, n: nat)
    requires Session(worlds, calls) && UnitQueries(calls) && j < k < |calls|
    requires Claims(calls[j], n) && calls[k].Check? && calls[k].query == calls[j].query
    requires WithinThirtySeconds(calls, j, k)
    requires forall i :: j < i < k ==> !Evicts(worlds[i], calls[i], n)
    ensures calls[k].reply.CacheHit? || calls[k].reply.CachePending?
    ensures 0 <= calls[k].best < |worlds[k].vectors| && worlds[k].vectors[calls[k].best] == calls[k].query
    ensures calls[k].reply.CachePending? ==>
              calls[k].reply.node < |worlds[k].vectors| && worlds[k].vectors[calls[k].reply.node] == calls[k].query
  {
    hide Performs, Evicts, Normalised, Dot;
    ClaimInTable(worlds[j], calls[j], worlds[j + 1], n);
    ClaimIsKept(worlds, calls, j, k, n, k);
    SessionIsNormalised(worlds, calls, k);
    LiveSlotAnswers(worlds[k], calls[k], worlds[k + 1], n);
  }

  /** A stored prompt is not sent to the model again before its entry is evicted, however long that takes. */
  lemma StoredPromptIsServed(worlds: seq<World>, calls: seq<Call>, k: nat, n: nat, f: nat, c: nat)
    requires Session(worlds, calls) && Settled(worlds, calls) && UnitQueries(calls) && k < |calls|
    requires LatestFill(worlds, calls, k, n, f) && LatestClaim(calls, k, n, c)
    requires calls[k].Check? && calls[k].query == calls[c].query
    ensures calls[k].reply.CacheHit? || calls[k].reply.CachePending?
    ensures 0 <= calls[k].best < |worlds[k].vectors| && worlds[k].vectors[calls[k].best] == calls[k].query
    ensures calls[k].reply.CachePending? ==>
              calls[k].reply.node < |worlds[k].vectors| && worlds[k].vectors[calls[k].reply.node] == calls[k].query
  {
    hide Performs, Normalised, Dot, LatestFill, Contents, Settled;
    HeldIffFilled(worlds, calls, k, n);
    HeldIsReady(worlds[k].arena, n);
    var c' := ClaimPrecedesFill(worlds, calls, k, n, f);
    assert c' == c;
    SessionIsNormalised(worlds, calls, k);
    LiveSlotAnswers(worlds[k], calls[k], worlds[k + 1], n);
  }
}
