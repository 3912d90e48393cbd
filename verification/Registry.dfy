/**
  The promise registry of the gateway (gateway/internal/proxy/registry.go): its 256 shards
  behave as one map, whatever the node ids.
 */
module Registry {
  import opened Ring

  const NUM_SHARDS: nat := 256

  type Int32 = x: int | -0x8000_0000 <= x < 0x8000_0000

  /** uint32(nodeID) & (NumShards - 1): the conversion wraps, the mask keeps the low eight bits. */
  function ShardIndex(nodeId: Int32): (i: nat)
    ensures i < NUM_SHARDS
  {
    (nodeId % 0x1_0000_0000) % NUM_SHARDS
  }

  lemma ShardIndexIsResidue(n: Int32)
    ensures ShardIndex(n) == n % NUM_SHARDS
  {
  }

  /** Negative ids land in the shard of their residue, and exactly the ids 256 apart collide. */
  lemma ShardsAreResidues(m: Int32, n: Int32)
    ensures ShardIndex(m) == ShardIndex(n) <==> (m - n) % NUM_SHARDS == 0
  {
    ShardIndexIsResidue(m);
    ShardIndexIsResidue(n);
    hide ShardIndex;
  }

  datatype LlmError = NoError | LlmError(message: string)

  class Promise {
    var payload: seq<Byte>
    var err: LlmError
    var closed: bool  // the ready channel

    constructor ()
      ensures !closed && payload == [] && err == NoError
    {
      payload, err, closed := [], NoError, false;
    }
  }

  class PromiseRegistry {
    const shards: array<map<Int32, Promise>>
    /** The single map that the shards stand for. */
    ghost var contents: map<Int32, Promise>

    ghost predicate Valid()
      reads this, shards
    {
      && shards.Length == NUM_SHARDS
      && (forall n: Int32 :: n in contents <==> n in shards[ShardIndex(n)])
      && (forall n: Int32 :: n in contents ==> shards[ShardIndex(n)][n] == contents[n])
      && (forall i: nat, n: Int32 :: i < NUM_SHARDS && n in shards[i] ==> ShardIndex(n) == i)
    }

    constructor ()
      ensures Valid() && fresh(shards) && contents == map[]
    {
      shards := new map<Int32, Promise>[NUM_SHARDS](_ => map[]);
      contents := map[];
    }

    method PioneerRegister(nodeId: Int32) returns (p: Promise)
      requires Valid()
      modifies this`contents, shards
      ensures Valid() && fresh(p) && !p.closed && p.payload == [] && p.err == NoError
      ensures contents == old(contents)[nodeId := p]
    {
      p := new Promise();
      var i := ShardIndex(nodeId);
      shards[i] := shards[i][nodeId := p];
      contents := contents[nodeId := p];
    }

    /** Closing a closed channel panics, so the promise must still be open. */
    method PioneerFulfill(nodeId: Int32, p: Promise, payload: seq<Byte>, err: LlmError)
      requires Valid() && !p.closed
      modifies this`contents, shards, p
      ensures Valid()
      ensures p.payload == payload && p.err == err && p.closed
      ensures contents == old(contents) - {nodeId}
    {
      p.payload, p.err := payload, err;
      p.closed := true;
      var i := ShardIndex(nodeId);
      shards[i] := shards[i] - {nodeId};
      contents := contents - {nodeId};
    }

    /** The look-up at the start of herdAwait; nil if there is no promise. */
    method HerdLookup(nodeId: Int32) returns (p: Promise?)
      requires Valid()
      ensures p == if nodeId in contents then contents[nodeId] else null
    {
      var i := ShardIndex(nodeId);
      p := if nodeId in shards[i] then shards[i][nodeId] else null;
    }
  }
}
