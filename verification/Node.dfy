/** The packed 64-bit control word of a slot (engine/include/node.hh). */
module Node {
  datatype NodeState = Dead | Pending | Ready | Migrating

  datatype EvictState = Cold | Hot

  datatype UnpackedControl = UnpackedControl(state: NodeState, refBit: EvictState, length: bv64, virtualOffset: bv64)

  const LENGTH_MASK: bv64 := 0xFF_FFFF
  const VIRTUAL_OFFSET_MASK: bv64 := 0x1F_FFFF_FFFF

  function StateBits(s: NodeState): bv64 {
    match s
    case Dead => 0
    case Pending => 1
    case Ready => 2
    case Migrating => 3
  }

  function StateOfBits(b: bv64): NodeState {
    if b == 0 then Dead else if b == 1 then Pending else if b == 2 then Ready else Migrating
  }

  function RefBits(r: EvictState): bv64 {
    if r.Hot? then 1 else 0
  }

  function PackControl(c: UnpackedControl): bv64 {
    (StateBits(c.state) << 62) | (RefBits(c.refBit) << 61) |
    ((c.length & LENGTH_MASK) << 37) | (c.virtualOffset & VIRTUAL_OFFSET_MASK)
  }

  function UnpackControl(w: bv64): UnpackedControl {
    UnpackedControl(StateOfBits(w >> 62), if (w >> 61) & 1 == 0 then Cold else Hot,
                    (w >> 37) & LENGTH_MASK, w & VIRTUAL_OFFSET_MASK)
  }

  /** The fields do not leak into each other: packing keeps all four, truncated to their widths. */
  lemma UnpackOfPack(c: UnpackedControl)
    ensures UnpackControl(PackControl(c)) ==
            c.(length := c.length & LENGTH_MASK, virtualOffset := c.virtualOffset & VIRTUAL_OFFSET_MASK)
  {
  }

  /** Every 64-bit word is a packed control: no bit is unused and none is lost. */
  lemma PackOfUnpack(w: bv64)
    ensures PackControl(UnpackControl(w)) == w
  {
  }

  /**
    A compare-and-swap on words is one on records: the collector rebuilds its expected word
    from the four fields, and it equals the current word exactly when all fields agree.
   */
  lemma WordsAgreeIffFieldsAgree(c: UnpackedControl, w: bv64)
    requires c.length & LENGTH_MASK == c.length && c.virtualOffset & VIRTUAL_OFFSET_MASK == c.virtualOffset
    ensures PackControl(c) == w <==> UnpackControl(w) == c
  {
    UnpackOfPack(c);
    PackOfUnpack(w);
  }

  /** CheckCache and SetCache read the state straight off the top two bits. */
  lemma StateReadFromTopBits(w: bv64, s: NodeState)
    ensures w >> 62 == StateBits(s) <==> UnpackControl(w).state == s
  {
  }

  /** Where the fields lie: two bits of state, one reference bit, 24 of length, 37 of offset. */
  lemma WordLayout(c: UnpackedControl)
    ensures PackControl(c) & 0x1F_FFFF_FFFF == c.virtualOffset & 0x1F_FFFF_FFFF
    ensures (PackControl(c) >> 37) & 0xFF_FFFF == c.length & 0xFF_FFFF
    ensures (PackControl(c) >> 61) & 1 == if c.refBit.Hot? then 1 else 0
    ensures PackControl(c) >> 62 ==
            match c.state { case Dead => 0 case Pending => 1 case Ready => 2 case Migrating => 3 }
  {
  }
}
