/**
  The payload ring: a fixed buffer of SIZE bytes addressed by ever-growing virtual
  offsets, and the 12-byte record header laid out in it.
 */
module Ring {
  // engine/include/constant.hh
  const SIZE: nat := 0x1_0000_0000
  const OFFSET_MODULUS: nat := 0x20_0000_0000
  const MAX_PAYLOAD_LENGTH: nat := 0xFF_FFFF
  const VALID_IDENTIFIER: nat := 0xDEAD_BEEF
  // a divisor of SIZE: what a record takes up in the concrete runs
  const UNIT: nat := 0x10_0000
  // sizeof(PayloadHeader)
  const HDR: nat := 12

  type Byte = x: int | 0 <= x < 256
  type Uint32 = x: int | 0 <= x < 0x1_0000_0000
  type Memory = m: seq<Byte> | |m| == SIZE witness seq(SIZE, _ => 0)

  /** The `n` bytes found from virtual offset `v` onwards, wrapping at the border. */
  function Slice(mem: Memory, v: nat, n: nat): (s: seq<Byte>)
    ensures |s| == n
  {
    seq(n, k requires 0 <= k < n => mem[(v + k) % SIZE])
  }

  /** The buffer after `bytes` have been laid down from virtual offset `v` onwards. */
  function Put(mem: Memory, v: nat, bytes: seq<Byte>): Memory
    requires |bytes| <= SIZE
  {
    seq(SIZE, i requires 0 <= i < SIZE =>
      var k := (i - v) % SIZE;
      if k < |bytes| then bytes[k] else mem[i])
  }

  /** Position `u` lies at distance `u - v` from `v`, counted round the ring. */
  lemma Distance(v: nat, u: nat)
    requires v <= u < v + SIZE
    ensures (u % SIZE - v) % SIZE == u - v
  {
  }

  /** What was written is read back, however the write lies across the border. */
  lemma PutThenSlice(mem: Memory, v: nat, bytes: seq<Byte>)
    requires |bytes| <= SIZE
    ensures Slice(Put(mem, v, bytes), v, |bytes|) == bytes
  {
  }

  /** A write leaves alone every window that ends before it and less than one lap behind. */
  lemma PutFrame(mem: Memory, v: nat, bytes: seq<Byte>, w: nat, n: nat)
    requires |bytes| <= SIZE
    requires w + n <= v && v + |bytes| <= w + SIZE
    ensures Slice(Put(mem, v, bytes), w, n) == Slice(mem, w, n)
  {
  }

  /** A window of the window. */
  lemma SubSlice(mem: Memory, v: nat, n: nat, lo: nat, hi: nat)
    requires lo <= hi <= n
    ensures Slice(mem, v, n)[lo..hi] == Slice(mem, v + lo, hi - lo)
  {
  }

  /** Offsets stored modulo a multiple of SIZE still address the same bytes. */
  lemma SliceOfMasked(mem: Memory, v: nat, n: nat, d: nat)
    ensures Slice(mem, v % OFFSET_MODULUS + d, n) == Slice(mem, v + d, n)
  {
    var a, b := Slice(mem, v % OFFSET_MODULUS + d, n), Slice(mem, v + d, n);
    forall k | 0 <= k < n ensures a[k] == b[k] {
      var q := v / OFFSET_MODULUS;
      assert v == q * OFFSET_MODULUS + v % OFFSET_MODULUS;
      assert v + d + k == (v % OFFSET_MODULUS + d + k) + (32 * q) * SIZE;
    }
  }

  /** Inside a window shorter than the modulus, a stored offset names one virtual offset. */
  lemma MaskedInjective(u: nat, v: nat, base: nat)
    requires base <= u <= base + SIZE && base <= v <= base + SIZE
    requires u % OFFSET_MODULUS == v % OFFSET_MODULUS
    ensures u == v
  {
  }

  function Zeros(n: nat): seq<Byte> {
    seq(n, _ => 0)
  }

  // ----- record header -----

  /** Padding in front of a header that would otherwise straddle the border. */
  function Pad(v: nat): (p: nat)
    ensures p < HDR
    ensures (v + p) % SIZE + HDR <= SIZE
    ensures p > 0 ==> (v + p) % SIZE == 0
  {
    if SIZE - v % SIZE < HDR then
      var p := SIZE - v % SIZE;
      assert v + p == (v / SIZE + 1) * SIZE;
      p
    else 0
  }

  /** A uint32_t as it lies in memory on x86: least significant byte first. */
  function Bytes32(x: Uint32): (b: seq<Byte>)
    ensures |b| == 4
  {
    [x % 256, x / 256 % 256, x / 65536 % 256, x / 16777216]
  }

  function Value32(b: seq<Byte>): Uint32
    requires |b| == 4
  {
    (b[0] as int) + 256 * (b[1] as int) + 65536 * (b[2] as int) + 16777216 * (b[3] as int)
  }

  lemma Value32OfBytes32(x: Uint32)
    ensures Value32(Bytes32(x)) == x
  {
    assert x / 256 / 256 == x / 65536 && x / 65536 / 256 == x / 16777216;
  }

  datatype PayloadHeader = PayloadHeader(identifier: Uint32, nodeId: Uint32, length: Uint32)

  function HeaderBytes(h: PayloadHeader): (b: seq<Byte>)
    ensures |b| == HDR
  {
    Bytes32(h.identifier) + Bytes32(h.nodeId) + Bytes32(h.length)
  }

  /** The header that the collector finds by casting the address of index `i`. */
  function HeaderAt(mem: Memory, i: nat): PayloadHeader
    requires i + HDR <= SIZE
  {
    PayloadHeader(Value32(mem[i..i + 4]), Value32(mem[i + 4..i + 8]), Value32(mem[i + 8..i + 12]))
  }

  function RecordBytes(node: Uint32, payload: seq<Byte>): (b: seq<Byte>)
    requires |payload| <= MAX_PAYLOAD_LENGTH
    ensures |b| == HDR + |payload|
  {
    HeaderBytes(PayloadHeader(VALID_IDENTIFIER, node, |payload|)) + payload
  }

  /**
    How a record lies in memory: the identifier's four bytes, the node's, the length's, each lowest
    first, and then the text.
   */
  lemma RecordLayout(node: Uint32, payload: seq<Byte>, i: nat)
    requires |payload| <= MAX_PAYLOAD_LENGTH && i < 4
    ensures var b := RecordBytes(node, payload);
            b[..4] == [0xEF, 0xBE, 0xAD, 0xDE] &&
            b[4 + i] == [node % 256, node / 256 % 256, node / 65536 % 256, node / 16777216][i] &&
            b[8 + i] == [|payload| % 256, |payload| / 256 % 256, |payload| / 65536 % 256, |payload| / 16777216][i] &&
            b[12..] == payload
  {
  }

  /** Header round trip: a header written anywhere in front of the border is read back. */
  lemma HeaderRoundTrip(mem: Memory, v: nat, h: PayloadHeader)
    requires v % SIZE + HDR <= SIZE
    requires Slice(mem, v, HDR) == HeaderBytes(h)
    ensures HeaderAt(mem, v % SIZE) == h
  {
    var i := v % SIZE;
    var s := Slice(mem, v, HDR);
    forall k | 0 <= k < HDR ensures mem[i + k] == s[k] {
      assert v == v / SIZE * SIZE + i;
    }
    assert mem[i..i + 4] == s[0..4] == Bytes32(h.identifier);
    assert mem[i + 4..i + 8] == s[4..8] == Bytes32(h.nodeId);
    assert mem[i + 8..i + 12] == s[8..12] == Bytes32(h.length);
    Value32OfBytes32(h.identifier);
    Value32OfBytes32(h.nodeId);
    Value32OfBytes32(h.length);
  }

  lemma LowestDigit(q: nat, r: nat)
    requires r < 256
    ensures (256 * q + r) / 256 == q && (256 * q + r) % 256 == r
  {
  }

  lemma DivideTwice(x: nat)
    ensures x / 256 / 256 == x / 65536 && x / 65536 / 256 == x / 16777216
  {
  }

  lemma Bytes32OfValue32(b: seq<Byte>)
    requires |b| == 4
    ensures Bytes32(Value32(b)) == b
  {
    var b0: int, b1: int, b2: int, b3: int := b[0], b[1], b[2], b[3];
    LowestDigit(b1 + 256 * (b2 + 256 * b3), b0);
    LowestDigit(b2 + 256 * b3, b1);
    LowestDigit(b3, b2);
    DivideTwice(Value32(b));
    assert Value32(b) as int == 256 * (256 * (256 * b3 + b2) + b1) + b0;
  }

  /** What the cast reads determines the bytes that it reads. */
  lemma BytesOfHeaderAt(mem: Memory, i: nat)
    requires i + HDR <= SIZE
    ensures HeaderBytes(HeaderAt(mem, i)) == mem[i..i + HDR]
  {
    hide Bytes32, Value32;
    Bytes32OfValue32(mem[i..i + 4]);
    Bytes32OfValue32(mem[i + 4..i + 8]);
    Bytes32OfValue32(mem[i + 8..i + 12]);
    assert mem[i..i + HDR] == mem[i..i + 4] + mem[i + 4..i + 8] + mem[i + 8..i + 12];
  }
}
