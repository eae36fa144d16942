/** Binary layout of an optimized plot file and the scoop-swap transform as a
    function on the file's bytes.

    An optimized plot of `n` nonces is `SCOOPS_IN_NONCE` blocks of `n * SCOOP_SIZE`
    bytes each; block `b` holds scoop `b` of every nonce, one 64-byte record per
    nonce. The PoC2 layout is obtained by exchanging the second 32-byte hash of
    every record in block `b` with the one at the same place in block `4095 - b`. */
module Geometry {

  newtype byte = x: int | 0 <= x < 256

  const SCOOPS_IN_NONCE: nat := 4096
  const HASH_SIZE: nat := 32
  const SCOOP_SIZE: nat := 64
  const NONCE_SIZE: nat := 262144
  /** Number of iterations of the conversion loop: one per pair of mirrored blocks. */
  const SCOOP_PAIRS: nat := SCOOPS_IN_NONCE / 2

  /** Bytes in one block: one scoop record for every nonce. */
  function BlockSize(nonces: nat): nat { nonces * SCOOP_SIZE }

  /** Bytes in a plot file of `nonces` nonces. */
  function PlotSize(nonces: nat): nat { nonces * NONCE_SIZE }

  /** Byte offset of block `b`; for a forward block this is the loop's `pos`. */
  function BlockStart(nonces: nat, b: nat): nat { b * BlockSize(nonces) }

  /** Byte offset of the block mirrored to `s`: `BlockSize` bytes before the end,
      moved back by the forward offset. */
  function MirrorStart(nonces: nat, s: nat): int { PlotSize(nonces) - BlockStart(nonces, s) - BlockSize(nonces) }

  /** Whether an offset inside a block falls in the second hash of its record. */
  predicate IsSecondHalf(j: nat) { j % SCOOP_SIZE >= HASH_SIZE }

  lemma MulLe(a: nat, b: nat, c: nat)
    requires a <= b
    ensures a * c <= b * c
  {
  }

  /** Quotient and remainder are unique. */
  lemma {:induction false} DivModUnique(x: int, d: int, q: int, r: int)
    requires d > 0 && 0 <= r < d && x == q * d + r
    ensures x / d == q && x % d == r
  {
    var q', r' := x / d, x % d;
    assert (q - q') * d == r' - r;
    if q > q' {
      MulLe(1, q - q', d);
    } else if q < q' {
      MulLe(1, q' - q, d);
    }
  }

  /** Dividing a natural number by a positive one gives a natural number. */
  lemma {:induction false} DivNonneg(x: nat, d: int)
    requires d > 0
    ensures x / d >= 0
  {
  }

  /** Euclidean division by a block size recovers the block coordinates. */
  lemma {:induction false} BlockCoords(nonces: nat, b: nat, j: nat)
    requires b < SCOOPS_IN_NONCE && j < BlockSize(nonces)
    ensures BlockStart(nonces, b) + j < PlotSize(nonces)
    ensures (BlockStart(nonces, b) + j) / BlockSize(nonces) == b
    ensures (BlockStart(nonces, b) + j) % BlockSize(nonces) == j
  {
    var B := BlockSize(nonces);
    assert PlotSize(nonces) == SCOOPS_IN_NONCE * B;
    MulLe(b + 1, SCOOPS_IN_NONCE, B);
    assert (b + 1) * B == b * B + B;
    DivModUnique(b * B + j, B, b, j);
  }

  /** Block index of an offset in the file. */
  lemma {:induction false} BlockOf(nonces: nat, i: nat)
    requires i < PlotSize(nonces)
    ensures BlockSize(nonces) > 0
    ensures 0 <= i / BlockSize(nonces) < SCOOPS_IN_NONCE
    ensures i == BlockStart(nonces, i / BlockSize(nonces)) + i % BlockSize(nonces)
    ensures 0 <= i % BlockSize(nonces) < BlockSize(nonces)
  {
    assert nonces > 0;
    var B := BlockSize(nonces);
    assert B > 0;
    assert PlotSize(nonces) == SCOOPS_IN_NONCE * B;
    DivNonneg(i, B);
    var q := i / B;
    assert BlockStart(nonces, q) == q * B;
  }

  /** The offset whose second hash is exchanged with that of offset `i`: same place
      in the mirrored block. */
  function Mirror(nonces: nat, i: nat): (m: nat)
    requires i < PlotSize(nonces)
    ensures m < PlotSize(nonces)
    ensures m % BlockSize(nonces) == i % BlockSize(nonces)
    ensures m / BlockSize(nonces) == SCOOPS_IN_NONCE - 1 - i / BlockSize(nonces)
  {
    BlockOf(nonces, i);
    var B := BlockSize(nonces);
    var b: nat := SCOOPS_IN_NONCE - 1 - i / B;
    BlockCoords(nonces, b, i % B);
    BlockStart(nonces, b) + i % B
  }

  /** The PoC2 bytes of a PoC1 file: in every record the first hash stays, the second
      hash comes from the mirrored block. */
  function Converted(s: seq<byte>, nonces: nat): (r: seq<byte>)
    requires |s| == PlotSize(nonces)
    ensures |r| == |s|
  {
    seq(|s|, i requires 0 <= i < |s| =>
      if IsSecondHalf(i % BlockSize(nonces)) then s[Mirror(nonces, i)] else s[i])
  }

  /** Mirroring twice returns to the same offset. */
  lemma MirrorInvolution(nonces: nat, i: nat)
    requires i < PlotSize(nonces)
    ensures Mirror(nonces, Mirror(nonces, i)) == i
  {
    BlockOf(nonces, i);
    var m := Mirror(nonces, i);
    BlockOf(nonces, m);
  }

  /** The mirror of an offset lies in another block, so the swap never pairs a byte
      with itself. */
  lemma MirrorDistinct(nonces: nat, i: nat)
    requires i < PlotSize(nonces)
    ensures Mirror(nonces, i) != i
    ensures (i / BlockSize(nonces) < SCOOP_PAIRS) != (Mirror(nonces, i) / BlockSize(nonces) < SCOOP_PAIRS)
  {
    BlockOf(nonces, i);
  }

  /** The mirror of block coordinates (b, j) is (4095 - b, j). */
  lemma {:induction false} MirrorAt(nonces: nat, b: nat, j: nat)
    requires b < SCOOPS_IN_NONCE && j < BlockSize(nonces)
    ensures BlockStart(nonces, b) + j < PlotSize(nonces)
    ensures BlockStart(nonces, SCOOPS_IN_NONCE - 1 - b) + j < PlotSize(nonces)
    ensures (BlockStart(nonces, b) + j) % BlockSize(nonces) == j
    ensures Mirror(nonces, BlockStart(nonces, b) + j) == BlockStart(nonces, SCOOPS_IN_NONCE - 1 - b) + j
  {
    BlockCoords(nonces, b, j);
    BlockCoords(nonces, SCOOPS_IN_NONCE - 1 - b, j);
  }

  /** The value of the converted file at block coordinates (b, j): the first hash of a
      record keeps its byte, the second takes the byte at the same place in block 4095 - b. */
  lemma {:induction false} ConvertedAt(s: seq<byte>, nonces: nat, b: nat, j: nat)
    requires |s| == PlotSize(nonces)
    requires b < SCOOPS_IN_NONCE && j < BlockSize(nonces)
    ensures BlockStart(nonces, b) + j < |s| && BlockStart(nonces, SCOOPS_IN_NONCE - 1 - b) + j < |s|
    ensures Converted(s, nonces)[BlockStart(nonces, b) + j] ==
      if IsSecondHalf(j) then s[BlockStart(nonces, SCOOPS_IN_NONCE - 1 - b) + j] else s[BlockStart(nonces, b) + j]
  {
    var B := BlockSize(nonces);
    var i := BlockStart(nonces, b) + j;
    MirrorAt(nonces, b, j);
    var c := Converted(s, nonces);
    assert c[i] == (if IsSecondHalf(i % B) then s[Mirror(nonces, i)] else s[i]);
  }

  /** Converting twice restores the original bytes exactly. */
  lemma ConvertedInvolution(s: seq<byte>, nonces: nat)
    requires |s| == PlotSize(nonces)
    ensures Converted(Converted(s, nonces), nonces) == s
  {
    var c := Converted(s, nonces);
    var cc := Converted(c, nonces);
    forall i | 0 <= i < |s| ensures cc[i] == s[i] {
      MirrorInvolution(nonces, i);
    }
  }

  /** The forward and mirrored ranges of scoop pair `s` lie in the file, in order,
      and do not overlap; the mirrored one is block `4095 - s`. */
  lemma {:induction false} ScoopRanges(nonces: nat, s: nat)
    requires s < SCOOP_PAIRS
    ensures MirrorStart(nonces, s) == BlockStart(nonces, SCOOPS_IN_NONCE - 1 - s)
    ensures BlockStart(nonces, s) + BlockSize(nonces) == BlockStart(nonces, s + 1)
    ensures BlockStart(nonces, s + 1) <= MirrorStart(nonces, s)
    ensures MirrorStart(nonces, s) + BlockSize(nonces) == PlotSize(nonces) - BlockStart(nonces, s)
  {
    var B := BlockSize(nonces);
    assert PlotSize(nonces) == SCOOPS_IN_NONCE * B;
    assert (SCOOPS_IN_NONCE - 1 - s) * B == SCOOPS_IN_NONCE * B - s * B - B;
    assert (s + 1) * B == s * B + B;
    MulLe(2 * (s + 1), SCOOPS_IN_NONCE, B);
  }

  /** Offset `t` of the record of nonce `k` inside a block, and which hash it is in. */
  lemma {:induction false} RecordOffset(nonces: nat, k: nat, t: nat)
    requires k < nonces && t < SCOOP_SIZE
    ensures k * SCOOP_SIZE + t < BlockSize(nonces)
    ensures IsSecondHalf(k * SCOOP_SIZE + t) <==> t >= HASH_SIZE
  {
    DivModUnique(k * SCOOP_SIZE + t, SCOOP_SIZE, k, t);
  }

  /** Stated on the offsets the conversion loop uses: for scoop pair `s` and nonce `k`
      the second hashes at `s*B + 64k + 32 + t` and `size - (s+1)*B + 64k + 32 + t`
      trade places. */
  lemma {:induction false} ConvertedSwapsHashes(x: seq<byte>, nonces: nat, s: nat, k: nat, t: nat)
    requires |x| == PlotSize(nonces)
    requires s < SCOOP_PAIRS && k < nonces && t < HASH_SIZE
    ensures BlockStart(nonces, s) + BlockSize(nonces) <= MirrorStart(nonces, s)
    ensures MirrorStart(nonces, s) + BlockSize(nonces) <= |x|
    ensures var f, m, r := BlockStart(nonces, s), MirrorStart(nonces, s), k * SCOOP_SIZE + HASH_SIZE + t;
      && Converted(x, nonces)[f + r] == x[m + r]
      && Converted(x, nonces)[m + r] == x[f + r]
  {
    ScoopRanges(nonces, s);
    RecordOffset(nonces, k, HASH_SIZE + t);
    ConvertedAt(x, nonces, s, k * SCOOP_SIZE + HASH_SIZE + t);
    ConvertedAt(x, nonces, SCOOPS_IN_NONCE - 1 - s, k * SCOOP_SIZE + HASH_SIZE + t);
  }

  /** The first hash of every record, in either block of a pair, is left untouched. */
  lemma {:induction false} ConvertedKeepsFirstHashes(x: seq<byte>, nonces: nat, s: nat, k: nat, t: nat)
    requires |x| == PlotSize(nonces)
    requires s < SCOOP_PAIRS && k < nonces && t < HASH_SIZE
    ensures BlockStart(nonces, s) + BlockSize(nonces) <= MirrorStart(nonces, s)
    ensures MirrorStart(nonces, s) + BlockSize(nonces) <= |x|
    ensures var f, m, r := BlockStart(nonces, s), MirrorStart(nonces, s), k * SCOOP_SIZE + t;
      && Converted(x, nonces)[f + r] == x[f + r]
      && Converted(x, nonces)[m + r] == x[m + r]
  {
    ScoopRanges(nonces, s);
    RecordOffset(nonces, k, t);
    ConvertedAt(x, nonces, s, k * SCOOP_SIZE + t);
    ConvertedAt(x, nonces, SCOOPS_IN_NONCE - 1 - s, k * SCOOP_SIZE + t);
  }

  /** The scoop pair whose forward or mirrored range holds offset `i`, and which of
      the two it is. */
  function CoveringPair(nonces: nat, i: nat): (c: (nat, bool))
    requires i < PlotSize(nonces)
    ensures c.0 < SCOOP_PAIRS
  {
    BlockOf(nonces, i);
    var b: nat := i / BlockSize(nonces);
    if b < SCOOP_PAIRS then (b, false) else (SCOOPS_IN_NONCE - 1 - b, true)
  }

  /** Whether offset `i` lies in the mirrored (when `mirrored`) or forward range of pair `s`. */
  predicate InRange(nonces: nat, s: nat, mirrored: bool, i: nat) {
    if mirrored then MirrorStart(nonces, s) <= i < MirrorStart(nonces, s) + BlockSize(nonces)
    else BlockStart(nonces, s) <= i < BlockStart(nonces, s) + BlockSize(nonces)
  }

  /** Across the 2048 scoop pairs the forward and mirrored ranges cover the file
      exactly once: every offset is in one range, the one `CoveringPair` names,
      and in no other. So the loop reads and writes every byte exactly once. */
  lemma {:induction false} RangesPartitionFile(nonces: nat, i: nat, s: nat, mirrored: bool)
    requires i < PlotSize(nonces) && s < SCOOP_PAIRS
    ensures InRange(nonces, CoveringPair(nonces, i).0, CoveringPair(nonces, i).1, i)
    ensures InRange(nonces, s, mirrored, i) <==> (s, mirrored) == CoveringPair(nonces, i)
  {
    var B := BlockSize(nonces);
    BlockOf(nonces, i);
    var b, j := i / B, i % B;
    var c := CoveringPair(nonces, i);
    ScoopRanges(nonces, s);
    ScoopRanges(nonces, c.0);
    BlockCoords(nonces, b, j);
    var blk: nat := if mirrored then SCOOPS_IN_NONCE - 1 - s else s;
    if InRange(nonces, s, mirrored, i) {
      BlockCoords(nonces, blk, i - BlockStart(nonces, blk));
    }
  }

  /** Each pair of blocks adds two blocks to the bytes moved; all pairs
      together move as many bytes as the file holds. */
  lemma PairsCoverFile(nonces: nat, scoop: nat)
    ensures 2 * BlockStart(nonces, scoop) + 2 * BlockSize(nonces) == 2 * BlockStart(nonces, scoop + 1)
    ensures 2 * BlockStart(nonces, SCOOP_PAIRS) == PlotSize(nonces)
  {
  }

  /** The record and nonce sizes are written out as literals (which keeps the
      offset arithmetic above cheap to prove); they are the derived sizes: a
      scoop is two hashes and a nonce is `SCOOPS_IN_NONCE` scoops. */
  lemma LayoutConstants()
    ensures SCOOP_SIZE == HASH_SIZE * 2
    ensures NONCE_SIZE == SCOOP_SIZE * SCOOPS_IN_NONCE
    ensures SCOOP_PAIRS * 2 == SCOOPS_IN_NONCE
  {
  }
}
