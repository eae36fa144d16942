/** The conversion loop of `Plot::convert`: the plot file is an array of bytes,
    the two block buffers and the per-record hash buffer are scratch arrays, and
    seek-then-read / seek-then-write are slice copies between them. */
module Convert {
  import opened Results
  import opened Geometry
  import opened PlotName

  /** `d` with the bytes from offset `at` on replaced by `piece`. */
  function Splice(d: seq<byte>, at: nat, piece: seq<byte>): (r: seq<byte>)
    requires at + |piece| <= |d|
    ensures |r| == |d|
  {
    seq(|d|, i requires 0 <= i < |d| => if at <= i < at + |piece| then piece[i - at] else d[i])
  }

  /** Splicing over the whole of `d` gives the piece. */
  lemma SpliceWhole(d: seq<byte>, piece: seq<byte>)
    requires |piece| == |d|
    ensures Splice(d, 0, piece) == piece
  {
  }

  /** Block `mine` after its second hashes were exchanged with those of `theirs`. */
  function SwapHalves(mine: seq<byte>, theirs: seq<byte>): (r: seq<byte>)
    requires |mine| == |theirs|
    ensures |r| == |mine|
  {
    seq(|mine|, j requires 0 <= j < |mine| => if IsSecondHalf(j) then theirs[j] else mine[j])
  }

  /** The bytes iteration `scoop` of the conversion loop leaves in the destination
      `d` when it reads from `s`: the forward and mirrored blocks are read, their
      second hashes exchanged, the mirrored block written back first, then the
      forward one. */
  function PairStep(s: seq<byte>, d: seq<byte>, nonces: nat, scoop: nat): (r: seq<byte>)
    requires |s| == PlotSize(nonces) && |d| == |s| && scoop < SCOOP_PAIRS
    ensures |r| == |d|
  {
    ScoopRanges(nonces, scoop);
    var f, m, b := BlockStart(nonces, scoop), MirrorStart(nonces, scoop), BlockSize(nonces);
    var forward, mirrored := s[f..f + b], s[m..m + b];
    Splice(Splice(d, m, SwapHalves(mirrored, forward)), f, SwapHalves(forward, mirrored))
  }

  /** `PairStep` in terms of the two swapped blocks it writes. */
  lemma PairStepSplices(s: seq<byte>, d: seq<byte>, nonces: nat, scoop: nat, w1: seq<byte>, w2: seq<byte>)
    requires |s| == PlotSize(nonces) && |d| == |s| && scoop < SCOOP_PAIRS
    requires var f, m, b := BlockStart(nonces, scoop), MirrorStart(nonces, scoop), BlockSize(nonces);
      0 <= m && f + b <= m && m + b <= |s| &&
      w1 == SwapHalves(s[f..f + b], s[m..m + b]) && w2 == SwapHalves(s[m..m + b], s[f..f + b])
    ensures var f, m := BlockStart(nonces, scoop), MirrorStart(nonces, scoop);
      PairStep(s, d, nonces, scoop) == Splice(Splice(d, m, w2), f, w1)
  {
  }

  /** Inside the forward block of its pair, one iteration writes the converted
      bytes of `orig`, as long as `s` still holds `orig` in both blocks. */
  lemma PairStepForward(orig: seq<byte>, s: seq<byte>, d: seq<byte>, nonces: nat, scoop: nat, i: nat)
    requires |orig| == PlotSize(nonces) && |d| == |orig| && scoop < SCOOP_PAIRS && i < |orig|
    requires Untouched(s, orig, nonces, scoop) && InRange(nonces, scoop, false, i)
    ensures PairStep(s, d, nonces, scoop)[i] == Converted(orig, nonces)[i]
  {
    ScoopRanges(nonces, scoop);
    ConvertedAt(orig, nonces, scoop, i - BlockStart(nonces, scoop));
  }

  /** Inside the mirrored block of its pair, likewise. */
  lemma PairStepMirrored(orig: seq<byte>, s: seq<byte>, d: seq<byte>, nonces: nat, scoop: nat, i: nat)
    requires |orig| == PlotSize(nonces) && |d| == |orig| && scoop < SCOOP_PAIRS && i < |orig|
    requires Untouched(s, orig, nonces, scoop) && InRange(nonces, scoop, true, i)
    ensures PairStep(s, d, nonces, scoop)[i] == Converted(orig, nonces)[i]
  {
    ScoopRanges(nonces, scoop);
    ConvertedAt(orig, nonces, SCOOPS_IN_NONCE - 1 - scoop, i - MirrorStart(nonces, scoop));
  }

  /** One iteration writes exactly the forward and mirrored ranges of its pair, and
      what it writes there is the converted bytes of `orig` as long as `s` still
      holds `orig` in those two ranges. */
  lemma PairStepAt(orig: seq<byte>, s: seq<byte>, d: seq<byte>, nonces: nat, scoop: nat, i: nat)
    requires |orig| == PlotSize(nonces) && |d| == |orig| && scoop < SCOOP_PAIRS && i < |orig|
    requires Untouched(s, orig, nonces, scoop)
    ensures PairStep(s, d, nonces, scoop)[i] ==
      if InRange(nonces, scoop, false, i) || InRange(nonces, scoop, true, i) then Converted(orig, nonces)[i] else d[i]
  {
    if InRange(nonces, scoop, false, i) {
      PairStepForward(orig, s, d, nonces, scoop, i);
    } else if InRange(nonces, scoop, true, i) {
      PairStepMirrored(orig, s, d, nonces, scoop, i);
    } else {
      ScoopRanges(nonces, scoop);
    }
  }

  /** Before pair `scoop` is processed, `cur` still holds the original bytes between
      the forward block of `scoop` and the end of its mirrored block. */
  ghost predicate Untouched(cur: seq<byte>, orig: seq<byte>, nonces: nat, scoop: nat) {
    |cur| == |orig| == PlotSize(nonces) &&
    forall i :: BlockStart(nonces, scoop) <= i < PlotSize(nonces) - BlockStart(nonces, scoop) ==> cur[i] == orig[i]
  }

  /** After pairs `0..scoop` are processed, `cur` holds the converted bytes of `orig`
      before the forward block of `scoop` and after its mirrored block. */
  ghost predicate Done(cur: seq<byte>, orig: seq<byte>, nonces: nat, scoop: nat)
    requires |orig| == PlotSize(nonces)
  {
    |cur| == |orig| &&
    forall i :: 0 <= i < |cur| && (i < BlockStart(nonces, scoop) || PlotSize(nonces) - BlockStart(nonces, scoop) <= i) ==>
      cur[i] == Converted(orig, nonces)[i]
  }

  /** One iteration extends the converted part by one pair; in place, where the
      iteration reads what it writes, the rest of the file still holds the original. */
  lemma {:induction false} PairStepAdvances(orig: seq<byte>, s: seq<byte>, d: seq<byte>, nonces: nat, scoop: nat)
    requires |orig| == PlotSize(nonces) && scoop < SCOOP_PAIRS
    requires Untouched(s, orig, nonces, scoop) && Done(d, orig, nonces, scoop)
    ensures Done(PairStep(s, d, nonces, scoop), orig, nonces, scoop + 1)
    ensures Untouched(s, orig, nonces, scoop + 1)
    ensures s == d ==> Untouched(PairStep(s, d, nonces, scoop), orig, nonces, scoop + 1)
  {
    ScoopRanges(nonces, scoop);
    forall i | 0 <= i < |s| {
      PairStepAt(orig, s, d, nonces, scoop, i);
    }
  }

  /** Before the first pair nothing is converted yet. */
  lemma DoneNone(cur: seq<byte>, orig: seq<byte>, nonces: nat)
    requires |orig| == PlotSize(nonces) && |cur| == |orig|
    ensures Done(cur, orig, nonces, 0) && Untouched(orig, orig, nonces, 0)
  {
    assert BlockStart(nonces, 0) == 0;
  }

  /** Once all 2048 pairs are done the whole file is converted. */
  lemma DoneAll(cur: seq<byte>, orig: seq<byte>, nonces: nat)
    requires |orig| == PlotSize(nonces) && Done(cur, orig, nonces, SCOOP_PAIRS)
    ensures cur == Converted(orig, nonces)
  {
    assert BlockStart(nonces, SCOOP_PAIRS) == PlotSize(nonces) - BlockStart(nonces, SCOOP_PAIRS);
  }

  /** `len` bytes of `src` from `from` are copied over `dst` from `to`; nothing else
      in `dst` changes. Models a seek followed by a full read or write, and
      `copy_from_slice`. */
  method CopyBytes(src: array<byte>, from: nat, dst: array<byte>, to: nat, len: nat)
    requires src != dst
    requires from + len <= src.Length && to + len <= dst.Length
    modifies dst
    ensures dst[..] == Splice(old(dst[..]), to, src[from..from + len])
  {
    var k := 0;
    while k < len
      invariant 0 <= k <= len
      invariant forall i :: 0 <= i < dst.Length ==>
        dst[i] == if to <= i < to + k then src[from + (i - to)] else old(dst[i])
    {
      dst[to + k] := src[from + k];
      k := k + 1;
    }
    assert dst[..] == Splice(old(dst[..]), to, src[from..from + len]);
  }

  /** The inner loop: for every nonce record of the two blocks, the second hash
      (bytes 32..63 of the record) of `buffer1` and of `buffer2` trade places,
      through a fresh 32-byte `hash` buffer; the first hashes stay. */
  method SwapSecondHalves(buffer1: array<byte>, buffer2: array<byte>, nonces: nat)
    requires buffer1 != buffer2
    requires buffer1.Length == BlockSize(nonces) && buffer2.Length == BlockSize(nonces)
    modifies buffer1, buffer2
    ensures buffer1[..] == SwapHalves(old(buffer1[..]), old(buffer2[..]))
    ensures buffer2[..] == SwapHalves(old(buffer2[..]), old(buffer1[..]))
  {
    var off := HASH_SIZE;
    var k := 0;
    while k < nonces
      invariant 0 <= k <= nonces && off == k * SCOOP_SIZE + HASH_SIZE
      invariant forall j :: 0 <= j < buffer1.Length ==>
        buffer1[j] == if j < k * SCOOP_SIZE && IsSecondHalf(j) then old(buffer2[j]) else old(buffer1[j])
      invariant forall j :: 0 <= j < buffer2.Length ==>
        buffer2[j] == if j < k * SCOOP_SIZE && IsSecondHalf(j) then old(buffer1[j]) else old(buffer2[j])
    {
      ghost var b1, b2 := buffer1[..], buffer2[..];
      var hash := new byte[HASH_SIZE];
      ghost var h0 := hash[..];
      CopyBytes(buffer1, off, hash, 0, HASH_SIZE);
      SpliceWhole(h0, b1[off..off + HASH_SIZE]);
      ghost var h := hash[..];
      CopyBytes(buffer2, off, buffer1, off, HASH_SIZE);
      CopyBytes(hash, 0, buffer2, off, HASH_SIZE);
      assert buffer1[..] == Splice(b1, off, b2[off..off + HASH_SIZE]);
      assert buffer2[..] == Splice(b2, off, h) && h == b1[off..off + HASH_SIZE];
      forall j | 0 <= j < buffer1.Length
        ensures buffer1[j] == if off <= j < off + HASH_SIZE then b2[j] else b1[j]
        ensures buffer2[j] == if off <= j < off + HASH_SIZE then b1[j] else b2[j]
      {
        assert buffer1[j] == buffer1[..][j] && buffer2[j] == buffer2[..][j];
      }
      forall j | k * SCOOP_SIZE <= j < (k + 1) * SCOOP_SIZE
        ensures IsSecondHalf(j) <==> off <= j
      {
        DivModUnique(j, SCOOP_SIZE, k, j - k * SCOOP_SIZE);
      }
      off := off + SCOOP_SIZE;
      k := k + 1;
    }
    assert buffer1[..] == SwapHalves(old(buffer1[..]), old(buffer2[..]));
    assert buffer2[..] == SwapHalves(old(buffer2[..]), old(buffer1[..]));
  }

  /** The two reads of one iteration: the forward block at `pos` into `buffer1`
      and the mirrored block at `mirror` into `buffer2`, each read in full. */
  method ReadBlocks(src: array<byte>, pos: nat, mirror: nat, buffer1: array<byte>, buffer2: array<byte>)
    requires buffer1 != buffer2 && buffer1 != src && buffer2 != src
    requires pos + buffer1.Length <= src.Length && mirror + buffer2.Length <= src.Length
    modifies buffer1, buffer2
    ensures buffer1[..] == src[pos..pos + buffer1.Length]
    ensures buffer2[..] == src[mirror..mirror + buffer2.Length]
  {
    ghost var b1 := buffer1[..];
    CopyBytes(src, pos, buffer1, 0, buffer1.Length);
    SpliceWhole(b1, src[pos..pos + buffer1.Length]);
    ghost var b2 := buffer2[..];
    CopyBytes(src, mirror, buffer2, 0, buffer2.Length);
    SpliceWhole(b2, src[mirror..mirror + buffer2.Length]);
  }

  /** The two writes of one iteration: `buffer2` back at `mirror` first, then
      `buffer1` at `pos`, each written in full. */
  method WriteBlocks(buffer1: array<byte>, buffer2: array<byte>, dst: array<byte>, pos: nat, mirror: nat)
    requires buffer1 != dst && buffer2 != dst
    requires pos + buffer1.Length <= dst.Length && mirror + buffer2.Length <= dst.Length
    modifies dst
    ensures dst[..] == Splice(Splice(old(dst[..]), mirror, buffer2[..]), pos, buffer1[..])
  {
    CopyBytes(buffer2, 0, dst, mirror, buffer2.Length);
    assert buffer2[0..buffer2.Length] == buffer2[..];
    CopyBytes(buffer1, 0, dst, pos, buffer1.Length);
    assert buffer1[0..buffer1.Length] == buffer1[..];
  }

  /** One iteration of the conversion loop: read the forward block at `pos` into
      `buffer1` and the mirrored block into `buffer2`, exchange their second hashes,
      write the mirrored block back, then the forward block. */
  method ConvertPair(src: array<byte>, dst: array<byte>, nonces: nat, scoop: nat,
                     buffer1: array<byte>, buffer2: array<byte>)
    requires src.Length == PlotSize(nonces) && dst.Length == src.Length && scoop < SCOOP_PAIRS
    requires buffer1.Length == BlockSize(nonces) && buffer2.Length == BlockSize(nonces)
    requires buffer1 != buffer2 && buffer1 != src && buffer1 != dst && buffer2 != src && buffer2 != dst
    modifies dst, buffer1, buffer2
    ensures dst[..] == PairStep(old(src[..]), old(dst[..]), nonces, scoop)
  {
    ghost var s := src[..];
    var size := src.Length;
    var blockSize := BlockSize(nonces);
    var pos := scoop * blockSize;
    var mirror := size - pos - blockSize;
    ScoopRanges(nonces, scoop);
    assert pos == BlockStart(nonces, scoop) && mirror == MirrorStart(nonces, scoop);
    // Both blocks are read in full before either is written.
    ReadBlocks(src, pos, mirror, buffer1, buffer2);
    SwapSecondHalves(buffer1, buffer2, nonces);
    ghost var d := dst[..];
    ghost var w1, w2 := buffer1[..], buffer2[..];
    WriteBlocks(buffer1, buffer2, dst, pos, mirror);
    PairStepSplices(s, d, nonces, scoop, w1, w2);
  }

  /** The conversion loop, reading the plot from `src` and writing it to `dst`:
      the same array in place, a preallocated one in copy mode. Either way `dst`
      ends up holding the PoC2 bytes of the original `src`, and in copy mode `src`
      is left as it was. Every byte of the plot is read once and written once,
      which is what the source's checks on each `read` and `write` count. */
  method ConvertInto(src: array<byte>, dst: array<byte>, nonces: nat)
    returns (ghost read: nat, ghost written: nat)
    requires src.Length == PlotSize(nonces) && dst.Length == src.Length
    modifies dst
    ensures dst[..] == Converted(old(src[..]), nonces)
    ensures src != dst ==> src[..] == old(src[..])
    ensures read == written == src.Length
  {
    ghost var orig := src[..];
    var blockSize := BlockSize(nonces);
    var buffer1 := new byte[blockSize];
    var buffer2 := new byte[blockSize];
    DoneNone(dst[..], orig, nonces);
    var scoop := 0;
    read, written := 0, 0;
    while scoop < SCOOP_PAIRS
      invariant 0 <= scoop <= SCOOP_PAIRS
      invariant read == written == 2 * BlockStart(nonces, scoop)
      invariant src != dst ==> src[..] == orig
      invariant Untouched(src[..], orig, nonces, scoop)
      invariant Done(dst[..], orig, nonces, scoop)
    {
      ghost var s, d := src[..], dst[..];
      ConvertPair(src, dst, nonces, scoop, buffer1, buffer2);
      // Two blocks read, two blocks written.
      assert read + 2 * blockSize == 2 * BlockStart(nonces, scoop + 1) by {
        PairsCoverFile(nonces, scoop);
      }
      read, written := read + 2 * blockSize, written + 2 * blockSize;
      PairStepAdvances(orig, s, d, nonces, scoop);
      scoop := scoop + 1;
    }
    assert read == src.Length by {
      PairsCoverFile(nonces, scoop);
    }
    DoneAll(dst[..], orig, nonces);
  }

  /** Why `Plot::convert` stops before writing anything. */
  datatype ConvertError =
    | BufferTooLarge   // a negative nonce count makes the block buffers unallocatable
    | PreallocFailed   // the copy could not be preallocated to the plot's size

  /** What an accepted plot guarantees about its size. */
  predicate SizeConsistent(p: Plot) {
    p.nonces >= 0 ==> p.size == PlotSize(p.nonces)
  }

  /** `n` zero bytes: what preallocation leaves in a file it just created. */
  function Zeros(n: nat): (r: seq<byte>)
    ensures |r| == n && forall i :: 0 <= i < n ==> r[i] == 0
  {
    seq(n, _ => 0)
  }

  /** A file of zero bytes converts to itself. */
  lemma ConvertedZeros(nonces: nat)
    ensures Converted(Zeros(PlotSize(nonces)), nonces) == Zeros(PlotSize(nonces))
  {
  }

  /** `Plot::convert`. Without an out directory the plot's own bytes are
      rewritten and the file is then renamed to its PoC2 name; with one, the
      file at the PoC2 name in that directory is created (truncated to nothing),
      preallocated with zeros to the plot's size and written, and the plot is
      only read. When that path is the plot's own path, creating it truncates
      the plot, so the conversion then reads and writes zeros. Whether
      preallocation succeeds is a parameter. `target` is the path the PoC2 plot
      ends up at and `plotLength` the length of the plot file afterwards. */
  method ConvertPlot(p: Plot, file: array<byte>, preallocOk: bool)
    returns (r: Result<array<byte>, ConvertError>, target: string, plotLength: nat)
    requires SizeConsistent(p) && file.Length == p.size
    modifies file
    ensures p.nonces < 0 ==> r == Failure(BufferTooLarge) && file[..] == old(file[..]) && plotLength == p.size
    ensures p.nonces >= 0 && p.outDir.None? ==>
      && r == Success(file)
      && file[..] == Converted(old(file[..]), p.nonces)
      && target == RenameTarget(p)
      && plotLength == p.size
    ensures p.nonces >= 0 && p.outDir.Some? ==>
      && target == CopyTarget(p, p.outDir.value)
      && (preallocOk <==> r.Success?)
      && (r.Failure? ==> r.error == PreallocFailed)
    ensures p.nonces >= 0 && p.outDir.Some? && target != p.path ==>
      && file[..] == old(file[..])
      && plotLength == p.size
      && (r.Success? ==> fresh(r.value) && r.value[..] == Converted(old(file[..]), p.nonces))
    ensures p.nonces >= 0 && p.outDir.Some? && target == p.path ==>
      && (r.Success? ==> r.value == file && file[..] == Zeros(p.size) && plotLength == p.size)
      && (r.Failure? ==> plotLength == 0)
  {
    if p.nonces < 0 {
      return Failure(BufferTooLarge), "", p.size;
    }
    if p.outDir.Some? {
      target := CopyTarget(p, p.outDir.value);
      if target == p.path {
        // The plot itself is truncated; a failed preallocation leaves it empty.
        if !preallocOk {
          return Failure(PreallocFailed), target, 0;
        }
        forall i | 0 <= i < file.Length {
          file[i] := 0;
        }
        assert file[..] == Zeros(p.size);
        ghost var _, _ := ConvertInto(file, file, p.nonces);
        ConvertedZeros(p.nonces);
        r, plotLength := Success(file), p.size;
        return;
      }
      if !preallocOk {
        return Failure(PreallocFailed), target, p.size;
      }
      var copy := new byte[p.size](_ => 0);
      ghost var _, _ := ConvertInto(file, copy, p.nonces);
      r, plotLength := Success(copy), p.size;
    } else {
      ghost var _, _ := ConvertInto(file, file, p.nonces);
      r, target, plotLength := Success(file), RenameTarget(p), p.size;
    }
  }

  /** Converting in place and converting into a fresh copy give the same bytes. */
  method InPlaceMatchesCopy(data: seq<byte>, nonces: nat) returns (inPlace: seq<byte>, copied: seq<byte>)
    requires |data| == PlotSize(nonces)
    ensures inPlace == copied == Converted(data, nonces)
  {
    var a := new byte[|data|](i requires 0 <= i < |data| => data[i]);
    var b := new byte[|data|](i requires 0 <= i < |data| => data[i]);
    var c := new byte[|data|](_ => 0);
    assert a[..] == data && b[..] == data;
    ghost var _, _ := ConvertInto(a, a, nonces);
    ghost var _, _ := ConvertInto(b, c, nonces);
    inPlace, copied := a[..], c[..];
  }

  /** Converting a plot in place twice gives back the original bytes. */
  method ConvertTwice(data: seq<byte>, nonces: nat) returns (r: seq<byte>)
    requires |data| == PlotSize(nonces)
    ensures r == data
  {
    var a := new byte[|data|](i requires 0 <= i < |data| => data[i]);
    assert a[..] == data;
    ghost var _, _ := ConvertInto(a, a, nonces);
    ghost var _, _ := ConvertInto(a, a, nonces);
    ConvertedInvolution(data, nonces);
    r := a[..];
  }
}
