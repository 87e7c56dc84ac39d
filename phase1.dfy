/**
 * The first version of the pipeline's reader, which cuts the raw bytes of a
 * file into bundles of `blockSize` bytes without looking at them, and its
 * copy of `generateKmers`. The stream is modelled by the file's bytes, a
 * read position and the stream's good flag: `read` copies up to
 * `blockSize` bytes into a fixed buffer and clears the flag when fewer were
 * available.
 */
module Phase1 {
  import opened Strings
  import opened Chunking
  import opened DataStructs
  import opened Pipeline

  /** The reader's state after consuming `pos` bytes with the stream still
      good: full blocks only, and together exactly the bytes consumed. */
  ghost predicate Consumed(bytes: seq<char>, pos: nat, cut: seq<string>, bs: nat) {
    && pos <= |bytes|
    && FullBlocks(cut, bs)
    && Flatten(cut) == bytes[..pos]
  }

  /** Reading a full block keeps the state. */
  lemma ConsumeBlock(bytes: seq<char>, pos: nat, cut: seq<string>, bs: nat)
    requires Consumed(bytes, pos, cut, bs) && pos + bs <= |bytes|
    ensures Consumed(bytes, pos + bs, cut + [bytes[pos..pos + bs]], bs)
  {
    FlattenSnoc(cut, bytes[pos..pos + bs]);
    assert bytes[..pos + bs] == bytes[..pos] + bytes[pos..pos + bs];
  }

  /** A short read ends the file: the blocks, followed by the short one when
      it is non-empty, are exactly Chunks of the bytes. */
  lemma ConsumeLast(bytes: seq<char>, pos: nat, cut: seq<string>, bs: nat, n: nat)
    requires bs >= 1 && Consumed(bytes, pos, cut, bs) && n == |bytes| - pos < bs
    ensures (if n > 0 then cut + [bytes[pos..pos + n]] else cut) == Chunks(bytes, bs)
  {
    if n > 0 {
      FlattenSnoc(cut, bytes[pos..pos + n]);
      assert bytes == bytes[..pos] + bytes[pos..pos + n];
      ChunksUnique(bytes, bs, cut + [bytes[pos..pos + n]]);
    } else {
      assert bytes[..pos] == bytes;
      ChunksUnique(bytes, bs, cut);
    }
  }

  /** `FastReader` of the first version: reads a file's raw bytes into
      bundles of `blockSize` bytes. */
  class FastReader {
    const blockSize: nat

    constructor (bs: nat := DefaultBlockSize)
      ensures blockSize == bs
    {
      blockSize := bs;
    }

    /** `readFile` on the file's bytes: the bytes cut into bundles of
        `blockSize`, the last one holding what is left; header lines and
        line breaks are kept as they are. */
    method ReadFile(bytes: seq<char>) returns (bundles: seq<FastBundle>)
      requires blockSize >= 1
      ensures |bundles| == |Chunks(bytes, blockSize)|
      ensures forall j :: 0 <= j < |bundles| ==>
                bundles[j].data == Chunks(bytes, blockSize)[j] && bundles[j].finalized
    {
      bundles := [];
      var buffer := new char[blockSize];
      var pos := 0;
      var good := true;
      ghost var cut: seq<string> := [];
      while good
        invariant good ==> Consumed(bytes, pos, cut, blockSize)
        invariant !good ==> cut == Chunks(bytes, blockSize)
        invariant Emitted(bundles, cut)
        decreases |bytes| - pos, good
      {
        var n := Read(bytes, pos, buffer);
        if n > 0 {
          var bundle := NewBundle(blockSize, buffer[..], n);
          EmittedSnoc(bundles, cut, bundle, bytes[pos..pos + n]);
          bundles := bundles + [bundle];
        }
        if n < blockSize {
          ConsumeLast(bytes, pos, cut, blockSize, n);
          good := false;
        } else {
          ConsumeBlock(bytes, pos, cut, blockSize);
        }
        if n > 0 {
          cut := cut + [bytes[pos..pos + n]];
        }
        pos := pos + n;
      }
    }
  }

  /** `in.read(buffer, blockSize)` followed by `in.gcount()`, at read
      position `pos`: copies the next bytes into the buffer, as many as fit
      or as are left, and says how many. */
  method Read(bytes: seq<char>, pos: nat, buffer: array<char>) returns (n: nat)
    requires pos <= |bytes|
    modifies buffer
    ensures n == if |bytes| - pos < buffer.Length then |bytes| - pos else buffer.Length
    ensures buffer[..n] == bytes[pos..pos + n]
  {
    n := if |bytes| - pos < buffer.Length then |bytes| - pos else buffer.Length;
    forall t | 0 <= t < n {
      buffer[t] := bytes[pos + t];
    }
  }

  /** `generateKmers` of the first version, the same loop as the
      pipeline's. */
  method GenerateKmers(s: string, k: nat) returns (kmers: seq<string>)
    ensures |s| < k ==> kmers == []
    ensures |s| >= k ==> |kmers| == |s| - k + 1
    ensures forall i :: 0 <= i < |kmers| ==> kmers[i] == s[i..i + k]
    ensures kmers == Kmers(s, k)
  {
    kmers := [];
    KmersIndex(s, k);
    if |s| < k {
      return;
    }
    for i := 0 to |s| - k + 1
      invariant kmers == Kmers(s, k)[..i]
    {
      kmers := kmers + [s[i..i + k]];
    }
  }
}
