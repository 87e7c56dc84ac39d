/**
 * The sequential k-mer counting pipeline: a FASTA reader that cuts the DNA
 * into bundles, the decomposition of a DNA string into k-mers, their
 * minimizers and super-mers, the expansion of super-mers back into k-mer
 * batches for the workers, and a synthetic FASTA writer.
 */
module Pipeline {
  import opened Strings
  import opened Chunking
  import opened DataStructs
  import opened Dna

  /** The reader's default bundle size, `1 << 20` characters. */
  const DefaultBlockSize: nat := 1048576

  // ---------------------------------------------------------------------
  // Reading a FASTA file into bundles
  // ---------------------------------------------------------------------

  /** A line the reader keeps: neither empty nor a `>` header. */
  predicate IsSequenceLine(line: string) {
    |line| > 0 && line[0] != '>'
  }

  /** The DNA of a FASTA file given as its lines: the kept lines, in order,
      with their line breaks removed. */
  function SequenceText(lines: seq<string>): string {
    KeptText(lines, |lines|)
  }

  /** The DNA of the first `n` lines. */
  function KeptText(lines: seq<string>, n: nat): string
    requires n <= |lines|
  {
    if n == 0 then []
    else KeptText(lines, n - 1) + (if IsSequenceLine(lines[n - 1]) then lines[n - 1] else [])
  }

  /** Moving the first `n` characters of the buffer into a new block keeps
      the text read so far. */
  lemma MoveFront(cut: seq<string>, buffer: string, n: nat)
    requires n <= |buffer|
    ensures Flatten(cut + [buffer[..n]]) + buffer[n..] == Flatten(cut) + buffer
  {
    FlattenSnoc(cut, buffer[..n]);
    assert buffer == buffer[..n] + buffer[n..];
  }

  /** The bundles emitted so far hold the given blocks, in order, and are
      all finalized. */
  ghost predicate Emitted(bundles: seq<FastBundle>, blocks: seq<string>)
    reads bundles
  {
    && |bundles| == |blocks|
    && forall j :: 0 <= j < |bundles| ==> bundles[j].data == blocks[j] && bundles[j].finalized
  }

  lemma EmittedSnoc(bundles: seq<FastBundle>, blocks: seq<string>, b: FastBundle, block: string)
    requires Emitted(bundles, blocks) && b.data == block && b.finalized
    ensures Emitted(bundles + [b], blocks + [block])
  {
  }

  /** Every block holds exactly `bs` characters. */
  ghost predicate FullBlocks(blocks: seq<string>, bs: nat) {
    forall j :: 0 <= j < |blocks| ==> |blocks[j]| == bs
  }

  /** `FastReader`: reads a FASTA file into bundles of `blockSize` characters. */
  class FastReader {
    const blockSize: nat

    constructor (bs: nat := DefaultBlockSize)
      ensures blockSize == bs
    {
      blockSize := bs;
    }

    /** The inner loop of `readFile`: while the buffer holds at least
        `blockSize` characters, its first `blockSize` characters become a new
        bundle and are erased from the buffer. */
    method EmitFullBlocks(buffer: string, bundles: seq<FastBundle>, ghost cut: seq<string>)
      returns (rest: string, bundles': seq<FastBundle>, ghost cut': seq<string>)
      requires blockSize >= 1
      requires FullBlocks(cut, blockSize) && Emitted(bundles, cut)
      ensures FullBlocks(cut', blockSize) && Emitted(bundles', cut')
      ensures |rest| < blockSize
      ensures Flatten(cut') + rest == Flatten(cut) + buffer
    {
      rest, bundles', cut' := buffer, bundles, cut;
      while |rest| >= blockSize
        invariant FullBlocks(cut', blockSize)
        invariant Flatten(cut') + rest == Flatten(cut) + buffer
        invariant Emitted(bundles', cut')
        decreases |rest|
      {
        var bundle := NewBundle(blockSize, rest, blockSize);
        EmittedSnoc(bundles', cut', bundle, rest[..blockSize]);
        bundles' := bundles' + [bundle];
        MoveFront(cut', rest, blockSize);
        cut' := cut' + [rest[..blockSize]];
        rest := rest[blockSize..];
      }
    }

    /** `readFile`, on the lines of the file: the DNA of the file cut into
        bundles of `blockSize` characters, the last one holding the rest. */
    method ReadFile(lines: seq<string>) returns (bundles: seq<FastBundle>)
      requires blockSize >= 1
      ensures |bundles| == |Chunks(SequenceText(lines), blockSize)|
      ensures forall j :: 0 <= j < |bundles| ==>
                bundles[j].data == Chunks(SequenceText(lines), blockSize)[j] && bundles[j].finalized
    {
      bundles := [];
      ghost var cut: seq<string> := [];
      var seqBuffer: string := [];
      for li := 0 to |lines|
        invariant Reading(lines, li, cut, seqBuffer, blockSize)
        invariant Emitted(bundles, cut)
      {
        var line := lines[li];
        if |line| == 0 || line[0] == '>' {
          continue;
        }
        ghost var cut0, buffer0 := cut, seqBuffer;
        seqBuffer, bundles, cut := EmitFullBlocks(seqBuffer + line, bundles, cut);
        ReadingKeep(lines, li, cut0, buffer0, cut, seqBuffer, blockSize);
      }
      ReadingDone(lines, cut, seqBuffer, blockSize);
      if |seqBuffer| > 0 {
        var bundle := NewBundle(|seqBuffer|, seqBuffer, |seqBuffer|);
        EmittedSnoc(bundles, cut, bundle, seqBuffer);
        bundles := bundles + [bundle];
        cut := cut + [seqBuffer];
      }
    }
  }

  /** The reader's state after `li` lines: full blocks cut so far, less
      than a block in the buffer, and together exactly the DNA of those
      lines. */
  ghost predicate Reading(lines: seq<string>, li: nat, cut: seq<string>, buffer: string, bs: nat) {
    && li <= |lines|
    && FullBlocks(cut, bs)
    && |buffer| < bs
    && Flatten(cut) + buffer == KeptText(lines, li)
  }

  /** A kept line, once appended to the buffer and flushed, advances the
      reader's state by one line. */
  lemma ReadingKeep(lines: seq<string>, li: nat, cut: seq<string>, buffer: string,
                    cut': seq<string>, rest: string, bs: nat)
    requires Reading(lines, li, cut, buffer, bs) && li < |lines| && IsSequenceLine(lines[li])
    requires FullBlocks(cut', bs) && |rest| < bs
    requires Flatten(cut') + rest == Flatten(cut) + (buffer + lines[li])
    ensures Reading(lines, li + 1, cut', rest, bs)
  {
  }

  /** At the end of the file the blocks cut, followed by the rest of the
      buffer when it is non-empty, are exactly Chunks of the file's DNA. */
  lemma ReadingDone(lines: seq<string>, cut: seq<string>, buffer: string, bs: nat)
    requires bs >= 1 && Reading(lines, |lines|, cut, buffer, bs)
    ensures (if |buffer| > 0 then cut + [buffer] else cut) == Chunks(SequenceText(lines), bs)
  {
    if |buffer| > 0 {
      FlattenSnoc(cut, buffer);
      ChunksUnique(SequenceText(lines), bs, cut + [buffer]);
    } else {
      assert Flatten(cut) + buffer == Flatten(cut);
      ChunksUnique(SequenceText(lines), bs, cut);
    }
  }

  // ---------------------------------------------------------------------
  // k-mers
  // ---------------------------------------------------------------------

  /** The k-mers of `s`: its windows of length `k`, from left to right. */
  function Kmers(s: string, k: nat): (r: seq<string>)
    ensures |s| < k ==> r == []
    ensures |s| >= k ==> |r| == |s| - k + 1
    decreases |s|
  {
    if |s| < k then []
    else if |s| == k then [s]
    else [s[..k]] + Kmers(s[1..], k)
  }

  /** k-mer `i` is the window of length `k` starting at `i`. */
  lemma {:induction false} KmersIndex(s: string, k: nat)
    ensures forall i :: 0 <= i < |Kmers(s, k)| ==> Kmers(s, k)[i] == s[i..i + k]
    decreases |s|
  {
    if |s| > k {
      var r, t := Kmers(s, k), Kmers(s[1..], k);
      KmersIndex(s[1..], k);
      forall i | 0 < i < |r|
        ensures r[i] == s[i..i + k]
      {
        assert r[i] == t[i - 1];
        SliceOfSlice(s, 1, |s|, i - 1, i - 1 + k);
      }
    }
  }

  /** `generateKmers`: no k-mer when `s` is shorter than `k`, otherwise all
      `|s| - k + 1` windows of length `k`, in order. */
  method GenerateKmers(s: string, k: nat) returns (kmers: seq<string>)
    ensures |s| < k ==> kmers == []
    ensures |s| >= k ==> |kmers| == |s| - k + 1
    ensures forall i :: 0 <= i < |kmers| ==> kmers[i] == s[i..i + k] && |kmers[i]| == k
    ensures kmers == Kmers(s, k)
  {
    kmers := [];
    KmersIndex(s, k);
    if |s| < k {
      return;
    }
    for i := 0 to |s| - k + 1
      invariant kmers == Kmers(s, k)[..i]
    {
      kmers := kmers + [s[i..i + k]];
    }
  }

  /** The k-mers of a slice of `s` that spans k-mers `a` to `e - 1` of `s`
      are exactly those k-mers. */
  lemma KmersOfSlice(s: string, k: nat, a: nat, e: nat)
    requires 1 <= k && a <= e <= |s| - k + 1
    ensures Kmers(s[a..e + k - 1], k) == Kmers(s, k)[a..e]
  {
    var sub := s[a..e + k - 1];
    var lhs, rhs := Kmers(sub, k), Kmers(s, k)[a..e];
    KmersIndex(sub, k);
    KmersIndex(s, k);
    assert |lhs| == |rhs|;
    forall i | 0 <= i < |lhs|
      ensures lhs[i] == rhs[i]
    {
      SliceOfSlice(s, a, e + k - 1, i, i + k);
    }
  }

  // ---------------------------------------------------------------------
  // Minimizers
  // ---------------------------------------------------------------------

  /** The window of length `m` of `s` starting at `j`, `s.substr(j, m)`. */
  function Window(s: string, j: nat, m: nat): (w: string)
    requires j + m <= |s|
  {
    s[j..j + m]
  }

  /** A window of a slice of `s` is a window of `s`. */
  lemma WindowOfSlice(s: string, a: nat, b: nat, t: nat, m: nat)
    requires a <= b <= |s| && t + m <= b - a
    ensures Window(s[a..b], t, m) == Window(s, a + t, m)
  {
    SliceOfSlice(s, a, b, t, t + m);
  }

  /** The position of the leftmost least window of length `m` among the
      first `n` windows of `s`, found by scanning from the left and moving
      only on a strictly smaller window. */
  function LeftmostLeast(s: string, m: nat, n: nat): (p: nat)
    requires 1 <= n <= |s| - m + 1
    ensures p < n
    decreases n
  {
    if n == 1 then 0
    else
      var p := LeftmostLeast(s, m, n - 1);
      if Less(Window(s, n - 1, m), Window(s, p, m)) then n - 1 else p
  }

  /** The scan finds a window that is less than or equal to every window
      scanned, and strictly less than every window to its left. */
  lemma {:induction false} LeftmostLeastIsLeast(s: string, m: nat, n: nat)
    requires 1 <= n <= |s| - m + 1
    ensures var p := LeftmostLeast(s, m, n);
            && (forall j :: 0 <= j < n ==> LessEq(Window(s, p, m), Window(s, j, m)))
            && (forall j :: 0 <= j < p ==> Less(Window(s, p, m), Window(s, j, m)))
    decreases n
  {
    if n > 1 {
      LeftmostLeastIsLeast(s, m, n - 1);
      LeastStep(s, m, n, LeftmostLeast(s, m, n - 1));
    }
  }

  lemma LeastStep(s: string, m: nat, n: nat, p: nat)
    requires 2 <= n <= |s| - m + 1 && p < n - 1
    requires forall j :: 0 <= j < n - 1 ==> LessEq(Window(s, p, m), Window(s, j, m))
    requires forall j :: 0 <= j < p ==> Less(Window(s, p, m), Window(s, j, m))
    ensures var w := Window(s, n - 1, m);
            if Less(w, Window(s, p, m)) then
              && (forall j :: 0 <= j < n ==> LessEq(w, Window(s, j, m)))
              && (forall j :: 0 <= j < n - 1 ==> Less(w, Window(s, j, m)))
            else
              forall j :: 0 <= j < n ==> LessEq(Window(s, p, m), Window(s, j, m))
  {
    var w, wp := Window(s, n - 1, m), Window(s, p, m);
    if Less(w, wp) {
      forall j | 0 <= j < n - 1
        ensures Less(w, Window(s, j, m))
      {
        if wp != Window(s, j, m) {
          LessTransitive(w, wp, Window(s, j, m));
        }
      }
      LessIrreflexive(w);
    } else if w != wp {
      LessTotal(w, wp);
    }
  }

  /** The minimizer of `s`: its leftmost least window of length `m` in the
      order of `std::string`. */
  function Minimizer(s: string, m: nat): (r: string)
    requires m <= |s|
    ensures |r| == m
  {
    Window(s, LeftmostLeast(s, m, |s| - m + 1), m)
  }

  /** The minimizer is less than or equal to every window of length `m`. */
  lemma MinimizerIsLeast(s: string, m: nat)
    requires m <= |s|
    ensures forall j :: 0 <= j <= |s| - m ==> LessEq(Minimizer(s, m), Window(s, j, m))
  {
    LeftmostLeastIsLeast(s, m, |s| - m + 1);
  }

  /** The minimizer is the only window of length `m` that is less than or
      equal to all windows of `s`. */
  lemma MinimizerUnique(s: string, m: nat, p: nat)
    requires p + m <= |s|
    requires forall j :: 0 <= j <= |s| - m ==> LessEq(Window(s, p, m), Window(s, j, m))
    ensures Window(s, p, m) == Minimizer(s, m)
  {
    var w, z := Window(s, p, m), Minimizer(s, m);
    var q := LeftmostLeast(s, m, |s| - m + 1);
    LeftmostLeastIsLeast(s, m, |s| - m + 1);
    assert LessEq(w, Window(s, q, m));
    if w != z {
      LessAsymmetric(w, z);
    }
  }

  /** `computeMinimizer`: the lexicographically least `m`-long substring of
      `s`; `k` is unused. */
  method ComputeMinimizer(s: string, m: nat, k: int) returns (minimizer: string)
    requires m <= |s|
    ensures |minimizer| == m
    ensures forall j :: 0 <= j <= |s| - m ==> LessEq(minimizer, Window(s, j, m))
    ensures minimizer == Minimizer(s, m)
  {
    minimizer := Window(s, 0, m);
    ghost var p := 0;
    for i := 1 to |s| - m + 1
      invariant p == LeftmostLeast(s, m, i) && minimizer == Window(s, p, m)
    {
      var current := Window(s, i, m);
      if Less(current, minimizer) {
        minimizer := current;
        p := i;
      }
    }
    assert minimizer == Minimizer(s, m);
    MinimizerIsLeast(s, m);
  }

  /** The minimizers of the first `n` k-mers of `s`, in order. */
  function MinimizersUpTo(s: string, m: nat, k: nat, n: nat): (r: seq<string>)
    requires m <= k && n + k <= |s| + 1
    ensures |r| == n
  {
    if n == 0 then [] else MinimizersUpTo(s, m, k, n - 1) + [Minimizer(Window(s, n - 1, k), m)]
  }

  /** The minimizers of all k-mers of `s`, in order. */
  function MinimizerList(s: string, m: nat, k: nat): (r: seq<string>)
    requires |s| < k || m <= k
    ensures |r| == |Kmers(s, k)|
  {
    if |s| < k then [] else MinimizersUpTo(s, m, k, |s| - k + 1)
  }

  lemma {:induction false} MinimizersUpToIndex(s: string, m: nat, k: nat, n: nat, t: nat)
    requires m <= k && n + k <= |s| + 1 && t < n
    ensures MinimizersUpTo(s, m, k, n)[t] == Minimizer(Window(s, t, k), m)
    decreases n
  {
    if t < n - 1 {
      MinimizersUpToIndex(s, m, k, n - 1, t);
    }
  }

  /** Entry `t` of the list is the minimizer of k-mer `t`. */
  lemma MinimizerAt(s: string, m: nat, k: nat, t: nat)
    requires m <= k && t + k <= |s|
    ensures MinimizerList(s, m, k)[t] == Minimizer(Window(s, t, k), m)
  {
    MinimizersUpToIndex(s, m, k, |s| - k + 1, t);
  }

  /** Entry `t` of the list is the minimizer of k-mer `t`, for every `t`. */
  lemma MinimizerListIndex(s: string, m: nat, k: nat)
    requires |s| < k || m <= k
    ensures forall t :: 0 <= t < |MinimizerList(s, m, k)| ==>
              MinimizerList(s, m, k)[t] == Minimizer(Window(s, t, k), m)
  {
    if |s| >= k {
      forall t | 0 <= t < |s| - k + 1
        ensures MinimizerList(s, m, k)[t] == Minimizer(Window(s, t, k), m)
      {
        MinimizersUpToIndex(s, m, k, |s| - k + 1, t);
      }
    }
  }

  /** `computeAllMinimizers`: one minimizer per k-mer of `s`, in order. */
  method ComputeAllMinimizers(s: string, m: nat, k: nat) returns (minimizers: seq<string>)
    requires |s| < k || m <= k
    ensures minimizers == MinimizerList(s, m, k)
  {
    var kmers := GenerateKmers(s, k);
    minimizers := seq(|kmers|, _ => "");
    for i := 0 to |kmers|
      invariant |minimizers| == |kmers|
      invariant |s| >= k ==> minimizers[..i] == MinimizersUpTo(s, m, k, i)
    {
      assert kmers[i] == Window(s, i, k);
      var mz := ComputeMinimizer(kmers[i], m, k);
      UpdatePrefix(minimizers, i, mz);
      minimizers := minimizers[i := mz];
    }
    assert minimizers[..|kmers|] == minimizers;
  }

  // ---------------------------------------------------------------------
  // Super-mers
  // ---------------------------------------------------------------------

  /** The k-mers of a list of super-mers, super-mer after super-mer. */
  function KmersOfAll(superMers: seq<string>, k: nat): seq<string> {
    if |superMers| == 0 then []
    else KmersOfAll(superMers[..|superMers| - 1], k) + Kmers(superMers[|superMers| - 1], k)
  }

  lemma {:induction false} KmersOfAllCons(x: string, superMers: seq<string>, k: nat)
    ensures KmersOfAll([x] + superMers, k) == Kmers(x, k) + KmersOfAll(superMers, k)
    decreases |superMers|
  {
    if |superMers| == 0 {
      assert [x] + superMers == [x];
      assert [x][..0] == [];
    } else {
      var init, last := superMers[..|superMers| - 1], superMers[|superMers| - 1];
      assert ([x] + superMers)[..|superMers|] == [x] + init;
      KmersOfAllCons(x, init, k);
    }
  }

  /** The minimizer of the first k-mer of a super-mer. */
  function HeadMinimizer(superMer: string, m: nat, k: nat): string
    requires m <= k <= |superMer|
  {
    Minimizer(Window(superMer, 0, k), m)
  }

  /** A super-mer: at least one k-mer long, and every k-mer in it has the
      minimizer of its first k-mer. */
  ghost predicate SharesMinimizer(superMer: string, m: nat, k: nat) {
    && m <= k <= |superMer|
    && forall t :: 0 <= t <= |superMer| - k ==>
         Minimizer(Window(superMer, t, k), m) == HeadMinimizer(superMer, m, k)
  }

  /** The super-mers of a string of at least `k` characters: each one a
      super-mer, and neighbours with different minimizers, so that no run
      could be extended into the next. */
  ghost predicate MaximalRuns(superMers: seq<string>, m: nat, k: nat) {
    && (forall j :: 0 <= j < |superMers| ==> SharesMinimizer(superMers[j], m, k))
    && (forall i, j :: 0 <= i < j < |superMers| && j == i + 1 ==>
          && SharesMinimizer(superMers[i], m, k)
          && SharesMinimizer(superMers[j], m, k)
          && HeadMinimizer(superMers[i], m, k) != HeadMinimizer(superMers[j], m, k))
  }

  lemma MaximalRunsCons(x: string, superMers: seq<string>, m: nat, k: nat)
    requires SharesMinimizer(x, m, k) && MaximalRuns(superMers, m, k)
    requires 0 < |superMers| ==> HeadMinimizer(x, m, k) != HeadMinimizer(superMers[0], m, k)
    ensures MaximalRuns([x] + superMers, m, k)
  {
    var r := [x] + superMers;
    forall i, j | 0 <= i < j < |r| && j == i + 1
      ensures HeadMinimizer(r[i], m, k) != HeadMinimizer(r[j], m, k)
    {
      if 0 < i {
        assert r[i] == superMers[i - 1] && r[j] == superMers[j - 1];
      }
    }
  }

  /** The runs the scan of `computeSuperMers` produces from k-mer `i` on,
      when the open run started at k-mer `start`: a run grows while the
      minimizer stays that of its first k-mer, and is written as the
      substring of `s` its k-mers span. */
  function Runs(s: string, k: nat, mins: seq<string>, start: nat, i: nat): (r: seq<string>)
    requires 1 <= k && |mins| == |s| - k + 1 && start < i <= |mins|
    ensures |r| >= 1
    decreases |mins| - i
  {
    if i == |mins| then [s[start..i - 1 + k]]
    else if mins[i] == mins[start] then Runs(s, k, mins, start, i + 1)
    else [s[start..i - 1 + k]] + Runs(s, k, mins, i, i + 1)
  }

  /** The super-mers `computeSuperMers` returns: the single empty string
      when `s` has no k-mer, otherwise the runs of its k-mers. */
  function SuperMers(s: string, m: nat, k: nat): seq<string>
    requires 1 <= k && (|s| < k || m <= k)
  {
    if |s| < k then [""] else Runs(s, k, MinimizerList(s, m, k), 0, 1)
  }

  /** The slice of `s` covering k-mers `start` to `e - 1` is a super-mer when
      those k-mers have one minimizer. */
  lemma CloseRun(s: string, m: nat, k: nat, mins: seq<string>, start: nat, e: nat)
    requires 1 <= k && m <= k && start < e <= |s| - k + 1
    requires mins == MinimizerList(s, m, k)
    requires forall t :: start <= t < e ==> mins[t] == mins[start]
    ensures SharesMinimizer(s[start..e + k - 1], m, k)
    ensures HeadMinimizer(s[start..e + k - 1], m, k) == mins[start]
  {
    var sm := s[start..e + k - 1];
    forall t | 0 <= t <= |sm| - k
      ensures Minimizer(Window(sm, t, k), m) == mins[start]
    {
      KmerOfRun(s, m, k, start, e, t);
    }
  }

  /** k-mer `t` of the slice of `s` spanning k-mers `start` to `e - 1` is
      k-mer `start + t` of `s`, with its minimizer. */
  lemma KmerOfRun(s: string, m: nat, k: nat, start: nat, e: nat, t: nat)
    requires 1 <= k && m <= k && start < e <= |s| - k + 1 && start + t < e
    ensures Minimizer(Window(s[start..e + k - 1], t, k), m) == MinimizerList(s, m, k)[start + t]
  {
    var w := Window(s, start + t, k);
    WindowOfSlice(s, start, e + k - 1, t, k);
    assert Minimizer(Window(s[start..e + k - 1], t, k), m) == Minimizer(w, m);
    MinimizerAt(s, m, k, start + t);
  }

  /** Expanding the runs from k-mer `start` on gives back the k-mers of `s`
      from `start` on. */
  lemma {:induction false} RunsKmers(s: string, k: nat, mins: seq<string>, start: nat, i: nat)
    requires 1 <= k && |mins| == |s| - k + 1 && start < i <= |mins|
    ensures KmersOfAll(Runs(s, k, mins, start, i), k) == Kmers(s, k)[start..]
    decreases |mins| - i
  {
    if i == |mins| {
      assert s[start..i - 1 + k] == s[start..];
      assert Runs(s, k, mins, start, i) == [s[start..]];
      LastRunKmers(s, k, start);
    } else if mins[i] == mins[start] {
      RunsKmers(s, k, mins, start, i + 1);
    } else {
      var rest := Runs(s, k, mins, i, i + 1);
      assert Runs(s, k, mins, start, i) == [s[start..i - 1 + k]] + rest;
      RunsKmers(s, k, mins, i, i + 1);
      ClosedRunKmers(s, k, start, i, rest);
    }
  }

  /** The last run, spanning k-mer `start` to the end, expands to the
      k-mers from `start` on. */
  lemma LastRunKmers(s: string, k: nat, start: nat)
    requires 1 <= k && start + k <= |s|
    ensures KmersOfAll([s[start..]], k) == Kmers(s, k)[start..]
  {
    var x, ks := s[start..], Kmers(s, k);
    assert [x][..0] == [];
    assert KmersOfAll([x], k) == Kmers(x, k);
    assert s[start..|s|] == x;
    KmersOfSlice(s, k, start, |s| - k + 1);
    assert ks[start..|s| - k + 1] == ks[start..];
  }

  /** A run spanning k-mers `start` to `i - 1`, followed by runs that expand
      to the k-mers from `i` on, expands to the k-mers from `start` on. */
  lemma ClosedRunKmers(s: string, k: nat, start: nat, i: nat, rest: seq<string>)
    requires 1 <= k && start < i <= |s| - k + 1
    requires KmersOfAll(rest, k) == Kmers(s, k)[i..]
    ensures KmersOfAll([s[start..i - 1 + k]] + rest, k) == Kmers(s, k)[start..]
  {
    KmersOfAllCons(s[start..i - 1 + k], rest, k);
    KmersOfSlice(s, k, start, i);
    SliceSplit(Kmers(s, k), start, i);
  }

  /** The runs from k-mer `start` on are super-mers with neighbouring
      minimizers different, and the first has the minimizer of k-mer
      `start`. */
  lemma {:induction false} RunsMaximal(s: string, m: nat, k: nat, mins: seq<string>, start: nat, i: nat)
    requires 1 <= k && m <= k && start < i <= |s| - k + 1
    requires mins == MinimizerList(s, m, k)
    requires forall t :: start <= t < i ==> mins[t] == mins[start]
    ensures var r := Runs(s, k, mins, start, i);
            MaximalRuns(r, m, k) && HeadMinimizer(r[0], m, k) == mins[start]
    decreases |s| - i
  {
    if i == |mins| {
      var x := s[start..i - 1 + k];
      assert Runs(s, k, mins, start, i) == [x] == [x] + [];
      ClosedRunMaximal(s, m, k, mins, start, i, []);
    } else if mins[i] == mins[start] {
      RunsMaximal(s, m, k, mins, start, i + 1);
    } else {
      var rest := Runs(s, k, mins, i, i + 1);
      assert Runs(s, k, mins, start, i) == [s[start..i - 1 + k]] + rest;
      RunsMaximal(s, m, k, mins, i, i + 1);
      ClosedRunMaximal(s, m, k, mins, start, i, rest);
    }
  }

  /** A run spanning k-mers `start` to `e - 1`, all with one minimizer,
      put in front of maximal runs that start with another minimizer, gives
      maximal runs. */
  lemma ClosedRunMaximal(s: string, m: nat, k: nat, mins: seq<string>, start: nat, e: nat,
                         rest: seq<string>)
    requires 1 <= k && m <= k && start < e <= |s| - k + 1
    requires mins == MinimizerList(s, m, k)
    requires forall t :: start <= t < e ==> mins[t] == mins[start]
    requires MaximalRuns(rest, m, k)
    requires 0 < |rest| ==> e < |mins| && HeadMinimizer(rest[0], m, k) == mins[e] != mins[start]
    ensures var x := s[start..e + k - 1];
            MaximalRuns([x] + rest, m, k) && HeadMinimizer(x, m, k) == mins[start]
  {
    var x := s[start..e + k - 1];
    CloseRun(s, m, k, mins, start, e);
    MaximalRunsCons(x, rest, m, k);
  }

  /** Expanding the super-mers of `s` gives back exactly the k-mers of `s`. */
  lemma SuperMersKmers(s: string, m: nat, k: nat)
    requires 1 <= k && (|s| < k || m <= k)
    ensures KmersOfAll(SuperMers(s, m, k), k) == Kmers(s, k)
  {
    if |s| < k {
      assert [""][..0] == [];
    } else {
      RunsKmers(s, k, MinimizerList(s, m, k), 0, 1);
    }
  }

  /** The super-mers of a string with at least one k-mer are maximal runs. */
  lemma SuperMersMaximal(s: string, m: nat, k: nat)
    requires 1 <= k && m <= k <= |s|
    ensures MaximalRuns(SuperMers(s, m, k), m, k)
  {
    RunsMaximal(s, m, k, MinimizerList(s, m, k), 0, 1);
  }

  /** The state of the scan of `computeSuperMers` before k-mer `i`: the
      runs closed so far, followed by the runs still to come from the open
      run on, are all the runs; the open run spans k-mers `start` to
      `i - 1`. */
  ghost predicate Scanning(s: string, k: nat, mins: seq<string>, i: nat, start: nat,
                           closed: seq<string>, open: string)
  {
    && 1 <= k && |mins| == |s| - k + 1 && start < i <= |mins|
    && open == s[start..i - 1 + k]
    && closed + Runs(s, k, mins, start, i) == Runs(s, k, mins, 0, 1)
  }

  lemma ScanFirst(s: string, k: nat, mins: seq<string>)
    requires 1 <= k <= |s| && |mins| == |s| - k + 1
    ensures Scanning(s, k, mins, 1, 0, [], s[0..k])
  {
  }

  /** A k-mer with the open run's minimizer extends the open run by its last
      character. */
  lemma ScanExtend(s: string, k: nat, mins: seq<string>, i: nat, start: nat,
                   closed: seq<string>, open: string)
    requires Scanning(s, k, mins, i, start, closed, open)
    requires i < |mins| && mins[i] == mins[start]
    ensures Scanning(s, k, mins, i + 1, start, closed, open + [s[i + k - 1]])
  {
    SliceSnoc(s, start, i - 1 + k);
  }

  /** A k-mer with another minimizer closes the open run and opens a new
      one at itself. */
  lemma ScanClose(s: string, k: nat, mins: seq<string>, i: nat, start: nat,
                  closed: seq<string>, open: string)
    requires Scanning(s, k, mins, i, start, closed, open)
    requires i < |mins| && mins[i] != mins[start]
    ensures Scanning(s, k, mins, i + 1, i, closed + [open], s[i..i + k])
  {
    AppendAssoc(closed, [open], Runs(s, k, mins, i, i + 1));
  }

  /** After the last k-mer, closing the open run gives all the runs. */
  lemma ScanDone(s: string, k: nat, mins: seq<string>, start: nat,
                 closed: seq<string>, open: string)
    requires Scanning(s, k, mins, |mins|, start, closed, open)
    ensures closed + [open] == Runs(s, k, mins, 0, 1)
  {
  }

  /** `computeSuperMers`: the k-mers of `s` grouped into maximal runs of
      neighbours with the same minimizer, each run written as the substring
      it spans. A string shorter than `k` gives the single empty super-mer. */
  method ComputeSuperMers(s: string, m: nat, k: nat) returns (superMers: seq<string>)
    requires 1 <= k && (|s| < k || m <= k)
    ensures superMers == SuperMers(s, m, k)
  {
    var kmers := GenerateKmers(s, k);
    var minimizers := ComputeAllMinimizers(s, m, k);
    superMers := [];
    var curSuperMer := "";
    var curMinimizer := "";
    ghost var start := 0;
    for i := 0 to |kmers|
      invariant i == 0 ==> superMers == [] && curSuperMer == "" && start == 0
      invariant 0 < i ==> && Scanning(s, k, minimizers, i, start, superMers, curSuperMer)
                          && curMinimizer == minimizers[start]
    {
      if i == 0 {
        curSuperMer := kmers[i];
        curMinimizer := minimizers[i];
        ScanFirst(s, k, minimizers);
      } else if minimizers[i] == curMinimizer {
        assert kmers[i][k - 1] == s[i + k - 1];
        ScanExtend(s, k, minimizers, i, start, superMers, curSuperMer);
        curSuperMer := curSuperMer + [kmers[i][k - 1]];
      } else {
        ScanClose(s, k, minimizers, i, start, superMers, curSuperMer);
        superMers := superMers + [curSuperMer];
        curSuperMer := kmers[i];
        curMinimizer := minimizers[i];
        start := i;
      }
    }
    if 0 < |kmers| {
      ScanDone(s, k, minimizers, start, superMers, curSuperMer);
    }
    superMers := superMers + [curSuperMer];
  }

  /** `superMerToKmers`: the k-mers of a super-mer, exactly as
      `generateKmers` would produce them. */
  method SuperMerToKmers(superMer: string, k: nat) returns (kmers: seq<string>)
    ensures |superMer| < k ==> kmers == []
    ensures |superMer| >= k ==> |kmers| == |superMer| - k + 1
    ensures forall i :: 0 <= i < |kmers| ==> kmers[i] == superMer[i..i + k]
    ensures kmers == Kmers(superMer, k)
  {
    kmers := [];
    KmersIndex(superMer, k);
    if |superMer| < k {
      return;
    }
    for i := 0 to |superMer| - k + 1
      invariant kmers == Kmers(superMer, k)[..i]
    {
      kmers := kmers + [superMer[i..i + k]];
    }
  }

  /** The k-mers of two lists of super-mers, one after the other. */
  lemma {:induction false} KmersOfAllAppend(a: seq<string>, b: seq<string>, k: nat)
    ensures KmersOfAll(a + b, k) == KmersOfAll(a, k) + KmersOfAll(b, k)
    decreases |b|
  {
    if |b| == 0 {
      assert a + b == a;
    } else {
      var b', last := b[..|b| - 1], b[|b| - 1];
      var ab := a + b;
      assert ab[..|ab| - 1] == a + b';
      assert ab[|ab| - 1] == last;
      KmersOfAllAppend(a, b', k);
      calc {
        KmersOfAll(ab, k);
        KmersOfAll(a + b', k) + Kmers(last, k);
        (KmersOfAll(a, k) + KmersOfAll(b', k)) + Kmers(last, k);
        KmersOfAll(a, k) + (KmersOfAll(b', k) + Kmers(last, k));
        KmersOfAll(a, k) + KmersOfAll(b, k);
      }
    }
  }

  /** The super-mers `main` collects: those of every bundle's text, bundle
      after bundle. */
  function SuperMersOfAll(texts: seq<string>, m: nat, k: nat): seq<string>
    requires 1 <= k && m <= k
  {
    if |texts| == 0 then []
    else SuperMersOfAll(texts[..|texts| - 1], m, k) + SuperMers(texts[|texts| - 1], m, k)
  }

  /** The k-mers of every bundle's text, bundle after bundle; a k-mer that
      spans two bundles is in neither. */
  function KmersOfEach(texts: seq<string>, k: nat): seq<string> {
    if |texts| == 0 then []
    else KmersOfEach(texts[..|texts| - 1], k) + Kmers(texts[|texts| - 1], k)
  }

  /** Expanding the collected super-mers gives back the k-mers of the
      bundles, in order. */
  lemma {:induction false} SuperMersOfAllKmers(texts: seq<string>, m: nat, k: nat)
    requires 1 <= k && m <= k
    ensures KmersOfAll(SuperMersOfAll(texts, m, k), k) == KmersOfEach(texts, k)
  {
    if |texts| > 0 {
      var init := texts[..|texts| - 1];
      SuperMersOfAllKmers(init, m, k);
      KmersOfAllAppend(SuperMersOfAll(init, m, k), SuperMers(texts[|texts| - 1], m, k), k);
      SuperMersKmers(texts[|texts| - 1], m, k);
    }
  }

  /** The super-mer stage of `main`: `computeSuperMers` on the text of each
      bundle, the results appended in bundle order. */
  method CollectSuperMers(texts: seq<string>, m: nat, k: nat) returns (superMers: seq<string>)
    requires 1 <= k && m <= k
    ensures superMers == SuperMersOfAll(texts, m, k)
    ensures KmersOfAll(superMers, k) == KmersOfEach(texts, k)
  {
    superMers := [];
    for i := 0 to |texts|
      invariant superMers == SuperMersOfAll(texts[..i], m, k)
    {
      var partial := ComputeSuperMers(texts[i], m, k);
      assert texts[..i + 1][..i] == texts[..i];
      superMers := superMers + partial;
    }
    assert texts[..|texts|] == texts;
    SuperMersOfAllKmers(texts, m, k);
  }

  // ---------------------------------------------------------------------
  // Handing super-mers to the workers
  // ---------------------------------------------------------------------

  /** The blocks hold, one for one and in order, the k-mers of the
      super-mers. */
  ghost predicate HoldKmersOf(blocks: seq<KmerBlock>, superMers: seq<string>, k: nat)
    reads set b | b in blocks
  {
    && |blocks| == |superMers|
    && forall j :: 0 <= j < |blocks| ==> blocks[j].kmers == Kmers(superMers[j], k)
  }

  lemma HoldKmersOfSnoc(blocks: seq<KmerBlock>, superMers: seq<string>, k: nat,
                        b: KmerBlock, superMer: string)
    requires HoldKmersOf(blocks, superMers, k) && b.kmers == Kmers(superMer, k)
    ensures HoldKmersOf(blocks + [b], superMers + [superMer], k)
  {
  }

  /** A new `KmerBlock` sized for the k-mers of `superMer`, filled with them
      one by one. */
  method MakeBlock(superMer: string, k: nat) returns (block: KmerBlock)
    ensures fresh(block)
    ensures block.kmers == Kmers(superMer, k)
  {
    var kmers := SuperMerToKmers(superMer, k);
    block := new KmerBlock(|kmers|);
    for t := 0 to |kmers|
      invariant block.kmers == kmers[..t]
    {
      block.kmers := block.kmers + [kmers[t]];
    }
  }

  /** Pushes the blocks of a batch onto the queue, oldest first. */
  method PushAll(batch: seq<KmerBlock>, inputQueue: KmerQueue)
    modifies inputQueue
    ensures inputQueue.items == old(inputQueue.items) + batch
  {
    for t := 0 to |batch|
      invariant inputQueue.items == old(inputQueue.items) + batch[..t]
    {
      inputQueue.Push(batch[t]);
      assert batch[..t + 1] == batch[..t] + [batch[t]];
    }
  }

  /** `pushSuperMersToQueue`, run alone: the super-mers' blocks are
      collected in batches of 10 and each full batch is pushed; the last,
      partial batch is pushed at the end. The queue gains exactly one fresh
      block per super-mer, in order, holding that super-mer's k-mers. */
  method PushSuperMersToQueue(superMers: seq<string>, k: nat, inputQueue: KmerQueue)
    modifies inputQueue
    ensures |inputQueue.items| == |old(inputQueue.items)| + |superMers|
    ensures inputQueue.items[..|old(inputQueue.items)|] == old(inputQueue.items)
    ensures forall j :: |old(inputQueue.items)| <= j < |inputQueue.items| ==> fresh(inputQueue.items[j])
    ensures HoldKmersOf(inputQueue.items[|old(inputQueue.items)|..], superMers, k)
  {
    var localBatch: seq<KmerBlock> := [];
    ghost var made: seq<KmerBlock> := [];
    for i := 0 to |superMers|
      invariant inputQueue.items + localBatch == old(inputQueue.items) + made
      invariant |localBatch| < 10
      invariant forall j :: 0 <= j < |made| ==> fresh(made[j])
      invariant HoldKmersOf(made, superMers[..i], k)
    {
      var block := MakeBlock(superMers[i], k);
      HoldKmersOfSnoc(made, superMers[..i], k, block, superMers[i]);
      assert superMers[..i + 1] == superMers[..i] + [superMers[i]];
      AppendAssoc(inputQueue.items, localBatch, [block]);
      AppendAssoc(old(inputQueue.items), made, [block]);
      made := made + [block];
      localBatch := localBatch + [block];
      if |localBatch| >= 10 {
        PushAll(localBatch, inputQueue);
        localBatch := [];
        assert inputQueue.items + localBatch == inputQueue.items;
      }
    }
    if |localBatch| > 0 {
      PushAll(localBatch, inputQueue);
      localBatch := [];
    }
    assert inputQueue.items + localBatch == inputQueue.items;
    assert superMers[..|superMers|] == superMers;
    assert inputQueue.items[|old(inputQueue.items)|..] == made;
  }

  // ---------------------------------------------------------------------
  // The synthetic test file
  // ---------------------------------------------------------------------

  /** The header line `generateTestFasta` writes, with its line break. */
  const SyntheticHeader: string := ">synthetic\n"

  /** `generateTestFasta`, with the file's text as the result and the random
      generator as `pick`, the index of the base drawn at each step: the
      header, `length` bases, and a line break. */
  method GenerateTestFasta(length: nat, pick: nat -> BaseIndex) returns (text: string)
    ensures |text| == |SyntheticHeader| + length + 1
    ensures text[..|SyntheticHeader|] == SyntheticHeader
    ensures forall i :: 0 <= i < length ==> text[|SyntheticHeader| + i] == Bases[pick(i)]
    ensures text[|text| - 1] == '\n'
  {
    text := SyntheticHeader;
    for i := 0 to length
      invariant |text| == |SyntheticHeader| + i
      invariant text[..|SyntheticHeader|] == SyntheticHeader
      invariant forall j :: 0 <= j < i ==> text[|SyntheticHeader| + j] == Bases[pick(j)]
    {
      text := text + [Bases[pick(i)]];
    }
    text := text + "\n";
  }

  /** Reading the synthetic file back, as its two lines, gives exactly the
      bases drawn. */
  lemma SyntheticReadsBack(dna: string)
    requires forall i :: 0 <= i < |dna| ==> IsBase(dna[i])
    ensures SequenceText([SyntheticHeader[..|SyntheticHeader| - 1], dna]) == dna
  {
    var lines := [SyntheticHeader[..|SyntheticHeader| - 1], dna];
    assert !IsSequenceLine(lines[0]);
    assert KeptText(lines, 1) == [];
    assert KeptText(lines, 2) == KeptText(lines, 1) + (if IsSequenceLine(dna) then dna else []);
  }
}
