/**
 * Cutting a character stream into fixed-size bundles, the common
 * specification of both `FastReader::readFile` variants: every bundle holds
 * `bs` characters except the last, which holds what is left over.
 */
module Chunking {
  import opened Strings

  /** The reference cutting of `s` into blocks of `bs` characters. */
  function Chunks(s: string, bs: nat): (r: seq<string>)
    requires bs >= 1
    ensures forall j :: 0 <= j < |r| ==> 0 < |r[j]| <= bs
    ensures forall j :: 0 <= j < |r| - 1 ==> |r[j]| == bs
    decreases |s|
  {
    if |s| == 0 then []
    else if |s| <= bs then [s]
    else [s[..bs]] + Chunks(s[bs..], bs)
  }

  /** A list of blocks shaped like the output of a reader: non-empty, at
      most `bs` long, and exactly `bs` long except possibly the last. */
  ghost predicate WellCut(cs: seq<string>, bs: nat) {
    && (forall j :: 0 <= j < |cs| ==> 0 < |cs[j]| <= bs)
    && (forall j :: 0 <= j < |cs| - 1 ==> |cs[j]| == bs)
  }

  /** No character is lost, duplicated or reordered by the cutting. */
  lemma {:induction false} ChunksFlatten(s: string, bs: nat)
    requires bs >= 1
    ensures Flatten(Chunks(s, bs)) == s
    decreases |s|
  {
    if |s| > bs {
      ChunksFlatten(s[bs..], bs);
      FlattenCons(s[..bs], Chunks(s[bs..], bs));
      assert s == s[..bs] + s[bs..];
    }
  }

  /** The number of bundles is the length divided by the block size,
      rounded up; in particular an empty stream gives no bundle. */
  lemma {:induction false} ChunksCount(s: string, bs: nat)
    requires bs >= 1
    ensures |Chunks(s, bs)| == (|s| + bs - 1) / bs
    decreases |s|
  {
    if |s| == 0 {
      assert (bs - 1) / bs == 0;
    } else if |s| <= bs {
      DivisionByBlock(|s| - 1, bs, 0);
    } else {
      ChunksCount(s[bs..], bs);
      DivisionByBlock(|s| - 1, bs, (|s| - 1) / bs);
    }
  }

  /** `(x + b) / b == q + 1` whenever `x / b == q`. */
  lemma DivisionByBlock(x: nat, b: nat, q: int)
    requires b >= 1 && q == x / b
    ensures (x + b) / b == q + 1
  {
    var r := x % b;
    assert x + b == (q + 1) * b + r;
    DivisionUnique(x + b, b, q + 1, r);
  }

  /** Euclidean division has a unique quotient. */
  lemma DivisionUnique(n: int, b: int, q: int, r: int)
    requires b >= 1 && 0 <= r < b && n == q * b + r
    ensures n / b == q
  {
    var q', r' := n / b, n % b;
    assert (q' - q) * b == r - r';
    if q' > q {
      ProductAtLeast(q' - q, b);
    } else if q' < q {
      ProductAtLeast(q - q', b);
    }
  }

  lemma ProductAtLeast(a: int, b: int)
    requires a >= 1 && b >= 1
    ensures a * b >= b
  {
  }

  /** Chunks is the only well-cut list whose concatenation is `s`: any
      reader that emits full blocks and then the remainder emits exactly
      Chunks. */
  lemma {:induction false} ChunksUnique(s: string, bs: nat, cs: seq<string>)
    requires bs >= 1
    requires WellCut(cs, bs) && Flatten(cs) == s
    ensures cs == Chunks(s, bs)
    decreases |cs|
  {
    if |cs| == 1 {
      assert s == cs[0];
    } else if |cs| > 1 {
      SplitFirst(cs, bs);
      ChunksUnique(s[bs..], bs, cs[1..]);
      assert cs == [cs[0]] + cs[1..];
    }
  }

  /** In a well-cut list of two or more blocks the first block is a full
      one, and the rest is well cut again. */
  lemma SplitFirst(cs: seq<string>, bs: nat)
    requires WellCut(cs, bs) && |cs| >= 2
    ensures WellCut(cs[1..], bs)
    ensures |Flatten(cs)| > bs
    ensures Flatten(cs)[..bs] == cs[0] && Flatten(cs)[bs..] == Flatten(cs[1..])
  {
    var rest := cs[1..];
    assert cs == [cs[0]] + rest;
    FlattenCons(cs[0], rest);
    assert rest == [rest[0]] + rest[1..];
    FlattenCons(rest[0], rest[1..]);
  }
}
