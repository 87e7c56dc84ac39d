/**
 * The script that writes a large synthetic FASTA file: records
 * `>seq<id>` followed by one line of 80 random bases, appended until the
 * byte count reaches a target. The file's text is the result; the random
 * draws are an oracle `draw(id, j)`, the index of the `j`-th base of record
 * `id`.
 */
module FastaGenerator {
  import opened Dna
  import opened Pipeline

  /** The script's `target_size`, `1000 * 1024 * 1024` bytes. */
  const TargetSize: nat := 1048576000

  /** The number of bases on each record's line. */
  const LineLength: nat := 80

  // ---------------------------------------------------------------------
  // Decimal numerals, as `f"{n}"` writes a non-negative integer
  // ---------------------------------------------------------------------

  function Digit(d: nat): (c: char)
    requires d < 10
    ensures '0' <= c <= '9'
  {
    "0123456789"[d]
  }

  function DigitValue(c: char): nat
    requires '0' <= c <= '9'
  {
    (c as int - '0' as int) as nat
  }

  /** The decimal numeral of `n`: no sign and no leading zero. */
  function Decimal(n: nat): (r: string)
    ensures 1 <= |r| && forall i :: 0 <= i < |r| ==> '0' <= r[i] <= '9'
    ensures |r| > 1 ==> r[0] != '0'
  {
    if n < 10 then [Digit(n)] else Decimal(n / 10) + [Digit(n % 10)]
  }

  /** The value a numeral denotes. */
  function ParseDecimal(s: string): nat
    requires forall i :: 0 <= i < |s| ==> '0' <= s[i] <= '9'
  {
    if |s| == 0 then 0 else 10 * ParseDecimal(s[..|s| - 1]) + DigitValue(s[|s| - 1])
  }

  /** Reading a numeral back gives the number it was written from. */
  lemma {:induction false} DecimalRoundTrip(n: nat)
    ensures ParseDecimal(Decimal(n)) == n
  {
    var r := Decimal(n);
    if n < 10 {
      assert r[..0] == [];
      assert DigitValue(Digit(n)) == n;
    } else {
      DecimalRoundTrip(n / 10);
      assert r[..|r| - 1] == Decimal(n / 10);
      assert DigitValue(Digit(n % 10)) == n % 10;
    }
  }

  /** Different numbers have different numerals. */
  lemma DecimalInjective(a: nat, b: nat)
    requires Decimal(a) == Decimal(b)
    ensures a == b
  {
    DecimalRoundTrip(a);
    DecimalRoundTrip(b);
  }

  // ---------------------------------------------------------------------
  // The file's records
  // ---------------------------------------------------------------------

  /** The header line of record `id`, without its line break. */
  function HeaderLine(id: nat): string {
    ">seq" + Decimal(id)
  }

  /** The header of record `id`, `f">seq{seq_id}\n"`. */
  function Header(id: nat): string {
    HeaderLine(id) + "\n"
  }

  /** The bases of record `id`: `LineLength` draws from `ACGT`. */
  function BaseLine(id: nat, draw: (nat, nat) -> BaseIndex): (line: string)
    ensures |line| == LineLength
    ensures forall j :: 0 <= j < LineLength ==> line[j] == Bases[draw(id, j)] && IsBase(line[j])
  {
    seq(LineLength, j requires 0 <= j < LineLength => Bases[draw(id, j)])
  }

  /** One record: its header, then its bases and a line break. */
  function Record(id: nat, draw: (nat, nat) -> BaseIndex): string {
    Header(id) + (BaseLine(id, draw) + "\n")
  }

  /** The text of records `1` to `n`. */
  function Fasta(n: nat, draw: (nat, nat) -> BaseIndex): string {
    if n == 0 then [] else Fasta(n - 1, draw) + Record(n, draw)
  }

  /** The same records, as the lines a reader sees. */
  function FastaLines(n: nat, draw: (nat, nat) -> BaseIndex): seq<string> {
    if n == 0 then [] else FastaLines(n - 1, draw) + [HeaderLine(n), BaseLine(n, draw)]
  }

  /** The bases of records `1` to `n`, in order. */
  function FastaBases(n: nat, draw: (nat, nat) -> BaseIndex): string {
    if n == 0 then [] else FastaBases(n - 1, draw) + BaseLine(n, draw)
  }

  /** Lines, each followed by a line break. */
  function JoinLines(lines: seq<string>): string {
    if |lines| == 0 then [] else JoinLines(lines[..|lines| - 1]) + (lines[|lines| - 1] + "\n")
  }

  // ---------------------------------------------------------------------
  // The generating loop
  // ---------------------------------------------------------------------

  /** The script's loop with `target` as `target_size`: while fewer than
      `target` bytes have been counted, write the next record and count its
      bases, its header and one line break. The count is exactly the
      length of the text written; the text is records `1` to `records`,
      the fewest whose length reaches `target`, and the last record is
      the whole overshoot; a target of 0 or less writes nothing. The
      script runs it with `TargetSize`. */
  method Generate(target: int, draw: (nat, nat) -> BaseIndex)
    returns (text: string, seqSize: nat, records: nat)
    ensures text == Fasta(records, draw) && seqSize == |text|
    ensures target <= seqSize
    ensures records > 0 ==> |Fasta(records - 1, draw)| < target
    ensures records > 0 ==> seqSize < target + LineLength + 6 + |Decimal(records)|
    ensures target <= 0 ==> text == []
  {
    text := [];
    seqSize := 0;
    var seqId: nat := 1;
    while seqSize < target
      invariant 1 <= seqId && text == Fasta(seqId - 1, draw) && seqSize == |text|
      invariant seqId > 1 ==> |Fasta(seqId - 2, draw)| < target
      decreases target - seqSize
    {
      var header := ">seq" + Decimal(seqId) + "\n";
      var line := BaseLine(seqId, draw);
      text := text + header;
      text := text + (line + "\n");
      seqSize := seqSize + |line| + |">seq" + Decimal(seqId) + "\n"| + 1;
      seqId := seqId + 1;
    }
    records := seqId - 1;
  }

  // ---------------------------------------------------------------------
  // Properties of the generated file
  // ---------------------------------------------------------------------

  /** Every record adds more than `LineLength` bytes, so the text grows
      strictly with the number of records. */
  lemma {:induction false} FastaGrows(n: nat, n': nat, draw: (nat, nat) -> BaseIndex)
    requires n < n'
    ensures |Fasta(n, draw)| + (LineLength + 6) * (n' - n) <= |Fasta(n', draw)|
    decreases n' - n
  {
    if n + 1 < n' {
      FastaGrows(n, n' - 1, draw);
    }
  }

  /** The record count `Generate` stops at is the least one whose text
      reaches the target. */
  lemma FewestRecords(target: int, records: nat, n: nat, draw: (nat, nat) -> BaseIndex)
    requires target <= |Fasta(records, draw)|
    requires records > 0 ==> |Fasta(records - 1, draw)| < target
    requires target <= |Fasta(n, draw)|
    ensures records <= n
  {
    if n < records {
      if n < records - 1 {
        FastaGrows(n, records - 1, draw);
      }
    }
  }

  /** With a target of 200 bytes the loop writes three records of 87
      bytes: two of them make only 174 bytes. */
  lemma TargetOf200(draw: (nat, nat) -> BaseIndex)
    ensures |Fasta(2, draw)| == 174 < 200 <= |Fasta(3, draw)| == 261
  {
    assert |Decimal(1)| == |Decimal(2)| == |Decimal(3)| == 1;
    assert |Fasta(1, draw)| == 87;
  }

  /** The text is its lines, each with its line break. */
  lemma {:induction false} FastaIsLines(n: nat, draw: (nat, nat) -> BaseIndex)
    ensures JoinLines(FastaLines(n, draw)) == Fasta(n, draw)
  {
    if n > 0 {
      FastaIsLines(n - 1, draw);
      var prev := FastaLines(n - 1, draw);
      var lines := FastaLines(n, draw);
      assert lines[..|lines| - 1] == prev + [HeaderLine(n)];
      assert (prev + [HeaderLine(n)])[..|prev|] == prev;
    }
  }

  /** Reading lines one after the other reads their texts one after the
      other. */
  lemma {:induction false} SequenceTextAppend(a: seq<string>, b: seq<string>)
    ensures SequenceText(a + b) == SequenceText(a) + SequenceText(b)
    decreases |b|
  {
    if |b| == 0 {
      assert a + b == a;
    } else {
      var b' := b[..|b| - 1];
      SequenceTextAppend(a, b');
      assert (a + b)[..|a + b| - 1] == a + b';
      assert (a + b)[|a + b| - 1] == b[|b| - 1];
      KeptTextPrefix(a + b, a + b');
      KeptTextPrefix(b, b');
    }
  }

  /** The text of a prefix of the lines does not depend on the lines after
      it. */
  lemma KeptTextPrefix(lines: seq<string>, prefix: seq<string>)
    requires 0 < |lines| && prefix == lines[..|lines| - 1]
    ensures SequenceText(lines)
         == SequenceText(prefix) + (if IsSequenceLine(lines[|lines| - 1]) then lines[|lines| - 1] else [])
  {
    KeptTextSame(lines, prefix, |prefix|);
  }

  lemma {:induction false} KeptTextSame(lines: seq<string>, other: seq<string>, n: nat)
    requires n <= |lines| && n <= |other| && lines[..n] == other[..n]
    ensures KeptText(lines, n) == KeptText(other, n)
  {
    if n > 0 {
      assert lines[n - 1] == lines[..n][n - 1] == other[..n][n - 1] == other[n - 1];
      assert lines[..n - 1] == lines[..n][..n - 1];
      assert other[..n - 1] == other[..n][..n - 1];
      KeptTextSame(lines, other, n - 1);
    }
  }

  /** The pipeline's reader, given the generated file, keeps exactly the
      drawn bases: header lines are skipped and the base lines are joined. */
  lemma {:induction false} FastaReadsBack(n: nat, draw: (nat, nat) -> BaseIndex)
    ensures SequenceText(FastaLines(n, draw)) == FastaBases(n, draw)
    ensures |FastaBases(n, draw)| == LineLength * n
    ensures forall i :: 0 <= i < |FastaBases(n, draw)| ==> IsBase(FastaBases(n, draw)[i])
  {
    if n > 0 {
      FastaReadsBack(n - 1, draw);
      var pair := [HeaderLine(n), BaseLine(n, draw)];
      SequenceTextAppend(FastaLines(n - 1, draw), pair);
      KeptTextPrefix(pair, [HeaderLine(n)]);
      KeptTextPrefix([HeaderLine(n)], []);
      assert !IsSequenceLine(HeaderLine(n));
      assert IsSequenceLine(BaseLine(n, draw));
      var prev := FastaBases(n - 1, draw);
      var all := FastaBases(n, draw);
      forall i | 0 <= i < |all|
        ensures IsBase(all[i])
      {
        if i >= |prev| {
          assert all[i] == BaseLine(n, draw)[i - |prev|];
        }
      }
    }
  }

  /** Every record has its own header: the ids are never repeated. */
  lemma HeadersDistinct(a: nat, b: nat)
    requires HeaderLine(a) == HeaderLine(b)
    ensures a == b
  {
    assert Decimal(a) == HeaderLine(a)[4..];
    assert Decimal(b) == HeaderLine(b)[4..];
    DecimalInjective(a, b);
  }
}
