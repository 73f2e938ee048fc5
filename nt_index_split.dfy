/**
 * The partition arithmetic of the nucleotide-index splitter. A FASTA file of
 * N sequences, two lines per sequence, is cut into k chunk files by line
 * ranges; the sequence count is an input (it is obtained by running
 * `grep -c`), and the extraction itself (an `awk` command per chunk) is
 * represented by the chunk's recorded line range.
 */
module NtIndexSplit {
  import opened PyStr

  /** One chunk as `split_fasta` plans it: the file it writes, how many
      sequences it holds, and the first and last input lines it extracts. */
  datatype Chunk = Chunk(file: string, size: nat, startLine: int, endLine: int)

  /** `os.path.join(dir, name)` for two components. */
  function PathJoin(dir: string, name: string): string {
    if StartsWith(name, "/") then name
    else if dir == "" || EndsWith(dir, "/") then dir + name
    else dir + "/" + name
  }

  /** `f"nt_chunk_{i:03d}.fasta"` */
  function ChunkName(i: nat): string {
    "nt_chunk_" + ZeroPadded(i, 3) + ".fasta"
  }

  /** The number of sequences in chunk `i` (1-based) of `k` chunks over `n`
      sequences: the quotient, plus one for each of the first `n % k`. */
  function ChunkSize(n: nat, k: nat, i: nat): nat
    requires k >= 1
  {
    n / k + (if i <= n % k then 1 else 0)
  }

  /** The number of sequences in the chunks before chunk `i`. */
  function SeqsBefore(n: nat, k: nat, i: nat): nat
    requires k >= 1
  {
    if i <= 1 then 0 else SeqsBefore(n, k, i - 1) + ChunkSize(n, k, i - 1)
  }

  /** Chunk `i` as the loop produces it, `current_seq` being one past the
      sequences already assigned. */
  function Plan(dir: string, n: nat, k: nat, i: nat): Chunk
    requires k >= 1
  {
    var current := 1 + SeqsBefore(n, k, i);
    var size := ChunkSize(n, k, i);
    Chunk(PathJoin(dir, ChunkName(i)), size, (current - 1) * 2 + 1, (current + size - 1) * 2)
  }

  /** `split_fasta(input, num_chunks, output_dir)` given the input's sequence
      count: the chunks it writes, in index order, and the list of chunk file
      names it returns. */
  method SplitFasta(totalSeqs: nat, numChunks: nat, outputDir: string)
    returns (chunks: seq<Chunk>, chunkFiles: seq<string>)
    requires numChunks >= 1
    ensures |chunks| == numChunks && |chunkFiles| == numChunks
    ensures forall j :: 0 <= j < numChunks ==>
      chunks[j] == Plan(outputDir, totalSeqs, numChunks, j + 1) && chunkFiles[j] == chunks[j].file
  {
    var seqsPerChunk := totalSeqs / numChunks;
    var remainder := totalSeqs % numChunks;
    chunks, chunkFiles := [], [];
    var currentSeq := 1;
    for i := 1 to numChunks + 1
      invariant |chunks| == i - 1 && |chunkFiles| == i - 1
      invariant currentSeq == 1 + SeqsBefore(totalSeqs, numChunks, i)
      invariant forall j :: 0 <= j < i - 1 ==>
        chunks[j] == Plan(outputDir, totalSeqs, numChunks, j + 1) && chunkFiles[j] == chunks[j].file
    {
      var chunkSize := seqsPerChunk + (if i <= remainder then 1 else 0);
      var chunkFile := PathJoin(outputDir, ChunkName(i));
      var startLine := (currentSeq - 1) * 2 + 1;
      var endLine := (currentSeq + chunkSize - 1) * 2;
      assert Chunk(chunkFile, chunkSize, startLine, endLine) == Plan(outputDir, totalSeqs, numChunks, i) by {
        assert chunkSize == ChunkSize(totalSeqs, numChunks, i);
      }
      chunks := chunks + [Chunk(chunkFile, chunkSize, startLine, endLine)];
      chunkFiles := chunkFiles + [chunkFile];
      currentSeq := currentSeq + chunkSize;
    }
  }

  function Min(a: int, b: int): int {
    if a <= b then a else b
  }

  /** The sequences before chunk `i`: a full quotient for each earlier chunk,
      and one extra for each earlier chunk among the first `n % k`. */
  lemma {:induction false} SeqsBeforeClosedForm(n: nat, k: nat, i: nat)
    requires k >= 1 && i >= 1
    ensures SeqsBefore(n, k, i) == (i - 1) * (n / k) + Min(i - 1, n % k)
  {
    if i > 1 {
      SeqsBeforeClosedForm(n, k, i - 1);
      assert (i - 1) * (n / k) == (i - 2) * (n / k) + n / k;
    }
  }

  /** The chunk sizes add up to the whole input: after the last chunk,
      `current_seq` is one past the last sequence. */
  lemma SizesSumToTotal(n: nat, k: nat)
    requires k >= 1
    ensures SeqsBefore(n, k, k + 1) == n
  {
    SeqsBeforeClosedForm(n, k, k + 1);
    assert n == k * (n / k) + n % k;
  }

  /** Every chunk holds the quotient or one more, and exactly the first
      `n % k` chunks hold one more. */
  lemma SizesBalanced(n: nat, k: nat, i: nat)
    requires k >= 1 && 1 <= i <= k
    ensures ChunkSize(n, k, i) == n / k || ChunkSize(n, k, i) == n / k + 1
    ensures ChunkSize(n, k, i) == n / k + 1 <==> i <= n % k
  {
  }

  /** Each chunk's line range holds two lines per sequence; an empty chunk
      has its last line just before its first. */
  lemma ChunkLines(dir: string, n: nat, k: nat, i: nat)
    requires k >= 1 && i >= 1
    ensures var c := Plan(dir, n, k, i);
      c.endLine - c.startLine + 1 == 2 * c.size &&
      c.startLine == 2 * SeqsBefore(n, k, i) + 1 && c.endLine == 2 * SeqsBefore(n, k, i + 1)
  {
  }

  /** Consecutive ranges abut. */
  lemma RangesAbut(dir: string, n: nat, k: nat, i: nat)
    requires k >= 1 && i >= 1
    ensures Plan(dir, n, k, i + 1).startLine == Plan(dir, n, k, i).endLine + 1
  {
    ChunkLines(dir, n, k, i);
    ChunkLines(dir, n, k, i + 1);
  }

  /** Sequences assigned before a chunk never decrease along the chunks. */
  lemma {:induction false} SeqsBeforeMonotone(n: nat, k: nat, i: nat, j: nat)
    requires k >= 1 && i <= j
    ensures SeqsBefore(n, k, i) <= SeqsBefore(n, k, j)
    decreases j - i
  {
    if i < j {
      SeqsBeforeMonotone(n, k, i, j - 1);
    }
  }

  /** Different chunks extract disjoint line ranges: an earlier chunk ends
      before a later one starts. */
  lemma RangesDisjoint(dir: string, n: nat, k: nat, i: nat, j: nat)
    requires k >= 1 && 1 <= i < j
    ensures Plan(dir, n, k, i).endLine < Plan(dir, n, k, j).startLine
  {
    ChunkLines(dir, n, k, i);
    ChunkLines(dir, n, k, j);
    SeqsBeforeMonotone(n, k, i + 1, j);
  }

  /** The ranges cover the input: the first starts at line 1, the last ends
      at line 2n, and every line in between lies in some chunk's range. */
  lemma RangesCover(dir: string, n: nat, k: nat, line: int)
    requires k >= 1
    ensures Plan(dir, n, k, 1).startLine == 1 && Plan(dir, n, k, k).endLine == 2 * n
    ensures 1 <= line <= 2 * n ==>
      exists i :: 1 <= i <= k && Plan(dir, n, k, i).startLine <= line <= Plan(dir, n, k, i).endLine
  {
    ChunkLines(dir, n, k, 1);
    ChunkLines(dir, n, k, k);
    SizesSumToTotal(n, k);
    if 1 <= line <= 2 * n {
      var i := ChunkOf(dir, n, k, line, 1);
    }
  }

  /** The chunk holding `line`, searching from chunk `i` on. */
  lemma {:induction false} ChunkOf(dir: string, n: nat, k: nat, line: int, i: nat) returns (c: nat)
    requires k >= 1 && 1 <= i <= k
    requires Plan(dir, n, k, i).startLine <= line <= 2 * n
    ensures i <= c <= k && Plan(dir, n, k, c).startLine <= line <= Plan(dir, n, k, c).endLine
    decreases k - i
  {
    ChunkLines(dir, n, k, i);
    if line <= Plan(dir, n, k, i).endLine {
      c := i;
    } else if i == k {
      SizesSumToTotal(n, k);
      assert false;
    } else {
      RangesAbut(dir, n, k, i);
      c := ChunkOf(dir, n, k, line, i + 1);
    }
  }

  /** Chunk names differ for different indices, so no chunk file overwrites
      another. */
  lemma ChunkNamesDistinct(dir: string, i: nat, j: nat)
    requires i != j
    ensures ChunkName(i) != ChunkName(j)
    ensures PathJoin(dir, ChunkName(i)) != PathJoin(dir, ChunkName(j))
  {
    var a, b := ZeroPadded(i, 3), ZeroPadded(j, 3);
    ZeroPaddedValue(i, 3);
    ZeroPaddedValue(j, 3);
    var x, y := ChunkName(i), ChunkName(j);
    assert x[9..|x| - 6] == a && y[9..|y| - 6] == b;
    assert x == y ==> a == b;
    assert x[0] == 'n' && y[0] == 'n';
    assert !StartsWith(x, "/") && !StartsWith(y, "/");
    if dir == "" || EndsWith(dir, "/") {
      assert PathJoin(dir, x)[|dir|..] == x && PathJoin(dir, y)[|dir|..] == y;
    } else {
      assert PathJoin(dir, x)[|dir| + 1..] == x && PathJoin(dir, y)[|dir| + 1..] == y;
    }
  }

  /** The first chunks are named as the loop's format promises. */
  lemma ChunkNameExample()
    ensures ChunkName(1) == "nt_chunk_001.fasta" && ChunkName(20) == "nt_chunk_020.fasta"
  {
    assert Digits(1) == "1";
    assert Digits(2) == "2" && Digits(0) == "0";
    assert Digits(20) == Digits(2) + ['0'] == "20";
    assert Zeros(2) == "00" && Zeros(1) == "0";
  }
}
