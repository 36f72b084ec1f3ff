/**
  Pipeline A: splitting input CSV files into numbered chunk files.

  A processor holds the current chunk size. For each input file it counts
  the rows, picks a chunk size from a tier table (an if-chain that updates
  the field and, for one range of row counts, leaves it as it was), reads
  the file in pieces of that size, numbers the pieces from 1, names each
  `{base}_{number}.csv`, converts it, records its row count and writes it.
  A file's rows are a `seq<Row>`; reading them in pieces is the partition
  `Chunks`. What the file system does is given by two oracles:
  `convertible(name)` says whether the conversion step, which reads the
  chunk by its bare file name, finds a file there, and `writable(path)`
  says whether writing the chunk to its output path succeeds.
*/
module SplitChunk {
  import opened Wrappers
  import opened Text
  import opened Paths

  /** The chunk size of a freshly built processor. */
  const DefaultChunkSize: nat := 10000

  // ---------------------------------------------------------------------
  // Chunk-size tiers
  // ---------------------------------------------------------------------

  /**
    The chunk size after the tier if-chain has run on a file of `n` rows,
    when the field held `previous` before: no branch assigns for
    10,000,000 <= n < 100,000,000, so there the field keeps `previous`.
  */
  function TierChunkSize(n: nat, previous: nat): (k: nat)
    ensures previous > 0 ==> k > 0
  {
    if n < 10000 then 1000
    else if n < 100000 then 10000
    else if n < 1000000 then 100000
    else if n < 10000000 then 1000000
    else if n >= 100000000 then 10000000
    else previous
  }

  /** The row counts for which no tier assigns. */
  predicate InPolicyGap(n: nat) {
    10_000_000 <= n < 100_000_000
  }

  function Pow10(e: nat): (r: nat)
    ensures r >= 1
  {
    if e == 0 then 1 else 10 * Pow10(e - 1)
  }

  /** The largest power of ten not above `n`. */
  function PowerOfTenFloor(n: nat): (r: nat)
    requires n >= 1
    ensures 1 <= r <= n < 10 * r
    decreases n
  {
    if n < 10 then 1 else 10 * PowerOfTenFloor(n / 10)
  }

  lemma {:induction false} PowerOfTenFloorBand(n: nat, e: nat)
    requires Pow10(e) <= n < Pow10(e + 1)
    ensures PowerOfTenFloor(n) == Pow10(e)
    decreases e
  {
    if e > 0 {
      PowerOfTenFloorBand(n / 10, e - 1);
    }
  }

  lemma {:induction false} PowerOfTenFloorMonotone(a: nat, b: nat)
    requires 1 <= a <= b
    ensures PowerOfTenFloor(a) <= PowerOfTenFloor(b)
    decreases a
  {
    if a >= 10 {
      PowerOfTenFloorMonotone(a / 10, b / 10);
    }
  }

  /**
    The rule the tier table follows, stated independently of it: the
    largest power of ten not above the row count, kept between 1,000 and
    10,000,000.
  */
  function ReferenceChunkSize(n: nat): nat {
    var p := if n == 0 then 1 else PowerOfTenFloor(n);
    if p < 1000 then 1000 else if p > 10_000_000 then 10_000_000 else p
  }

  /**
    Outside the gap the tier table is the reference rule; inside it the
    previous chunk size survives, where the rule would give 10,000,000.
  */
  lemma TierMatchesReference(n: nat, previous: nat)
    ensures !InPolicyGap(n) ==> TierChunkSize(n, previous) == ReferenceChunkSize(n)
    ensures InPolicyGap(n) ==> TierChunkSize(n, previous) == previous
    ensures InPolicyGap(n) ==> ReferenceChunkSize(n) == 10_000_000
  {
    assert Pow10(3) == 1000;
    assert Pow10(8) == 100_000_000;
    if 1000 <= n < 10_000 {
      PowerOfTenFloorBand(n, 3);
    } else if 10_000 <= n < 100_000 {
      PowerOfTenFloorBand(n, 4);
    } else if 100_000 <= n < 1_000_000 {
      PowerOfTenFloorBand(n, 5);
    } else if 1_000_000 <= n < 10_000_000 {
      PowerOfTenFloorBand(n, 6);
    } else if InPolicyGap(n) {
      PowerOfTenFloorBand(n, 7);
    }
  }

  lemma ReferenceChunkSizeMonotone(a: nat, b: nat)
    requires a <= b
    ensures ReferenceChunkSize(a) <= ReferenceChunkSize(b)
  {
    if a >= 1 {
      PowerOfTenFloorMonotone(a, b);
    }
  }

  /** Across the tiers that assign, a larger file never gets a smaller chunk size. */
  lemma TierMonotone(a: nat, b: nat, previousA: nat, previousB: nat)
    requires a <= b && !InPolicyGap(a) && !InPolicyGap(b)
    ensures TierChunkSize(a, previousA) <= TierChunkSize(b, previousB)
  {
    TierMatchesReference(a, previousA);
    TierMatchesReference(b, previousB);
    ReferenceChunkSizeMonotone(a, b);
  }

  /** Python's `math.ceil(n / k)`: the number of pieces of size `k` that `n` rows fill. */
  function CeilDiv(n: nat, k: nat): nat
    requires k > 0
  {
    (n + k - 1) / k
  }

  /** Below 10,000,000 rows a file is never cut into more than ten chunks. */
  lemma ChunkCountAtMostTen(n: nat, previous: nat)
    requires n < 10_000_000
    ensures CeilDiv(n, TierChunkSize(n, previous)) <= 10
  {
  }

  /**
    In the gap a freshly built processor keeps its default of 10,000, so
    such a file is cut into at least a thousand chunks.
  */
  lemma GapChunkCount(n: nat)
    requires InPolicyGap(n)
    ensures TierChunkSize(n, DefaultChunkSize) == 10000
    ensures CeilDiv(n, TierChunkSize(n, DefaultChunkSize)) >= 1000
  {
  }

  // ---------------------------------------------------------------------
  // Reading a file in chunks
  // ---------------------------------------------------------------------

  function Concat<Row>(chunks: seq<seq<Row>>): seq<Row> {
    if |chunks| == 0 then [] else chunks[0] + Concat(chunks[1..])
  }

  /**
    The pieces a chunked read of `rows` yields with chunk size `k`: in
    order, none empty, each of `k` rows except possibly the last, and
    together exactly the input.
  */
  function Chunks<Row>(rows: seq<Row>, k: nat): (r: seq<seq<Row>>)
    requires k > 0
    ensures Concat(r) == rows
    ensures forall i | 0 <= i < |r| :: 0 < |r[i]| <= k
    ensures forall i | 0 <= i < |r| - 1 :: |r[i]| == k
    decreases |rows|
  {
    if |rows| == 0 then []
    else if |rows| <= k then [rows]
    else
      assert rows == rows[..k] + rows[k..];
      [rows[..k]] + Chunks(rows[k..], k)
  }

  lemma MulAtLeast(d: int, k: int)
    requires d >= 1 && k > 0
    ensures d * k >= k
  {
  }

  lemma DivSmall(a: nat, k: nat)
    requires a < k
    ensures a / k == 0
  {
    var q, r := a / k, a % k;
    assert a == q * k + r;
    if q >= 1 {
      MulAtLeast(q, k);
    }
  }

  lemma DivStep(a: nat, k: nat)
    requires k > 0
    ensures (a + k) / k == a / k + 1
  {
    var q, r := a / k, a % k;
    var q2, r2 := (a + k) / k, (a + k) % k;
    assert a == q * k + r;
    assert a + k == q2 * k + r2;
    assert (q2 - q - 1) * k == r - r2 by {
      assert (q2 - q - 1) * k == q2 * k - q * k - k;
    }
    if q2 - q - 1 >= 1 {
      MulAtLeast(q2 - q - 1, k);
    }
  }

  /**
    What the chunked reader of the source yields: the partition `Chunks`,
    except that a file with a header and no rows still yields one empty
    piece on the first read.
  */
  function ChunkedRead<Row>(rows: seq<Row>, k: nat): (r: seq<seq<Row>>)
    requires k > 0
    ensures Concat(r) == rows
    ensures |r| > 0
    ensures forall i | 0 <= i < |r| :: |r[i]| <= k
    ensures forall i | 0 <= i < |r| - 1 :: |r[i]| == k
    ensures |rows| > 0 ==> forall i | 0 <= i < |r| :: |r[i]| > 0
  {
    if |rows| == 0 then [[]] else Chunks(rows, k)
  }

  /** The number of chunks is the ceiling of rows over chunk size. */
  lemma {:induction false} ChunkCount<Row>(rows: seq<Row>, k: nat)
    requires k > 0
    ensures |Chunks(rows, k)| == CeilDiv(|rows|, k)
    decreases |rows|
  {
    var n := |rows|;
    if n == 0 {
      DivSmall(k - 1, k);
      assert CeilDiv(n, k) == (k - 1) / k;
    } else {
      DivStep(n - 1, k);
      assert CeilDiv(n, k) == (n - 1) / k + 1;
      if n <= k {
        DivSmall(n - 1, k);
        assert |Chunks(rows, k)| == 1;
      } else {
        ChunkCount(rows[k..], k);
        assert CeilDiv(n - k, k) == (n - 1) / k;
        assert |Chunks(rows, k)| == 1 + |Chunks(rows[k..], k)|;
      }
    }
  }

  /** The reader yields ceil(n / k) pieces, and one for a file without rows. */
  lemma ChunkedReadCount<Row>(rows: seq<Row>, k: nat)
    requires k > 0
    ensures |ChunkedRead(rows, k)| == if |rows| == 0 then 1 else CeilDiv(|rows|, k)
  {
    if |rows| > 0 {
      ChunkCount(rows, k);
    }
  }

  /** `csv_row_counts` once every chunk has been seen: one length per chunk, in order. */
  function RowCounts<Row>(chunks: seq<seq<Row>>): (r: seq<nat>)
    ensures |r| == |chunks|
  {
    seq(|chunks|, i requires 0 <= i < |chunks| => |chunks[i]|)
  }

  function Sum(xs: seq<nat>): nat {
    if |xs| == 0 then 0 else xs[0] + Sum(xs[1..])
  }

  /** One more chunk seen: its length is appended to the counts. */
  lemma RowCountsStep<Row>(chunks: seq<seq<Row>>, i: nat)
    requires i < |chunks|
    ensures RowCounts(chunks[..i + 1]) == RowCounts(chunks[..i]) + [|chunks[i]|]
  {
  }

  /** The row counts add up to the number of rows the chunks hold. */
  lemma {:induction false} SumOfRowCounts<Row>(chunks: seq<seq<Row>>)
    ensures Sum(RowCounts(chunks)) == |Concat(chunks)|
  {
    if |chunks| > 0 {
      assert RowCounts(chunks)[1..] == RowCounts(chunks[1..]);
      SumOfRowCounts(chunks[1..]);
    }
  }

  // ---------------------------------------------------------------------
  // Names
  // ---------------------------------------------------------------------

  /** The input files: the directory entries ending in `.csv`, in listing order, joined onto the input directory. */
  function ListInputFiles(style: PathStyle, indir: string, entries: seq<string>): (r: seq<string>)
    ensures |r| <= |entries|
    ensures forall i | 0 <= i < |r| :: IsSuffix(".csv", r[i])
  {
    if |entries| == 0 then []
    else
      (if IsSuffix(".csv", entries[0]) then [JoinPath(style, indir, entries[0])] else [])
      + ListInputFiles(style, indir, entries[1..])
  }

  /** Listing two runs of entries lists the files of each, the first run's first. */
  lemma {:induction false} ListInputFilesAppend(style: PathStyle, indir: string, a: seq<string>, b: seq<string>)
    ensures ListInputFiles(style, indir, a + b) == ListInputFiles(style, indir, a) + ListInputFiles(style, indir, b)
  {
    if |a| > 0 {
      var head := if IsSuffix(".csv", a[0]) then [JoinPath(style, indir, a[0])] else [];
      ListInputFilesAppend(style, indir, a[1..], b);
      assert ListInputFiles(style, indir, a + b) == head + ListInputFiles(style, indir, a[1..] + b) by {
        assert (a + b)[0] == a[0];
        assert (a + b)[1..] == a[1..] + b;
      }
      assert ListInputFiles(style, indir, a) == head + ListInputFiles(style, indir, a[1..]);
    } else {
      assert a + b == b;
    }
  }

  /** A path is listed exactly when it is the input directory joined with an entry ending in `.csv`. */
  lemma {:induction false} ListInputFilesExactly(style: PathStyle, indir: string, entries: seq<string>, p: string)
    ensures p in ListInputFiles(style, indir, entries)
        <==> exists e :: e in entries && IsSuffix(".csv", e) && p == JoinPath(style, indir, e)
  {
    if |entries| > 0 {
      ListInputFilesExactly(style, indir, entries[1..], p);
      assert forall e :: e in entries <==> e == entries[0] || e in entries[1..];
    }
  }

  /** `generate_base_filename`: the basename without its last extension. */
  function BaseFilename(style: PathStyle, inputFile: string): (r: string)
    ensures NoSep(style, r) && IsPrefix(r, Basename(style, inputFile))
  {
    var b := Basename(style, inputFile);
    var parts := SplitExt(style, b);
    assert b[..|parts.0|] == parts.0 by {
      assert b == parts.0 + parts.1;
    }
    parts.0
  }

  lemma NoSepAppend(style: PathStyle, a: string, b: string)
    requires NoSep(style, a) && NoSep(style, b)
    ensures NoSep(style, a + b)
  {
  }

  /** An input `{stem}.csv` in any directory has base name `stem`. */
  lemma BaseFilenameOfCsv(style: PathStyle, indir: string, stem: string, k: nat)
    requires NoSep(style, stem) && k < |stem| && stem[k] != '.'
    ensures BaseFilename(style, JoinPath(style, indir, stem + ".csv")) == stem
  {
    assert NoSep(style, ".csv");
    NoSepAppend(style, stem, ".csv");
    BasenameOfJoin(style, indir, stem + ".csv");
    SplitExtOf(style, stem, ".csv", k);
  }

  /**
    A listed file named `.csv` or `..csv` has no inner dot, so `splitext`
    leaves it whole and its base name keeps the extension.
  */
  lemma DotOnlyNamesKeepExtension(style: PathStyle, indir: string)
    ensures BaseFilename(style, JoinPath(style, indir, ".csv")) == ".csv"
    ensures BaseFilename(style, JoinPath(style, indir, "..csv")) == "..csv"
  {
    DotNameKeepsExtension(style, indir, ".csv", 1);
    DotNameKeepsExtension(style, indir, "..csv", 2);
  }

  lemma DotNameKeepsExtension(style: PathStyle, indir: string, name: string, dots: nat)
    requires name == ".csv" || name == "..csv"
    requires dots == |name| - 3
    ensures BaseFilename(style, JoinPath(style, indir, name)) == name
  {
    assert name[dots] == 'c' && name[dots + 1] == 's' && name[dots + 2] == 'v';
    assert forall k | 0 <= k < dots :: name[k] == '.';
    LeadingDotsOnly(name, dots);
    assert NoSep(style, name) by {
      forall k | 0 <= k < |name| ensures !IsSep(style, name[k]) {
        assert k < dots || name[k] in "csv";
      }
    }
    KeepsWholeName(style, indir, name);
  }

  /** A name whose dots all come first has no inner dot. */
  lemma LeadingDotsOnly(name: string, n: nat)
    requires n <= |name|
    requires forall k | 0 <= k < n :: name[k] == '.'
    requires forall k | n <= k < |name| :: name[k] != '.'
    ensures !HasInnerDot(name)
  {
  }

  /** A separator-free name without an inner dot is its own base name, in any directory. */
  lemma KeepsWholeName(style: PathStyle, indir: string, name: string)
    requires |name| > 0 && NoSep(style, name) && !HasInnerDot(name)
    ensures BaseFilename(style, JoinPath(style, indir, name)) == name
  {
    BasenameOfJoin(style, indir, name);
    BasenameOfJoin(style, "", name);
    assert JoinPath(style, "", name) == name;
    SplitExtSplitsExactly(style, name);
  }

  /** The file name of chunk `number` of the file with base name `base`. */
  function ChunkFileName(base: string, number: nat): (r: string)
    ensures IsPrefix(base + "_", r) && IsSuffix(".csv", r)
    ensures |r| >= |base| + 6
  {
    var r := base + "_" + Decimal(number) + ".csv";
    assert r[..|base| + 1] == base + "_";
    r
  }

  /** The name part of `generate_output_filenames`: the chunk's file name and its path in the output directory. */
  function OutputFilenames(style: PathStyle, outdir: string, base: string, number: nat): (string, string) {
    var name := ChunkFileName(base, number);
    (name, JoinPath(style, outdir, name))
  }

  /** A chunk file name of a separator-free base has no separator. */
  lemma ChunkFileNameNoSep(style: PathStyle, base: string, number: nat)
    requires NoSep(style, base)
    ensures NoSep(style, ChunkFileName(base, number))
  {
    var digits := Decimal(number);
    assert NoSep(style, digits) by {
      forall i | 0 <= i < |digits| ensures !IsSep(style, digits[i]) {
        assert IsDigit(digits[i]);
      }
    }
    NoSepAppend(style, base, "_");
    NoSepAppend(style, base + "_", digits);
    NoSepAppend(style, base + "_" + digits, ".csv");
  }

  /** Reads the chunk number back out of a chunk file name. */
  function ChunkNumberOf(base: string, name: string): Option<nat> {
    if IsPrefix(base + "_", name) && IsSuffix(".csv", name) && |base| + 1 <= |name| - 4 then
      ParseDecimal(name[|base| + 1..|name| - 4])
    else
      None
  }

  lemma ChunkNumberRoundTrip(base: string, number: nat)
    ensures ChunkNumberOf(base, ChunkFileName(base, number)) == Some(number)
  {
    var name := ChunkFileName(base, number);
    assert name[..|base| + 1] == base + "_";
    assert name[|base| + 1..|name| - 4] == Decimal(number);
    ParseDecimalOfDecimal(number);
  }

  /** Distinct chunks of one file get distinct names. */
  lemma ChunkFileNameInjective(base: string, m: nat, n: nat)
    requires ChunkFileName(base, m) == ChunkFileName(base, n)
    ensures m == n
  {
    ChunkNumberRoundTrip(base, m);
    ChunkNumberRoundTrip(base, n);
  }

  /**
    Chunk `number`'s path lies in the output directory under the chunk's
    file name, and its own base name is `{base}_{number}`.
  */
  lemma OutputPathNames(style: PathStyle, outdir: string, base: string, number: nat)
    requires NoSep(style, base)
    ensures Basename(style, OutputFilenames(style, outdir, base, number).1) == ChunkFileName(base, number)
    ensures BaseFilename(style, OutputFilenames(style, outdir, base, number).1) == base + "_" + Decimal(number)
  {
    var stem := base + "_" + Decimal(number);
    var name := ChunkFileName(base, number);
    assert name == stem + ".csv";
    ChunkFileNameNoSep(style, base, number);
    NoSepAppend(style, base, "_");
    assert NoSep(style, stem) by {
      assert forall i | 0 <= i < |stem| :: stem[i] == name[i];
    }
    BasenameOfJoin(style, outdir, name);
    BaseFilenameOfCsv(style, outdir, stem, |base|);
  }

  // ---------------------------------------------------------------------
  // The chunk loop
  // ---------------------------------------------------------------------

  datatype Output<Row> = Output(number: nat, path: string, rows: seq<Row>)

  datatype SplitError =
    | Unreadable                          // the input file could not be read
    | ConversionFailed(chunk: nat)        // the conversion step of this chunk raised

  /** Every chunk's output as the loop plans it: chunk `i + 1` at position `i`. */
  function Outputs<Row>(style: PathStyle, outdir: string, base: string, chunks: seq<seq<Row>>): (r: seq<Output<Row>>)
    ensures |r| == |chunks|
    ensures forall i | 0 <= i < |r| :: r[i].number == i + 1 && r[i].rows == chunks[i]
  {
    seq(|chunks|, i requires 0 <= i < |chunks| => Output(i + 1, OutputFilenames(style, outdir, base, i + 1).1, chunks[i]))
  }

  /** The rows of each output, in output order. */
  function OutputRows<Row>(outputs: seq<Output<Row>>): (r: seq<seq<Row>>)
    ensures |r| == |outputs|
  {
    seq(|outputs|, i requires 0 <= i < |outputs| => outputs[i].rows)
  }

  /** The outputs that reach the disk, in order: a failed write is dropped and nothing else changes. */
  function Written<Row>(outputs: seq<Output<Row>>, writable: string -> bool): (r: seq<Output<Row>>)
    ensures |r| <= |outputs|
    ensures forall i | 0 <= i < |r| :: writable(r[i].path)
  {
    if |outputs| == 0 then []
    else
      var last := outputs[|outputs| - 1];
      Written(outputs[..|outputs| - 1], writable) + (if writable(last.path) then [last] else [])
  }

  lemma {:induction false} WrittenMembers<Row>(outputs: seq<Output<Row>>, writable: string -> bool, o: Output<Row>)
    ensures o in Written(outputs, writable) <==> o in outputs && writable(o.path)
  {
    if |outputs| > 0 {
      var init := outputs[..|outputs| - 1];
      WrittenMembers(init, writable, o);
      assert outputs == init + [outputs[|outputs| - 1]];
    }
  }

  /** One more chunk of the loop: its output is appended exactly when its path is writable. */
  lemma WrittenStep<Row>(style: PathStyle, outdir: string, base: string, chunks: seq<seq<Row>>,
                         writable: string -> bool, i: nat)
    requires i < |chunks|
    ensures var path := OutputFilenames(style, outdir, base, i + 1).1;
            (Written(Outputs(style, outdir, base, chunks)[..i + 1], writable)
             == Written(Outputs(style, outdir, base, chunks)[..i], writable)
                + (if writable(path) then [Output(i + 1, path, chunks[i])] else []))
  {
    var outputs := Outputs(style, outdir, base, chunks);
    assert outputs[..i + 1][..i] == outputs[..i];
  }

  lemma {:induction false} WrittenAll<Row>(outputs: seq<Output<Row>>, writable: string -> bool)
    requires forall i | 0 <= i < |outputs| :: writable(outputs[i].path)
    ensures Written(outputs, writable) == outputs
  {
    if |outputs| > 0 {
      WrittenAll(outputs[..|outputs| - 1], writable);
    }
  }

  /** The first chunk number from `from` on whose conversion fails, or `count + 1`. */
  function FirstUnconvertible(base: string, from: nat, count: nat, convertible: string -> bool): (j: nat)
    requires from <= count + 1
    ensures from <= j <= count + 1
    ensures forall i | from <= i < j :: convertible(ChunkFileName(base, i))
    ensures j <= count ==> !convertible(ChunkFileName(base, j))
    decreases count + 1 - from
  {
    if from > count then from
    else if !convertible(ChunkFileName(base, from)) then from
    else FirstUnconvertible(base, from + 1, count, convertible)
  }

  /**
    What the chunk loop produces: the row counts when every chunk gets
    through its conversion step, or the number of the chunk whose
    conversion raised; and the outputs written before that point.
  */
  function SplitRun<Row>(style: PathStyle, outdir: string, base: string, chunks: seq<seq<Row>>,
                         convertible: string -> bool, writable: string -> bool): (r: (Result<seq<nat>, SplitError>, seq<Output<Row>>))
    ensures r.0.Ok? <==> forall j | 1 <= j <= |chunks| :: convertible(ChunkFileName(base, j))
    ensures r.0.Ok? ==> r.0.value == RowCounts(chunks)
    ensures r.0.Err? ==> r.0.error.ConversionFailed? && 1 <= r.0.error.chunk <= |chunks|
                         && !convertible(ChunkFileName(base, r.0.error.chunk))
                         && |r.1| < r.0.error.chunk
    ensures |r.1| <= |chunks|
  {
    var stop := FirstUnconvertible(base, 1, |chunks|, convertible);
    var outputs := Outputs(style, outdir, base, chunks);
    if stop <= |chunks| then (Err(ConversionFailed(stop)), Written(outputs[..stop - 1], writable))
    else (Ok(RowCounts(chunks)), Written(outputs, writable))
  }

  /** The run when chunks 1..`i` convert and chunk `i + 1` (if any) does not. */
  lemma SplitRunStopsAt<Row>(style: PathStyle, outdir: string, base: string, chunks: seq<seq<Row>>,
                             convertible: string -> bool, writable: string -> bool, i: nat)
    requires i <= |chunks|
    requires FirstUnconvertible(base, 1, |chunks|, convertible) == i + 1
    ensures SplitRun(style, outdir, base, chunks, convertible, writable)
         == (if i < |chunks| then Err(ConversionFailed(i + 1)) else Ok(RowCounts(chunks)),
             Written(Outputs(style, outdir, base, chunks)[..i], writable))
  {
    var outputs := Outputs(style, outdir, base, chunks);
    assert i == |chunks| ==> outputs[..i] == outputs;
  }

  /**
    When every chunk converts and every write succeeds, the written chunks
    are numbered 1..N in order, named `{base}_{i}.csv` in the output
    directory, their row counts add up to the file's rows, and their rows
    concatenated in number order are the file's rows.
  */
  lemma SplitRoundTrip<Row>(style: PathStyle, outdir: string, base: string, rows: seq<Row>, k: nat,
                            convertible: string -> bool, writable: string -> bool)
    requires k > 0
    requires forall j | 1 <= j <= |Chunks(rows, k)| :: convertible(ChunkFileName(base, j))
    requires forall j | 1 <= j <= |Chunks(rows, k)| :: writable(OutputFilenames(style, outdir, base, j).1)
    ensures var chunks := Chunks(rows, k);
            SplitRun(style, outdir, base, chunks, convertible, writable)
            == (Ok(RowCounts(chunks)), Outputs(style, outdir, base, chunks))
    ensures Sum(RowCounts(Chunks(rows, k))) == |rows|
    ensures Concat(OutputRows(Outputs(style, outdir, base, Chunks(rows, k)))) == rows
  {
    var chunks := Chunks(rows, k);
    AllConvert(style, outdir, base, chunks, convertible, writable);
    AllWritten(style, outdir, base, chunks, writable);
    SumOfRowCounts(chunks);
    assert OutputRows(Outputs(style, outdir, base, chunks)) == chunks;
  }

  /**
    A file with a header and no rows still runs chunk 1: when its
    conversion step goes through, the row counts are `[0]` and an empty
    chunk is written if its path is writable.
  */
  lemma HeaderOnlyRun<Row>(style: PathStyle, outdir: string, base: string, rows: seq<Row>, k: nat,
                           convertible: string -> bool, writable: string -> bool)
    requires k > 0 && |rows| == 0
    ensures var path := OutputFilenames(style, outdir, base, 1).1;
            SplitRun(style, outdir, base, ChunkedRead(rows, k), convertible, writable)
            == if convertible(ChunkFileName(base, 1))
               then (Ok([0]), if writable(path) then [Output(1, path, rows)] else [])
               else (Err(ConversionFailed(1)), [])
  {
    var chunks := ChunkedRead(rows, k);
    assert chunks == [rows];
    var outputs := Outputs(style, outdir, base, chunks);
    var path := OutputFilenames(style, outdir, base, 1).1;
    assert outputs == [Output(1, path, rows)];
    assert outputs[..0] == [];
    assert RowCounts(chunks) == [0];
    if convertible(ChunkFileName(base, 1)) {
      assert FirstUnconvertible(base, 1, 1, convertible) == 2;
      var run := SplitRun(style, outdir, base, chunks, convertible, writable);
      assert run.0 == Ok(RowCounts(chunks)) && run.1 == Written(outputs, writable);
      assert outputs[..|outputs| - 1] == [];
      assert Written(outputs, writable) == (if writable(path) then [outputs[0]] else []);
    } else {
      assert FirstUnconvertible(base, 1, 1, convertible) == 1;
    }
  }

  /** When every chunk converts, the run succeeds with the row counts and stops nowhere. */
  lemma AllConvert<Row>(style: PathStyle, outdir: string, base: string, chunks: seq<seq<Row>>,
                        convertible: string -> bool, writable: string -> bool)
    requires forall j | 1 <= j <= |chunks| :: convertible(ChunkFileName(base, j))
    ensures SplitRun(style, outdir, base, chunks, convertible, writable)
         == (Ok(RowCounts(chunks)), Written(Outputs(style, outdir, base, chunks), writable))
  {
  }

  /** When every output path is writable, every planned output is written. */
  lemma AllWritten<Row>(style: PathStyle, outdir: string, base: string, chunks: seq<seq<Row>>, writable: string -> bool)
    requires forall j | 1 <= j <= |chunks| :: writable(OutputFilenames(style, outdir, base, j).1)
    ensures Written(Outputs(style, outdir, base, chunks), writable) == Outputs(style, outdir, base, chunks)
  {
    var outputs := Outputs(style, outdir, base, chunks);
    forall i | 0 <= i < |outputs| ensures writable(outputs[i].path) {
      assert outputs[i].path == OutputFilenames(style, outdir, base, i + 1).1;
    }
    WrittenAll(outputs, writable);
  }

  /**
    A failed write loses only its own chunk: among the chunks the loop
    reaches, chunk `j` is written exactly when its path is writable.
  */
  lemma WriteFailureIsolated<Row>(style: PathStyle, outdir: string, base: string, chunks: seq<seq<Row>>,
                                  convertible: string -> bool, writable: string -> bool, j: nat)
    requires 1 <= j <= |chunks|
    requires forall i | 1 <= i <= j :: convertible(ChunkFileName(base, i))
    ensures var o := Output(j, OutputFilenames(style, outdir, base, j).1, chunks[j - 1]);
            o in SplitRun(style, outdir, base, chunks, convertible, writable).1 <==> writable(o.path)
  {
    var outputs := Outputs(style, outdir, base, chunks);
    var stop := FirstUnconvertible(base, 1, |chunks|, convertible);
    var o := Output(j, OutputFilenames(style, outdir, base, j).1, chunks[j - 1]);
    assert outputs[j - 1] == o;
    if stop <= |chunks| {
      assert j < stop;
      assert o in outputs[..stop - 1];
      WrittenMembers(outputs[..stop - 1], writable, o);
    } else {
      WrittenMembers(outputs, writable, o);
    }
  }

  /**
    The loop over the chunks of one file (the body of the `for` over the
    chunked read): for chunk `number` it computes the names, runs the
    conversion step (a failure there ends the loop), appends the row count
    and writes the chunk, dropping a failed write.
  */
  method WriteChunks<Row>(style: PathStyle, outdir: string, base: string, chunks: seq<seq<Row>>,
                          convertible: string -> bool, writable: string -> bool)
    returns (result: Result<seq<nat>, SplitError>, written: seq<Output<Row>>)
    ensures result == SplitRun(style, outdir, base, chunks, convertible, writable).0
    ensures written == SplitRun(style, outdir, base, chunks, convertible, writable).1
    ensures result.Ok? ==> Sum(result.value) == |Concat(chunks)|
  {
    var csvRowCounts: seq<nat> := [];
    written := [];
    var i := 0;
    ghost var stop := FirstUnconvertible(base, 1, |chunks|, convertible);
    while i < |chunks|
      invariant 0 <= i <= |chunks|
      invariant i < stop
      invariant csvRowCounts == RowCounts(chunks[..i])
      invariant written == Written(Outputs(style, outdir, base, chunks)[..i], writable)
    {
      var number := i + 1;
      var csvFilename := ChunkFileName(base, number);
      var csvFilePath := JoinPath(style, outdir, csvFilename);
      if !convertible(csvFilename) {
        assert stop == number;
        SplitRunStopsAt(style, outdir, base, chunks, convertible, writable, i);
        result := Err(ConversionFailed(number));
        return;
      }
      assert stop != number;
      RowCountsStep(chunks, i);
      csvRowCounts := csvRowCounts + [|chunks[i]|];
      WrittenStep(style, outdir, base, chunks, writable, i);
      if writable(csvFilePath) {
        written := written + [Output(number, csvFilePath, chunks[i])];
      }
      i := i + 1;
    }
    assert chunks[..i] == chunks;
    SplitRunStopsAt(style, outdir, base, chunks, convertible, writable, i);
    SumOfRowCounts(chunks);
    result := Ok(csvRowCounts);
  }

  // ---------------------------------------------------------------------
  // The processor
  // ---------------------------------------------------------------------

  class BaseFilenameProcessor {
    const indir: string
    const outdir: string
    const style: PathStyle
    var chunkSize: nat

    ghost predicate Valid()
      reads this
    {
      chunkSize > 0
    }

    constructor (indir: string, outdir: string, style: PathStyle)
      ensures this.indir == indir && this.outdir == outdir && this.style == style
      ensures chunkSize == DefaultChunkSize && Valid()
    {
      this.indir := indir;
      this.outdir := outdir;
      this.style := style;
      chunkSize := DefaultChunkSize;
    }

    /** The tier if-chain: assigns the chunk size for a file of `totalLength` rows, or leaves it. */
    method SelectChunkSize(totalLength: nat)
      requires Valid()
      modifies this
      ensures Valid()
      ensures chunkSize == TierChunkSize(totalLength, old(chunkSize))
    {
      if totalLength < 10000 {
        chunkSize := 1000;
      } else if totalLength < 100000 {
        chunkSize := 10000;
      } else if totalLength < 1000000 {
        chunkSize := 100000;
      } else if totalLength < 10000000 {
        chunkSize := 1000000;
      } else if totalLength >= 100000000 {
        chunkSize := 10000000;
      }
    }

    /**
      Processing one input file: base name, row count, chunk size, then the
      chunk loop over the chunked read. `contents` is `None` when the file
      cannot be read; the error then surfaces before the chunk size is chosen.
    */
    method ExtractedFromProcessChunk<Row>(inputFile: string, contents: Option<seq<Row>>,
                                          convertible: string -> bool, writable: string -> bool)
      returns (result: Result<seq<nat>, SplitError>, written: seq<Output<Row>>)
      requires Valid()
      modifies this
      ensures Valid()
      ensures contents.None? ==> chunkSize == old(chunkSize) && result == Err(Unreadable) && written == []
      ensures contents.Some? ==>
                && chunkSize == TierChunkSize(|contents.value|, old(chunkSize))
                && (result, written) == SplitRun(style, outdir, BaseFilename(style, inputFile),
                                                 ChunkedRead(contents.value, chunkSize), convertible, writable)
      ensures contents.Some? && result.Ok? ==> Sum(result.value) == |contents.value|
    {
      var baseFilename := BaseFilename(style, inputFile);
      if contents.None? {
        return Err(Unreadable), [];
      }
      var rows := contents.value;
      SelectChunkSize(|rows|);
      result, written := WriteChunks(style, outdir, baseFilename, ChunkedRead(rows, chunkSize), convertible, writable);
    }

    /**
      `process_chunk`: runs the above and catches whatever it raises; the
      error is logged and the call returns normally.
    */
    method ProcessChunk<Row>(inputFile: string, contents: Option<seq<Row>>,
                             convertible: string -> bool, writable: string -> bool)
      returns (errorLogged: bool, written: seq<Output<Row>>)
      requires Valid()
      modifies this
      ensures Valid()
      ensures contents.None? ==> errorLogged && written == [] && chunkSize == old(chunkSize)
      ensures contents.Some? ==>
                var run := SplitRun(style, outdir, BaseFilename(style, inputFile),
                                    ChunkedRead(contents.value, chunkSize), convertible, writable);
                && chunkSize == TierChunkSize(|contents.value|, old(chunkSize))
                && errorLogged == run.0.Err?
                && written == run.1
    {
      var result;
      result, written := ExtractedFromProcessChunk(inputFile, contents, convertible, writable);
      errorLogged := result.Err?;
    }
  }
}
