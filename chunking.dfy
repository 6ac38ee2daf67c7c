/** The row chunking in `main`: the data rows of the manifest are cut into
    `num_files` consecutive slices of at most `n` rows, chunk `i` (1-based)
    being `rows[(i-1)*n : i*n]`. */
module Chunking {

  /** A data row as `csv.reader` yields it: its fields. */
  type Row = seq<string>

  function Min(a: int, b: int): int { if a <= b then a else b }

  /** `num_files = (total_rows + n - 1) // n`. Both operands are
      non-negative, so Python's floor division and Dafny's Euclidean one
      agree. */
  function NumFiles(total: nat, n: nat): nat
    requires n > 0
  {
    (total + n - 1) / n
  }

  /** Python's `s[lo:hi]` for non-negative bounds: both bounds are clamped to
      `len(s)` and a slice whose start is not below its end is empty. */
  function PySlice<T>(s: seq<T>, lo: nat, hi: nat): (r: seq<T>)
    ensures |r| == if lo < Min(hi, |s|) then Min(hi, |s|) - lo else 0
    ensures forall j :: 0 <= j < |r| ==> lo + j < |s| && r[j] == s[lo + j]
  {
    var a, b := Min(lo, |s|), Min(hi, |s|);
    if a < b then s[a..b] else []
  }

  /** Chunk number `i` (1-based): `rows[(i - 1) * n : i * n]`. */
  function Chunk(rows: seq<Row>, n: nat, i: nat): seq<Row>
    requires n > 0 && i >= 1
  {
    PySlice(rows, (i - 1) * n, i * n)
  }

  /** The chunks `main` writes, in the order it writes them. */
  function Chunks(rows: seq<Row>, n: nat): seq<seq<Row>>
    requires n > 0
  {
    seq(NumFiles(|rows|, n), j requires 0 <= j => Chunk(rows, n, j + 1))
  }

  /** Concatenation of a sequence of chunks, in order. */
  function Flatten(ss: seq<seq<Row>>): seq<Row>
  {
    if ss == [] then [] else Flatten(ss[..|ss| - 1]) + ss[|ss| - 1]
  }

  /** `num_files` is the ceiling of `total / n`: `num_files` chunks of `n`
      rows hold every row, one chunk fewer does not, and there are no chunks
      exactly when there are no rows. */
  lemma NumFilesIsCeiling(total: nat, n: nat)
    requires n > 0
    ensures var k := NumFiles(total, n);
      && total <= k * n
      && (k > 0 ==> (k - 1) * n < total)
      && (k == 0 <==> total == 0)
  {
    var k, m := NumFiles(total, n), (total + n - 1) % n;
    assert total + n - 1 == k * n + m;
    assert (k - 1) * n == k * n - n;
  }

  lemma MulMonotone(a: nat, b: nat, n: nat)
    requires a <= b
    ensures a * n <= b * n
  {
    assert b * n == a * n + (b - a) * n;
  }

  /** Every chunk has at most `n` rows; all but the last have exactly `n`,
      and the last holds what remains, `total - (num_files - 1) * n` rows.
      Each chunk is the contiguous run of rows starting at `(i - 1) * n`. */
  lemma {:induction false} ChunkSizes(rows: seq<Row>, n: nat, i: nat)
    requires n > 0 && 1 <= i <= NumFiles(|rows|, n)
    ensures var c, k := Chunk(rows, n, i), NumFiles(|rows|, n);
      && 0 < |c| <= n
      && (i < k ==> |c| == n)
      && (i == k ==> |c| == |rows| - (k - 1) * n)
      && (i - 1) * n + |c| == Min(i * n, |rows|)
      && c == rows[(i - 1) * n..(i - 1) * n + |c|]
  {
    var k := NumFiles(|rows|, n);
    NumFilesIsCeiling(|rows|, n);
    MulMonotone(i, k, n);
    MulMonotone(i - 1, k - 1, n);
    assert i * n == (i - 1) * n + n;
    if i < k {
      MulMonotone(i, k - 1, n);
    }
    assert (k - 1) * n + n == k * n;
  }

  /** Chunk `i` is the run of rows between the clamped bounds of the slice. */
  lemma ChunkBetween(rows: seq<Row>, n: nat, i: nat)
    requires n > 0 && 1 <= i
    ensures var a, b := Min((i - 1) * n, |rows|), Min(i * n, |rows|);
      a <= b && Chunk(rows, n, i) == rows[a..b]
  {
    assert i * n == (i - 1) * n + n;
  }

  lemma {:induction false} FlattenPrefix(rows: seq<Row>, n: nat, j: nat)
    requires n > 0 && j <= NumFiles(|rows|, n)
    ensures Flatten(Chunks(rows, n)[..j]) == rows[..Min(j * n, |rows|)]
  {
    if j > 0 {
      var cs := Chunks(rows, n);
      var prev, c := cs[..j - 1], cs[j - 1];
      assert cs[..j] == prev + [c];
      assert (prev + [c])[..j - 1] == prev;
      FlattenPrefix(rows, n, j - 1);
      ChunkBetween(rows, n, j);
      var a, b := Min((j - 1) * n, |rows|), Min(j * n, |rows|);
      assert rows[..a] + rows[a..b] == rows[..b];
    }
  }

  /** Concatenating the chunks in index order gives back exactly the rows:
      the chunks are disjoint, ordered and cover every row. */
  lemma {:induction false} FlattenChunks(rows: seq<Row>, n: nat)
    requires n > 0
    ensures Flatten(Chunks(rows, n)) == rows
  {
    var k := NumFiles(|rows|, n);
    FlattenPrefix(rows, n, k);
    NumFilesIsCeiling(|rows|, n);
    assert Chunks(rows, n)[..k] == Chunks(rows, n);
  }

  /** Row `p` lands in exactly one place: position `p % n` of chunk
      `p / n + 1`. */
  lemma {:induction false} RowPlacement(rows: seq<Row>, n: nat, p: nat)
    requires n > 0 && p < |rows|
    ensures p / n < NumFiles(|rows|, n)
    ensures p % n < |Chunks(rows, n)[p / n]| && Chunks(rows, n)[p / n][p % n] == rows[p]
  {
    var i, j, k := p / n, p % n, NumFiles(|rows|, n);
    assert p == i * n + j;
    if i >= k {
      NumFilesIsCeiling(|rows|, n);
      MulMonotone(k, i, n);
      assert false;
    }
    ChunkBetween(rows, n, i + 1);
    var a, b := Min(i * n, |rows|), Min((i + 1) * n, |rows|);
    assert (i + 1 - 1) * n == i * n && (i + 1) * n == i * n + n;
    assert a == i * n && p < b;
    assert Chunks(rows, n)[i] == rows[a..b];
  }

  /** The chunk loop of `main`: `i` runs over `1..num_files`, and each step
      slices `rows[start_index:end_index]`. The result is the chunk sequence,
      which partitions the rows. */
  method SplitRows(rows: seq<Row>, n: nat) returns (chunks: seq<seq<Row>>)
    requires n > 0
    ensures chunks == Chunks(rows, n)
    ensures Flatten(chunks) == rows
  {
    var totalRows := |rows|;
    var numFiles := (totalRows + n - 1) / n;
    chunks := [];
    for i := 1 to numFiles + 1
      invariant chunks == Chunks(rows, n)[..i - 1]
    {
      var startIndex := (i - 1) * n;
      var endIndex := i * n;
      var chunk := PySlice(rows, startIndex, endIndex);
      chunks := chunks + [chunk];
    }
    assert chunks == Chunks(rows, n)[..numFiles];
    FlattenChunks(rows, n);
  }
}
