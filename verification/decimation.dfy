/** Equally-spaced point-sampling decimation of a sample table (main.py,
    `downsample`). A table is the ordered sequence of its rows; the row type is
    a parameter because the decimator never looks inside a row. */
module Decimation {
  import opened Subsequences
  import opened DivisionFacts

  /** Why a decimation request produced no table. */
  datatype DecimationError = DivisionByZero

  datatype Result<T> = Success(value: T) | Failure(error: DecimationError)

  function Min(a: int, b: int): (r: int) {
    if a < b then a else b
  }

  /** Position of the i-th kept row among `total` rows when `n` are kept: the
      `int(i * step + step / 2)` of main.py's `downsample` with `step = total / n`, computed
      exactly. The result is the floor of the real centre of bucket i. */
  function SampleIndex(i: nat, total: nat, n: nat): (r: nat)
    requires n >= 1
    ensures 2 * n * r <= (2 * i + 1) * total < 2 * n * (r + 1)
  {
    var centre, width := (2 * i + 1) * total, 2 * n;
    DivBracket(centre, width);
    assert (centre / width) * width == width * (centre / width);
    centre / width
  }

  /** Even the last sample (i = n - 1) addresses an existing row. */
  lemma SampleIndexBelowTotal(i: nat, total: nat, n: nat)
    requires 1 <= n && i < n && total >= 1
    ensures SampleIndex(i, total, n) < total
  {
    assert (2 * i + 1) * total < (2 * n) * total by {
      MulMonotone(2 * i + 2, 2 * n, total);
    }
    DivBelow((2 * i + 1) * total, 2 * n, total);
  }

  /** Consecutive samples are `total / n` or `total / n + 1` rows apart: the
      samples are spread out equally up to rounding. */
  lemma SampleIndexGap(i: nat, total: nat, n: nat)
    requires 1 <= n && i + 1 < n
    ensures total / n <= SampleIndex(i + 1, total, n) - SampleIndex(i, total, n) <= total / n + 1
  {
    var a := (2 * i + 1) * total;
    assert (2 * (i + 1) + 1) * total == a + 2 * total;
    DivAddGap(a, 2 * total, 2 * n);
    DivScale(total, n, 2);
  }

  /** When fewer rows are kept than exist, later samples sit at strictly later rows. */
  lemma {:induction false} SampleIndicesIncrease(i: nat, j: nat, total: nat, n: nat)
    requires 1 <= n <= total && i < j < n
    ensures SampleIndex(i, total, n) < SampleIndex(j, total, n)
    decreases j - i
  {
    DivMonotone(n, total, n);
    assert n / n == 1;
    SampleIndexGap(j - 1, total, n);
    if i < j - 1 {
      SampleIndicesIncrease(i, j - 1, total, n);
    }
  }

  /** Sample i lies in bucket i: at or after row `floor(i * total / n)` and
      strictly before the real bound `(i + 1) * total / n`. */
  lemma SampleIndexInBucket(i: nat, total: nat, n: nat)
    requires 1 <= n && i < n && total >= 1
    ensures (i * total) / n <= SampleIndex(i, total, n)
    ensures SampleIndex(i, total, n) * n < (i + 1) * total
  {
    DivScale(i * total, n, 2);
    DivMonotone(2 * (i * total), (2 * i + 1) * total, 2 * n);
  }

  /** The lower end of bucket i cannot be tightened to the real bound
      `i * total / n`: with 11 rows and 10 samples, sample 1 is row 1 < 1.1. */
  lemma SampleIndexBelowRealBucketStart()
    ensures SampleIndex(1, 11, 10) * 10 < 1 * 11
  {
  }

  /** The positions main.py's `downsample` collects in `indices`, one per `i in range(n)`. */
  function SampleIndices(total: nat, n: nat): (r: seq<nat>)
    requires 1 <= n
    ensures |r| == n
    ensures total >= 1 ==> AllBelow(r, total)
    ensures n <= total ==> StrictlyIncreasing(r)
  {
    var r := seq(n, i requires 0 <= i < n => SampleIndex(i, total, n));
    assert total >= 1 ==> AllBelow(r, total) by {
      if total >= 1 {
        forall k | 0 <= k < n
          ensures r[k] < total
        {
          SampleIndexBelowTotal(k, total, n);
        }
      }
    }
    assert n <= total ==> StrictlyIncreasing(r) by {
      if n <= total {
        forall j, k | 0 <= j < k < n
          ensures r[j] < r[k]
        {
          SampleIndicesIncrease(j, k, total, n);
        }
      }
    }
    r
  }

  /** A worked example: 100 rows sampled down to 10 keep rows 5, 15, ..., 95. */
  lemma HundredRowsByTen()
    ensures SampleIndices(100, 10) == [5, 15, 25, 35, 45, 55, 65, 75, 85, 95]
  {
  }

  /** `downsample(df, n)` for a valid count n >= 1: keeps the whole table when
      n reaches its length, otherwise the rows at `SampleIndices`. */
  function Downsample<Row>(table: seq<Row>, n: nat): (r: seq<Row>)
    requires n >= 1
    ensures |r| == Min(n, |table|)
    ensures IsSubsequence(r, table)
  {
    if n >= |table| then
      SubsequenceReflexive(table);
      table
    else
      var positions := SampleIndices(|table|, n);
      SelectIncreasingIsSubsequence(table, positions);
      Select(table, positions)
  }

  /** Asking for at least as many points as there are rows returns the table unchanged. */
  lemma DownsampleIdentity<Row>(table: seq<Row>, n: nat)
    requires 1 <= n && |table| <= n
    ensures Downsample(table, n) == table
  {
  }

  /** Output row k is, verbatim, the input row at `SampleIndex(k)`; nothing is
      averaged or interpolated. */
  lemma DownsampleKeepsSampledRows<Row>(table: seq<Row>, n: nat)
    requires 1 <= n < |table|
    ensures |Downsample(table, n)| == n
    ensures forall k :: 0 <= k < n ==>
      SampleIndex(k, |table|, n) < |table| && Downsample(table, n)[k] == table[SampleIndex(k, |table|, n)]
  {
    var positions := SampleIndices(|table|, n);
    assert Downsample(table, n) == Select(table, positions);
    forall k | 0 <= k < n
      ensures SampleIndex(k, |table|, n) < |table|
      ensures Downsample(table, n)[k] == table[SampleIndex(k, |table|, n)]
    {
      assert positions[k] == SampleIndex(k, |table|, n);
    }
  }

  /** The output holds no row, counted with multiplicity, that the input lacks. */
  lemma DownsampleNoNewRows<Row>(table: seq<Row>, n: nat)
    requires 1 <= n
    ensures multiset(Downsample(table, n)) <= multiset(table)
  {
    SubsequenceMultiset(Downsample(table, n), table);
  }

  /** `downsample(df, n)` for any integer n, following the code path by path:
      n >= len keeps the table, n == 0 on a non-empty table divides by zero,
      a negative n iterates over an empty range and selects no rows. */
  function DownsampleAnyCount<Row>(table: seq<Row>, n: int): (r: Result<seq<Row>>)
    ensures r.Failure? <==> n == 0 && |table| > 0
    ensures r.Success? && n <= 0 ==> r.value == []
    ensures r.Success? ==> IsSubsequence(r.value, table)
    ensures r.Success? && n >= 1 ==> |r.value| == Min(n, |table|)
    ensures n >= 1 ==> r == Success(Downsample(table, n))
  {
    if n >= |table| then
      SubsequenceReflexive(table);
      Success(table)
    else if n == 0 then
      Failure(DivisionByZero)
    else if n < 0 then
      Success([])
    else
      Success(Downsample(table, n))
  }

  /** Decimating an already decimated table with the same count changes nothing. */
  lemma RedownsampleSameCount<Row>(table: seq<Row>, n: nat)
    requires n >= 1
    ensures Downsample(Downsample(table, n), n) == Downsample(table, n)
  {
  }

  /** Decimating twice still yields verbatim input rows in input order. */
  lemma RedownsampleStaysSubsequence<Row>(table: seq<Row>, m: nat, n: nat)
    requires m >= 1 && n >= 1
    ensures IsSubsequence(Downsample(Downsample(table, m), n), table)
  {
    SubsequenceTransitive(Downsample(Downsample(table, m), n), Downsample(table, m), table);
  }

  /** The rows 0, 1, ..., len - 1 as a table of their own positions. */
  function Ramp(len: nat): (r: seq<int>)
    ensures |r| == len
    ensures forall k :: 0 <= k < len ==> r[k] == k
  {
    seq(len, k requires 0 <= k < len => k)
  }

  /** Decimating 100 rows to 10 and then to 5 keeps other rows than decimating
      straight to 5: re-decimation samples the reduced table, not the original. */
  lemma RedownsampleDiffersFromDirect()
    ensures Downsample(Downsample(Ramp(100), 10), 5) != Downsample(Ramp(100), 5)
  {
    var t := Ramp(100);
    var ten := Downsample(t, 10);
    DownsampleKeepsSampledRows(t, 10);
    DownsampleKeepsSampledRows(ten, 5);
    DownsampleKeepsSampledRows(t, 5);
    assert SampleIndex(0, 10, 5) == 1;
    assert SampleIndex(1, 100, 10) == 15;
    assert SampleIndex(0, 100, 5) == 10;
    assert Downsample(ten, 5)[0] == 15;
    assert Downsample(t, 5)[0] == 10;
  }
}
