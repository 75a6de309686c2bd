# Oscilloscope viewer core: decimation and channel classification

This project models the two pieces of logic in the oscilloscope waveform viewer
that are more than plotting or UI plumbing, and proves their properties in Dafny:

- `downsample(df, n)` reduces a sample table of N rows to n rows by
  equally-spaced point sampling. It picks row `int(i*step + step/2)` with
  `step = N/n` for each `i in range(n)`, and returns the table unchanged when
  `n >= N`.
- `get_channel_columns(df)` keeps the column names that start with `"CH"` or
  `"REF"`, in table order.

A sample table is modelled as `seq<Row>` with the row type as a type parameter,
because the decimator never looks inside a row. Column names are `seq<char>`.

Files:

- `subsequences.dfy` (module `Subsequences`): positional lookup (`iloc`) as
  `Select`, and the subsequence relation with its reflexivity, transitivity and
  multiset lemmas.
- `division.dfy` (module `DivisionFacts`): facts about integer division used by
  the index proofs.
- `decimation.dfy` (module `Decimation`): the index formula, the decimator, its
  error paths for counts below 1, and the re-decimation lemmas.
- `channels.dfy` (module `Channels`): the channel-name classifier.

The sample position is the exact integer `((2i+1)*N) / (2n)`. This is
`floor(i*N/n + N/(2n))`, and for non-negative values Python's `int()` truncates
to the same floor.

Behaviour of the code worth knowing:

- The code has no guard for `n <= 0`. For `n == 0` on a non-empty table it
  divides by zero (`total_rows / n`). For a negative `n` it iterates over an
  empty range and returns an empty table. When the table is empty and `n >= 0`,
  it returns the table. `Decimation.DownsampleAnyCount` models exactly these
  paths. The core `Decimation.Downsample` takes `n >= 1`, which is what the
  upload page's point-count input enforces (`min=1`, app.py:42).
- There is no viewport range filter in the code: the upload callback only
  parses, decimates and plots (app.py:64-74).

## Model

| member | source | states |
|---|---|---|
| Decimation.SampleIndex | main.py:41-42 | the picked row r is the floor of the real centre `i*step + step/2` of bucket i, i.e. `2n*r <= (2i+1)*N < 2n*(r+1)` |
| Decimation.SampleIndexBelowTotal | main.py:41-44 | for every `i < n`, including `i = n-1`, the picked position is below N, so the `iloc` lookup stays in range |
| Decimation.SampleIndexGap | main.py:41-42 | consecutive picks are `N/n` or `N/n + 1` rows apart (integer `N/n`): the points are spread out equally up to rounding, as the docstring promises |
| Decimation.SampleIndicesIncrease | main.py:41-42 | when `n <= N`, a later i picks a strictly later row, so no row is picked twice |
| Decimation.SampleIndexInBucket | main.py:41-42 | pick i lies at or after row `floor(i*N/n)` and strictly before the real bucket end `(i+1)*N/n` |
| Decimation.SampleIndexBelowRealBucketStart | main.py:41-42 | the bucket's lower end cannot be the real `i*N/n`: for N = 11 and n = 10, pick 1 is row 1, below 1.1 |
| Decimation.SampleIndices | main.py:42 | the `indices` list has exactly n entries; all are below N when N >= 1, and they strictly increase when `n <= N` |
| Decimation.HundredRowsByTen | main.py:41-42 | 100 rows sampled down to 10 pick rows 5, 15, 25, ..., 95 |
| Subsequences.Select | main.py:44 | positional lookup returns one row per position, and output row k is the input row at the k-th listed position |
| Subsequences.SelectIncreasingIsSubsequence | main.py:44 | looking up strictly increasing positions yields an order-preserving subsequence of the table |
| Decimation.Downsample | main.py:33-45 | for `n >= 1` the output has `min(n, N)` rows and is an order-preserving subsequence of the input |
| Decimation.DownsampleIdentity | main.py:37-39 | when `n >= N` the table is returned unchanged |
| Decimation.DownsampleKeepsSampledRows | main.py:41-44 | when `n < N` the output has exactly n rows, and row k is the input row at `SampleIndex(k)`, verbatim, with nothing averaged or interpolated |
| Decimation.DownsampleNoNewRows | main.py:44 | the output's multiset of rows is contained in the input's: no row is invented or duplicated |
| Decimation.DownsampleAnyCount | main.py:35-45 | over all integer counts: it fails (division by zero) exactly when `n == 0` and the table is non-empty; `n <= 0` otherwise yields no rows; every success is a subsequence of the input; for `n >= 1` the result is exactly `Downsample(table, n)`, of length `min(n, N)` |
| Decimation.RedownsampleSameCount | main.py:37-39 | decimating a decimated table again with the same n changes nothing |
| Decimation.RedownsampleStaysSubsequence | main.py:33-45 | decimating twice, with any counts, still yields an order-preserving subsequence of the original table |
| Decimation.RedownsampleDiffersFromDirect | main.py:41-44 | decimating 100 rows to 10 and then to 5 keeps different rows than decimating straight to 5, so re-decimation is not direct decimation |
| Channels.IsChannelName | main.py:51 | a name is a channel exactly when "CH" or "REF" is a prefix of it (case-sensitive) |
| Channels.ChannelColumns | main.py:47-53 | every returned name starts with "CH" or "REF", and each such name occurs as often as in the input while every other name is dropped |
| Channels.ChannelColumnsIsSubsequence | main.py:50-52 | the returned names keep the input's order |
| Channels.ChannelColumnsAppend | main.py:50-52 | classifying a concatenation is the concatenation of the classifications, so relative order is kept across any split |
| Channels.ChannelColumnsIdempotent | main.py:50-52 | classifying the result again returns it unchanged |
| Channels.ChannelColumnsEmptyIff | main.py:50-53 | the result is empty exactly when no name starts with "CH" or "REF" |
| Channels.ChannelColumnsExample | main.py:50-52 | `["TIME","CH1","FOO","REF2"]` classifies to `["CH1","REF2"]` |

## Left out

- Decimation.SampleIndex: the source computes `step = total_rows / n` and `i*step + step/2` in IEEE doubles. The model uses exact rational arithmetic. When the centre `(2i+1)N/(2n)` is an integer and `N/n` is not exact in binary, the source can pick one row earlier than the model, even for small N: for N = 24, n = 9, i = 7 the doubles give row 19 and the model gives row 20. IEEE rounding is not modelled.
- Decimation.SampleIndexInBucket: the lower bucket bound is stated as `floor(i*N/n)`, not the real `i*N/n`. The real bound does not hold: see `SampleIndexBelowRealBucketStart`.
- `read_data` and the CSV parse with a 20-line header skip (main.py:28-31, app.py:70): file and text I/O handled by the tabular library.
- `plot_combined` and `plot_split` (main.py:55-112): chart construction and styling by the plotting library. The channel colour table (main.py:17-26) only covers CH1-CH4 and REF1-REF4. A name such as `CH5` passes the classifier, but its colour lookup would fail during plotting. This is not modelled.
- The upload page (app.py): layout, base64 decoding of the upload, and callback wiring. Its only logic is the call to `downsample`.
- The demo block under `__main__` (main.py:114-127): console output.
- There is no viewport range filter, trace visibility state or trace renaming state in the code, so none is modelled.
- The row contents (a `TIME` column and numeric channel columns): no modelled operation reads them.
