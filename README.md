# Minimizer seed-and-extend matcher over one DNA reference

This project models, in Dafny, the core of a minimizer-based seed-and-extend
matcher (a Rust crate built on the `debruijn` k-mer library):

- **the index** (`src/index.rs`): `Index::new` takes the intervals a minimizer
  scanner reports over the reference and appends each one, in scan order, to the
  bucket of its minimizer in a hash map; `Interval` is a `(start: u32, len: u16)`
  value;
- **the matcher** (`src/search.rs`): `minimizer` (smallest p-mer of a window,
  via a rolling `extend_right`), `lcp` (longest common prefix, first in 32-base
  blocks, then base by base), and `max_map_prefix` (the maximum mappable prefix
  of a query: look up the bucket of the query's minimizer, walk every interval's
  window starts with a rolling reference k-mer, extend every exact k-mer seed with
  `lcp`, keep the strictly longest).

Files:

- `kmers.dfy` — module `Wrappers` (`Option`) and module `Kmers`: bases 0..3 (A, C,
  G, T), k-mers as sequences of bases, `KmerAt` (`get_kmer`), `ExtendRight`
  (`extend_right`), and `Pack`, the packed integer (first base most significant)
  whose numeric order is the k-mer order the source compares with.
- `index.dfy` — module `SeedIndex`: `Interval`, the scanner record `Msp`, the
  `Index` value with the accessors `K()`, `Reference()` and `Get(m)` that the
  matcher calls, the method `New` (the bucket loop of `Index::new`), and the
  specification function `Buckets` with its lemmas.
- `search.dfy` — module `Search`: the methods `Minimizer`, `Lcp`, `VisitOffset`
  (one window start of `max_map_prefix`), `WalkInterval` (its inner loop, one
  interval) and `MaxMapPrefix`, each proved against a specification function
  (`MinimizerOf`, `NaiveLcp`, `Step`, `ScanFrom`, `MaxMapPrefixOf`), and the
  lemmas about those functions, including the end-to-end result that an index
  built from a correct scanner output finds every exact k-mer seed of the
  reference.

Modelling decisions, where the source text needs a reading:

- **Widths.** In the source the minimizer width `P` is a type parameter of
  `Index<P>` (src/index.rs:10), while the seed width `k` is a runtime argument of
  `Index::new` (src/index.rs:16) and a type parameter `K` of `max_map_prefix`
  (src/search.rs:6). The source struct stores neither width, although
  src/search.rs:8 calls `index.k()`. The model adds the fields `k` and `p` to
  `Index`, so builder and matcher share them. `Index.Valid()` states what the
  matcher relies on: `1 <= p <= k`, and every stored interval has `len >= k` and
  lies inside the reference. `NewIsValid` proves that `New` produces such an
  index from scanner records that lie inside the reference.
- **Interval length.** `src/search.rs:16` computes `end = start + len + 1 - K`,
  so `len` counts bases and an interval holds the `len - K + 1` window starts
  `start ..= start + len - K` (`WindowStarts`). `len` could also be read as a
  count of window starts; src/search.rs:16 counts it in bases, and the model
  follows that.
- **The lcp call.** `src/search.rs:20` passes the whole query to `lcp` while the
  reference side starts after the seed. The model compares the query after its
  first `K` bases, which is what a maximum mappable prefix means; the line as
  written is modelled too and shown wrong (see Findings).
- **Code that does not compile.** `max_pos`/`max_len` are not `mut`, `idx++` is
  not Rust, `for i in intervals` iterates an `Option`, and line 34 returns a
  tuple. The model follows the evident intent: an absent bucket gives `None`,
  and the result is `Option<(pos, len)>`, `None` when no seed was verified.
- **Ordering.** `cmp::min` keeps its first argument unless the second is
  strictly smaller (`MinOf`); k-mers are compared by packed value, and
  `PackOrderIsLexicographic` proves that this is dictionary order on bases.
- **The scanner** (`debruijn::msp::Scanner`) is foreign code: its output is the
  input `records` of `New`. What it is expected to guarantee (records inside the
  reference, every window start covered by a record carrying that window's
  minimizer) is the predicate `ScannerOutput`, used only as the hypothesis of
  the end-to-end lemmas.
- **A short query** (fewer than `K` bases) makes the source panic in
  `get_kmer`; `MaxMapPrefix` requires `|query| >= k`.

## Model

| member | source | states |
|---|---|---|
| `Kmers.KmerAt` | src/search.rs:15 | `get_kmer(i)` is the w bases of the sequence starting at offset i, in order |
| `Kmers.ExtendRight` | src/search.rs:29 | `extend_right(b)` keeps the width, drops the first base, shifts the others one place left and puts b last |
| `Kmers.RollKmer` | src/search.rs:42 | extending the window at offset i with the base that follows it gives the window at offset i + 1 |
| `Kmers.PackBound` | src/search.rs:43 | a packed k-mer of width w is below 4^w (fits in 2w bits) |
| `Kmers.ExtendRightPacked` | src/search.rs:29 | on the packed integer, shifting left by one base and adding b gives the dropped first base times 4^w plus the packed rolled k-mer, which is below 4^w: `extend_right(b)` keeps the low 2w bits |
| `Kmers.PackOrderIsLexicographic` | src/search.rs:43 | for k-mers of one width, packed-value order is dictionary order on the bases, in both directions |
| `Search.MinOf` | src/search.rs:43 | `cmp::min` returns one of its arguments, no larger than either, and the first argument on a tie |
| `Search.MinUpToIsLeast` | src/search.rs:37-47 | the running minimum over offsets 0..=i is a p-mer at some offset, no p-mer in range is smaller, and every earlier offset is strictly larger (ties go to the lowest offset) |
| `Search.Minimizer` | src/search.rs:37-47 | the rolling loop returns `MinimizerOf(v, p)`, the running minimum of the p-mers of v each extracted from scratch |
| `Search.MinimizerOfIsLeast` | src/search.rs:37-47 | the minimizer is a p-mer of v, found at the lowest offset holding its value, and no p-mer of v is smaller |
| `Search.NaiveLcpIsLcp` | src/search.rs:67-73 | the base-by-base lcp is a common prefix that ends at a sequence end or a mismatch |
| `Search.LcpCharacterisation` | src/search.rs:50-76 | r is the lcp exactly when r <= both lengths, the first r bases agree, and r is a length or a mismatch position |
| `Search.LcpProperties` | src/search.rs:50-76 | lcp is symmetric, lcp(a, a) = \|a\|, and a first-base mismatch gives 0 |
| `Search.Lcp` | src/search.rs:50-76 | the block-then-base loops return the base-by-base lcp: the 32-base phase never skips a mismatch |
| `Search.SeedLenMeaning` | src/search.rs:19-20 | the length recorded for a seed at o is len exactly when the query's first len bases match the reference at o maximally and len >= k |
| `Search.ScanFacts` | src/search.rs:14-31 | the scan ends with no position iff no visited offset is a seed; otherwise it holds a longest seed, and every earlier-visited seed is strictly shorter |
| `Search.VisitOffset` | src/search.rs:19-26 | one window start updates (max_pos, max_len) as one scan step: the position changes only for an exact seed strictly longer than the best so far |
| `Search.WalkInterval` | src/search.rs:15-31 | walking one interval, with the k-mer rolled on every step but the last, continues the scan from the given state over exactly that interval's window starts, in increasing order |
| `Search.WindowStartsMembers` | src/search.rs:16-18 | the offsets visited in one interval are exactly those whose k-mer lies inside the interval |
| `Search.ScanFromAppend` | src/search.rs:14-32 | continuing the scan state reached after offsets a with offsets b is scanning a + b, so the intervals can be walked one after another |
| `Search.MaxMapPrefix` | src/search.rs:6-35 | the method returns the maximum mappable prefix as `MaxMapPrefixOf` defines it, bucket lookup included |
| `Search.MaxMapPrefixIsExact` | src/search.rs:19-25 | a reported (pos, len) is at a visited offset, len >= k, and the query's first len bases are a maximal exact match at pos |
| `Search.MaxMapPrefixIsLongestFirst` | src/search.rs:22-25 | no visited offset gives a longer match, and all offsets visited before pos give strictly shorter ones |
| `Search.MaxMapPrefixNone` | src/search.rs:9-34 | the result is None iff the minimizer has no bucket or no visited offset has an exact k-mer seed |
| `Search.VisitedOffsetsWithin` | src/search.rs:16-18 | every visited offset o lies in some interval with o + k <= start + len, hence inside the reference |
| `Search.CoveredWindowIsCandidate` | src/search.rs:7-18 | with an index built from a correct scanner output, a query whose k-mer occurs at reference offset o visits o |
| `Search.FindsEverySeed` | src/search.rs:6-35 | with such an index, a query whose first k bases occur in the reference gets a match of length >= k that is a maximal exact match |
| `Search.SelfQueryMapsWhole` | src/search.rs:6-35 | querying with the reference itself returns (0, reference length) |
| `Search.SeedLenAsWritten` | src/search.rs:20 | line 20 as written: there is a length exactly where there is an exact seed, and it is at least k and at most the rest of the reference from o |
| `Search.AsWrittenOverreports` | src/search.rs:20 | the lcp call as written reports a 2-base match of query AC against reference AA (k = 1), where the corrected length is 1 |
| `SeedIndex.Index.Get` | src/search.rs:9 | `index.get(m)` returns a bucket exactly when m is a key, and then the bucket stored for m |
| `SeedIndex.Index.K` | src/search.rs:8 | `index.k()` returns the seed width, which is positive in a valid index |
| `SeedIndex.Index.Reference` | src/search.rs:10 | `index.reference()` returns the stored reference, inside which every interval of a valid index lies |
| `SeedIndex.NewInterval` | src/index.rs:44-47 | Interval::new stores start (a u32) and len (a u16) verbatim |
| `SeedIndex.New` | src/index.rs:16-35 | the built index keeps the reference unmodified and its map equals the buckets of pushing every record in order; no records give an empty map |
| `SeedIndex.BucketsAreFilters` | src/index.rs:25-29 | the keys are exactly the minimizers of the records, no bucket is empty, and each bucket lists its records' intervals in scanner order |
| `SeedIndex.RecordInBucket` | src/index.rs:25-29 | every record (m, start, len) has a bucket keyed by m, and Interval(start, len) is in it |
| `SeedIndex.BucketsTotal` | src/index.rs:25-29 | the bucket sizes add up to the number of scanner records |
| `SeedIndex.NewIsValid` | src/index.rs:16-35 | records inside the reference give an index whose every interval holds a k-window inside the reference |

## Left out

- Packing the input bytes (`DnaString::from_acgt_bytes`, src/index.rs:17) and its failure on non-ACGT symbols: library code; the reference is taken as a sequence of bases 0..3.
- The minimizer scanner (`Scanner::new(..).scan()`, src/index.rs:18-21): foreign code whose behaviour is not visible; its output is the input `records`, and its expected guarantee is the predicate `ScannerOutput`.
- The machine-word comparison inside `Kmer32` (src/search.rs:57-60): modelled as equality of 32-base slices.
- Serde derives (src/index.rs:1, 9, 38): serialisation plumbing.
- Hash map and vector capacity hints (`1 << 20`, `16`): performance only; the hash map is a Dafny `map`.
- `src/lib.rs`: module declarations and a test-data path; no logic.
- `stats()`, `len()` and concurrent sharing of the index: not in the modelled source.
- Integer widths in the matcher: `start + len + 1 - K` and the result `(u32, u32)` are computed on unbounded integers; the interval fields keep their u32 and u16 ranges.
- Rolling the k-mer is modelled on sequences (`ExtendRight`); `ExtendRightPacked` relates it to the packed integer, but the 64-bit storage of `debruijn` k-mers is not modelled.

## Findings

| source | as written | input that shows it | evidently intended | confidence | as-written member | corrected member |
|---|---|---|---|---|---|---|
| src/search.rs:20 | `K + lcp(reference.slice(start + K, ..), query)` compares the reference after the seed with the query from its first base | k = 1, reference AA, query AC: the seed A matches at 0, lcp(A, AC) = 1, so length 2 is reported although AC does not occur at 0 | `K + lcp(reference[start + K..], query[K..])`, the length of the maximal exact match | not executed | `Search.SeedLenAsWritten`, `Search.AsWrittenOverreports` | `Search.SeedLen`, `Search.SeedLenMeaning` |
