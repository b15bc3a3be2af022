/**
  The matcher: the minimizer of a window, the longest common prefix of two base
  sequences, and the maximum mappable prefix of a query against the index.
*/
module Search {
  import opened Wrappers
  import opened Kmers
  import opened SeedIndex

  /** Width of the k-mer compared per step in the fast phase of lcp (Kmer32). */
  const BLOCK: nat := 32

  // ---------------------------------------------------------------- minimizer

  /** `cmp::min` on k-mers: the first argument unless the second is strictly smaller. */
  function MinOf(a: Kmer, b: Kmer): (r: Kmer)
    ensures r == a || r == b
    ensures Pack(r) <= Pack(a) && Pack(r) <= Pack(b)
    ensures Pack(a) == Pack(b) ==> r == a
  {
    if Pack(a) <= Pack(b) then a else b
  }

  /** The running minimum of the p-mers of v at offsets 0..=i, each extracted from scratch. */
  function MinUpTo(v: seq<Base>, p: nat, i: nat): Kmer
    requires i + p <= |v|
  {
    if i == 0 then KmerAt(v, 0, p) else MinOf(MinUpTo(v, p, i - 1), KmerAt(v, i, p))
  }

  /** The minimizer of v: the smallest of its p-mers. */
  function MinimizerOf(v: seq<Base>, p: nat): Kmer
    requires p <= |v|
  {
    MinUpTo(v, p, |v| - p)
  }

  /** r is no larger than any p-mer of v at offsets 0..=i. */
  predicate NoSmallerUpTo(v: seq<Base>, p: nat, i: nat, r: Kmer)
    requires i + p <= |v|
  {
    forall j | 0 <= j <= i :: Pack(r) <= Pack(KmerAt(v, j, p))
  }

  /** r is the p-mer of v at offset j, and every p-mer before j is strictly larger. */
  predicate FirstAt(v: seq<Base>, p: nat, j: nat, r: Kmer)
    requires j + p <= |v|
  {
    KmerAt(v, j, p) == r && forall l | 0 <= l < j :: Pack(r) < Pack(KmerAt(v, l, p))
  }

  lemma NoSmallerAt(v: seq<Base>, p: nat, i: nat, r: Kmer, l: nat)
    requires i + p <= |v| && NoSmallerUpTo(v, p, i, r) && l <= i
    ensures Pack(r) <= Pack(KmerAt(v, l, p))
  {
  }

  /** A p-mer strictly below a bound on all earlier p-mers is the first of its value. */
  lemma StrictlySmallerIsFirst(v: seq<Base>, p: nat, i: nat, r: Kmer)
    requires 1 <= i && i + p <= |v| && NoSmallerUpTo(v, p, i - 1, r)
    requires Pack(KmerAt(v, i, p)) < Pack(r)
    ensures FirstAt(v, p, i, KmerAt(v, i, p))
  {
    forall l | 0 <= l < i
      ensures Pack(KmerAt(v, i, p)) < Pack(KmerAt(v, l, p))
    {
      NoSmallerAt(v, p, i - 1, r, l);
    }
  }

  /** A p-mer no larger than a bound on offsets 0..i-1 and than the p-mer at i bounds 0..=i. */
  lemma BelowBoundAndNext(v: seq<Base>, p: nat, i: nat, r: Kmer, m: Kmer)
    requires 1 <= i && i + p <= |v| && NoSmallerUpTo(v, p, i - 1, r)
    requires Pack(m) <= Pack(r) && Pack(m) <= Pack(KmerAt(v, i, p))
    ensures NoSmallerUpTo(v, p, i, m)
  {
    forall l | 0 <= l <= i
      ensures Pack(m) <= Pack(KmerAt(v, l, p))
    {
      if l < i {
        NoSmallerAt(v, p, i - 1, r, l);
      }
    }
  }

  /** The running minimum is a p-mer. */
  lemma {:induction false} MinUpToLength(v: seq<Base>, p: nat, i: nat)
    requires i + p <= |v|
    ensures |MinUpTo(v, p, i)| == p
  {
    if i > 0 {
      MinUpToLength(v, p, i - 1);
    }
  }

  /** No p-mer at offsets 0..=i is smaller than the running minimum. */
  lemma {:induction false} MinUpToNoSmaller(v: seq<Base>, p: nat, i: nat)
    requires i + p <= |v|
    ensures NoSmallerUpTo(v, p, i, MinUpTo(v, p, i))
  {
    if i > 0 {
      MinUpToNoSmaller(v, p, i - 1);
      var prev := MinUpTo(v, p, i - 1);
      var m := MinUpTo(v, p, i);
      assert Pack(m) <= Pack(prev) && Pack(m) <= Pack(KmerAt(v, i, p));
      BelowBoundAndNext(v, p, i, prev, m);
    }
  }

  /** The running minimum is the p-mer at some offset j, and every earlier p-mer is strictly larger. */
  lemma {:induction false} MinUpToFirst(v: seq<Base>, p: nat, i: nat)
    requires i + p <= |v|
    ensures exists j :: 0 <= j <= i && FirstAt(v, p, j, MinUpTo(v, p, i))
  {
    if i == 0 {
      assert FirstAt(v, p, 0, MinUpTo(v, p, 0));
    } else {
      MinUpToFirst(v, p, i - 1);
      var prev := MinUpTo(v, p, i - 1);
      var cur := KmerAt(v, i, p);
      var j :| 0 <= j <= i - 1 && FirstAt(v, p, j, prev);
      if Pack(prev) <= Pack(cur) {
        assert MinUpTo(v, p, i) == prev;
        assert FirstAt(v, p, j, MinUpTo(v, p, i));
      } else {
        MinUpToNoSmaller(v, p, i - 1);
        StrictlySmallerIsFirst(v, p, i, prev);
        assert MinUpTo(v, p, i) == cur;
      }
    }
  }

  /**
    The running minimum is one of the p-mers seen, no p-mer seen is smaller, and
    it is taken at the lowest offset holding that value (every earlier p-mer is
    strictly larger).
  */
  lemma MinUpToIsLeast(v: seq<Base>, p: nat, i: nat)
    requires i + p <= |v|
    ensures |MinUpTo(v, p, i)| == p
    ensures NoSmallerUpTo(v, p, i, MinUpTo(v, p, i))
    ensures exists j :: 0 <= j <= i && FirstAt(v, p, j, MinUpTo(v, p, i))
  {
    MinUpToLength(v, p, i);
    MinUpToNoSmaller(v, p, i);
    MinUpToFirst(v, p, i);
  }

  lemma MinUpToStep(v: seq<Base>, p: nat, i: nat)
    requires 1 <= i && i + p <= |v|
    ensures MinUpTo(v, p, i) == MinOf(MinUpTo(v, p, i - 1), KmerAt(v, i, p))
  {
  }

  /**
    minimizer: rolls the p-mer along v with extend_right and keeps the running
    minimum. The result is the minimizer computed by independent extraction.
  */
  method Minimizer(v: seq<Base>, p: nat) returns (min: Kmer)
    requires 1 <= p <= |v|
    ensures min == MinimizerOf(v, p)
  {
    min := KmerAt(v, 0, p);
    var curr := min;
    for i := 1 to |v| + 1 - p
      invariant curr == KmerAt(v, i - 1, p)
      invariant min == MinUpTo(v, p, i - 1)
    {
      RollKmer(v, i - 1, p);
      curr := ExtendRight(curr, v[i + p - 1]);
      MinUpToStep(v, p, i);
      min := MinOf(min, curr);
    }
  }

  /**
    The minimizer of v is a p-mer of v, taken at the lowest offset holding its
    value, and no p-mer of v is smaller.
  */
  lemma MinimizerOfIsLeast(v: seq<Base>, p: nat)
    requires p <= |v|
    ensures |MinimizerOf(v, p)| == p
    ensures exists i :: 0 <= i <= |v| - p && FirstAt(v, p, i, MinimizerOf(v, p))
    ensures forall i | 0 <= i <= |v| - p :: Pack(MinimizerOf(v, p)) <= Pack(KmerAt(v, i, p))
  {
    MinUpToIsLeast(v, p, |v| - p);
  }

  // ---------------------------------------------------------------- lcp

  /** Base-by-base reference definition of the longest common prefix. */
  function NaiveLcp(a: seq<Base>, b: seq<Base>): nat
  {
    if |a| == 0 || |b| == 0 || a[0] != b[0] then 0 else 1 + NaiveLcp(a[1..], b[1..])
  }

  /** r is a longest common prefix length of a and b. */
  predicate IsLcp(a: seq<Base>, b: seq<Base>, r: nat)
  {
    r <= |a| && r <= |b| && a[..r] == b[..r] && (r == |a| || r == |b| || a[r] != b[r])
  }

  lemma {:induction false} NaiveLcpIsLcp(a: seq<Base>, b: seq<Base>)
    ensures IsLcp(a, b, NaiveLcp(a, b))
  {
    if |a| > 0 && |b| > 0 && a[0] == b[0] {
      NaiveLcpIsLcp(a[1..], b[1..]);
      var r := NaiveLcp(a[1..], b[1..]);
      assert a[..r + 1] == [a[0]] + a[1..][..r];
      assert b[..r + 1] == [b[0]] + b[1..][..r];
    }
  }

  /** The longest common prefix is characterised by IsLcp, in both directions. */
  lemma LcpCharacterisation(a: seq<Base>, b: seq<Base>, r: nat)
    ensures IsLcp(a, b, r) <==> r == NaiveLcp(a, b)
  {
    NaiveLcpIsLcp(a, b);
  }

  /** lcp is symmetric, a sequence shares all of itself with itself, and a first-base mismatch gives 0. */
  lemma {:induction false} LcpProperties(a: seq<Base>, b: seq<Base>)
    ensures NaiveLcp(a, b) == NaiveLcp(b, a)
    ensures NaiveLcp(a, a) == |a|
    ensures |a| > 0 && |b| > 0 && a[0] != b[0] ==> NaiveLcp(a, b) == 0
  {
    NaiveLcpIsLcp(a, b);
    LcpCharacterisation(b, a, NaiveLcp(a, b));
    LcpCharacterisation(a, a, |a|);
  }

  /**
    lcp: first compares 32-base blocks, then single bases. The block phase never
    skips a mismatch: the result is the base-by-base longest common prefix.
  */
  method Lcp(a: seq<Base>, b: seq<Base>) returns (idx: nat)
    ensures IsLcp(a, b, idx)
    ensures idx == NaiveLcp(a, b)
  {
    var minLen := if |a| <= |b| then |a| else |b|;
    idx := 0;
    while idx + BLOCK <= minLen
      invariant idx <= minLen
      invariant a[..idx] == b[..idx]
    {
      if KmerAt(a, idx, BLOCK) != KmerAt(b, idx, BLOCK) {
        break;
      }
      assert a[..idx + BLOCK] == a[..idx] + KmerAt(a, idx, BLOCK);
      assert b[..idx + BLOCK] == b[..idx] + KmerAt(b, idx, BLOCK);
      idx := idx + BLOCK;
    }
    while idx < minLen
      invariant idx <= minLen
      invariant a[..idx] == b[..idx]
    {
      if a[idx] != b[idx] {
        break;
      }
      assert a[..idx + 1] == a[..idx] + [a[idx]];
      assert b[..idx + 1] == b[..idx] + [b[idx]];
      idx := idx + 1;
    }
    LcpCharacterisation(a, b, idx);
  }

  // ---------------------------------------------------------------- max_map_prefix

  /**
    The length of the match seeded at reference offset o: when the reference k-mer
    at o equals the query's first k bases, k plus the lcp of what follows on both
    sides; None when there is no exact seed at o.
  */
  function SeedLen(reference: seq<Base>, query: seq<Base>, k: nat, o: nat): Option<nat>
  {
    if o + k <= |reference| && k <= |query| && KmerAt(reference, o, k) == query[..k]
    then Some(k + NaiveLcp(reference[o + k..], query[k..]))
    else None
  }

  /** The matcher's running state: the best position so far and its length. */
  datatype Best = Best(pos: Option<nat>, len: nat)

  /** One visited offset: replace the best only on a strictly longer match. */
  function Step(reference: seq<Base>, query: seq<Base>, k: nat, best: Best, o: nat): Best
  {
    match SeedLen(reference, query, k, o)
    case Some(l) => if l > best.len then Best(Some(o), l) else best
    case None => best
  }

  /** The state after visiting the offsets of `order` left to right, starting from `best`. */
  function ScanFrom(reference: seq<Base>, query: seq<Base>, k: nat, best: Best, order: seq<nat>): Best
  {
    if order == [] then best
    else Step(reference, query, k, ScanFrom(reference, query, k, best, order[..|order| - 1]), order[|order| - 1])
  }

  /** The state after visiting the offsets of `order`, starting with no match. */
  function Scan(reference: seq<Base>, query: seq<Base>, k: nat, order: seq<nat>): Best
  {
    ScanFrom(reference, query, k, Best(None, 0), order)
  }

  /** Going on from the state reached after `a` with the offsets of `b` is scanning a + b. */
  lemma {:induction false} ScanFromAppend(reference: seq<Base>, query: seq<Base>, k: nat, best: Best, a: seq<nat>, b: seq<nat>)
    ensures ScanFrom(reference, query, k, ScanFrom(reference, query, k, best, a), b)
         == ScanFrom(reference, query, k, best, a + b)
  {
    if b == [] {
      assert a + b == a;
    } else {
      var n := |b| - 1;
      ScanFromAppend(reference, query, k, best, a, b[..n]);
      assert (a + b)[..|a + b| - 1] == a + b[..n];
    }
  }

  /** The offsets lo, lo + 1, .., hi - 1, in increasing order. */
  function Range(lo: nat, hi: nat): seq<nat>
  {
    if hi <= lo then [] else Range(lo, hi - 1) + [hi - 1]
  }

  /** Range(lo, hi) holds exactly the offsets in [lo, hi). */
  lemma {:induction false} RangeMembers(lo: nat, hi: nat)
    ensures forall o :: o in Range(lo, hi) <==> lo <= o < hi
  {
    if lo < hi {
      RangeMembers(lo, hi - 1);
    }
  }

  /** The window starts of an interval of `len` bases, start .. start + len - k in increasing order. */
  function WindowStarts(iv: Interval, k: nat): seq<nat>
  {
    if k <= iv.len then Range(iv.start, iv.start + iv.len + 1 - k) else []
  }

  /** The window starts are exactly the offsets whose k-mer lies inside the interval. */
  lemma WindowStartsMembers(iv: Interval, k: nat)
    ensures forall o :: o in WindowStarts(iv, k) <==> iv.start <= o && o + k <= iv.start + iv.len
  {
    if k <= iv.len {
      RangeMembers(iv.start, iv.start + iv.len + 1 - k);
    }
  }

  /** Extending a scan over [lo, hi) by the offset hi. */
  lemma ScanFromRangeSnoc(reference: seq<Base>, query: seq<Base>, k: nat, best: Best, lo: nat, hi: nat)
    requires lo <= hi
    ensures ScanFrom(reference, query, k, best, Range(lo, hi + 1))
         == Step(reference, query, k, ScanFrom(reference, query, k, best, Range(lo, hi)), hi)
  {
    var r := Range(lo, hi);
    assert Range(lo, hi + 1) == r + [hi];
    assert (r + [hi])[..|r|] == r;
  }

  /** All window starts of a bucket, interval by interval in bucket order. */
  function ScanOrder(bucket: seq<Interval>, k: nat): seq<nat>
  {
    if bucket == [] then []
    else ScanOrder(bucket[..|bucket| - 1], k) + WindowStarts(bucket[|bucket| - 1], k)
  }

  lemma ScanOrderSnoc(bucket: seq<Interval>, k: nat, n: nat)
    requires n < |bucket|
    ensures ScanOrder(bucket[..n + 1], k) == ScanOrder(bucket[..n], k) + WindowStarts(bucket[n], k)
  {
    assert bucket[..n + 1][..n] == bucket[..n];
  }

  /** The offsets visited for this query, or None when its minimizer has no bucket. */
  function Candidates(idx: Index, query: seq<Base>): Option<seq<nat>>
    requires idx.Valid() && idx.k <= |query|
  {
    match idx.Get(MinimizerOf(query[..idx.k], idx.p))
    case None => None
    case Some(bucket) => Some(ScanOrder(bucket, idx.k))
  }

  /** The maximum mappable prefix, as the position and length of the best seed in scan order. */
  function MaxMapPrefixOf(idx: Index, query: seq<Base>): Option<(nat, nat)>
    requires idx.Valid() && idx.k <= |query|
  {
    match Candidates(idx, query)
    case None => None
    case Some(order) =>
      var best := Scan(idx.reference, query, idx.k, order);
      if best.pos.Some? then Some((best.pos.value, best.len)) else None
  }

  /**
    One visited offset of max_map_prefix: if the rolled reference k-mer equals the
    query's first k-mer, extend the seed with lcp and keep it when strictly longer.
  */
  method VisitOffset(reference: seq<Base>, query: seq<Base>, k: nat, kmer: Kmer, intervalKmer: Kmer,
                     start: nat, maxPos: Option<nat>, maxLen: nat)
    returns (newPos: Option<nat>, newLen: nat)
    requires k <= |query| && kmer == query[..k]
    requires start + k <= |reference| && intervalKmer == KmerAt(reference, start, k)
    ensures Best(newPos, newLen) == Step(reference, query, k, Best(maxPos, maxLen), start)
  {
    newPos, newLen := maxPos, maxLen;
    if intervalKmer == kmer {
      // The source passes the whole query to lcp here; the query side is taken after the seed.
      var l := Lcp(reference[start + k..], query[k..]);
      var len := k + l;
      if len > maxLen {
        newLen := len;
        newPos := Some(start);
      }
    }
  }

  /**
    The inner loop of max_map_prefix over one interval: starting from the state
    (maxPos, maxLen), visit the interval's window starts with a
    k-mer rolled by extend_right, and extend every exact seed with lcp.
  */
  method WalkInterval(reference: seq<Base>, query: seq<Base>, k: nat, kmer: Kmer, iv: Interval,
                      maxPos: Option<nat>, maxLen: nat)
    returns (newPos: Option<nat>, newLen: nat)
    requires 1 <= k <= |query| && kmer == query[..k]
    requires k <= iv.len && iv.start + iv.len <= |reference|
    ensures Best(newPos, newLen) == ScanFrom(reference, query, k, Best(maxPos, maxLen), WindowStarts(iv, k))
  {
    newPos, newLen := maxPos, maxLen;
    var intervalKmer := KmerAt(reference, iv.start, k);
    var end := iv.start + iv.len + 1 - k;
    assert WindowStarts(iv, k) == Range(iv.start, end);
    for start := iv.start to end
      invariant start < end ==> intervalKmer == KmerAt(reference, start, k)
      invariant Best(newPos, newLen) == ScanFrom(reference, query, k, Best(maxPos, maxLen), Range(iv.start, start))
    {
      ScanFromRangeSnoc(reference, query, k, Best(maxPos, maxLen), iv.start, start);
      newPos, newLen := VisitOffset(reference, query, k, kmer, intervalKmer, start, newPos, newLen);
      if start < end - 1 {
        RollKmer(reference, start, k);
        intervalKmer := ExtendRight(intervalKmer, reference[start + k]);
      }
    }
  }

  /**
    max_map_prefix. Looks up the bucket of the query's minimizer, walks every
    interval's window starts with a rolling reference k-mer, extends each exact
    seed with lcp and keeps the strictly longest match.
  */
  method MaxMapPrefix(query: seq<Base>, idx: Index) returns (res: Option<(nat, nat)>)
    requires idx.Valid()
    requires |query| >= idx.K()
    ensures res == MaxMapPrefixOf(idx, query)
  {
    var k := idx.K();
    var kmer := KmerAt(query, 0, k);
    var minimizer := Minimizer(query[..k], idx.p);
    var intervals := idx.Get(minimizer);
    var reference := idx.Reference();
    if intervals.None? {
      return None;
    }
    var bucket := intervals.value;
    assert IntervalsWithin(bucket, k, |reference|);
    var maxPos: Option<nat> := None;
    var maxLen: nat := 0;
    for n := 0 to |bucket|
      invariant Best(maxPos, maxLen) == Scan(reference, query, k, ScanOrder(bucket[..n], k))
    {
      ScanOrderSnoc(bucket, k, n);
      ScanFromAppend(reference, query, k, Best(None, 0), ScanOrder(bucket[..n], k), WindowStarts(bucket[n], k));
      maxPos, maxLen := WalkInterval(reference, query, k, kmer, bucket[n], maxPos, maxLen);
    }
    assert bucket[..|bucket|] == bucket;
    res := if maxPos.None? then None else Some((maxPos.value, maxLen));
  }

  // ---------------------------------------------------------------- what the matcher promises

  /**
    A maximal exact match of the query's prefix at reference position pos: the
    first k bases are an exact seed, the first len bases agree, and the match
    stops at the end of either sequence or at a mismatch.
  */
  predicate ExactExtension(reference: seq<Base>, query: seq<Base>, k: nat, pos: nat, len: nat)
  {
    && k <= len && pos + len <= |reference| && len <= |query|
    && KmerAt(reference, pos, k) == query[..k]
    && reference[pos..pos + len] == query[..len]
    && (pos + len == |reference| || len == |query| || reference[pos + len] != query[len])
  }

  /** A seed's length is the length of the maximal exact match it starts, and nothing else. */
  lemma SeedLenMeaning(reference: seq<Base>, query: seq<Base>, k: nat, o: nat, len: nat)
    ensures SeedLen(reference, query, k, o) == Some(len) <==> ExactExtension(reference, query, k, o, len)
  {
    if o + k <= |reference| && k <= |query| && k <= len {
      var ra, qa := reference[o + k..], query[k..];
      var l := len - k;
      LcpCharacterisation(ra, qa, l);
      if l <= |ra| && l <= |qa| {
        assert reference[o..o + len] == KmerAt(reference, o, k) + ra[..l];
        assert query[..len] == query[..k] + qa[..l];
        assert ra[..l] == reference[o..o + len][k..];
        assert qa[..l] == query[..len][k..];
        assert (o + len == |reference|) == (l == |ra|);
        assert (len == |query|) == (l == |qa|);
        if o + len < |reference| && len < |query| {
          assert reference[o + len] == ra[l] && query[len] == qa[l];
        }
      }
    }
  }

  /** Seed lengths that do not beat, or stay strictly below, a given length. */
  predicate AtMost(s: Option<nat>, len: nat) { s.None? || s.value <= len }

  predicate Below(s: Option<nat>, len: nat) { s.None? || s.value < len }

  /** The scan finds no position exactly when no visited offset is a seed, and then its length is 0. */
  lemma {:induction false} ScanNoneIff(reference: seq<Base>, query: seq<Base>, k: nat, order: seq<nat>)
    requires k >= 1
    ensures var best := Scan(reference, query, k, order);
      && (best.pos.None? <==> forall t | 0 <= t < |order| :: SeedLen(reference, query, k, order[t]).None?)
      && (best.pos.None? ==> best.len == 0)
  {
    if order != [] {
      var n := |order| - 1;
      var init := order[..n];
      ScanNoneIff(reference, query, k, init);
      assert forall t | 0 <= t < n :: order[t] == init[t];
    }
  }

  /** No visited offset gives a longer seed than the one the scan keeps. */
  lemma {:induction false} ScanIsLongest(reference: seq<Base>, query: seq<Base>, k: nat, order: seq<nat>)
    ensures forall t | 0 <= t < |order| :: AtMost(SeedLen(reference, query, k, order[t]), Scan(reference, query, k, order).len)
  {
    if order != [] {
      var n := |order| - 1;
      var init := order[..n];
      ScanIsLongest(reference, query, k, init);
      assert forall t | 0 <= t < n :: order[t] == init[t];
    }
  }

  /**
    A position the scan keeps is a visited offset whose seed has the kept length,
    and every offset visited before it has a strictly shorter seed or none.
  */
  lemma {:induction false} ScanWitness(reference: seq<Base>, query: seq<Base>, k: nat, order: seq<nat>)
    ensures var best := Scan(reference, query, k, order);
      best.pos.Some? ==>
        exists t :: 0 <= t < |order| && order[t] == best.pos.value
                    && SeedLen(reference, query, k, order[t]) == Some(best.len)
                    && forall u | 0 <= u < t :: Below(SeedLen(reference, query, k, order[u]), best.len)
  {
    if order != [] {
      var n := |order| - 1;
      var init := order[..n];
      var before := Scan(reference, query, k, init);
      var seed := SeedLen(reference, query, k, order[n]);
      if seed.Some? && seed.value > before.len {
        ScanIsLongest(reference, query, k, init);
        forall u | 0 <= u < n
          ensures Below(SeedLen(reference, query, k, order[u]), seed.value)
        {
          assert order[u] == init[u];
          assert AtMost(SeedLen(reference, query, k, init[u]), before.len);
        }
      } else {
        ScanWitness(reference, query, k, init);
        if before.pos.Some? {
          var t :| 0 <= t < n && init[t] == before.pos.value
                   && SeedLen(reference, query, k, init[t]) == Some(before.len)
                   && forall u | 0 <= u < t :: Below(SeedLen(reference, query, k, init[u]), before.len);
          assert order[t] == init[t];
          assert forall u | 0 <= u < t :: order[u] == init[u];
        }
      }
    }
  }

  /**
    The scan keeps the strictly longest seed, the first one in visiting order
    among equally long ones, and finds nothing exactly when no visited offset is a seed.
  */
  lemma ScanFacts(reference: seq<Base>, query: seq<Base>, k: nat, order: seq<nat>)
    requires k >= 1
    ensures var best := Scan(reference, query, k, order);
      && (best.pos.None? <==> forall t | 0 <= t < |order| :: SeedLen(reference, query, k, order[t]).None?)
      && (best.pos.None? ==> best.len == 0)
      && (forall t | 0 <= t < |order| :: AtMost(SeedLen(reference, query, k, order[t]), best.len))
      && (best.pos.Some? ==>
            exists t :: 0 <= t < |order| && order[t] == best.pos.value
                        && SeedLen(reference, query, k, order[t]) == Some(best.len)
                        && forall u | 0 <= u < t :: Below(SeedLen(reference, query, k, order[u]), best.len))
  {
    ScanNoneIff(reference, query, k, order);
    ScanIsLongest(reference, query, k, order);
    ScanWitness(reference, query, k, order);
  }

  /**
    A reported match is a maximal exact match of the query's prefix at one of the
    offsets visited for this query, and it is at least k long.
  */
  lemma MaxMapPrefixIsExact(idx: Index, query: seq<Base>)
    requires idx.Valid() && idx.k <= |query|
    ensures match MaxMapPrefixOf(idx, query)
      case None => true
      case Some((pos, len)) =>
        && pos in Candidates(idx, query).value
        && idx.k <= len
        && ExactExtension(idx.reference, query, idx.k, pos, len)
  {
    if MaxMapPrefixOf(idx, query).Some? {
      var order := Candidates(idx, query).value;
      ScanFacts(idx.reference, query, idx.k, order);
      var best := Scan(idx.reference, query, idx.k, order);
      SeedLenMeaning(idx.reference, query, idx.k, best.pos.value, best.len);
    }
  }

  /**
    No visited offset gives a longer match than the one reported, and every
    offset visited before it gives a strictly shorter one (ties go to the first
    in scan order: intervals in bucket order, offsets ascending).
  */
  lemma MaxMapPrefixIsLongestFirst(idx: Index, query: seq<Base>)
    requires idx.Valid() && idx.k <= |query|
    ensures match MaxMapPrefixOf(idx, query)
      case None => true
      case Some((pos, len)) =>
        var order := Candidates(idx, query).value;
        && (forall t | 0 <= t < |order| :: AtMost(SeedLen(idx.reference, query, idx.k, order[t]), len))
        && exists t :: 0 <= t < |order| && order[t] == pos
             && forall u | 0 <= u < t :: Below(SeedLen(idx.reference, query, idx.k, order[u]), len)
  {
    if MaxMapPrefixOf(idx, query).Some? {
      ScanFacts(idx.reference, query, idx.k, Candidates(idx, query).value);
    }
  }

  /** No match exactly when the minimizer has no bucket or no visited offset is an exact seed. */
  lemma MaxMapPrefixNone(idx: Index, query: seq<Base>)
    requires idx.Valid() && idx.k <= |query|
    ensures MaxMapPrefixOf(idx, query).None? <==>
      (|| Candidates(idx, query).None?
       || forall t | 0 <= t < |Candidates(idx, query).value| ::
            SeedLen(idx.reference, query, idx.k, Candidates(idx, query).value[t]).None?)
  {
    if Candidates(idx, query).Some? {
      ScanFacts(idx.reference, query, idx.k, Candidates(idx, query).value);
    }
  }

  /**
    Every offset visited lies in one of the bucket's intervals, at most len - k
    past its start, so the k-mer read there stays inside the reference.
  */
  lemma {:induction false} VisitedOffsetsWithin(bucket: seq<Interval>, k: nat, n: nat)
    requires IntervalsWithin(bucket, k, n)
    ensures forall o | o in ScanOrder(bucket, k) ::
      o + k <= n && exists j :: 0 <= j < |bucket| && bucket[j].start <= o && o + k <= bucket[j].start + bucket[j].len
  {
    if bucket != [] {
      var init := bucket[..|bucket| - 1];
      assert IntervalsWithin(init, k, n) by {
        forall j | 0 <= j < |init| ensures k <= init[j].len && init[j].start + init[j].len <= n {
          assert init[j] == bucket[j];
        }
      }
      VisitedOffsetsWithin(init, k, n);
      forall o | o in ScanOrder(bucket, k)
        ensures exists j :: 0 <= j < |bucket| && bucket[j].start <= o && o + k <= bucket[j].start + bucket[j].len
      {
        if o in ScanOrder(init, k) {
          var j :| 0 <= j < |init| && init[j].start <= o && o + k <= init[j].start + init[j].len;
          assert bucket[j] == init[j];
        } else {
          assert o in WindowStarts(bucket[|bucket| - 1], k);
          WindowStartsMembers(bucket[|bucket| - 1], k);
        }
      }
    }
  }

  lemma {:induction false} ScanOrderContains(bucket: seq<Interval>, k: nat, j: nat, o: nat)
    requires j < |bucket| && o in WindowStarts(bucket[j], k)
    ensures o in ScanOrder(bucket, k)
  {
    var init := bucket[..|bucket| - 1];
    if j < |bucket| - 1 {
      assert init[j] == bucket[j];
      ScanOrderContains(init, k, j, o);
    }
  }

  // ---------------------------------------------------------------- index and matcher together

  predicate Covers(r: Msp, s: nat, k: nat)
  {
    r.start <= s && s + k <= r.start + r.len
  }

  /**
    What the scanner guarantees about its output over `reference`: every record
    holds a k-wide window inside the reference, and every window start of the
    reference is covered by a record whose minimizer is that window's minimizer
    (computed by the same minimizer definition the matcher uses).
  */
  predicate ScannerOutput(reference: seq<Base>, k: nat, p: nat, records: seq<Msp>)
  {
    && 1 <= p <= k
    && RecordsWithin(records, k, |reference|)
    && forall s: nat | s + k <= |reference| ::
         exists t :: 0 <= t < |records| && Covers(records[t], s, k)
                     && records[t].minimizer == MinimizerOf(KmerAt(reference, s, k), p)
  }

  /** A query whose first k bases occur at reference offset o visits o. */
  lemma CoveredWindowIsCandidate(reference: seq<Base>, k: nat, p: nat, records: seq<Msp>, query: seq<Base>, o: nat)
    requires ScannerOutput(reference, k, p, records)
    requires k <= |query| && o + k <= |reference| && KmerAt(reference, o, k) == query[..k]
    ensures Index(reference, k, p, Buckets(records)).Valid()
    ensures var idx := Index(reference, k, p, Buckets(records));
      Candidates(idx, query).Some? && o in Candidates(idx, query).value
  {
    NewIsValid(reference, k, p, records);
    var t :| 0 <= t < |records| && Covers(records[t], o, k)
             && records[t].minimizer == MinimizerOf(KmerAt(reference, o, k), p);
    var m := records[t].minimizer;
    RecordInBucket(records, t);
    var bucket := Buckets(records)[m];
    var j :| 0 <= j < |bucket| && bucket[j] == Interval(records[t].start, records[t].len);
    WindowStartsMembers(bucket[j], k);
    ScanOrderContains(bucket, k, j, o);
  }

  /**
    Every exact k-mer seed of the reference is found: when the index is built from
    the scanner's output and the query's first k bases occur anywhere in the
    reference, the matcher reports a maximal exact match of length at least k.
  */
  lemma FindsEverySeed(reference: seq<Base>, k: nat, p: nat, records: seq<Msp>, query: seq<Base>, o: nat)
    requires ScannerOutput(reference, k, p, records)
    requires k <= |query| && o + k <= |reference| && KmerAt(reference, o, k) == query[..k]
    ensures var idx := Index(reference, k, p, Buckets(records));
      && idx.Valid()
      && MaxMapPrefixOf(idx, query).Some?
      && k <= MaxMapPrefixOf(idx, query).value.1
      && ExactExtension(reference, query, k, MaxMapPrefixOf(idx, query).value.0, MaxMapPrefixOf(idx, query).value.1)
  {
    CoveredWindowIsCandidate(reference, k, p, records, query, o);
    var idx := Index(reference, k, p, Buckets(records));
    MaxMapPrefixNone(idx, query);
    var order := Candidates(idx, query).value;
    var t :| 0 <= t < |order| && order[t] == o;
    assert SeedLen(reference, query, k, order[t]).Some?;
    MaxMapPrefixIsExact(idx, query);
  }

  /** Querying the reference itself maps the whole reference at position 0. */
  lemma SelfQueryMapsWhole(reference: seq<Base>, k: nat, p: nat, records: seq<Msp>)
    requires ScannerOutput(reference, k, p, records)
    requires k <= |reference|
    ensures Index(reference, k, p, Buckets(records)).Valid()
    ensures MaxMapPrefixOf(Index(reference, k, p, Buckets(records)), reference) == Some((0, |reference|))
  {
    var idx := Index(reference, k, p, Buckets(records));
    FindsEverySeed(reference, k, p, records, reference, 0);
    CoveredWindowIsCandidate(reference, k, p, records, reference, 0);
    MaxMapPrefixIsLongestFirst(idx, reference);
    var order := Candidates(idx, reference).value;
    var t :| 0 <= t < |order| && order[t] == 0;
    assert reference[0..|reference|] == reference;
    SeedLenMeaning(reference, reference, k, 0, |reference|);
    assert AtMost(SeedLen(reference, reference, k, order[t]), MaxMapPrefixOf(idx, reference).value.1);
  }

  // ---------------------------------------------------------------- the lcp call as written

  /**
    The seed length as src/search.rs line 20 computes it: the reference after the
    seed is compared with the whole query rather than with the query after its
    first k bases.
  */
  function SeedLenAsWritten(reference: seq<Base>, query: seq<Base>, k: nat, o: nat): (r: Option<nat>)
    ensures r.Some? <==> SeedLen(reference, query, k, o).Some?
    ensures r.Some? ==> k <= r.value <= |reference| - o
  {
    if o + k <= |reference| && k <= |query| && KmerAt(reference, o, k) == query[..k]
    then
      NaiveLcpIsLcp(reference[o + k..], query);
      Some(k + NaiveLcp(reference[o + k..], query))
    else None
  }

  /**
    With k = 1, reference AA and query AC, the line as written reports a 2-base
    match at 0 although the query's first two bases do not occur there; the
    corrected seed length is 1.
  */
  lemma AsWrittenOverreports()
    ensures var reference: seq<Base> := [0, 0];
      var query: seq<Base> := [0, 1];
      && SeedLenAsWritten(reference, query, 1, 0) == Some(2)
      && !ExactExtension(reference, query, 1, 0, 2)
      && SeedLen(reference, query, 1, 0) == Some(1)
  {
    var reference: seq<Base> := [0, 0];
    var query: seq<Base> := [0, 1];
    assert reference[1..] == [0] && query[1..] == [1];
    assert NaiveLcp([0], [0, 1]) == 1 + NaiveLcp([], [1]);
    assert reference[0..2] != query[..2] by { assert reference[0..2][1] != query[..2][1]; }
  }
}
