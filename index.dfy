/**
  The minimizer index: the reference sequence and, for each minimizer p-mer, the
  list ("bucket") of reference intervals the scanner reported for it, in scan order.
*/
module SeedIndex {
  import opened Wrappers
  import opened Kmers

  type u16 = x: int | 0 <= x < 0x1_0000
  type u32 = x: int | 0 <= x < 0x1_0000_0000

  /**
    A run of reference bases [start, start + len) all of whose k-wide windows share
    one minimizer; its window starts are start .. start + len - k.
  */
  datatype Interval = Interval(start: u32, len: u16)

  /** One record of the scanner's output: a minimizer and the interval it covers. */
  datatype Msp = Msp(minimizer: Kmer, start: u32, len: u16)

  /**
    The index value. `k` is the seed width and `p` the minimizer width (the width of
    the type parameter P in the source); `buckets` is the minimizer-to-bucket hash map (the source's `map` field).
  */
  datatype Index = Index(reference: seq<Base>, k: nat, p: nat, buckets: map<Kmer, seq<Interval>>)
  {
    /** The seed width; positive in a valid index. */
    function K(): (r: nat)
      ensures r == k
      ensures Valid() ==> r >= 1
    {
      k
    }

    /** The reference; in a valid index every stored interval lies inside it. */
    function Reference(): (r: seq<Base>)
      ensures r == reference
      ensures Valid() ==> forall m | m in buckets :: IntervalsWithin(buckets[m], k, |r|)
    {
      reference
    }

    /** The bucket for minimizer m, if m was seen by the scanner. */
    function Get(m: Kmer): (r: Option<seq<Interval>>)
      ensures r.Some? <==> m in buckets
      ensures r.Some? ==> r.value == buckets[m]
    {
      if m in buckets then Some(buckets[m]) else None
    }

    /**
      What the matcher relies on: both widths are positive and ordered, and every
      stored interval holds at least one k-wide window inside the reference.
    */
    predicate Valid()
    {
      && 1 <= p <= k
      && forall m | m in buckets :: IntervalsWithin(buckets[m], k, |reference|)
    }
  }

  predicate IntervalsWithin(bucket: seq<Interval>, k: nat, n: nat)
  {
    forall j | 0 <= j < |bucket| :: k <= bucket[j].len && bucket[j].start + bucket[j].len <= n
  }

  /** Interval::new: the interval holding exactly the given start and length. */
  function NewInterval(start: u32, len: u16): (iv: Interval)
    ensures iv.start == start && iv.len == len
  {
    Interval(start, len)
  }

  /** The buckets after pushing every scanner record, in order, onto its minimizer's bucket. */
  function Buckets(records: seq<Msp>): map<Kmer, seq<Interval>>
  {
    if records == [] then map[]
    else
      var b := Buckets(records[..|records| - 1]);
      var r := records[|records| - 1];
      b[r.minimizer := (if r.minimizer in b then b[r.minimizer] else []) + [NewInterval(r.start, r.len)]]
  }

  /** The intervals of the records whose minimizer is m, in scanner order. */
  function RecordsOf(records: seq<Msp>, m: Kmer): seq<Interval>
  {
    if records == [] then []
    else
      var r := records[|records| - 1];
      RecordsOf(records[..|records| - 1], m) + (if r.minimizer == m then [Interval(r.start, r.len)] else [])
  }

  function Minimizers(records: seq<Msp>): set<Kmer>
  {
    set t | 0 <= t < |records| :: records[t].minimizer
  }

  /**
    Index::new. The packed reference is taken as given, and `records` stands for
    the scanner's output over it; each record is pushed onto the bucket of its
    minimizer, creating the bucket on first use.
  */
  method New(reference: seq<Base>, k: nat, p: nat, records: seq<Msp>) returns (idx: Index)
    ensures idx.reference == reference && idx.k == k && idx.p == p
    ensures idx.buckets == Buckets(records)
    ensures records == [] ==> idx.buckets == map[]
  {
    var m: map<Kmer, seq<Interval>> := map[];
    for t := 0 to |records|
      invariant m == Buckets(records[..t])
    {
      var r := records[t];
      assert records[..t + 1][..t] == records[..t];
      var bucket := if r.minimizer in m then m[r.minimizer] else [];
      m := m[r.minimizer := bucket + [NewInterval(r.start, r.len)]];
    }
    assert records[..|records|] == records;
    idx := Index(reference, k, p, m);
  }

  /**
    The buckets are exactly the per-minimizer filters of the scanner output: the
    keys are the minimizers seen, no bucket is empty, and each bucket lists its
    records' intervals in scanner order.
  */
  lemma {:induction false} BucketsAreFilters(records: seq<Msp>)
    ensures Buckets(records).Keys == Minimizers(records)
    ensures forall m | m in Buckets(records) :: Buckets(records)[m] == RecordsOf(records, m) && |Buckets(records)[m]| > 0
  {
    if records != [] {
      var init := records[..|records| - 1];
      var r := records[|records| - 1];
      BucketsAreFilters(init);
      assert Minimizers(records) == Minimizers(init) + {r.minimizer} by {
        forall x | x in Minimizers(records) ensures x in Minimizers(init) + {r.minimizer} {
          var t :| 0 <= t < |records| && records[t].minimizer == x;
          if t < |records| - 1 { assert init[t] == records[t]; }
        }
        forall x | x in Minimizers(init) ensures x in Minimizers(records) {
          var t :| 0 <= t < |init| && init[t].minimizer == x;
          assert records[t] == init[t];
        }
      }
      forall m | m in Buckets(records)
        ensures Buckets(records)[m] == RecordsOf(records, m)
      {
        if m !in Buckets(init) {
          RecordsOfAbsent(init, m);
        }
      }
    }
  }

  /** A minimizer that no record carries has no intervals. */
  lemma {:induction false} RecordsOfAbsent(records: seq<Msp>, m: Kmer)
    requires m !in Minimizers(records)
    ensures RecordsOf(records, m) == []
  {
    if records != [] {
      var init := records[..|records| - 1];
      assert records[|records| - 1].minimizer in Minimizers(records);
      assert Minimizers(init) <= Minimizers(records) by {
        forall x | x in Minimizers(init) ensures x in Minimizers(records) {
          var t :| 0 <= t < |init| && init[t].minimizer == x;
          assert records[t] == init[t];
        }
      }
      RecordsOfAbsent(init, m);
    }
  }

  /** Every scanner record's interval is in the bucket of its minimizer. */
  lemma {:induction false} RecordInBucket(records: seq<Msp>, t: nat)
    requires t < |records|
    ensures records[t].minimizer in Buckets(records)
    ensures Interval(records[t].start, records[t].len) in Buckets(records)[records[t].minimizer]
  {
    RecordInFilter(records, t);
    BucketsAreFilters(records);
    assert records[t].minimizer in Minimizers(records);
  }

  lemma {:induction false} RecordInFilter(records: seq<Msp>, t: nat)
    requires t < |records|
    ensures Interval(records[t].start, records[t].len) in RecordsOf(records, records[t].minimizer)
  {
    var init := records[..|records| - 1];
    if t < |records| - 1 {
      assert init[t] == records[t];
      RecordInFilter(init, t);
    }
  }

  /** Sum of bucket sizes over a set of keys. */
  ghost function SumSizes(buckets: map<Kmer, seq<Interval>>, keys: set<Kmer>): nat
    requires keys <= buckets.Keys
    decreases keys
  {
    if keys == {} then 0
    else
      var m :| m in keys;
      |buckets[m]| + SumSizes(buckets, keys - {m})
  }

  lemma {:induction false} SumSizesPick(buckets: map<Kmer, seq<Interval>>, keys: set<Kmer>, y: Kmer)
    requires keys <= buckets.Keys && y in keys
    ensures SumSizes(buckets, keys) == |buckets[y]| + SumSizes(buckets, keys - {y})
    decreases keys
  {
    var m :| m in keys && SumSizes(buckets, keys) == |buckets[m]| + SumSizes(buckets, keys - {m});
    if m != y {
      SumSizesPick(buckets, keys - {m}, y);
      SumSizesPick(buckets, keys - {y}, m);
      assert keys - {m} - {y} == keys - {y} - {m};
    }
  }

  lemma {:induction false} SumSizesFrame(b1: map<Kmer, seq<Interval>>, b2: map<Kmer, seq<Interval>>, keys: set<Kmer>)
    requires keys <= b1.Keys && keys <= b2.Keys
    requires forall m | m in keys :: |b1[m]| == |b2[m]|
    ensures SumSizes(b1, keys) == SumSizes(b2, keys)
    decreases keys
  {
    if keys != {} {
      var m :| m in keys && SumSizes(b1, keys) == |b1[m]| + SumSizes(b1, keys - {m});
      SumSizesPick(b2, keys, m);
      SumSizesFrame(b1, b2, keys - {m});
    }
  }

  /** No interval is lost or duplicated: the buckets together hold one interval per scanner record. */
  lemma {:induction false} BucketsTotal(records: seq<Msp>)
    ensures SumSizes(Buckets(records), Buckets(records).Keys) == |records|
  {
    if records != [] {
      var init := records[..|records| - 1];
      var m0 := records[|records| - 1].minimizer;
      var b, b' := Buckets(init), Buckets(records);
      BucketsTotal(init);
      SumSizesPick(b', b'.Keys, m0);
      if m0 in b {
        assert b'.Keys - {m0} == b.Keys - {m0};
        SumSizesFrame(b', b, b.Keys - {m0});
        SumSizesPick(b, b.Keys, m0);
      } else {
        assert b'.Keys - {m0} == b.Keys;
        SumSizesFrame(b', b, b.Keys);
      }
    }
  }

  /** The scanner's guarantee that each record holds a window inside the reference. */
  predicate RecordsWithin(records: seq<Msp>, k: nat, n: nat)
  {
    forall t | 0 <= t < |records| :: k <= records[t].len && records[t].start + records[t].len <= n
  }

  /** An index built from in-bounds scanner records is a valid index. */
  lemma {:induction false} NewIsValid(reference: seq<Base>, k: nat, p: nat, records: seq<Msp>)
    requires 1 <= p <= k
    requires RecordsWithin(records, k, |reference|)
    ensures Index(reference, k, p, Buckets(records)).Valid()
  {
    if records != [] {
      var init := records[..|records| - 1];
      var r := records[|records| - 1];
      assert RecordsWithin(init, k, |reference|) by {
        forall t | 0 <= t < |init| ensures k <= init[t].len && init[t].start + init[t].len <= |reference| {
          assert init[t] == records[t];
        }
      }
      NewIsValid(reference, k, p, init);
      var b := Buckets(init);
      var old_ := if r.minimizer in b then b[r.minimizer] else [];
      assert IntervalsWithin(old_, k, |reference|);
      assert IntervalsWithin(old_ + [NewInterval(r.start, r.len)], k, |reference|);
    }
  }
}
