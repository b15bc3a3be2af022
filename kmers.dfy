/** Optional values, as returned by the index lookup and by the matcher. */
module Wrappers {

  datatype Option<+T> = None | Some(value: T)
}

/**
  Nucleotides and fixed-width k-mers.

  A base is one of A, C, G, T, encoded as 0..3 (2 bits each). A k-mer of width w
  is a sequence of w bases. The packed-integer view `Pack` puts the first base in
  the most significant position; comparing k-mers compares their packed values.
*/
module Kmers {

  /** One nucleotide: A = 0, C = 1, G = 2, T = 3. */
  type Base = b: int | 0 <= b < 4

  type Kmer = seq<Base>

  function Pow4(n: nat): (r: nat)
    ensures r >= 1
  {
    if n == 0 then 1 else 4 * Pow4(n - 1)
  }

  /** The w-wide k-mer of `s` starting at offset i (`get_kmer::<W>(i)`). */
  function KmerAt(s: seq<Base>, i: nat, w: nat): (km: Kmer)
    requires i + w <= |s|
    ensures |km| == w
    ensures forall j | 0 <= j < w :: km[j] == s[i + j]
  {
    s[i..i + w]
  }

  /** Shift base `b` in on the right and drop the leftmost base (`extend_right`). */
  function ExtendRight(km: Kmer, b: Base): (r: Kmer)
    requires |km| >= 1
    ensures |r| == |km| && r[|r| - 1] == b
    ensures forall j | 0 <= j < |km| - 1 :: r[j] == km[j + 1]
  {
    km[1..] + [b]
  }

  /** The packed integer value of a k-mer, two bits per base, first base most significant. */
  function Pack(km: Kmer): nat
  {
    if |km| == 0 then 0 else Pack(km[..|km| - 1]) * 4 + km[|km| - 1]
  }

  /** Rolling a window one step to the right gives the window at the next offset. */
  lemma RollKmer(s: seq<Base>, i: nat, w: nat)
    requires w >= 1 && i + w < |s|
    ensures ExtendRight(KmerAt(s, i, w), s[i + w]) == KmerAt(s, i + 1, w)
  {
  }

  /** A packed k-mer of width w fits in 2w bits. */
  lemma {:induction false} PackBound(km: Kmer)
    ensures Pack(km) < Pow4(|km|)
  {
    if |km| > 0 {
      PackBound(km[..|km| - 1]);
    }
  }

  /** Appending a base on the right multiplies the packed value by four and adds the base. */
  lemma PackSnoc(km: Kmer, b: Base)
    ensures Pack(km + [b]) == Pack(km) * 4 + b
  {
    assert (km + [b])[..|km|] == km;
  }

  /** (h * q + l) * 4 + b regrouped around the weight 4 * q. */
  lemma ShiftRegroup(h: nat, q: nat, l: nat, b: nat)
    ensures (h * q + l) * 4 + b == h * (4 * q) + (l * 4 + b)
  {
  }

  /** The first base of a w-wide k-mer carries the weight 4^(w-1). */
  lemma {:induction false} PackCons(km: Kmer)
    requires |km| >= 1
    ensures Pack(km) == km[0] * Pow4(|km| - 1) + Pack(km[1..])
  {
    var n := |km|;
    if n == 1 {
      assert km[..0] == [] && km[1..] == [];
    } else {
      var init := km[..n - 1];
      PackCons(init);
      assert init[0] == km[0];
      assert init[1..] == km[1..][..n - 2];
      ShiftRegroup(km[0], Pow4(n - 2), Pack(init[1..]), km[n - 1]);
    }
  }

  /**
    `extend_right` on the packed representation of a w-wide k-mer: shifting the
    packed value left by one base and adding b gives the dropped first base,
    weighted 4^w, plus the packed rolled k-mer, which is below 4^w. So the rolled
    k-mer is the low 2w bits of the shifted value, and the first base the bits above.
  */
  lemma ExtendRightPacked(km: Kmer, b: Base)
    requires |km| >= 1
    ensures Pack(km) * 4 + b == km[0] * Pow4(|km|) + Pack(ExtendRight(km, b))
    ensures Pack(ExtendRight(km, b)) < Pow4(|km|)
  {
    PackCons(km);
    PackSnoc(km[1..], b);
    ShiftRegroup(km[0], Pow4(|km| - 1), Pack(km[1..]), b);
    PackBound(ExtendRight(km, b));
  }

  lemma MulMonotone(x: nat, y: nat, q: nat)
    requires x <= y
    ensures x * q <= y * q
  {
    assert y * q == x * q + (y - x) * q;
  }

  /** A smaller first base gives a smaller packed value, whatever follows. */
  lemma PackHeadDominates(a: Kmer, b: Kmer)
    requires |a| == |b| >= 1 && a[0] < b[0]
    ensures Pack(a) < Pack(b)
  {
    var q := Pow4(|a| - 1);
    PackBound(a[1..]);
    PackCons(a);
    PackCons(b);
    MulMonotone(a[0] + 1, b[0], q);
    assert (a[0] + 1) * q == a[0] * q + q;
  }

  /** `a` comes before `b` in dictionary order (a first differing base is smaller in `a`). */
  ghost predicate LexLess(a: Kmer, b: Kmer)
  {
    exists i :: 0 <= i < |a| && i < |b| && a[..i] == b[..i] && a[i] < b[i]
  }

  /** A smaller first base comes first in dictionary order; a larger one does not. */
  lemma LexHead(a: Kmer, b: Kmer)
    requires |a| == |b| >= 1 && a[0] != b[0]
    ensures LexLess(a, b) <==> a[0] < b[0]
  {
    assert a[..0] == b[..0];
    forall i | 0 < i < |a|
      ensures a[..i] != b[..i]
    {
      assert a[..i][0] != b[..i][0];
    }
  }

  /** Under a common first base, dictionary order is decided by the rest. */
  lemma LexTail(a: Kmer, b: Kmer)
    requires |a| == |b| >= 1 && a[0] == b[0]
    ensures LexLess(a, b) <==> LexLess(a[1..], b[1..])
  {
    if LexLess(a[1..], b[1..]) {
      var i :| 0 <= i < |a| - 1 && a[1..][..i] == b[1..][..i] && a[1..][i] < b[1..][i];
      assert a[..i + 1] == [a[0]] + a[1..][..i];
      assert b[..i + 1] == [b[0]] + b[1..][..i];
      assert a[i + 1] < b[i + 1];
    }
    if LexLess(a, b) {
      var i :| 0 <= i < |a| && a[..i] == b[..i] && a[i] < b[i];
      assert i > 0;
      assert a[1..][..i - 1] == a[..i][1..];
      assert b[1..][..i - 1] == b[..i][1..];
      assert a[1..][i - 1] < b[1..][i - 1];
    }
  }

  /** For k-mers of one width, the packed order is dictionary order on the bases. */
  lemma {:induction false} PackOrderIsLexicographic(a: Kmer, b: Kmer)
    requires |a| == |b|
    ensures Pack(a) < Pack(b) <==> LexLess(a, b)
  {
    if |a| > 0 {
      if a[0] < b[0] {
        PackHeadDominates(a, b);
        LexHead(a, b);
      } else if a[0] > b[0] {
        PackHeadDominates(b, a);
        LexHead(a, b);
      } else {
        PackCons(a);
        PackCons(b);
        PackOrderIsLexicographic(a[1..], b[1..]);
        LexTail(a, b);
      }
    }
  }
}
