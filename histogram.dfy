/**
 * Binned histograms of the reference simulator's statistics: a fixed array of
 * bin counters plus the running maximum and sum of the samples.  The
 * power-of-two histogram puts a sample into bin ⌊log2 sample⌋ + 1 (bin 0 for
 * 0); the linear histogram into `sample / stride`, clamped to the last bin.
 */
module Histogram {
  import opened Wrappers
  import opened Arith

  lemma {:induction false} Pow2Add(a: nat, b: nat)
    ensures Pow2(a + b) == Pow2(a) * Pow2(b)
  {
    if b > 0 {
      Pow2Add(a, b - 1);
      assert Pow2(a + b) == 2 * Pow2(a + b - 1);
    }
  }

  /** Bitwise OR of two non-negative integers, bit by bit. */
  function BitOr(a: nat, b: nat): nat
  {
    if a == 0 then b
    else if b == 0 then a
    else 2 * BitOr(a / 2, b / 2) + (if a % 2 == 1 || b % 2 == 1 then 1 else 0)
  }

  /** OR of a multiple of 2^n and a value below 2^n is their sum: the bit
      fields the `add2bin` bit trick ORs together never overlap. */
  lemma {:induction false} BitOrDisjoint(q: nat, b: nat, n: nat)
    requires b < Pow2(n)
    ensures BitOr(Pow2(n) * q, b) == Pow2(n) * q + b
  {
    var a := Pow2(n) * q;
    if a != 0 && b != 0 {
      assert n > 0;
      var h := Pow2(n - 1) * q;
      assert a == 2 * h;
      assert a / 2 == h && a % 2 == 0;
      BitOrDisjoint(q, b / 2, n - 1);
      assert BitOr(a, b) == 2 * BitOr(h, b / 2) + (if b % 2 == 1 then 1 else 0);
    }
  }

  /** The specification of the power-of-two bin: 0 for 0, and for a positive
      sample the `k + 1` with 2^k ≤ sample < 2^(k+1). */
  ghost predicate IsPow2Bin(sample: nat, bin: nat)
  {
    if sample == 0 then bin == 0
    else bin >= 1 && Pow2(bin - 1) <= sample < Pow2(bin)
  }

  lemma SmallPowers()
    ensures Pow2(1) == 2 && Pow2(2) == 4 && Pow2(3) == 8 && Pow2(4) == 16
    ensures Pow2(0) == 1 && Pow2(5) == 32 && Pow2(8) == 0x100 && Pow2(16) == 0x10000
    ensures Pow2(31) == 0x8000_0000 && Pow2(32) == 0x1_0000_0000
  {
    assert Pow2(1) == 2;
    assert Pow2(2) == 4;
    assert Pow2(3) == 8;
    assert Pow2(4) == 16;
    assert Pow2(5) == 32;
    assert Pow2(6) == 64;
    assert Pow2(7) == 128;
    assert Pow2(8) == 256;
    assert Pow2(9) == 512;
    assert Pow2(10) == 1024;
    assert Pow2(11) == 2048;
    assert Pow2(12) == 4096;
    assert Pow2(13) == 8192;
    assert Pow2(14) == 16384;
    assert Pow2(15) == 32768;
    assert Pow2(16) == 65536;
    Pow2Add(16, 15);
    Pow2Add(16, 16);
  }

  lemma MulMonotone(a: nat, b: nat, c: nat)
    requires b <= c
    ensures a * b <= a * c
  {
  }

  lemma DivBracket(v: nat, p: nat)
    requires p >= 1
    ensures p * (v / p) <= v < p * (v / p + 1)
  {
    var w, r := v / p, v % p;
    assert v == p * w + r;
    assert p * (w + 1) == p * w + p;
  }

  /** A right shift by `s` keeps the bracket `2^bin·v ≤ sample < 2^bin·(v+1)`,
      with the shift amount added to the exponent. */
  lemma ShiftStep(sample: nat, bin: nat, v: nat, s: nat)
    requires Pow2(bin) * v <= sample < Pow2(bin) * (v + 1)
    ensures Pow2(bin + s) * (v / Pow2(s)) <= sample < Pow2(bin + s) * (v / Pow2(s) + 1)
  {
    Pow2Add(bin, s);
    ShiftCore(sample, Pow2(bin), Pow2(s), v);
  }

  lemma ShiftCore(sample: nat, pb: nat, p: nat, v: nat)
    requires pb >= 1 && p >= 1
    requires pb * v <= sample < pb * (v + 1)
    ensures (pb * p) * (v / p) <= sample < (pb * p) * (v / p + 1)
  {
    var w := v / p;
    DivBracket(v, p);
    var q := pb * p;
    calc {
      q * w;
    == { MulAssoc(pb, p, w); }
      pb * (p * w);
    <= { MulMonotone(pb, p * w, v); }
      pb * v;
    }
    calc {
      pb * (v + 1);
    <= { MulMonotone(pb, v + 1, p * (w + 1)); }
      pb * (p * (w + 1));
    == { MulAssoc(pb, p, w + 1); }
      q * (w + 1);
    }
  }

  lemma MulAssoc(a: nat, b: nat, c: nat)
    ensures (a * b) * c == a * (b * c)
  {
  }

  /** The last step: the remaining value is 1, 2 or 3 and its upper bit completes
      the exponent. */
  lemma FinalStep(sample: nat, base: nat, v: nat)
    requires 1 <= v <= 3 && Pow2(base) * v <= sample < Pow2(base) * (v + 1)
    ensures IsPow2Bin(sample, base + v / 2 + 1)
  {
    var pb := Pow2(base);
    assert Pow2(base + 1) == 2 * pb;
    assert Pow2(base + 2) == 2 * Pow2(base + 1);
    if v == 1 {
      assert pb * 1 == pb && pb * 2 == 2 * pb;
      assert IsPow2Bin(sample, base + 1);
    } else if v == 2 {
      assert pb * 2 == 2 * pb && pb * 3 == 3 * pb;
      assert IsPow2Bin(sample, base + 2);
    } else {
      assert pb * 3 == 3 * pb && pb * 4 == 4 * pb;
      assert IsPow2Bin(sample, base + 2);
    }
  }

  /** `2^bin·v ≤ sample < 2^bin·(v+1)`: `v` is `sample` shifted right by `bin`. */
  ghost predicate Bracket(sample: nat, bin: nat, v: nat)
  {
    Pow2(bin) * v <= sample < Pow2(bin) * (v + 1)
  }

  /** ORing a shift amount below 2^n into a bin that is a multiple of 2^n adds it. */
  lemma OrAdds(bin: nat, sh: nat, n: nat)
    requires bin % Pow2(n) == 0 && sh < Pow2(n)
    ensures BitOr(bin, sh) == bin + sh
  {
    var q := bin / Pow2(n);
    assert bin == Pow2(n) * q;
    BitOrDisjoint(q, sh, n);
  }

  /** A value below 2^(2t) shifted right by t is below 2^t. */
  lemma HalfWidth(v: nat, t: nat)
    requires v < Pow2(2 * t)
    ensures v / Pow2(t) < Pow2(t)
  {
    var p := Pow2(t);
    Pow2Add(t, t);
    DivBracket(v, p);
    if v / p >= p {
      MulMonotone(p, p, v / p);
    }
  }

  /** One step of the bit trick: shift right by `t` when the value has more than
      `t` significant bits, and OR the shift amount into the bin. */
  lemma Stage(sample: nat, bin: nat, v: nat, t: nat, n: nat)
    requires Bracket(sample, bin, v) && Pow2(n) == 2 * t && bin % Pow2(n) == 0
    requires v < Pow2(2 * t)
    ensures var sh := if v >= Pow2(t) then t else 0;
      BitOr(bin, sh) == bin + sh && Bracket(sample, bin + sh, v / Pow2(sh)) && v / Pow2(sh) < Pow2(t)
      && (v >= 1 <==> v / Pow2(sh) >= 1)
  {
    if v >= Pow2(t) {
      StageShift(sample, bin, v, t, n);
    } else {
      ShiftStep(sample, bin, v, 0);
      OrAdds(bin, 0, n);
      assert v / Pow2(0) == v;
    }
  }

  /** `Stage` when the value has more than `t` significant bits. */
  lemma StageShift(sample: nat, bin: nat, v: nat, t: nat, n: nat)
    requires Bracket(sample, bin, v) && Pow2(n) == 2 * t && bin % Pow2(n) == 0
    requires Pow2(t) <= v < Pow2(2 * t)
    ensures BitOr(bin, t) == bin + t && Bracket(sample, bin + t, v / Pow2(t))
    ensures 1 <= v / Pow2(t) < Pow2(t)
  {
    ShiftStep(sample, bin, v, t);
    OrAdds(bin, t, n);
    HalfWidth(v, t);
    DivAtLeastOne(v, Pow2(t));
  }

  /** A value at least the divisor has a quotient of at least one. */
  lemma DivAtLeastOne(v: nat, p: nat)
    requires 1 <= p <= v
    ensures v / p >= 1
  {
    var q, r := (v - p) / p, (v - p) % p;
    assert v - p == q * p + r;
    assert (q + 1) * p == q * p + p;
    Arith.ModUnique(v, p, q + 1, r);
  }

  /** One line of the bit trick, `shift = (v > 2^t - 1) << k; v >>= shift;
      bin |= shift;` with `t = 2^k`. */
  method ShiftStage(ghost sample: nat, bin: nat, v: nat, t: nat, ghost n: nat) returns (bin': nat, v': nat)
    requires Bracket(sample, bin, v) && Pow2(n) == 2 * t && bin % Pow2(n) == 0
    requires v < Pow2(2 * t) && (sample >= 1 <==> v >= 1)
    ensures bin' == bin + (if v >= Pow2(t) then t else 0)
    ensures sample == 0 ==> bin' == bin
    ensures Bracket(sample, bin', v') && v' < Pow2(t) && (sample >= 1 <==> v' >= 1)
    ensures bin' % t == 0
  {
    var shift := if v >= Pow2(t) then t else 0;
    Stage(sample, bin, v, t, n);
    HalfMod(bin, t);
    v' := v / Pow2(shift);
    bin' := BitOr(bin, shift);
  }

  /** A multiple of `2t` is a multiple of `t`, and so is the next multiple
      of `t`. */
  lemma HalfMod(bin: nat, t: nat)
    requires t >= 1 && bin % (2 * t) == 0
    ensures bin % t == 0 && (bin + t) % t == 0
  {
    var q := bin / (2 * t);
    assert bin == q * (2 * t);
    assert bin == (2 * q) * t;
    Arith.ModUnique(bin, t, 2 * q, 0);
    Arith.ModUnique(bin + t, t, 2 * q + 1, 0);
  }

  /** The bin number of `pow2_histogram::add2bin`, computed like the source:
      four conditional right shifts by 16, 8, 4 and 2 whose amounts are ORed
      into the bin, then the last bit, then one more for a non-zero sample.
      `int` samples are below 2^31. */
  method Pow2Bin(sample: nat) returns (bin: nat)
    requires sample < 0x8000_0000
    ensures IsPow2Bin(sample, bin)
    ensures bin <= 31
  {
    SmallPowers();
    var v := sample;
    bin := 0;
    assert Bracket(sample, bin, v);
    bin, v := ShiftStage(sample, bin, v, 16, 5);
    bin, v := ShiftStage(sample, bin, v, 8, 4);
    bin, v := ShiftStage(sample, bin, v, 4, 3);
    bin, v := ShiftStage(sample, bin, v, 2, 2);
    // the last step ORs in the remaining high bit and adds one for a nonzero sample
    LastBit(sample, bin, v);
    var last := BitOr(bin, v / 2);
    bin := last + if sample > 0 then 1 else 0;
  }

  /** The last line of the bit trick completes the specification. */
  lemma LastBit(sample: nat, base: nat, v: nat)
    requires sample < 0x8000_0000 && Bracket(sample, base, v) && v < 4
    requires base % 2 == 0 && (sample >= 1 <==> v >= 1) && (sample == 0 ==> base == 0)
    ensures var bin := BitOr(base, v / 2) + (if sample > 0 then 1 else 0);
      IsPow2Bin(sample, bin) && bin <= 31
  {
    SmallPowers();
    OrAdds(base, v / 2, 1);
    if sample > 0 {
      FinalStep(sample, base, v);
      Pow2BinBound(sample, base + v / 2 + 1);
    }
  }

  /** The bin of `linear_histogram::add2bin`: `sample / stride`, clamped to the
      last bin. */
  function LinearBin(sample: nat, stride: nat, nbins: nat): (bin: nat)
    requires stride > 0 && nbins > 0
    ensures bin < nbins
  {
    if sample / stride >= nbins then nbins - 1 else sample / stride
  }

  /** The linear bin holds the samples of its stride; the last bin also
      every larger sample. */
  lemma LinearBinBracket(sample: nat, stride: nat, nbins: nat)
    requires stride > 0 && nbins > 0
    ensures var bin := LinearBin(sample, stride, nbins);
      && (bin == nbins - 1 || stride * bin <= sample < stride * (bin + 1))
      && (bin == nbins - 1 ==> sample >= stride * (nbins - 1))
  {
    var q := sample / stride;
    DivBracket(sample, stride);
    if q >= nbins {
      MulMonotone(stride, nbins - 1, q);
    }
  }

  function Sum(s: seq<int>): int
  {
    if s == [] then 0 else s[0] + Sum(s[1..])
  }

  /** Incrementing one counter raises the total number of samples by exactly one. */
  lemma {:induction false} SumIncrement(s: seq<int>, i: nat)
    requires i < |s|
    ensures Sum(s[i := s[i] + 1]) == Sum(s) + 1
  {
    if i > 0 {
      assert s[i := s[i] + 1][1..] == s[1..][i - 1 := s[1..][i - 1] + 1];
      SumIncrement(s[1..], i - 1);
    }
  }

  lemma {:induction false} SumZeros(s: seq<int>)
    requires forall i :: 0 <= i < |s| ==> s[i] == 0
    ensures Sum(s) == 0
  {
    if s != [] {
      SumZeros(s[1..]);
    }
  }

  /** Which `add2bin` the histogram runs: the base class only asserts. */
  datatype Binning = Base | PowerOfTwo | Linear(stride: nat)

  class BinnedHistogram {
    const name: string
    const kind: Binning
    /** `m_bins`: optional bin boundaries, kept but never used for binning. */
    var bins: Option<seq<int>>
    /** `m_bin_cnts`, `m_nbins` is its length. */
    var binCnts: array<int>
    var maximum: int
    var sum: int

    ghost predicate Valid()
      reads this
    {
      kind.Linear? ==> kind.stride > 0
    }

    /** The constructor: `nbins` counters, reset to 0; maximum and sum 0. */
    constructor (name: string, kind: Binning, nbins: nat, bins: Option<seq<int>>)
      requires kind.Linear? ==> kind.stride > 0
      requires bins.Some? ==> |bins.value| >= nbins
      ensures Valid() && fresh(binCnts)
      ensures this.name == name && this.kind == kind
      ensures binCnts.Length == nbins && forall i :: 0 <= i < nbins ==> binCnts[i] == 0
      ensures maximum == 0 && sum == 0
      ensures this.bins == if bins.Some? then Some(bins.value[..nbins]) else None
    {
      this.name := name;
      this.kind := kind;
      this.binCnts := new int[nbins];
      this.maximum := 0;
      this.sum := 0;
      this.bins := if bins.Some? then Some(bins.value[..nbins]) else None;
      new;
      ResetBins();
    }

    /** The copy constructor: copies the bin counters, but not the bin
        boundaries, and starts maximum and sum again from 0. */
    constructor Copy(other: BinnedHistogram)
      requires other.Valid()
      ensures Valid() && fresh(binCnts)
      ensures name == other.name && kind == other.kind
      ensures binCnts[..] == other.binCnts[..]
      ensures maximum == 0 && sum == 0 && bins == None
    {
      name := other.name;
      kind := other.kind;
      maximum := 0;
      sum := 0;
      bins := None;
      var n := other.binCnts.Length;
      var cnts := new int[n];
      var i := 0;
      while i < n
        invariant 0 <= i <= n
        invariant forall k :: 0 <= k < i ==> cnts[k] == other.binCnts[k]
      {
        cnts[i] := other.binCnts[i];
        i := i + 1;
      }
      binCnts := cnts;
    }

    /** `reset_bins`: every counter becomes 0. */
    method ResetBins()
      modifies binCnts
      ensures forall i :: 0 <= i < binCnts.Length ==> binCnts[i] == 0
    {
      var i := 0;
      while i < binCnts.Length
        invariant 0 <= i <= binCnts.Length
        invariant forall k :: 0 <= k < i ==> binCnts[k] == 0
      {
        binCnts[i] := 0;
        i := i + 1;
      }
    }

    /** `add2bin` of the power-of-two and linear histograms.  The sample must be
        a non-negative `int`; the base class's `add2bin` asserts, so it is never
        called.  The power-of-two bin is not checked against the number of
        bins, so the caller must keep samples small enough. */
    method AddToBin(sample: nat) returns (ghost bin: nat)
      requires Valid() && !kind.Base? && sample < 0x8000_0000
      requires kind.PowerOfTwo? ==> exists b: nat :: IsPow2Bin(sample, b) && b < binCnts.Length
      requires kind.Linear? ==> binCnts.Length > 0
      modifies this, binCnts
      ensures Valid() && binCnts == old(binCnts) && bins == old(bins)
      ensures bin < binCnts.Length && binCnts[..] == old(binCnts[..])[bin := old(binCnts[bin]) + 1]
      ensures kind.PowerOfTwo? ==> IsPow2Bin(sample, bin)
      ensures kind.Linear? ==> bin == LinearBin(sample, kind.stride, binCnts.Length)
      ensures maximum == if sample > old(maximum) then sample else old(maximum)
      ensures sum == old(sum) + sample
      ensures Sum(binCnts[..]) == Sum(old(binCnts[..])) + 1
    {
      var b: nat;
      if kind.PowerOfTwo? {
        b := Pow2Bin(sample);
        ghost var w: nat :| IsPow2Bin(sample, w) && w < binCnts.Length;
        Pow2BinUnique(sample, b, w);
      } else {
        b := LinearBin(sample, kind.stride, binCnts.Length);
      }
      SumIncrement(binCnts[..], b);
      binCnts[b] := binCnts[b] + 1;
      maximum := if sample > maximum then sample else maximum;
      sum := sum + sample;
      bin := b;
    }
  }

  /** A sample below 2^31 lands in one of the first 32 bins. */
  lemma Pow2BinBound(sample: nat, bin: nat)
    requires sample < 0x8000_0000 && IsPow2Bin(sample, bin)
    ensures bin <= 31
  {
    SmallPowers();
    if sample > 0 && bin > 31 {
      Pow2Monotone(31, bin - 1);
    }
  }

  /** The power-of-two bin is unique. */
  lemma Pow2BinUnique(sample: nat, a: nat, b: nat)
    requires IsPow2Bin(sample, a) && IsPow2Bin(sample, b)
    ensures a == b
  {
    if sample > 0 && a != b {
      if a < b {
        Pow2Monotone(a, b - 1);
      } else {
        Pow2Monotone(b, a - 1);
      }
    }
  }

  lemma {:induction false} Pow2Monotone(a: nat, b: nat)
    requires a <= b
    ensures Pow2(a) <= Pow2(b)
  {
    if a < b {
      Pow2Monotone(a, b - 1);
    }
  }
}
