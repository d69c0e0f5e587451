/** IEEE-754 single-precision comparison, on bit patterns, and the running
    minimum and maximum that the mesh decoder keeps over the node coordinates.

    A float is its bit pattern: bit 31 is the sign, the other 31 bits the
    magnitude. Patterns whose magnitude lies above that of infinity are NaN.
    Ordering the other patterns by their signed magnitude (Key) is the IEEE
    order of the values they denote; both zeros get Key 0 and compare equal. */
module FloatOrder {
  import opened ByteOrder

  const SignBit := 0x8000_0000
  const InfBits := 0x7F80_0000

  /** The bit pattern of f as the host reads it. */
  function Bits(f: Float32): int {
    LeValue(f) as int
  }

  predicate IsNaN(f: Float32) {
    Bits(f) % SignBit > InfBits
  }

  /** Position of f on the line of single-precision values. */
  function Key(f: Float32): int {
    if Bits(f) >= SignBit then -(Bits(f) - SignBit) else Bits(f)
  }

  /** The C comparison `a < b` on floats: false whenever a NaN takes part. */
  predicate Less(a: Float32, b: Float32) {
    !IsNaN(a) && !IsNaN(b) && Key(a) < Key(b)
  }

  /** The values INFINITY and -INFINITY of math.h. */
  const PosInf: Float32 := LeBytes(0x7F80_0000)
  const NegInf: Float32 := LeBytes(0xFF80_0000)

  /** Infinities are not NaN, and every value that is not NaN lies between them. */
  lemma KeyRange(f: Float32)
    ensures !IsNaN(PosInf) && Key(PosInf) == InfBits
    ensures !IsNaN(NegInf) && Key(NegInf) == -InfBits
    ensures !IsNaN(f) ==> -InfBits <= Key(f) <= InfBits
  {
  }

  /** Less is a strict order on the values that are not NaN. */
  lemma LessIsStrictOrder(a: Float32, b: Float32, c: Float32)
    ensures !Less(a, a)
    ensures Less(a, b) ==> !Less(b, a)
    ensures Less(a, b) && Less(b, c) ==> Less(a, c)
    ensures !IsNaN(a) && !IsNaN(b) ==> Less(a, b) || Less(b, a) || Key(a) == Key(b)
  {
  }

  /** The running minimum of the mesh loop: start from init and take every
      element that compares less than the value kept so far. */
  function RunningMin(xs: seq<Float32>, init: Float32): Float32 {
    if xs == [] then init
    else
      var m := RunningMin(xs[..|xs| - 1], init);
      if Less(xs[|xs| - 1], m) then xs[|xs| - 1] else m
  }

  /** The running maximum of the mesh loop. */
  function RunningMax(xs: seq<Float32>, init: Float32): Float32 {
    if xs == [] then init
    else
      var m := RunningMax(xs[..|xs| - 1], init);
      if Less(m, xs[|xs| - 1]) then xs[|xs| - 1] else m
  }

  /** The running minimum is a lower bound of the start value and of every
      element that is not NaN, and it is the start value or one of the elements. */
  lemma {:induction false} RunningMinIsLowerBound(xs: seq<Float32>, init: Float32)
    requires !IsNaN(init)
    ensures !IsNaN(RunningMin(xs, init))
    ensures Key(RunningMin(xs, init)) <= Key(init)
    ensures forall i :: 0 <= i < |xs| && !IsNaN(xs[i]) ==> Key(RunningMin(xs, init)) <= Key(xs[i])
    ensures RunningMin(xs, init) == init || RunningMin(xs, init) in xs
  {
    if xs != [] {
      var front := xs[..|xs| - 1];
      RunningMinIsLowerBound(front, init);
      forall i | 0 <= i < |xs| - 1
        ensures xs[i] == front[i]
      {
      }
    }
  }

  /** The running maximum is an upper bound of the start value and of every
      element that is not NaN, and it is the start value or one of the elements. */
  lemma {:induction false} RunningMaxIsUpperBound(xs: seq<Float32>, init: Float32)
    requires !IsNaN(init)
    ensures !IsNaN(RunningMax(xs, init))
    ensures Key(init) <= Key(RunningMax(xs, init))
    ensures forall i :: 0 <= i < |xs| && !IsNaN(xs[i]) ==> Key(xs[i]) <= Key(RunningMax(xs, init))
    ensures RunningMax(xs, init) == init || RunningMax(xs, init) in xs
  {
    if xs != [] {
      var front := xs[..|xs| - 1];
      RunningMaxIsUpperBound(front, init);
      forall i | 0 <= i < |xs| - 1
        ensures xs[i] == front[i]
      {
      }
    }
  }

  /** Started from INFINITY, the running minimum compares equal to some
      element as soon as one element is not NaN. */
  lemma RunningMinAttained(xs: seq<Float32>, i: nat)
    requires i < |xs| && !IsNaN(xs[i])
    ensures exists j :: 0 <= j < |xs| && !IsNaN(xs[j]) && Key(xs[j]) == Key(RunningMin(xs, PosInf))
  {
    KeyRange(xs[i]);
    RunningMinIsLowerBound(xs, PosInf);
    var m := RunningMin(xs, PosInf);
    if m in xs {
      var j :| 0 <= j < |xs| && xs[j] == m;
      assert !IsNaN(xs[j]) && Key(xs[j]) == Key(m);
    } else {
      assert Key(xs[i]) == Key(m);
    }
  }

  /** Started from -INFINITY, the running maximum compares equal to some
      element as soon as one element is not NaN. */
  lemma RunningMaxAttained(xs: seq<Float32>, i: nat)
    requires i < |xs| && !IsNaN(xs[i])
    ensures exists j :: 0 <= j < |xs| && !IsNaN(xs[j]) && Key(xs[j]) == Key(RunningMax(xs, NegInf))
  {
    KeyRange(xs[i]);
    RunningMaxIsUpperBound(xs, NegInf);
    var m := RunningMax(xs, NegInf);
    if m in xs {
      var j :| 0 <= j < |xs| && xs[j] == m;
      assert !IsNaN(xs[j]) && Key(xs[j]) == Key(m);
    } else {
      assert Key(xs[i]) == Key(m);
    }
  }

  /** When every element is NaN (in particular when there are none) the
      running minimum and maximum keep their start values. */
  lemma {:induction false} AllNaNKeepsStart(xs: seq<Float32>, lo: Float32, hi: Float32)
    requires forall i :: 0 <= i < |xs| ==> IsNaN(xs[i])
    ensures RunningMin(xs, lo) == lo && RunningMax(xs, hi) == hi
  {
    if xs != [] {
      AllNaNKeepsStart(xs[..|xs| - 1], lo, hi);
    }
  }
}
