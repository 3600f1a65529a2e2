/** Dataset normaliser of the host program: before any kernel runs, the float and the
    fixed-point copies of the readings are extended with zeros until their length is a
    multiple of the work-group size, and the number of work-groups is derived from it. */
module Normaliser {

  /** Work-group size the host program uses for every kernel launch. */
  const LocalSize: nat := 128

  /** Number of zero fillers appended to `n` readings for work-group size `w`. */
  function PadCount(n: nat, w: nat): (c: nat)
    requires w > 0
    ensures c < w
    ensures (n + c) % w == 0
    ensures c == 0 <==> n % w == 0
  {
    var paddingSize := n % w;
    if paddingSize != 0 then
      ModOfMultiple(n + (w - paddingSize), n / w + 1, w);
      w - paddingSize
    else 0
  }

  /** PadCount is the only filler count below `w` that aligns `n`: exactly
      w - (n mod w) fillers when n is unaligned, none when it is aligned. */
  lemma PadCountUnique(n: nat, w: nat, c: nat)
    requires w > 0 && c < w && (n + c) % w == 0
    ensures c == PadCount(n, w)
    ensures n % w != 0 ==> c == w - n % w
  {
    var p := PadCount(n, w);
    var a, b := (n + c) / w, (n + p) / w;
    assert n + c == a * w;
    assert n + p == b * w;
    MultipleGap(b - a, w);
    assert (b - a) * w == p - c;
  }

  /** Distinct multiples of `w` lie at least `w` apart. */
  lemma MultipleGap(k: int, w: int)
    requires w > 0
    ensures k * w == 0 || k * w <= -w || k * w >= w
  {
  }

  /** A non-negative multiple of `w` leaves no remainder. */
  lemma ModOfMultiple(x: nat, k: nat, w: nat)
    requires w > 0 && x == k * w
    ensures x % w == 0
  {
    var q, r := x / w, x % w;
    assert x == q * w + r;
    assert (k - q) * w == r;
    MultipleGap(k - q, w);
  }

  /** `k` copies of `x`. */
  function Fill<T>(x: T, k: nat): seq<T>
  {
    seq(k, _ => x)
  }

  /** The readings `s` extended with zero fillers to the next multiple of `w`. */
  function Padded<T>(s: seq<T>, zero: T, w: nat): seq<T>
    requires w > 0
  {
    s + Fill(zero, PadCount(|s|, w))
  }

  /** Padding only appends: the original readings keep their values and indices, every
      appended element is the filler, and the new length is aligned and less than `w` longer. */
  lemma PaddedOnlyAppends<T>(s: seq<T>, zero: T, w: nat)
    requires w > 0
    ensures |Padded(s, zero, w)| % w == 0
    ensures |s| <= |Padded(s, zero, w)| < |s| + w
    ensures Padded(s, zero, w)[..|s|] == s
    ensures forall i :: |s| <= i < |Padded(s, zero, w)| ==> Padded(s, zero, w)[i] == zero
  {
  }

  /** The padded length is the smallest multiple of `w` that is at least the original length. */
  lemma PaddedIsSmallestMultiple<T>(s: seq<T>, zero: T, w: nat, m: nat)
    requires w > 0 && m % w == 0 && |s| <= m
    ensures |Padded(s, zero, w)| <= m
  {
    var len := |Padded(s, zero, w)|;
    if m < len {
      var a, b := len / w, m / w;
      assert len == a * w && m == b * w;
      assert (a - b) * w == len - m;
      MultipleGap(a - b, w);
    }
  }

  /** Readings whose count is already a multiple of `w` (including none at all) are left unchanged. */
  lemma PaddedAlignedIsUnchanged<T>(s: seq<T>, zero: T, w: nat)
    requires w > 0 && |s| % w == 0
    ensures Padded(s, zero, w) == s
  {
  }

  /** Number of work-groups for `inputElements` work-items. */
  function GroupCount(inputElements: nat, w: nat): (g: nat)
    requires w > 0
    ensures g * w <= inputElements < g * w + w
    ensures inputElements % w == 0 ==> g * w == inputElements
  {
    inputElements / w
  }

  /** The two host copies of the readings: the float values and the fixed-point (x10) integers. */
  class Readings {
    var temperatures: seq<real>
    var temperaturesInt: seq<int>

    constructor (temperatures: seq<real>, temperaturesInt: seq<int>)
      ensures this.temperatures == temperatures && this.temperaturesInt == temperaturesInt
    {
      this.temperatures := temperatures;
      this.temperaturesInt := temperaturesInt;
    }

    /** Appends the same number of zeros to both copies, computed from the float copy's length,
        and returns the padded element count and the number of work-groups. */
    method PadToLocalSize() returns (inputElements: nat, nrGroups: nat)
      modifies this
      ensures temperatures == Padded(old(temperatures), 0.0, LocalSize)
      ensures temperaturesInt == old(temperaturesInt) + Fill(0, PadCount(|old(temperatures)|, LocalSize))
      ensures |old(temperatures)| == |old(temperaturesInt)| ==> |temperatures| == |temperaturesInt|
      ensures |old(temperatures)| % LocalSize == 0 ==>
                temperatures == old(temperatures) && temperaturesInt == old(temperaturesInt)
      ensures inputElements == |temperatures| && inputElements % LocalSize == 0
      ensures nrGroups * LocalSize == inputElements
    {
      var localSize := LocalSize;
      var paddingSize := |temperatures| % localSize;
      if paddingSize != 0 {
        var extension := Fill(0.0, localSize - paddingSize);
        var extensionInt := Fill(0, localSize - paddingSize);
        temperatures := temperatures + extension;
        temperaturesInt := temperaturesInt + extensionInt;
      }
      inputElements := |temperatures|;
      nrGroups := GroupCount(inputElements, localSize);
    }
  }
}
