/** Host side of the floating-point tree reduction. For each statistic the host launches a
    kernel from the input buffer into a fresh output buffer, reads the whole output back,
    and keeps relaunching a kernel with that output buffer as both input and output while the
    read-back element at index 1 is non-zero; element 0 is then reported. The kernels run on
    the device and are not part of this model: each is an uninterpreted step on buffers. */
module TreeReduction {
  import Normaliser

  /** A kernel launch followed by the read-back of the output buffer: it maps the input buffer
      and the output buffer's current contents to the output buffer's new contents. The device
      buffer has a fixed size, so the read-back always has the output buffer's length. */
  type Kernel<!T(!new)> = k: (seq<T>, seq<T>) -> seq<T> | forall input, output :: |k(input, output)| == |output|
    witness (input: seq<T>, output: seq<T>) => output

  /** The four statistics the driver reduces, in the order it runs them. */
  datatype Statistic = Max | Min | Sum | StdDev

  /** How many statistics the driver completes before it starts `s`. */
  function Position(s: Statistic): nat
  {
    match s
    case Max => 0
    case Min => 1
    case Sum => 2
    case StdDev => 3
  }

  /** What the host learns from one statistic's passes. `converged` is false only when the
      model's bound on relaunches was reached before the index-1 sentinel read zero. */
  datatype StatReport<T> = StatReport(launches: nat, totalExecutionTime: nat, value: T, converged: bool)

  /** The buffer after `k` in-place relaunches of `kernel`, starting from `buffer`. */
  function Relaunch<T(!new)>(kernel: Kernel<T>, buffer: seq<T>, k: nat): (r: seq<T>)
    ensures |r| == |buffer|
  {
    if k == 0 then buffer
    else
      var previous := Relaunch(kernel, buffer, k - 1);
      kernel(previous, previous)
  }

  /** Sum of the execution times of launches 1 to `n`. */
  function TotalTime(executionTime: nat -> nat, n: nat): nat
  {
    if n == 0 then 0 else TotalTime(executionTime, n - 1) + executionTime(n)
  }

  /** `launches` launches were made, the first producing `start`, and the sentinel at index 1
      read zero after the last of them and after none before it. */
  predicate ConvergedAfter<T(==,!new)>(next: Kernel<T>, start: seq<T>, zero: T, launches: nat)
    requires |start| >= 2
  {
    launches >= 1
    && Relaunch(next, start, launches - 1)[1] == zero
    && forall k :: 0 <= k < launches - 1 ==> Relaunch(next, start, k)[1] != zero
  }

  /** The number of launches of a converged run is determined by the relaunch kernel and the
      first read-back: the first count at which the sentinel reads zero is unique. */
  lemma ConvergedAfterUnique<T(!new)>(next: Kernel<T>, start: seq<T>, zero: T, a: nat, b: nat)
    requires |start| >= 2
    requires ConvergedAfter(next, start, zero, a) && ConvergedAfter(next, start, zero, b)
    ensures a == b
  {
  }

  /** `r` is the report of a converged run of `first` once from `input` into `output`, then of
      `next` in place, with launch `k`'s execution time given by `executionTime(k)`. */
  predicate Describes<T(==,!new)>(r: StatReport<T>, first: Kernel<T>, next: Kernel<T>, input: seq<T>,
                             output: seq<T>, zero: T, executionTime: nat -> nat)
    requires |output| >= 2
  {
    var start := first(input, output);
    r.converged
    && ConvergedAfter(next, start, zero, r.launches)
    && r.value == Relaunch(next, start, r.launches - 1)[0]
    && r.totalExecutionTime == TotalTime(executionTime, r.launches)
  }

  /** A converged report is determined by its inputs: two converged runs on the same kernels,
      buffers and per-launch execution times report the same thing. */
  lemma DescribesUnique<T(!new)>(r: StatReport<T>, r': StatReport<T>, first: Kernel<T>, next: Kernel<T>,
                           input: seq<T>, output: seq<T>, zero: T, executionTime: nat -> nat)
    requires |output| >= 2
    requires Describes(r, first, next, input, output, zero, executionTime)
    requires Describes(r', first, next, input, output, zero, executionTime)
    ensures r == r'
  {
    ConvergedAfterUnique(next, first(input, output), zero, r.launches, r'.launches);
  }

  /** One statistic's passes: a first launch of `first` from `input` into `output`, then
      relaunches of `next` with the output buffer as both input and output until the
      read-back element at index 1 equals `zero`. The host loop has no bound; here at most
      `fuel` relaunches are made. */
  method RunPasses<T(==,!new)>(first: Kernel<T>, next: Kernel<T>, input: seq<T>, output: seq<T>, zero: T,
                          executionTime: nat -> nat, fuel: nat)
    returns (r: StatReport<T>)
    requires |output| >= 2
    ensures 1 <= r.launches <= fuel + 1
    ensures r.totalExecutionTime == TotalTime(executionTime, r.launches)
    ensures r.value == Relaunch(next, first(input, output), r.launches - 1)[0]
    ensures r.converged <==> ConvergedAfter(next, first(input, output), zero, r.launches)
    ensures !r.converged ==>
              r.launches == fuel + 1
              && forall k :: 0 <= k <= fuel ==> Relaunch(next, first(input, output), k)[1] != zero
  {
    var result := first(input, output);
    var kernelLaunches: nat := 1;
    var totalExecutionTime := executionTime(1);
    assert totalExecutionTime == TotalTime(executionTime, 1);
    var reduced := false;
    ghost var start := result;
    while true
      invariant 1 <= kernelLaunches <= fuel + 1
      invariant result == Relaunch(next, start, kernelLaunches - 1)
      invariant totalExecutionTime == TotalTime(executionTime, kernelLaunches)
      invariant forall k :: 0 <= k < kernelLaunches - 1 ==> Relaunch(next, start, k)[1] != zero
      decreases fuel + 1 - kernelLaunches
    {
      if result[1] == zero {
        reduced := true;
        break;
      }
      if kernelLaunches == fuel + 1 {
        break;
      }
      result := next(result, result);
      kernelLaunches := kernelLaunches + 1;
      totalExecutionTime := totalExecutionTime + executionTime(kernelLaunches);
    }
    r := StatReport(kernelLaunches, totalExecutionTime, result[0], reduced);
  }

  /** The kernels the host builds: one per statistic, and the deviation kernel takes the mean. */
  datatype FloatKernels<!T(!new)> = FloatKernels(max: Kernel<T>, min: Kernel<T>, sum: Kernel<T>, stdDev: T -> Kernel<T>)

  /** What the floating-point driver reports, or the statistic whose passes did not converge
      within the bound, with the reports of the statistics completed before it. */
  datatype FloatOutcome<T(!new)> =
    | Completed(max: StatReport<T>, min: StatReport<T>, sum: StatReport<T>, stdDev: StatReport<T>,
                mean: T, variance: T)
    | Stalled(at: Statistic, before: seq<StatReport<T>>, report: StatReport<T>)

  /** A freshly created output buffer of `n` elements that nobody cleared: its slots hold
      whatever `stale` says the device memory held. */
  function StaleBuffer<T>(s: Statistic, stale: (Statistic, nat) -> T, n: nat): seq<T>
  {
    seq(n, i requires 0 <= i < n => stale(s, i))
  }

  /** The kernel of a statistic's first launch; `mean` is only handed to the deviation kernel. */
  function FirstKernel<T(!new)>(kernels: FloatKernels<T>, s: Statistic, mean: T): Kernel<T>
  {
    match s
    case Max => kernels.max
    case Min => kernels.min
    case Sum => kernels.sum
    case StdDev => kernels.stdDev(mean)
  }

  /** The kernel of a statistic's relaunches: the deviation statistic is finished by the sum kernel. */
  function RelaunchKernel<T(!new)>(kernels: FloatKernels<T>, s: Statistic): Kernel<T>
  {
    match s
    case Max => kernels.max
    case Min => kernels.min
    case Sum => kernels.sum
    case StdDev => kernels.sum
  }

  /** A statistic's output buffer before its first launch: only the max buffer is zero-filled. */
  function OutputBuffer<T>(s: Statistic, zero: T, stale: (Statistic, nat) -> T, n: nat): seq<T>
  {
    if s == Max then Normaliser.Fill(zero, n) else StaleBuffer(s, stale, n)
  }

  /** `r` reports a converged run of statistic `s` with its own kernels, buffer and counters. */
  predicate Ran<T(==,!new)>(r: StatReport<T>, s: Statistic, kernels: FloatKernels<T>, input: seq<T>, zero: T,
                           stale: (Statistic, nat) -> T, executionTime: (Statistic, nat) -> nat, mean: T)
    requires |input| >= 2
  {
    Describes(r, FirstKernel(kernels, s, mean), RelaunchKernel(kernels, s), input,
              OutputBuffer(s, zero, stale, |input|), zero, k => executionTime(s, k))
  }

  /** Statistic `s` would need more than `fuel` relaunches: the sentinel is non-zero after each of them. */
  predicate Stalls<T(==,!new)>(s: Statistic, kernels: FloatKernels<T>, input: seq<T>, zero: T,
                              stale: (Statistic, nat) -> T, mean: T, fuel: nat)
    requires |input| >= 2
  {
    var start := FirstKernel(kernels, s, mean)(input, OutputBuffer(s, zero, stale, |input|));
    forall k :: 0 <= k <= fuel ==> Relaunch(RelaunchKernel(kernels, s), start, k)[1] != zero
  }

  /** One statistic's block of the driver: a fresh output buffer (zero-filled only for max),
      the statistic's first kernel, then its relaunch kernel, with counters starting afresh. */
  method RunStatistic<T(==,!new)>(kernels: FloatKernels<T>, s: Statistic, input: seq<T>, zero: T,
                                  stale: (Statistic, nat) -> T, executionTime: (Statistic, nat) -> nat,
                                  mean: T, fuel: nat)
    returns (r: StatReport<T>)
    requires |input| >= 2
    ensures r.converged ==> Ran(r, s, kernels, input, zero, stale, executionTime, mean)
    ensures !r.converged ==> r.launches == fuel + 1 && Stalls(s, kernels, input, zero, stale, mean, fuel)
  {
    var output := OutputBuffer(s, zero, stale, |input|);
    assert |output| == |input|;
    r := RunPasses(FirstKernel(kernels, s, mean), RelaunchKernel(kernels, s), input, output, zero,
                   k => executionTime(s, k), fuel);
  }

  /** The floating-point driver: max, min, sum and the squared-deviation sum, one after the other,
      each with its own output buffer and counters reset. The mean is the sum divided by the number
      of readings before padding and is handed to the deviation kernel; the variance is the
      deviation sum divided the same way. `divide` stands for the host's float division. */
  method FloatReduction<T(==,!new)>(kernels: FloatKernels<T>, input: seq<T>, entries: nat, zero: T,
                                   stale: (Statistic, nat) -> T, executionTime: (Statistic, nat) -> nat,
                                   divide: (T, nat) -> T, fuel: nat)
    returns (outcome: FloatOutcome<T>)
    requires 0 < entries <= |input| && |input| % Normaliser.LocalSize == 0
    ensures outcome.Completed? ==>
              Ran(outcome.max, Max, kernels, input, zero, stale, executionTime, zero)
              && Ran(outcome.min, Min, kernels, input, zero, stale, executionTime, zero)
              && Ran(outcome.sum, Sum, kernels, input, zero, stale, executionTime, zero)
              && outcome.mean == divide(outcome.sum.value, entries)
              && Ran(outcome.stdDev, StdDev, kernels, input, zero, stale, executionTime, outcome.mean)
              && outcome.variance == divide(outcome.stdDev.value, entries)
    ensures outcome.Stalled? ==>
              var before := outcome.before;
              !outcome.report.converged && outcome.report.launches == fuel + 1
              && |before| == Position(outcome.at)
              && (|before| > 0 ==> Ran(before[0], Max, kernels, input, zero, stale, executionTime, zero))
              && (|before| > 1 ==> Ran(before[1], Min, kernels, input, zero, stale, executionTime, zero))
              && (|before| > 2 ==> Ran(before[2], Sum, kernels, input, zero, stale, executionTime, zero))
              && Stalls(outcome.at, kernels, input, zero, stale,
                        if |before| > 2 then divide(before[2].value, entries) else zero, fuel)
  {
    var max := RunStatistic(kernels, Max, input, zero, stale, executionTime, zero, fuel);
    if !max.converged {
      return Stalled(Max, [], max);
    }
    var min := RunStatistic(kernels, Min, input, zero, stale, executionTime, zero, fuel);
    if !min.converged {
      return Stalled(Min, [max], min);
    }
    var sum := RunStatistic(kernels, Sum, input, zero, stale, executionTime, zero, fuel);
    if !sum.converged {
      return Stalled(Sum, [max, min], sum);
    }
    var meanFloat := divide(sum.value, entries);
    var stdDev := RunStatistic(kernels, StdDev, input, zero, stale, executionTime, meanFloat, fuel);
    if !stdDev.converged {
      return Stalled(StdDev, [max, min, sum], stdDev);
    }
    var varianceFloat := divide(stdDev.value, entries);
    outcome := Completed(max, min, sum, stdDev, meanFloat, varianceFloat);
  }

  /** Padding a non-empty set of readings yields an input the driver accepts. */
  lemma PaddedInputFitsDriver<T>(s: seq<T>, zero: T)
    requires |s| > 0
    ensures var padded := Normaliser.Padded(s, zero, Normaliser.LocalSize);
            0 < |s| <= |padded| && |padded| % Normaliser.LocalSize == 0 && |padded| >= 2
  {
    Normaliser.PaddedOnlyAppends(s, zero, Normaliser.LocalSize);
  }
}
