# OpenCL temperature analysis — host logic model

This project models the sequential host logic of an OpenCL program that computes the maximum,
minimum, mean, variance and standard deviation of air-temperature readings. The reductions
themselves run in device kernels; the host only prepares the data and drives the kernels.
Three pieces of host logic are modelled and verified:

- **Dataset normaliser** (`normaliser.dfy`, module `Normaliser`). `main` appends zeros to the
  float readings and to the fixed-point (x10) integer readings, in place, until their length is a
  multiple of the work-group size (128). It then takes the group count as the padded length
  divided by 128. The class `Readings` holds the two vectors, and `PadToLocalSize` updates them.
  The lemmas state the following:
  - the appended count is the unique count below 128 that aligns the length;
  - the padded length is the smallest multiple of 128 that is at least the original length;
  - original readings keep their values and indices, and every filler is zero;
  - aligned input, including empty input, is left unchanged;
  - the group count divides exactly.
- **Line field extraction** (`line_parser.dfy`, module `LineParser`). `parse_string_to_float`
  and `parse_string_to_int` contain the same character loop. It counts single `' '` characters
  and keeps every character after the fifth one, later spaces included. `ExtractField` is that
  loop. It is proved equal to the reference definition `AfterDelimiters`. Lemmas then pin down
  that definition:
  - the result is a suffix of the line;
  - it is empty when the line has fewer than five spaces;
  - otherwise it is exactly the text after the fifth space.
- **Tree-reduction pass driver** (`tree_reduction.dfy`, module `TreeReduction`). For each
  statistic, `float_reduction` works as follows:
  - it launches a kernel from the input buffer into the statistic's output buffer and reads the
    whole buffer back;
  - while the read-back element at index 1 is non-zero, it relaunches with the output buffer as
    both input and output;
  - it counts launches, adds up the per-launch execution times, and reports element 0.

  A kernel is an uninterpreted function from (input buffer, output buffer) to the new output
  buffer. The "zero" the sentinel is compared with is a parameter. `RunPasses` is the pass loop.
  `FloatReduction` runs max, min, sum and the squared-deviation sum in order. Each statistic
  gets its own buffer and freshly reset counters. The mean goes to the deviation kernel, and
  that statistic's relaunches use the plain sum kernel.

The line parsers' loops (`main.cpp:312-327` and `main.cpp:382-397`) are character for character
the same. Both are modelled by the one method `LineParser.ExtractField`.

Details of the code that the model keeps as they are:
- The parser counts every single space, so runs of spaces each count, and spaces after the fifth
  are kept in the extracted text (`main.cpp:312-327`).
- Only the max output buffer is zero-filled (`main.cpp:435`). The min, sum and deviation buffers
  are not (`main.cpp:503`, `main.cpp:571`, `main.cpp:640`). They start with whatever the device
  memory held, which the model receives as the parameter `stale`.
- The code pads with zero for every statistic, min and max included. Its own comment at
  `main.cpp:172` calls zero neutral only for addition.

## Model

| member | source | states |
|---|---|---|
| `Normaliser.PadCount` | ParallelComputing/main.cpp:168-177 | the filler count is below the work-group size and makes the length a multiple of it; it is zero exactly when the length is already a multiple |
| `Normaliser.PadCountUnique` | ParallelComputing/main.cpp:169-177 | any count below the work-group size that aligns the length is the filler count; for unaligned N it is exactly W - (N mod W) |
| `Normaliser.PaddedOnlyAppends` | ParallelComputing/main.cpp:176-181 | padding keeps every original reading at its index, every appended element is zero, and the new length is aligned and less than W longer |
| `Normaliser.PaddedIsSmallestMultiple` | ParallelComputing/main.cpp:168-182 | no multiple of W that is at least N is smaller than the padded length |
| `Normaliser.PaddedAlignedIsUnchanged` | ParallelComputing/main.cpp:169-173 | readings whose count is already a multiple of W, including none, are unchanged |
| `Normaliser.GroupCount` | ParallelComputing/main.cpp:185-192 | the group count times W never exceeds the element count, and is less than W below it; on aligned input it equals the element count exactly |
| `Normaliser.Readings.PadToLocalSize` | ParallelComputing/main.cpp:168-192 | both vectors receive the same number of zeros, computed from the float vector; vectors of equal length stay equal in length; aligned vectors are untouched; the returned element count is aligned and equals the group count times 128 |
| `LineParser.AfterDelimiters` | ParallelComputing/main.cpp:312-327 | the extracted text is never longer than the line |
| `LineParser.AfterDelimitersIsSuffix` | ParallelComputing/main.cpp:321-326 | the extracted text is a suffix of the line |
| `LineParser.FewDelimitersYieldEmpty` | ParallelComputing/main.cpp:315-319 | a line with fewer than five spaces yields the empty string |
| `LineParser.AfterKthDelimiter` | ParallelComputing/main.cpp:312-327 | when the space at index j is the fifth, the result is exactly the line after index j |
| `LineParser.KthDelimiterExists` | ParallelComputing/main.cpp:315-319 | a line with at least five spaces has a fifth one, at an index whose prefix holds four |
| `LineParser.ExtractField` | ParallelComputing/main.cpp:303-327 | the character loop returns exactly the reference extraction (the text after the fifth space) |
| `TreeReduction.Relaunch` | ParallelComputing/main.cpp:474-482 | in-place relaunches keep the buffer length, since the host reads back the whole fixed-size buffer |
| `TreeReduction.ConvergedAfterUnique` | ParallelComputing/main.cpp:469-490 | the launch count of a converged run is determined by the relaunch kernel and the first read-back: the first count at which the index-1 sentinel reads zero is unique |
| `TreeReduction.DescribesUnique` | ParallelComputing/main.cpp:441-494 | a converged report is determined by its inputs: two converged runs on the same kernels, buffers and per-launch execution times give the same launch count, total time and value (real profiling times vary between runs, so the same total time holds only for the same supplied times) |
| `TreeReduction.RunPasses` | ParallelComputing/main.cpp:441-494 | launches start at 1 and grow by one per relaunch; the total time is the sum of the per-launch times; the value is element 0 of the last read-back; it converges exactly when the sentinel first reads zero after the last launch and after no earlier one; without convergence the bound on relaunches was used up with the sentinel never zero |
| `TreeReduction.RunStatistic` | ParallelComputing/main.cpp:424-494 | one statistic's block: when it converges, its report describes its own first kernel launched from the input into its own fresh output buffer (zero-filled only for max, stale device contents otherwise), then its relaunch kernel, with counters starting afresh; otherwise the relaunch bound was used up and the sentinel never read zero |
| `TreeReduction.FloatReduction` | ParallelComputing/main.cpp:422-705 | max, min, sum and deviation each run with their own kernels, buffer and reset counters; only the max buffer is zero-filled; mean is sum / N and is passed to the deviation kernel; deviation relaunches use the sum kernel; variance is deviation sum / N; on a stall the statistics before it converged and the stalled one never reads zero |
| `TreeReduction.PaddedInputFitsDriver` | ParallelComputing/main.cpp:185-205 | padding non-empty readings yields an aligned input of at least two elements that holds all N readings, as the driver needs |

## Left out

- OpenCL runtime calls are not modelled: context, queue, program build, buffer creation,
  writes, reads, fills, kernel arguments, kernel launches and profiling queries. A launch
  followed by its read-back is one application of an uninterpreted `Kernel`.
- The kernel bodies (`kernels.cl`) are not part of this model. Nothing is assumed about what a
  kernel computes, so the model does not claim that the reported values are the true max, min
  or sums. It also cannot bound the number of passes by log base W of L.
- `TreeReduction.RunPasses`: the host loop has no bound, and its termination depends on the
  unseen kernel. The model stops after `fuel` relaunches and reports `converged == false`,
  where the program itself would keep looping.
- `TreeReduction.RunPasses`: comparing `0.0f` with the index-1 element is modelled as equality
  with an abstract `zero`. Float details such as `-0.0 == 0.0` and NaN are not captured.
- `TreeReduction.RunPasses`: execution times are supplied naturals. The 64-bit unsigned
  wrap-around of `cl_ulong` is not modelled. Transfer times are left out because the host only
  prints them.
- Floating-point arithmetic is not modelled:
  - `stof` and the truncating `(int)(x * 10)` conversion of the extracted text. When a line has
    fewer than five spaces the extracted text is empty (`LineParser.FewDelimitersYieldEmpty`), and
    `stof("")` then throws `std::invalid_argument` (`main.cpp:330`, `main.cpp:400`). `main` only
    catches `cl::Error` (`main.cpp:245`), so such a line ends the program. The model stops at the
    extracted text and does not model that abort;
  - the mean and variance divisions, which are the supplied `divide` operation;
  - `sqrt`.
- The float readings are modelled as `real`; padding only ever writes zero to them. The int
  vector is padded from a float vector of zeros (`main.cpp:181`), which converts to the integer
  zeros of the model.
- The atomic integer pipeline `integer_reduction` (`main.cpp:723-878`) is not modelled. It is
  one launch per statistic with no host logic beyond foreign calls and float decoding.
- File reading (`load_file_float`, `load_file_int`), command-line handling, `print_help` and all
  console output are not modelled.
- The global reporting variables (`mean_float`, `mean_int`, `variance_float`, `prefferSize`) are
  not modelled. The mean is passed explicitly to the deviation statistic instead.
- With no readings, the input buffers have size zero, and creating them (`main.cpp:195-196`)
  already fails with a `cl::Error` that `main` catches (`main.cpp:245`). The driver is therefore
  only reached with at least one reading, which `FloatReduction` requires (`0 < entries`).
