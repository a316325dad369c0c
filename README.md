# Frame extractor: a Dafny model

The tool takes a video of `L` frames and a sample count `S`, and writes `S`
frames to disk as numbered image files. The model covers the part of
`FrameExtractor.extract` that decides which source frame goes into which
file. It also covers the validation of the `-f/--frame` argument, the checks
on the video and frame file extensions, and the `"{:08d}"` + extension file
names.

- `plan.dfy` (module `FramePlan`): the planner, as a closed-form function.
  `PlannedIndex(L, S, j)` is the frame index the loop holds when it writes
  file `j`. It is `0` for the first file and `L-1` once the end clamp fires.
  Otherwise it is the ceiling of `j*L/S`. The accumulator `frame_cnt_f` is
  exact here: after `j` steps it is the rational `j*L/S`. The lemmas give the
  shape of the plan (range, monotonicity, the clamp on the last output,
  strictness when `S <= L`, every frame when `S == L`). They also show that
  the progress increments add up to the bar total `L`.
- `naming.dfy` (module `FrameNaming`): the file number in decimal, padded on
  the left with `'0'` to at least eight characters, followed by the
  extension. It reads back as the number, and distinct numbers give distinct
  names.
- `extractor.dfy` (module `Extractor`): the class `FrameExtractor`. `New`
  models the constructor's checks. `Extract` is the `while success` loop,
  kept as a loop. It keeps the scaled accumulator
  `scaledAcc == frame_cnt_f * S` in integers, so the clamp test
  `frame_cnt_f + L/S > L-1` becomes `scaledAcc + L > (L-1)*S`. It returns
  the writes it made, and its invariant ties each write to `PlannedIndex`.
  `CheckFrmParam` validates the argument. `RunMain` is the order of checks
  in `main`, including the silent exit when the video argument is empty.

The decoder is outside the model. `L` is a parameter. The result of each
`read()` comes from an oracle `readOk: seq<bool>` (read `i` succeeds when
`i < |readOk| && readOk[i]`). Each image write is recorded as a
`FrameWrite(name, seek, frameRead)`, where `seek` is the position requested
from the decoder (`frame_cnt - 1`). Whether a file exists is a boolean
parameter.

How a call of `extract` ends is an `Outcome`:
- `Completed`: file `S-1` was written.
- `DecodeFailed(k)`: read `k` gave no frame. The write of that empty frame
  is the last write, because OpenCV's writer raises on an empty image.
  (If it returned, `while success` would stop the loop there anyway.)
- `DivisionByZero`: `S == 0`. From `main` this only happens for `-1` with
  `L == 0`; a direct call of `extract(0)` gets there too. The first file is
  written, then `L / S` raises.

Where an idealised description and the code differ, the model follows the
code. An even spacing of 100 frames into 10 samples would end on 90, but the
code's clamp makes the last index 99, so the plan is `0,10,…,80,99`
(`HundredByTen`). The code also writes exactly `S` files when `S > L`, not
`min(S, L)`: indices then repeat (`PlanMonotone` covers this case).

## Model

| member | source | states |
|---|---|---|
| FramePlan.CeilDiv | extractor.py:105 | the result is the ceiling of a/s: `(q-1)*s < a <= q*s` |
| FramePlan.ClampedIsSourceTest | extractor.py:104-109 | the integer clamp test `(j+1)*L > (L-1)*S` holds exactly when the source's test `j*L/S + L/S > L-1` holds over the rationals |
| FramePlan.PlannedIndex | extractor.py:84-109 | the index planned for file j lies in `[0, L-1]` whenever the video is non-empty |
| FramePlan.ClampPersists | extractor.py:108-109 | once the end clamp fires for file j, it fires for every later file |
| FramePlan.ClampAtLast | extractor.py:99-109 | the clamp condition always holds for the final file S-1 |
| FramePlan.PlanMonotone | extractor.py:104-109 | planned indices never decrease, for every S (also S > L, where they repeat) |
| FramePlan.LastIsLastFrame | extractor.py:99-109 | with S >= 2 the last planned index is exactly L-1 |
| FramePlan.NoEarlyClamp | extractor.py:108-109 | with S <= L the clamp fires for no file before S-1 |
| FramePlan.StepStrict | extractor.py:104-109 | with S <= L each planned index is strictly above the previous one |
| FramePlan.PlanStrict | extractor.py:104-109 | with S <= L the whole plan is strictly increasing |
| FramePlan.EveryFrame | extractor.py:104-109 | with S == L file j takes frame j |
| FramePlan.EveryFramePlan | extractor.py:104-109 | with S == L the plan is exactly 0, 1, ..., L-1 |
| FramePlan.PlanShape | extractor.py:84-109 | a plan has S entries, starts at 0, stays in [0, L-1], never decreases, ends on L-1 when S >= 2, and is [0] when S == 1 |
| FramePlan.Advanced | extractor.py:103-111 | the progress increments `frame_cnt - frame_old` summed over the first n steps equal the index planned for file n |
| FramePlan.ProgressReachesTotal | extractor.py:81-112 | with S >= 2 the increments plus the closing `update()` sum to the bar total L |
| FramePlan.HundredByTen | extractor.py:104-109 | L=100, S=10 gives 0,10,...,80,99 |
| FramePlan.SevenByThree | extractor.py:104-109 | L=7, S=3 gives 0,3,6 |
| FrameNaming.Decimal | extractor.py:96 | the decimal form is a non-empty digit string with no leading zero (except "0" itself) |
| FrameNaming.ZeroPad | extractor.py:96 | padding gives length max(width, length of s), fills every added position with '0' and keeps s whole as the suffix, never truncating |
| FrameNaming.FrameStem | extractor.py:96 | the `{:08d}` stem consists of decimal digits only |
| FrameNaming.FrameFileName | extractor.py:95-96 | the name is at least 8 characters plus the extension, and ends with the extension |
| FrameNaming.FileNameReadsBack | extractor.py:95-96 | the part of the name before the extension is all digits and reads back as the file number |
| FrameNaming.ParseDecimalRoundTrip | extractor.py:96 | reading the decimal form back gives n |
| FrameNaming.ParseIgnoresLeadingZeros | extractor.py:96 | leading '0' padding does not change the value read back |
| FrameNaming.StemRoundTrip | extractor.py:96 | the padded stem reads back as the file number |
| FrameNaming.StemShape | extractor.py:96 | the stem has at least 8 characters, exactly 8 below 10^8, is '0's followed by the full decimal form of n |
| FrameNaming.FileNamesDistinct | extractor.py:95-96 | distinct file numbers give distinct file names |
| FrameNaming.TwelfthFileName | extractor.py:96 | file 12 with ".jpg" is named "00000012.jpg" |
| Extractor.CheckFrmParam | extractor.py:115-119 | the argument is accepted, unchanged, exactly when it is -1 or positive; otherwise an argument error |
| Extractor.SampleCount | extractor.py:75-78 | sample_frm is L for -1 and the argument itself otherwise; it is never negative for an argument of at least -1, and at least 1 for an accepted argument and a non-empty video |
| Extractor.AcceptedCountIsPlannable | extractor.py:75-78 | an accepted argument resolves to itself, or to L for -1; it is at least 1 for a non-empty video; -1 plans every frame 0..L-1 |
| Extractor.RecordNamesDistinct | extractor.py:86-112 | a run described by `ExtractionRecord` (writes 0.. with planned seeks, every read before the last one succeeded, ending on completion, a failed read or division by zero) never writes two files under the same name |
| Extractor.ExtractionRecordDetermined | extractor.py:86-112 | `ExtractionRecord` fixes the run: for the same video length, sample count, extension and reads there is one write log and one outcome |
| Extractor.CompletedRun | extractor.py:86-109 | when every read succeeds, extract completes after exactly S writes, numbered 0..S-1, with distinct names, file j seeking the planned index minus one |
| Extractor.FailedRun | extractor.py:89-97 | a run that fails at read k called the image writer for files 0..k, the last with no frame, and for nothing after; every earlier read succeeded |
| Extractor.NextIndex | extractor.py:102-109 | one accumulator step in integers (add L, take the ceiling, clamp) yields the planned index of the next file |
| Extractor.FrameExtractor.New | extractor.py:33-52 | a missing video file is refused first, then an unsupported frame extension; otherwise a fresh extractor with the given length and extension |
| Extractor.FrameExtractor.Extract | extractor.py:68-112 | sets sample_frm (L for -1) and returns the writes and outcome that `ExtractionRecord` describes: files 0.. with planned seeks, ending on completion at S-1, the first failed read, or division by zero |
| Extractor.RunMain | extractor.py:130-148 | a bad frame argument is an error; then an empty video argument ends the program with nothing done; then an unsupported video extension, then a missing video are errors; none of these writes anything; otherwise the run extracts as `ExtractionRecord` describes |

## Left out

- OpenCV: opening the capture, fps, frame size and `video_second` are not modelled. The frame count is the parameter `videoLength`, a `nat`; a negative count reported by a broken stream is not modelled. Which frame the decoder actually returns after a seek is not modelled either; the model records only the requested position.
- Floating point: `frame_cnt_f` is exact here. Drift in the float sum can change a ceiling or the clamp test near the end. The model does not capture that.
- Reads: the oracle is finite, and reads past its end fail. A decoder that succeeds forever (possible only when sample_frm never equals file_cnt + 1) is not modelled.
- The write of an empty frame is taken to raise, as OpenCV's writer does. Image encoding and the file contents are not modelled.
- Filesystem: `os.path.exists` is a boolean parameter. `os.makedirs` and the directory layout are left out. The `os.path.join`, `basename` and `splitext` path handling is left out too, so names are bare file names and extensions are given as strings.
- tqdm: the progress bar is not an object here. Its increments are the function `Advanced`, with lemmas.
- argparse and `int(s)`: the validator works on an integer. String parsing and the `-o` default are not modelled.
- The PDF and print constants, and the `img2pdf` import, are unused by the code and not modelled.
- Extractor.FrameExtractor.Extract: requires the argument to be at least -1. `check_frm_param` guarantees this for `main`, and 0 is modelled (it ends in a division by zero after the first write). A direct call with a value below -1, where the loop would step backwards and end only on a failed read, is not modelled.
- Extractor.FrameExtractor.constructor: sets sample_frm to 0 until Extract runs. In Python the attribute does not exist until then.
