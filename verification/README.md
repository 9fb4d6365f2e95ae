# CSS video converter — a Dafny model of the conversion core

`css_video_converter_gui.py` turns a video into a pure-CSS animation. It
samples frames at a target rate and scales each sampled frame down to a
small grid. Each grid becomes one `box-shadow` list, one shadow per pixel.
The lists go into a `@keyframes` rule whose percentages are the frames'
positions in the video. Worker threads share the frame range.

This project models `convert_to_css` without the Qt window, OpenCV and
the threads. Every part is a pure function over immutable data:

| module | models |
|---|---|
| `Sampling` | the output width, Python's half-to-even `round` on the exact ratio, the stride and the sampled indices |
| `Partition` | the split of `[0, nb_frames)` into one contiguous range per worker, with the remainder on the last one |
| `Encoder` | `write_css_colors` and the `[:-1]` at its use site: a grid of (b, g, r) bytes becomes `"<x>px <y>px 0 #rrggbb"` entries, columns outermost, comma-joined |
| `Worker` | `process_frames`: the scan of one range, which stops when the frame source runs dry |
| `Assembly` | the stylesheet header with the duration, the keyframe lines, the closing brace, and the HTML page |
| `Converter` | the whole conversion: the error paths, the per-range keyframe lists merged in range order, and the final texts |
| `Strings`, `Numerals`, `Arith`, `Wrappers` | `''.join`, `[:-1]`, decimal and two-digit lowercase hex rendering, the arithmetic facts the proofs use, and `Option`/`Result` |

Each worker gets its own keyframe list, and the model merges the
per-range lists in range order. In the source, the threads append to one
shared string without a lock. Line 168 reads `self.generated_css`, builds
the new line (the joined fragment and the `.2f` percent), and only then
stores the sum. If another thread stores in between, one of the two lines
is overwritten. With two or more threads a run can therefore both
reorder and lose keyframe lines. `Converter.ThreadCountIrrelevant` is
about the range-order merge: it states that under that merge the thread
count makes no difference. It does not describe every run of the source.

The stride `round(nb_frames / nb_result_frames)` may be unusable. This
happens when `nb_result_frames` is 0, or when the ratio rounds to 0
because the target rate is at least twice the source's. Line 165 then
divides by zero in every worker, and no worker writes anything first. The
model keeps this as a behaviour rather than excluding it by a
precondition. `Sampling.Stride` is `None` exactly then, and the
conversion produces the header and the closing brace with no keyframes
(`Converter.HighTargetRateGivesEmptyAnimation`).

Three behaviours of the code are easy to misread. The model follows the
code in each:
- The output width is truncated, not rounded. A 640×480 video at height
  20 is 26 pixels wide (`Sampling.WidthTruncates`).
- The stride is not clamped to at least 1. A stride that rounds to 0 is
  the empty-animation case above.
- The number of sampled frames is not bounded by `nb_result_frames + 1`.
  100 frames over 4 s at 10 fps give stride round(2.5) = 2, so 50 frames
  are sampled against a target of 40 (`Sampling.SamplesCanExceedTarget`).

Decoding and `cv2.resize` are foreign calls, so they are not modelled
directly:
- The frames the decoder can deliver are a sequence `Video.frames`. A read
  at index `i` succeeds exactly when `i < |frames|`.
- `nb_frames`, the frame size and the duration are separate integer
  inputs.
- The resize is a function parameter.
- The `.2f` rendering of the percentage is a parameter `fmt` over the
  exact ratio `i*100 / nb_frames`.

## Model

| member | source | states |
|---|---|---|
| Sampling.ResultWidth | css_video_converter_gui.py:126-128 | the width is the floor of width·result_height/height: `w·height <= width·result_height < (w+1)·height`; a zero height is excluded because the code divides by it |
| Sampling.RoundHalfEven | css_video_converter_gui.py:165 | Python's `round` of an exact ratio n/d: the result is within half a unit of n/d, and an exact tie goes to the even neighbour |
| Sampling.RoundHalfEvenUnique | css_video_converter_gui.py:165 | any integer meeting the half-to-even rule is the rounded value, so the rule defines `round` completely |
| Sampling.Stride | css_video_converter_gui.py:133 | the stride is unusable exactly when `nb_result_frames == 0` or `2·nb_frames <= nb_result_frames`; otherwise it is at least 1 and is the half-to-even rounding of `nb_frames / nb_result_frames` |
| Sampling.SampledIndicesSpec | css_video_converter_gui.py:161-165 | the indices of `[lo, hi)` divisible by the stride: each listed index is in range and divisible, the list strictly increases, and every divisible index of the range is listed |
| Sampling.SampledSplit | css_video_converter_gui.py:161-165 | the sampled indices of two adjacent ranges, concatenated, are the sampled indices of their union |
| Sampling.SampledCount | css_video_converter_gui.py:165 | `[0, n)` has exactly ⌈n / stride⌉ sampled indices |
| Sampling.WidthTruncates | css_video_converter_gui.py:128 | 640×480 at height 20 gives width 26, although 12800/480 is nearer 27 |
| Sampling.SamplesCanExceedTarget | css_video_converter_gui.py:133 | 100 frames, 4 s, 10 fps give stride 2 (round(2.5) ties to even) and 50 sampled frames, more than 41 |
| Partition.Partition | css_video_converter_gui.py:173-177 | there is one range per worker; every range except the last has `nb_frames // n` frames; the last has that plus `nb_frames % n`; with fewer frames than workers, all ranges but the last are empty |
| Partition.PartitionTiles | css_video_converter_gui.py:174-177 | the ranges are contiguous, in order, without gaps or overlap, from 0 to `nb_frames` |
| Partition.PartitionCovers | css_video_converter_gui.py:174-177 | listing the ranges' indices in order gives exactly `0, 1, …, nb_frames-1` |
| Numerals.Decimal | css_video_converter_gui.py:153 | `str` of a non-negative integer: non-empty decimal digits, no leading zero, whose value is the number |
| Numerals.Hex2 | css_video_converter_gui.py:153 | the `02x` rendering of a byte: two lowercase hex digits whose value is the byte |
| Strings.StripTrailingSeparator | css_video_converter_gui.py:168 | joining comma-terminated entries and dropping the last character gives the entries joined by commas, with no trailing comma |
| Encoder.EntriesOrder | css_video_converter_gui.py:153-156 | a W×H grid gives exactly W·H entries; entry k is the pixel at x = k / H, y = k % H (x outer, y inner) |
| Encoder.EntryReadsBack | css_video_converter_gui.py:153 | an entry reads back as its own x and y offsets and the pixel's colour with red first, so the (b, g, r) channels are swapped into `#rrggbb` |
| Encoder.FragmentIsJoin | css_video_converter_gui.py:153-156 | the fragment is the entries joined by single commas; it is empty exactly when the grid has no pixel |
| Encoder.FragmentSingleLine | css_video_converter_gui.py:153 | the fragment holds no line break, so a keyframe line stays one line |
| Encoder.FragmentShadowCount | css_video_converter_gui.py:151-156 | a frame with pixels gives a fragment that splits at commas into W·H parts; a frame without pixels gives the empty fragment |
| Encoder.FragmentReadsBack | css_video_converter_gui.py:151-156 | a non-empty fragment splits at commas into W·H parts, and part k reads back as pixel (k / H, k % H) in RGB order |
| Worker.ScanIsSampled | css_video_converter_gui.py:158-165 | a worker on `[start, end)` emits one keyframe for each sampled index below both `end` and the point where the source runs dry, in order, each carrying its frame's fragment |
| Worker.ScanSelects | css_video_converter_gui.py:161-167 | each emitted index is in the range, readable and sampled, and carries its own frame's fragment; indices strictly increase; every readable sampled index of the range is emitted |
| Worker.ScanSplit | css_video_converter_gui.py:161-165 | scanning two adjacent ranges one after the other emits what scanning their union emits |
| Worker.ScanTruncated | css_video_converter_gui.py:161-164 | if the source fails at position k, the worker emits the prefix of its full output made of indices below k, and nothing at or after k |
| Assembly.HeaderReadsBack | css_video_converter_gui.py:137-149 | the header is the fixed rule block in which the animation duration reads back as the given number of seconds |
| Assembly.StylesheetReadsBack | css_video_converter_gui.py:168 | the stylesheet starts with the header and ends with `}`; between them, splitting at line breaks gives the keyframe lines in order, then an empty remainder |
| Assembly.PercentsIncrease | css_video_converter_gui.py:166 | for increasing indices below `nb_frames`, the percentages `i·100/nb_frames` strictly increase and stay below 100 |
| Numerals.Tenths | css_video_converter_gui.py:197 | `str(result_height/10)` for 1..500 is an integer part without a leading zero (unless it is `0` itself), a point and one digit, which read back as `result_height` tenths |
| Converter.Convert | css_video_converter_gui.py:120-128 | the conversion fails with "cannot read" exactly when no frame is readable, and with a zero-height error exactly when the first frame reads but the height is 0; on success the page is the scaled HTML template |
| Converter.MergeTiles | css_video_converter_gui.py:173-183 | workers on ranges that tile `[a, b)`, merged in range order, emit exactly what one scan of `[a, b)` emits |
| Converter.MergeWithoutStride | css_video_converter_gui.py:165 | without a usable stride, no worker emits anything |
| Converter.MergeIsSequential | css_video_converter_gui.py:173-183 | for any thread count at least 1, the merged keyframes equal a single sequential pass over `[0, nb_frames)` |
| Converter.ConvertIsSequential | css_video_converter_gui.py:158-185 | the threaded conversion yields the stylesheet of one sequential pass, with the HTML page |
| Converter.ThreadCountIrrelevant | css_video_converter_gui.py:174-177 | the output is the same for every thread count from 1 to 16 |
| Converter.SequentialKeyframes | css_video_converter_gui.py:161-168 | the keyframes are exactly the readable sampled indices below `nb_frames`, in order, each with its frame's fragment; the percentages strictly increase and stay below 100 |
| Converter.SequentialSingleLine | css_video_converter_gui.py:168 | no emitted fragment holds a line break |
| Converter.KeyframeShadowCount | css_video_converter_gui.py:128-168 | when the resize returns a grid of the requested size, every keyframe's fragment splits at commas into `result_width · result_height` parts, with `result_width` as computed at line 128; the fragment is empty when that product is 0 |
| Converter.ConvertReadsBack | css_video_converter_gui.py:137-185 | the produced stylesheet is the header, one line per keyframe of the sequential pass in order, and the closing brace |
| Converter.HighTargetRateGivesEmptyAnimation | css_video_converter_gui.py:165 | when the target frame count is at least twice `nb_frames`, the stylesheet is the header followed by `}` alone |

## Left out

- The Qt window is not modelled: widgets, dark mode, drag and drop, the file dialog, message boxes and preview tabs. This includes the "no video selected" check (lines 112-114). It is presentation only.
- OpenCV is not modelled: opening, seeking, reading, the metadata queries and `cv2.resize`. These are foreign calls. The readable frames are an input sequence, and the resize is a parameter.
- Converter.Convert: a zero output width is passed to the resize parameter like any other width. In OpenCV, `cv2.resize` rejects a zero size and raises; that is a library behaviour, outside the model.
- Decoders that fail at one index and then succeed at a later one are not modelled. A read fails exactly from some index onward. With the other kind of decoder, one worker stops while another keeps reading, and the thread count would matter.
- `video_fps` and `video_duration = round(nb_frames / video_fps)` are floating point, so the duration is an integer input. A zero `video_fps`, which stops the conversion at line 132, is not modelled.
- The `.2f` rendering of the percentage is floating-point formatting. It is the parameter `fmt` over the exact ratio.
- Threads and `join` are not modelled, and neither is the unsynchronised read-modify-write of the shared string at line 168, which can reorder keyframe lines and can also drop them when two threads overlap. The model uses per-range lists merged in range order (see above).
- The progress bar updates (lines 169-170) are a UI side effect.
- Writing `video.css` and `index.html` (lines 202-206) is I/O. The model returns the two texts.
