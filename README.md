# auto-helper-rs: template matching and waiting, modelled in Dafny

auto-helper-rs finds a template image inside a screenshot and can keep polling until the
template shows up. This project models two parts of it and proves their properties:

- **Scale reduction and the centre mapping** of `cv_match_template_center` (module `Cv`,
  `cv.dfy`). While the source is wider or taller than `MATCH_SIZE_THRESHOLD` (500), the
  loop floor-halves both the source and the template and doubles `scale`. The reduced pair
  is then searched. The best offset is mapped back as `offset * scale + templateDim / 2`,
  using the template's original dimensions. Images are modelled by their dimensions
  (`ImageSize`). The correlation search and its extremum are an abstract total function
  `Search` from the two reduced sizes to a location and a score (`Extremes`).
- **The matching operations of the `Screenshoter` trait** (module `Screenshoter`,
  `screenshoter.dfy`):
  - `find_template`, which matches one fresh screenshot;
  - `find_template_existence`, which keeps a match only when its correlation is strictly
    above the threshold;
  - `wait_template_existence`, which polls.

  A screenshot outcome (`Shot`) is either a capture error or a `Capture`. A `Capture` is a
  frame's size plus the search result for that frame. The polling loop runs over the
  outcomes of successive captures. The source loop has no bound, so when the given outcomes
  run out the model reports `StillWaiting`.
- **The `Point` value type** and Rust's `u32` (module `Structs`, `structs.dfy`). Rust's
  `Option` and `Result` are in `wrappers.dfy`.

`u32` arithmetic in the centre mapping wraps modulo 2^32 (`Structs.Wrap`), which is what a
release build does. Correlation scores (`f32` in the source) are modelled as `real`.

The code computes `scale` as a power of two by repeated halving, not as a real ratio. It
has no explicit error for a template larger than the source, no sentinel score for flat
images, and no timeout or cancellation in the wait loop. The model follows it.

## Model

| member | source | states |
|---|---|---|
| Structs.New | src/structs.rs:10-12 | the point's `x` and `y` are the two arguments |
| Structs.FromTuple | src/structs.rs:14-16 | `x` is the tuple's first component and `y` its second |
| Structs.FromArray | src/structs.rs:18-20 | `x` is element 0 and `y` element 1 of the two-element array |
| Structs.Default | src/structs.rs:3 | the derived default point is (0, 0) |
| Structs.ConstructorsAgree | src/structs.rs:10-20 | `from_tuple((a, b))` and `from_array([a, b])` both equal `Point::new(a, b)`, and the default is `Point::new(0, 0)` |
| Structs.EqualityIsFieldwise | src/structs.rs:3-7 | two points are equal exactly when both fields are equal, and rebuilding a point from its fields gives the same point |
| Cv.ScaleExponent | src/cv.rs:33-50 | the loop halves zero times exactly when the source already fits, i.e. both dimensions are at most 500 |
| Cv.Scale | src/cv.rs:33-49 | the final `scale` is 2 raised to the number of loop iterations, and it fits in `u32` |
| Cv.MatchTemplateCenter | src/cv.rs:27-73 | the halving loop terminates and its result equals `CenterMatch`: the search runs on source and template halved `ScaleExponent(source)` times, the position is each best-offset coordinate times `Scale(source)` plus half the original template dimension, and the score is the extremum's value |
| Cv.HalvingIsDivision | src/cv.rs:37-49 | floor-halving a size `k` times equals one floor division of each dimension by 2^k, for the source and the template alike |
| Cv.ReducedSourceFits | src/cv.rs:34-35 | after the loop, the source's width and height are both at most 500 |
| Cv.ScaleIsMinimal | src/cv.rs:34-50 | every smaller number of halvings leaves the source wider or taller than 500, so the loop stops at the first fit |
| Cv.NoSmallerDivisorFits | src/cv.rs:34-50 | dividing the source by any positive number up to `scale / 2` (in particular by `scale / 2`) leaves a dimension above 500, so `scale` is the smallest power of two that achieves the fit |
| Cv.ScaleFitsU32 | src/cv.rs:33-49 | `scale` stays below 2^32, and when it exceeds 1, 250 times `scale` is below the larger source dimension |
| Cv.NoReductionWhenFits | src/cv.rs:33-35 | `scale` is 1 exactly when the original source fits, and a fitting source and its template are searched at their original sizes |
| Cv.CenterOfPlacement | src/cv.rs:59-60 | if the offset lies within the reduced source and the source is below 2^31, the mapping does not wrap; the reported coordinate is the scaled-back offset plus half the original template dimension, inside that placement and at its centre (the two sides differ by at most one pixel) |
| Cv.CenterMatchIsCentre | src/cv.rs:59-72 | when the best offset lies within the reduced source and the source is below 2^31 in each dimension (whatever the template's size), the returned correlation is the extremum's value unchanged and each coordinate of `pos` is exactly `maxLoc * scale + templateDim / 2` with the original template dimensions |
| Cv.UnscaledMatchIsOffsetPlusHalf | src/cv.rs:33-60 | with no reduction and the best offset within the source, `pos` is the best offset plus half the template size and the score is the extremum's value |
| Screenshoter.FindTemplate | src/screenshoter.rs:31-34 | a screenshot error is returned wrapped, without matching; otherwise the result is the match of that fresh frame against the template |
| Screenshoter.FindTemplateExistence | src/screenshoter.rs:36-55 | errors from `find_template` pass through unchanged; the result is `Some` exactly when the correlation is strictly above the threshold, and then it holds `find_template`'s result unmodified; a score at or below the threshold gives `None` |
| Screenshoter.Waited | src/screenshoter.rs:57-71 | the wait never counts more captures than were taken; it is still waiting only after using every capture; a finished wait used at least one |
| Screenshoter.WaitTemplateExistence | src/screenshoter.rs:57-71 | the loop does one capture and match per iteration and agrees with `Waited`; the final unwrap is only reached when `res` is `Some` |
| Screenshoter.WaitedFindsFirstAbove | src/screenshoter.rs:63-70 | the wait returns `found` after `n` captures exactly when capture `n` is the first one matched above the threshold, and every earlier capture was matched at or below it |
| Screenshoter.WaitedEndsOnError | src/screenshoter.rs:64-67 | the wait fails with `e` after `n` captures exactly when attempt `n` failed with `e` and every earlier attempt was matched at or below the threshold; the first error ends the wait |
| Screenshoter.WaitedStillWaiting | src/screenshoter.rs:65-68 | the loop keeps going exactly while every capture so far was matched at or below the threshold |
| Screenshoter.WaitedOnlyLooksAhead | src/screenshoter.rs:64-68 | captures after the deciding one are never used; while still waiting, the loop carries on with the next captures just as a fresh wait would, counting one capture per attempt |
| Screenshoter.FirstAboveReturnsAtOnce | src/screenshoter.rs:64-65 | if the first capture matches above the threshold, the wait returns that match after one capture |

## Left out

- Normalised cross-correlation and `find_extremes` (`match_template_parallel`): these are
  floating-point, parallel library code. The model takes an abstract location and score, so
  tie-breaking and the library's panic when the reduced template is larger than the reduced
  source are not modelled.
- Pixel contents of `imageops::resize` (nearest-neighbour) and `to_luma8`: the model keeps
  only the resulting dimensions.
- `load_image_file` and `save_image_file`: file I/O.
- Correlation is `real`, not `f32`: rounding and NaN comparisons (always false) are not
  modelled.
- Cv.MatchTemplateCenter: the centre mapping (`Cv.CenterOf`) wraps modulo 2^32 like a
  release build. A debug build, which panics on `u32` overflow, is not modelled.
- The `Screenshoter` trait itself and its `AdbScreenshoter` and `XcapScreenshoter`
  implementations: capture plumbing. The capture capability becomes the sequence of its
  outcomes.
- Screenshoter.WaitTemplateExistence: `thread::sleep(interval)` and the logging calls are
  left out, so the model has no `interval` parameter. The loop is unbounded in the source;
  the model runs over a finite prefix of capture outcomes and reports `StillWaiting` when
  that prefix is exhausted.
- Error `Display` messages and the `#[from]` conversions beyond the wrapping itself.
- `Serialize`/`Deserialize` derives of `Point`.
- adb command invocation, input injection (including the Windows scale-factor division),
  display capture in `xcap_screenshot.rs`, the re-exports of `lib.rs`, and the tests, which
  need a device or asset files. These are not part of this model.
