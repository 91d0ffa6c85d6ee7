# Video caption/keyword helper: frame sampling, grid composition, link validation

This project models, in Dafny, the part of the video caption/keyword app that
holds real logic: `video_utils.py`. The app turns a video into one composite image
and sends it to a multimodal model. The model covers three pieces:

- **Frame sampler** (`video_file_to_frames`). It computes `interval = max(1, total_frames // 9)`
  and seeks to each target index `i * interval` for `i` in `0..8`, reading one
  frame at each. A failed read is skipped and nothing takes its place. A capture
  that did not open raises before any index is computed. The decoder is an input
  to the model: a `Capture` holds the open flag, the reported frame count and a
  function from a frame index to `Option<frame>`.
- **Grid composer** (`image_grid`). It rejects an empty frame list. Otherwise it
  makes a white canvas of `w*cols + padding*(cols-1)` by `h*rows + padding*(rows-1)`
  pixels, where `(w, h)` is the first frame's size. It then visits the cells in
  row-major order and pastes frame `idx` at `(idx % cols * (w+padding), idx // cols * (h+padding))`
  when `idx < len(frames)`. An image is a width, a height and one sequence of RGB
  pixels per scan line. A paste copies pixels at native resolution.
- **YouTube link validator** (`validate_youtube_link`). The checks run in a fixed
  order: the format pattern `^(https?://)?(www\.youtube\.com|youtu\.?be)/.+$`, then the
  `"playlist"` substring test, then the load, then the duration limit (300 s by
  default). The pattern is written by hand as a string predicate. Loading the
  video and looking up its length are network calls. The model takes their result
  as an input (`LoadOutcome`).

A small `Pipeline` module chains the sampler and the composer, as the
processing page in `main.py` does.

Modules: `Wrappers` (Option/Result), `Raster` (pixels, images, blank canvas,
paste), `Sampler`, `Grid`, `YouTubeLink`, `Pipeline`.

Behaviour worth knowing, as modelled:

- Python's `//` by 9 floors. Dafny's `/` is Euclidean, and the two agree because the
  divisor is positive. So a negative frame count, which some backends report,
  also gives `interval = 1`.
- A video with fewer than nine frames (or a count of zero) is not an error.
  The interval is 1 and the indices past the end simply fail to read.
  Only a capture that did not open raises (`video_utils.py:31-32`).
- For at least nine frames every target index is below the frame count
  (`8*(t//9) < t`).
- `youtube.com/...` without `www.` is rejected. `youtu\.?be` consumes `youtube`
  and then finds `.` where the pattern needs `/`. `youtube/...` and `youtu.be/...` are
  accepted.
- Python's `$` also matches just before one final newline. So a URL that ends in a
  single `\n` passes the format check, while two trailing newlines or an empty
  path do not.
- A length exactly equal to `max_duration` is accepted. Only `length > max_duration`
  is rejected.
- The duration check always compares `yt.length` with the limit. There is no
  test for missing metadata (`video_utils.py:123`).

## Model

| member | source | states |
|---|---|---|
| Sampler.Interval | video_utils.py:35-36 | The interval is at least 1. It is 1 for fewer than 18 frames. For at least 9 frames it is the largest step such that 9 steps fit in the frame count. |
| Sampler.TargetIndices | video_utils.py:38 | There are exactly nine target indices. The first is 0, each one is the previous plus the interval, and they strictly increase. |
| Sampler.TargetIndicesInRange | video_utils.py:35-38 | When the video reports at least nine frames, every target index is below the frame count. |
| Sampler.TargetsOf270 | video_utils.py:35-38 | A 270-frame video is sampled at 0, 30, ..., 240. |
| Sampler.Kept | video_utils.py:41-50 | The kept indices are never more than the tried ones. An index is kept exactly when it was tried and its read succeeded. |
| Sampler.KeptConcat | video_utils.py:41-50 | Each index is kept or dropped on its own read alone. Trying two runs of indices one after the other keeps exactly what each run keeps, in order, so an earlier failure never shifts or replaces a later frame. |
| Sampler.KeptIncreasing | video_utils.py:41-50 | The kept indices stay in strictly increasing order. |
| Sampler.KeptAllReadable | video_utils.py:41-50 | When every read succeeds, every target index is kept. |
| Sampler.NoneKeptIffAllFail | video_utils.py:41-50 | The result is empty exactly when every tried read failed. |
| Sampler.LastTargetUnreadable | video_utils.py:41-50 | For a 270-frame video where only index 240 fails, the sampler keeps the other eight targets in order. |
| Sampler.ReadEach | video_utils.py:41-50 | The loop returns one frame per kept index, in order. Each frame is exactly what the read of that index produced. There are no more frames than indices. |
| Sampler.VideoFileToFrames | video_utils.py:29-53 | An unopened capture fails, and only an unopened capture fails. Otherwise the result holds at most nine frames: exactly the successful reads among the nine target indices, taken at strictly increasing indices. |
| Grid.ImageGrid | video_utils.py:56-94 | An empty frame list fails, and only an empty list fails. Otherwise the canvas is `w*cols + padding*(cols-1)` by `h*rows + padding*(rows-1)`. Every pixel equals the reference picture: the covering frame's pixel at its offset in the cell, or white. |
| Grid.CellSlot | video_utils.py:83-88 | A canvas pixel lies in the box of cell `idx` exactly when dividing its coordinates by the stride names cell `idx`. The remainder is then its offset from the cell origin. |
| Grid.CellInsideCanvas | video_utils.py:78-88 | Every cell of the grid, placed at its origin with the first frame's size, lies wholly inside the canvas. |
| Grid.CellsDisjoint | video_utils.py:83-91 | Two distinct cells never share a pixel. |
| Grid.PasteCellStep | video_utils.py:83-91 | One loop iteration extends "cells below `idx` are pasted, all else white" to cells below `idx + 1`. |
| Grid.PasteCellsShowsGrid | video_utils.py:83-91 | Running the paste loop to the last cell turns a white canvas into the reference picture. |
| Grid.PlacedFramePixels | video_utils.py:87-91 | For each `idx` below both `len(frames)` and `rows*cols`, frame `idx` appears pixel for pixel at native resolution at its cell origin. |
| Grid.EmptyCellWhite | video_utils.py:80-91 | A cell with no frame (`len(frames) <= idx < rows*cols`) is white throughout. |
| Grid.UncoveredPixelsWhite | video_utils.py:80-91 | A canvas pixel that no placed frame covers is white. This includes the padding strips and the cells past the last frame. |
| Grid.ExtraFramesIgnored | video_utils.py:83-91 | Frames beyond `rows*cols` do not change the grid. |
| Grid.SingleFrameGrid | video_utils.py:56-91 | One 100x100 frame in the default 3x3 grid with padding 10 gives a 320x320 canvas. The frame fills the top-left 100x100 box and every other pixel is white. |
| Pipeline.FramesToGrid | main.py:73-74 | Sampling and then composing fails as "not opened" exactly when the capture did not open. It fails as "no frames" exactly when all nine target reads fail. Otherwise it yields the grid composed from exactly the frames that were read. |
| Pipeline.LastTargetUnreadableLeavesNinthCellWhite | main.py:73-74 | For a 270-frame video whose only unreadable target is 240, eight frames are sampled and the ninth cell of a nine-cell grid stays white. |
| YouTubeLink.PathMatchesLanguage | video_utils.py:108 | The tail check accepts exactly one or more non-newline characters, optionally followed by one final newline. This is the language of `.+$`. |
| YouTubeLink.FormatMatchesRegex | video_utils.py:108-110 | The hand-written matcher accepts exactly the concatenations of an optional scheme, a host, `/` and a path in the language of `.+$`. |
| YouTubeLink.BareDomainRejected | video_utils.py:108-110 | `youtube.com/...` without `www.` fails the format check. |
| YouTubeLink.WatchLinkAccepted | video_utils.py:108-110 | `https://www.youtube.com/` followed by any non-empty single-line path passes the format check. |
| YouTubeLink.ShortLinkAccepted | video_utils.py:108-110 | `youtu.be/` followed by any non-empty single-line path passes the format check. |
| YouTubeLink.TrailingNewlines | video_utils.py:108 | A path with one final newline matches. A path with two trailing newlines, an empty path and a newline alone do not. |
| YouTubeLink.ContainsSubstringOccurs | video_utils.py:113 | The substring test holds exactly when the needle occurs at some position of the URL. |
| YouTubeLink.ValidateYouTubeLink | video_utils.py:96-127 | The verdict is valid exactly when it carries no reason. A valid verdict means the URL is in the pattern's language, `"playlist"` occurs nowhere in it, the video loaded and its length is within the limit. |
| YouTubeLink.ValidationFollowsCheckOrder | video_utils.py:107-127 | The validator accepts exactly when all four checks pass, judged on their own. Otherwise it returns the reason of the first failing check in the order format, playlist, load, duration. |
| YouTubeLink.LengthAtLimitAccepted | video_utils.py:122-127 | For a well-formed non-playlist URL, a length equal to the limit is accepted and one second more is rejected as too long. |

## Left out

- `download_video` (`video_utils.py:7-17`): a network download. It is not modelled.
- OpenCV: opening the file, reading the frame count property, seeking, decoding and
  the BGR-to-RGB conversion. These become the `Capture` input. Its `read` function
  stands for "seek to this index, then read one frame". A decoder whose result
  depends on earlier seeks is outside the model.
- Sampler.VideoFileToFrames: the frame count arrives as an integer. The float
  returned by `cap.get` and its truncation by `int()` are not modelled.
- The `print` of the skip message, and `cap.release()`: console output and
  resource release, with no effect on the result.
- Grid.ImageGrid: requires `rows >= 1`, `cols >= 1`, `padding >= 0`, and every
  frame well-formed and of the first frame's size. The code checks none of these.
  A non-positive grid shape, negative padding and mixed frame sizes are outside
  the model. PIL's own handling of them (negative canvas sizes, overlapping
  pastes) is not modelled.
- PIL internals: image modes other than RGB, alpha masks, and the saving and
  encoding of the composite image.
- YouTubeLink.ValidateYouTubeLink: the `YouTube(url)` construction and the
  `yt.length` lookup are one `LoadOutcome` input, either a length in seconds or
  the text of the exception. An exception raised by the length lookup itself
  (line 123, outside the `try`) is not modelled.
- YouTubeLink.ValidateYouTubeLink: the reason strings are tags (`InvalidFormat`,
  `IsPlaylist`, `LoadError(text)`, `TooLong(maxDuration)`). Each tag carries the
  values its message interpolates. The message text itself is not built.
- `LLM_utils.py`: the hosted-model request and the base64 encoding of the image
  file. External calls, not modelled.
- `main.py`, apart from the two calls at lines 73-74: the UI pages,
  session state, temporary files, `json.loads` of the reply and API-key entry.
  This is UI glue and I/O.
