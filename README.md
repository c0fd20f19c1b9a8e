# cassette, modelled in Dafny

cassette turns a Python source file into a "typing" video: every prefix of
the code is syntax-highlighted, padded to a fixed canvas and written as one
video frame, with a block caret where the cursor is. This project models the
parts of it that are string, index and geometry logic, and proves what they
guarantee:

- `pystr.dfy` (module `PyStr`): the Python string operations the
  preprocessor uses, on `seq<char>`. These are `s.split("\n")`,
  `"\n".join(ls)`, `pat in s`, `s.find(pat)`, `s.split(pat)[1]` and
  `s.replace(pat, "")`, each giving the result Python gives.
- `typestream.dfy` (module `TypeStream`):
  - `read_py_file`, as a loop over the lines of the file text that mirrors
    the source loop, proved against specification functions (`Kept`,
    `CharCount`, `StartOffset`);
  - the skip rule and index loop of `TypeStream.animate`;
  - `final_frame`, and the mode dispatch of `run`.

  Syntax highlighting is a parameter `render`, a function from text to
  image. Video output is abstracted into a log of events: the writer is
  opened, the frame of a rendered text is written, the writer is released,
  or a still image of a text is saved. Each frame is `pad`ded (`center`)
  and must then have the writer's shape `(eh, ew)`. The first frame that
  does not have it fails `VideoWriter.write`'s assertion. That failure is
  the last event of the log, and the writer is never released.
- `utils.dfy` (module `Utils`): `pad_width`, `pad_height`, `pad` and
  `superimpose`. Images are grids of opaque pixels (`Image<P>`). The methods
  work on `array2<P>` as the source does on numpy arrays: allocate a
  fill-coloured buffer, then overwrite a block of it. Each method is proved
  against a specification function on `Image` values.
- `config.dfy` (module `Config`): the `Config` defaults and the derived
  `shape`, `half_size` and `fontpx`.

`Config` in cassette/config.py defines no `em_size` or `em_shape`, although
cassette/utils.py and cassette/writer.py read both. The model therefore takes
the em canvas width `ew` and height `eh` as explicit parameters, with
`em_shape == (eh, ew)` (`Config.EmShape`).

Two behaviours of the code worth stating:

- The render mode is the first line of the file with every `# !!` removed.
  There is no fallback to `image`. Any first line that is not exactly
  `image` or `animate` once its markers are removed makes `run` fail its
  lookup (`TypeStream.Run` returns `Err(KeyError(mode))`).
- Every later line that contains `# !!` is dropped, whatever its directive
  is, not only `ignore` and `start` lines.

## Model

| member | source | states |
|---|---|---|
| PyStr.Join | cassette/typestream.py:52 | `"\n".join`: the lines with one newline between each two; SplitJoin and JoinAppend state its properties |
| PyStr.Split | cassette/typestream.py:37 | `split("\n")` gives at least one piece; no piece holds a newline; joining the pieces with newlines gives the text back |
| PyStr.JoinAppend | cassette/typestream.py:52 | joining two non-empty lists of lines is joining each and putting a newline between them |
| PyStr.SplitLine | cassette/typestream.py:37 | a text made of a newline-free line, a newline and a rest splits into that line followed by the pieces of the rest |
| PyStr.SplitJoin | cassette/typestream.py:52 | splitting undoes joining for newline-free lines: `Split(Join(ls)) == ls` |
| PyStr.LastPiece | cassette/typestream.py:97 | the last piece of a split is the suffix after the last newline: it is newline-free, it ends the text, and a newline comes before it when it is shorter than the text |
| PyStr.FirstPiece | cassette/typestream.py:53 | the first piece of a split is the newline-free prefix up to the first newline |
| PyStr.Contains | cassette/typestream.py:42 | `pat in s`: some index of `s` starts an occurrence of `pat`; FindFound ties it to Find |
| PyStr.Find | cassette/typestream.py:42 | a found index is an occurrence of the pattern |
| PyStr.FindIsFirst | cassette/typestream.py:42 | every occurrence lies at or after the index Find returns, so Find returns the lowest one |
| PyStr.FindFound | cassette/typestream.py:42 | `pat in s` holds exactly when Find succeeds |
| PyStr.SecondField | cassette/typestream.py:43 | `s.split(pat)[1]` is the text right after the first `pat`; it holds no `pat`; it is followed by `pat` or by the end of `s` |
| PyStr.Remove | cassette/typestream.py:53 | `replace(pat, "")` never lengthens the text; RemoveAfter and RemoveLeading state what it removes |
| PyStr.RemoveAfter | cassette/typestream.py:53 | when no occurrence of `pat` starts inside `a`, `replace` on `a + pat + b` keeps `a`, drops that `pat` and treats `b` the same way |
| PyStr.RemoveLeading | cassette/typestream.py:53 | a leading `pat` is removed, and a text without `pat` is left unchanged |
| TypeStream.HasMarker | cassette/typestream.py:42 | a line is a directive line when it contains `# !!` |
| TypeStream.Command | cassette/typestream.py:43 | the directive of a marked line is its second `# !!`-separated field (SecondField) |
| TypeStream.Kept | cassette/typestream.py:38-51 | the lines without a marker, in order; KeptExactly and KeptAppend state its properties |
| TypeStream.CharCount | cassette/typestream.py:40-50 | `n_chars`: the characters of the lines, one newline each; CharCountJoin ties it to the join |
| TypeStream.StartOffset | cassette/typestream.py:39-48 | `start`: the character count of the kept lines at the last `start` directive, or 0; LastStartOffset and StartBeginsLine state its properties |
| TypeStream.Lines | cassette/typestream.py:36-37 | there is always at least one line: the first line, from which the mode is taken, always exists |
| TypeStream.ReadPyFile | cassette/typestream.py:34-53 | the code is the newline-join of the marker-free lines after the first; the mode is the first line with every marker removed; the start offset is the one StartOffset defines |
| TypeStream.Step | cassette/typestream.py:41-51 | processing one more line grows the kept lines, the character count and the start offset as the loop body does |
| TypeStream.StepAt | cassette/typestream.py:41-51 | the loop body at line `k`: the kept lines, the character count and the start offset of lines `1..k+1` in terms of lines `1..k` |
| TypeStream.KeptAppend | cassette/typestream.py:49-52 | the kept lines of two stretches are the kept lines of each, in order |
| TypeStream.KeptExactly | cassette/typestream.py:42-51 | a line is kept exactly when it occurs among the lines and has no marker, whatever directive follows the marker |
| TypeStream.CharCountJoin | cassette/typestream.py:50-52 | the character count of non-empty kept lines is the length of their join plus one |
| TypeStream.NoStartOffset | cassette/typestream.py:39-48 | without a `start` directive the offset is 0 |
| TypeStream.LastStartOffset | cassette/typestream.py:46-50 | the last `start` directive decides: the offset counts the kept lines before it, each with its newline |
| TypeStream.StartBeginsLine | cassette/typestream.py:46-52 | when a kept line follows the last `start` directive, the offset is the index in the code where that line begins |
| TypeStream.KeptAround | cassette/typestream.py:42-51 | dropping one marked line leaves the kept lines on either side of it, joined in order |
| TypeStream.JoinFrom | cassette/typestream.py:50-52 | the character count of a stretch of lines is the index in the join where the following lines begin |
| TypeStream.EndsWithSentinel | cassette/typestream.py:36-52 | when the file has a second line and its last line has no marker, the code ends with the sentinel `U+00A0` |
| TypeStream.ModeIsFirstLine | cassette/typestream.py:36-53 | the mode line is the text before the first newline (the whole text with the sentinel when there is none), so it never reaches the code |
| TypeStream.AnimateExampleLines | cassette/typestream.py:36-37 | the file `"# !!animate\nprint(1)\n"` splits into its directive line, its code line and a line holding only the sentinel |
| TypeStream.AnimateExampleMode | cassette/typestream.py:53 | that file's mode is `animate` |
| TypeStream.AnimateExampleCode | cassette/typestream.py:41-52 | that file's code is `"print(1)\n\u00a0"` and its start offset is 0 |
| TypeStream.Skip | cassette/typestream.py:97-98 | the last line of the prefix is non-empty and all spaces; SkipIff and NotSkipped state its properties |
| TypeStream.SkipIff | cassette/typestream.py:97-98 | an index is skipped exactly when the prefix ends in a non-empty run of spaces that begins a line |
| TypeStream.NotSkipped | cassette/typestream.py:97-98 | the empty prefix, and a prefix ending in a newline, a tab, the sentinel or any other non-space, is never skipped |
| TypeStream.Rendered | cassette/typestream.py:95-100 | the texts rendered for the indices from `start_at` on, in order; RenderedSound, RenderedComplete and RenderedPrefix state its properties |
| TypeStream.RenderedPrefix | cassette/typestream.py:95-100 | the texts rendered below an index are the first texts rendered below any larger index |
| TypeStream.FitsWriter | cassette/writer.py:26 | the frame `center` makes of the rendered text has the writer's shape `em_shape` |
| TypeStream.FitsWriterIff | cassette/writer.py:26 | for `eh >= 1` the writer takes the frame of a text exactly when its image is at most `ew` wide |
| TypeStream.FirstMisfit | cassette/typestream.py:100-102 | the position of the first rendered text whose frame the writer refuses: every earlier frame is taken, the one there is refused, or it is the end |
| TypeStream.FirstMisfitAt | cassette/typestream.py:100-102 | the one position with all earlier frames taken and its own refused (or the end) is FirstMisfit |
| TypeStream.AnimationLog | cassette/typestream.py:92-103 | the events of `animate`: open, the writes of the frames the writer takes, then the release, or the refusal of the first frame it does not take |
| TypeStream.AbortedLog | cassette/typestream.py:100-102 | when the writer refuses the frame rendered at index `i`, having taken all before it, the log is open, those writes, and the refusal |
| TypeStream.CompletedLog | cassette/typestream.py:100-103 | when the writer takes every frame, the log is open, every write, release |
| TypeStream.WriterAccepts | cassette/typestream.py:100-102 | `center` then the assertion of `VideoWriter.write` (cassette/writer.py:26): the result is true exactly when the padded frame has shape `(eh, ew)` |
| TypeStream.Writes | cassette/typestream.py:102 | one write event per rendered text, in order |
| TypeStream.RenderedSound | cassette/typestream.py:95-100 | every rendered text is a non-skipped prefix `code[:i]`, with `start <= i < len(code)`, followed by the caret; the full code is never rendered; the prefixes strictly grow from one text to the next |
| TypeStream.RenderedComplete | cassette/typestream.py:95-100 | every non-skipped prefix in that range is rendered with the caret |
| TypeStream.Animate | cassette/typestream.py:92-103 | the loop's log is exactly the log AnimationLog specifies: open, the frames of the rendered texts in order, then release, or the shape failure that ends the loop |
| TypeStream.AnimationLogShape | cassette/typestream.py:93-103 | the writer is opened first and once; every event in between writes, in order, a rendered text whose frame fits; the last event is the release exactly when every frame fits, and otherwise the refusal of the next rendered text, with no release anywhere; a start offset at or past the end gives just open and release |
| TypeStream.AnimationReleases | cassette/typestream.py:95-103 | for `eh >= 1` the writer is released exactly when every rendered text gives an image at most `ew` wide |
| TypeStream.FinalFrame | cassette/typestream.py:87-90 | image mode saves exactly one still, of the whole code, with no caret |
| TypeStream.Run | cassette/typestream.py:75-81 | `image` yields the still frame; `animate` yields the animation log, aborted or released; any other mode is a lookup failure naming the mode |
| Utils.Contents | cassette/utils.py:17 | the picture of an array has the array's shape and pixels |
| Utils.Filled | cassette/utils.py:20 | `ones(...) * c` has the requested shape and only the colour `c` |
| Utils.Pasted | cassette/utils.py:12 | a paste keeps the size of the destination; each pixel comes from the source where the source covers it, and from the destination elsewhere |
| Utils.Paste | cassette/utils.py:21 | pasting in place leaves the destination array holding `Pasted` of its old picture |
| Utils.PaddedWidth | cassette/utils.py:16-23 | the height is unchanged; the width is `max(w, ew)`; an image at least `ew` wide is unchanged; every original pixel keeps its place; every added pixel is the original top-left pixel |
| Utils.SliceStart | cassette/utils.py:34 | the start of `xs[k:]` is `max(0, n + k)` for negative `k` and `min(k, n)` otherwise |
| Utils.Cropped | cassette/utils.py:34 | `img[s:]` keeps the width and the rows from `s` on |
| Utils.PaddedHeight | cassette/utils.py:26-35 | the width is unchanged; a short image keeps its rows on top, with fill rows of the top-left colour below, up to height `eh`; a taller image keeps exactly its last `eh` rows in order (the rows after the first `-eh` for a negative `eh`); `eh == 0` or an equal height leaves the image as it is |
| Utils.PaddedShape | cassette/utils.py:16-41 | the shape `pad` gives: width `max(w, ew)`; height `eh` for `eh >= 1`, unchanged for `eh == 0` |
| Utils.Padded | cassette/utils.py:38-41 | for `eh >= 1` the result is `eh` high and `max(w, ew)` wide |
| Utils.PadPixels | cassette/utils.py:38-41 | each pixel of a padded frame: fill right of the image; the image's last `eh` rows when it is taller; the image over fill rows otherwise |
| Utils.PadIdempotent | cassette/utils.py:38-41 | for `eh >= 1` padding a padded frame changes nothing |
| Utils.PadFitsWriter | cassette/writer.py:26 | a padded frame has the writer's shape `(eh, ew)` exactly when the rendered image was at most `ew` wide |
| Utils.PadWidth | cassette/utils.py:16-23 | the array holds `PaddedWidth` of the input; it is the input array itself when that is wide enough, and a new array otherwise |
| Utils.PadHeight | cassette/utils.py:26-35 | the array holds `PaddedHeight` of the input; it is the input array itself at height `eh`, and a new array otherwise |
| Utils.Pad | cassette/utils.py:38-41 | the array holds `Padded` of the input |
| Utils.CentringOffset | cassette/utils.py:10-11 | the offset is the floor half of the difference: `2*o <= outer - inner < 2*o + 2` |
| Utils.Superimposed | cassette/utils.py:8-13 | the result has the base image's size |
| Utils.SuperimposeCentred | cassette/utils.py:8-13 | when the top image fits, all of it shows at the offsets; the margins on either side differ by 0 or 1; every pixel outside it is the base's |
| Utils.Superimpose | cassette/utils.py:8-13 | a new array holding `Superimposed` of the two pictures; the base array is not modified |
| Config.ShapeSwapsSize | cassette/config.py:16-19 | `shape` is `size` with its components swapped, and swapping back gives `size` |
| Config.Shape | cassette/config.py:16-19 | `shape` is `(h, w)` for `size == (w, h)`; ShapeSwapsSize states it |
| Config.HalfSize | cassette/config.py:21-24 | each component satisfies `2*half <= dim < 2*half + 2` |
| Config.EmShape | cassette/writer.py:14 | the writer's shape `em_shape`: `(eh, ew)` for an em canvas `ew` wide and `eh` high |
| Config.FormatInt | cassette/config.py:28 | `f"{n}"`: a minus sign for a negative number, then its digits; FormatIntReadsBack states it reads back |
| Config.FormatIntReadsBack | cassette/config.py:28 | every integer formatted in decimal reads back as itself |
| Config.FontPx | cassette/config.py:26-28 | `fontpx`: the formatted font size followed by `px`; FontPxReadsBack states it |
| Config.Digits | cassette/config.py:28 | the decimal rendering of a number is non-empty, made of digits, and has no leading zero |
| Config.DigitsRoundTrip | cassette/config.py:28 | reading the decimal digits back gives the number |
| Config.FontPxReadsBack | cassette/config.py:26-28 | `fontpx` ends in `px`, and what precedes it reads back as the font size, negative sizes included |
| Config.DefaultSizes | cassette/config.py:8-14 | the defaults are codec `avc1`, format `.mp4`, fps 60 and size (3840, 2160); they give shape (2160, 3840), half size (1920, 1080) and `fontpx` `14px` |

## Left out

- Syntax highlighting and image decoding (`syntax_highlighted_image`, `cshi_image`: pygments, `cv2.imdecode`, `cv2.imwrite`) are not modelled. They become the parameter `render`, assumed to give every text an image with at least one row and one column. The log records the texts whose frames are written, not the frame pixels; what `pad` puts in each pixel is stated separately in `Utils`.
- cassette/writer.py is not part of this model beyond its shape assertion (`TypeStream.FitsWriter`, `Utils.PadFitsWriter`). `cv2.VideoWriter`, the PIL conversion and the frame bytes are I/O. An `AssertionError` is modelled as the log's last event `ShapeMismatch`; the exception itself propagating out of `run` is not.
- `final_frame` saves the padded still with `cv2.imwrite`, which checks no shape. The model records only the still's text.
- cassette/start_end_frames.py is not part of this model: it is video capture and frame seeking.
- `load_config` (YAML file reading) and `awgn` (random floating-point noise) are I/O and randomness.
- Reading the input file is modelled by taking the file text as a parameter: `raw` is the text `read()` returns after universal-newline translation. A file read without that translation would keep `\r` at the ends of its lines. `TypeStream.__init__`'s path handling, the `argparse` entry point, `tqdm` and `print` are left out.
- The `uint8` cast and the float multiplication in `np.ones(...) * img[0, 0]` are not modelled: pixels are opaque values, and the fill is the top-left pixel itself.
- Utils.PadHeight: the crop `img[-eh:]` is a numpy view that shares memory with the input, but the model returns a copy. Aliasing between the result and the input is not modelled.
- Utils.Superimpose: PIL mode conversion and alpha handling in `paste` are not modelled. The paste is a plain overwrite, clipped to the base image.
- Python's `str.replace` and `str.split` are modelled only for the non-empty pattern `# !!` used here.
