# ImageConverter, modelled in Dafny

ImageConverter is a small command line tool that turns pictures into `.ico`
icons and PDF documents into one picture per page. This project models the
logic it contains and proves what that logic promises.

The repository holds three generations of the same program:

- **First generation.** `src/` is the original source: `main.py`,
  `img2ico.py`, `pdf2img.py` and `clilogger.py`. Two bundles copy it:
  - `bin/main.py`, written by `builder.py`;
  - `dist/main.py`, an equivalent bundle.

  In this generation:
  - every picture is cropped to its largest centred square;
  - a rounded-corner alpha mask is applied on request;
  - a PDF of several pages is saved as `<parent>/<stem>_<i>`;
  - `main` routes on the input suffix `.pdf` first, then on the output
    suffix `.ico`.
- **Newest generation.** `dist/imgconv/main.py` adds:
  - a `Preprocessor` whose crop and rounding are both optional;
  - a 13-entry allow-list of input extensions;
  - a per-document folder for multi-page PDFs;
  - output templates with `${stem}` and `${dir}` placeholders.
- **Build script.** `builder.py` concatenates `src/*.py` into one file:
  - it partitions each file into import rows and code rows;
  - it drops `"""` block comments;
  - it merges the `from M import ...` statements.

Shared logic is modelled once. The bundled copies of crop, mask, preprocess,
PDF fan-out and `main` do the same thing as the `src/` functions, so the
`src/` model covers them. The table below cites the `src/` lines; the same
members model these copies:

- crop boxes: dist/imgconv/main.py:179-216, dist/main.py:48-86, bin/main.py:34-48;
- the mask: dist/imgconv/main.py:218-245, dist/main.py:89-116, bin/main.py:51-67;
- preprocess: dist/main.py:139-157, bin/main.py:80-88;
- the PDF fan-out: dist/main.py:192-213, bin/main.py:97-110;
- `main`: dist/main.py:223-241, bin/main.py:117-135.

`bin/main.py` draws the mask with a separate `rx` and `ry`, both set to `r`.
`RoundMask.MaskCommands` takes both radii, so it covers that form too.

## Files and modules

| file | module | what it models |
|---|---|---|
| `results.dfy` | `Results` | `Option` and `Result` |
| `strings.dfy` | `Strings` | the Python `str` operations the code relies on: `startswith`, `find`/`index`, `replace`, `split`, `join`, `lstrip`, and `str(int)` |
| `paths.dfy` | `Paths` | the `pathlib` parts: `name`, `suffix`, `stem`, `parent`, `with_name` and `/` |
| `raster.dfy` | `Raster` | the picture as a size plus a record of the edits made to it; crop boxes; Python floor division; the corner radius |
| `mask.dfy` | `RoundMask` | the six fills of `get_round_mask`, as drawing commands and as a mask buffer filled pixel by pixel |
| `effects.dfy` | `Effects` | the outside-world events of a run (saves, folders made, log records) and the exception that ended it |
| `img2ico.dfy` | `Img2Ico` | first-generation `preprocess` and `convert_img2ico` |
| `pdf2img.dfy` | `Pdf2Img` | first-generation `convert_pdf2image` |
| `cli_main.dfy` | `CliMain` | first-generation `main` |
| `imgconv.dfy` | `Imgconv` | newest `Preprocessor`, `convert_pdf`, `convert_by_pillow`, `convert` and `resolve_output_file_path` |
| `clilogger.dfy` | `CliLogger` | ANSI colours, the level table, the colourising formatter and `Logger` |
| `builder.dfy` | `Builder` | the line partition, the block-comment stripper and the import merge |

How the code's own structure is kept:

- I/O becomes data:
  - Saving, making a folder and logging are returned as an `Effect` list.
  - Exceptions are returned as `Run.raised` or as a `Result` error.
- Outside behaviour is passed in as a parameter:
  - what `Image.open` returns (`decoded`, `None` when it raises);
  - the PDF renderer's pages (`pages`);
  - whether a path is an existing directory (`isDir`);
  - how a pie slice is rasterised (`pie`);
  - whether the imaging library accepts a save (`saveOk`).
- The code's loops stay loops:
  - `PartitionRows`, `DeleteBlockComment` and the import-merge methods;
  - the page-saving loops of both PDF converters;
  - the rectangle and pie-slice fills of `MaskCanvas`.
- State the code updates in place is a class field. The formatter's stored
  format string is `ColorizedStreamFormatter.fmt`, which `Format` overwrites.

## Model

| member | source | states |
|---|---|---|
| Strings.Find | builder.py:31 | `index`/`find` gives -1 exactly when the pattern does not occur, and otherwise the first position where it occurs |
| Strings.ReplaceAbsent | dist/imgconv/main.py:365-366 | `replace` of a pattern that does not occur leaves the string unchanged |
| Strings.ReplaceAppend | dist/imgconv/main.py:365-366 | `replace` distributes over a concatenation when no occurrence straddles the join |
| Strings.ReplaceOnce | dist/imgconv/main.py:365-366 | a single occurrence is replaced and nothing else changes, when the text before it neither contains the pattern nor ends in a possible start of it, and the text after it does not contain it |
| Strings.ReplaceGrows | src/clilogger.py:71 | `replace` with a replacement longer than the pattern either changes nothing or lengthens the string by at least the difference |
| Strings.Split | builder.py:26 | `split` always yields at least one piece |
| Strings.JoinSplit | builder.py:31 | joining the pieces of `split(sep)` with `sep` gives back the original string |
| Strings.SplitPiecesFree | builder.py:31 | no piece of `split(sep)` contains `sep` |
| Strings.Join | builder.py:43 | `sep.join(xs)` of no pieces is empty; otherwise it starts with the first piece and is as long as all the pieces plus one separator between each pair of neighbours |
| Strings.LStrip | builder.py:56 | `lstrip()` never returns text that starts with whitespace |
| Strings.LStripDropsLeadingSpace | builder.py:56 | `lstrip()` removes exactly the leading run of whitespace: the result is a suffix of the input, every removed character is whitespace, and the result does not start with whitespace |
| Strings.NatToString | src/pdf2img.py:48 | the decimal text of a natural number is non-empty, all digits, with no leading zero |
| Strings.IntToString | src/pdf2img.py:48 | `str(i)` is non-empty and starts with `-` exactly for negative `i` |
| Strings.ParseNatToString | src/pdf2img.py:48 | reading the decimal text back gives the number, so the text identifies it |
| Strings.NatToStringInjective | src/pdf2img.py:47-48 | different page numbers have different decimal texts |
| Paths.LastIndexOf | src/pdf2img.py:45-46 | the last position of a character, or -1 exactly when it is absent |
| Paths.Name | src/pdf2img.py:46 | `Path.name` holds no `/` |
| Paths.Suffix | src/main.py:17-18 | `Path.suffix` is empty, or a dot followed by at least one character |
| Paths.Stem | src/pdf2img.py:46 | `stem + suffix == name`, and the stem holds no `/` |
| Paths.Parent | src/pdf2img.py:45 | `str(Path.parent)` is never empty |
| Paths.WithNameParts | dist/imgconv/main.py:303 | `with_name(n)` has name `n` and the same parent as the original path |
| Paths.WithNameKeepsParent | dist/imgconv/main.py:303 | `with_name(n)` keeps the parent in all three cases: a directory part, the root `/`, and `.` for a bare name |
| Paths.JoinPathParts | dist/imgconv/main.py:309 | `dir / n` has name `n`, and parent `dir` when `dir` does not end in `/` |
| Paths.ChildParts | dist/imgconv/main.py:309 | `dir / n` has name `n` and parent `dir` |
| Paths.SuffixIsExtension | dist/imgconv/main.py:304 | a non-empty suffix is a dot and dot-free text, and comes with a non-empty stem |
| Paths.NameParts | dist/imgconv/main.py:309 | `dir/stem.ext` splits back into exactly that name, suffix, stem and parent |
| Raster.CropCenter | src/img2ico.py:25-31 | the box is exactly `crop_width` by `crop_height`; for a crop no larger than the picture it lies inside it, centred, with the right margin exceeding the left by at most one |
| Raster.Crop | src/img2ico.py:26-31 | `crop(box)` gives a picture exactly the box's size and records the crop after the edits made so far |
| Raster.CropMaxSquare | src/img2ico.py:46-49 | the result is a `min(w, h)` square; a square picture comes back unchanged; any other is cut by the centred crop box |
| Raster.FloorDiv | src/img2ico.py:117 | Python's `//` is floor division for either sign of divisor: `q*b <= a < q*b + b` for `b > 0`, and the mirrored bounds for `b < 0` |
| Raster.Radius | src/img2ico.py:117 | `side // round_rate` raises `ZeroDivisionError` exactly when the rate is 0, and is otherwise the floor quotient |
| Raster.RadiusBounds | src/img2ico.py:117 | with a positive rate the radius lies between 0 and the side |
| Raster.RadiusAntitone | dist/imgconv/main.py:174 | a larger round rate never gives a larger radius |
| Raster.RateTwoIsHalf | src/cliparser.py:31 | round rate 2 gives radius `side // 2`, the exact half of the side rounded down |
| Raster.TrimRound | src/img2ico.py:93-99 | trimming keeps the size, keeps the edits made so far, and records one rounding with the six mask fills; the input picture itself is a value and is not changed |
| RoundMask.MaskCommands | src/img2ico.py:69-78 | six fills: two rectangles, then four pie slices, each drawn in a box `2rx` by `2ry` that starts in its own corner of the mask: top left, bottom left, bottom right, top right |
| RoundMask.BandsInverted | src/img2ico.py:69-72 | the horizontal band is inverted (`y1 < y0`) exactly when the height is below `2r+1`, and the vertical band exactly when the width is |
| RoundMask.PaintedSome | src/img2ico.py:65-78 | a pixel of the mask is painted exactly when one of the fills drawn covers it |
| RoundMask.BandsAndCornersTile | src/img2ico.py:69-78 | every pixel lies in one of the two bands or in one of the four corner pie boxes, whatever the radius |
| RoundMask.BandsOpaque | src/img2ico.py:69-72 | every pixel of the two bands `(0, r, w-1, h-1-r)` and `(r, 0, w-1-r, h-1)` is opaque, whatever the pie rasteriser does |
| RoundMask.ZeroRadiusOpaque | src/img2ico.py:69-72 | with radius 0 the whole mask is opaque |
| RoundMask.CornerBoxes | src/img2ico.py:73-78 | the four pie boxes each span `2r` in both axes, touch the corners (0,0), (0,h-1), (w-1,h-1) and (w-1,0), and use the angles 180-270, 90-180, 0-180 and 270-360 |
| RoundMask.OddSquareFullCircle | src/img2ico.py:73-78 | on a square of side `2r+1` every pie box is the whole mask |
| RoundMask.MaskCanvas.constructor | src/img2ico.py:65 | `Image.new("L", size, 0)`: a mask of the picture's size, all transparent |
| RoundMask.MaskCanvas.Rectangle | src/img2ico.py:69-72 | a rectangle fill makes exactly the mask pixels inside the rectangle opaque and leaves the rest unchanged |
| RoundMask.MaskCanvas.PieSlice | src/img2ico.py:73-78 | a pie fill makes exactly the pixels the rasteriser puts in the slice opaque and leaves the rest unchanged |
| RoundMask.MaskCanvas.Draw | src/img2ico.py:69-78 | each fill keeps every pixel equal to the value the fills drawn so far give it |
| RoundMask.GetRoundMask | src/img2ico.py:52-79 | the mask has the picture's size and records the six fills in drawing order; a pixel is opaque exactly when one of them covers it |
| Img2Ico.Preprocess | src/img2ico.py:102-120 | an undecodable picture raises, and so does rounding with rate 0; otherwise the result is always the largest centred square, cropped first (only if not already square), then trimmed with radius `side // round_rate` and a smoothed mask when rounding is on |
| Img2Ico.RateTwoOddSquareIsDisc | src/img2ico.py:116-118 | round rate 2 on an odd square gives radius `(side-1)/2`, and every corner slice is drawn in the whole picture, which is the inscribed disc |
| Img2Ico.RateTwoEvenSquareOverhangs | src/img2ico.py:116-118 | round rate 2 on an even square of side `s` gives radius `s/2`: both bands are empty, and every corner box is `s+1` pixels wide, one more than the picture, the first being `(0, 0, s, s)` |
| Img2Ico.ConvertImg2Ico | src/img2ico.py:123-133 | the preprocessed picture is saved to the output path, or the preprocessing failure propagates with nothing saved |
| Pdf2Img.ConvertPdf2Image | src/pdf2img.py:36-48 | one page is saved to the output path; any other count, zero included, logs the warning and saves page `i` to `<parent>/<stem>_<i>` in page order, with the output's suffix as format |
| Pdf2Img.PageDestsDistinct | src/pdf2img.py:47-48 | different pages are saved to different paths |
| Pdf2Img.PageDestBesideOutput | src/pdf2img.py:45-48 | each page file sits in the output's folder, named `<stem>_<i>` |
| Pdf2Img.PageNameParts | src/pdf2img.py:48 | `folder/stem_digits` has parent `folder` and name `stem_digits` |
| Pdf2Img.PageNameHasNoSuffix | src/pdf2img.py:48 | a name made of a dot-free stem, `_` and digits has no suffix |
| Pdf2Img.PageDestHasNoSuffix | src/pdf2img.py:36-48 | when the output's stem has no dot, the page files carry no extension, which is why the format is passed explicitly |
| CliMain.ChooseRoute | src/main.py:17-29 | the PDF branch runs exactly when the input suffix is `.pdf`; the ICO branch exactly when it is not and the output suffix is `.ico`; otherwise the error branch; exactly one runs |
| CliMain.Dispatch | src/main.py:11-29 | the PDF branch logs and fans the pages out as `convert_pdf2image` does, the ICO branch logs and runs `convert_img2ico`, and the error branch logs the input suffix and converts nothing |
| CliMain.UpperCaseIsRejected | src/main.py:20-29 | matching is case-sensitive: `.PDF` into `.ICO` takes the error branch |
| CliMain.PdfBeforeIco | src/main.py:20-22 | a `.pdf` input takes the PDF branch whatever the output |
| CliMain.DotfileIsNotPdf | src/main.py:17-29 | an input named just `.pdf` has no suffix, so it is not treated as a PDF |
| CliMain.DotfileHasNoSuffix | src/main.py:17 | a name whose only dot is its first character has no suffix |
| Imgconv.Preprocessor.constructor | dist/imgconv/main.py:145-148 | the three options are stored as given, with defaults off, off and 5 |
| Imgconv.Preprocessor.Preprocess | dist/imgconv/main.py:150-177 | an undecodable picture raises, and so does rounding with rate 0; with both options off the picture is unchanged; the crop happens only when asked, before the rounding; the radius comes from the width after the crop step, which is the original width when cropping is off |
| Imgconv.CroppingMatchesFirstGeneration | dist/imgconv/main.py:170-175 | with cropping on, the newest preprocessor equals the first generation's |
| Imgconv.ConvertPdf | dist/imgconv/main.py:286-311 | returns the pages; one page is saved to the output path; otherwise it logs the warning, makes the folder `with_name(stem)`, and saves page `i` as `<folder>/<i><suffix>` in page order |
| Imgconv.PageDestsDistinct | dist/imgconv/main.py:308-309 | different pages are saved to different paths |
| Imgconv.PageDestParts | dist/imgconv/main.py:303-309 | the folder is named after the output's stem, and page `i` sits in it with stem `i` and the output's suffix |
| Imgconv.ConvertByPillow | dist/imgconv/main.py:271-283 | the picture is saved to the output path exactly when the library accepts the save; a refused save logs "failed to convert!" and the traceback, both at error level, and raises nothing |
| Imgconv.Convert | dist/imgconv/main.py:314-352 | an exact `.pdf` suffix goes to `convert_pdf`; a suffix in the 13-entry list goes to preprocess and save; anything else logs "not permitted"; of the failures the model represents, only a preprocessing failure raises (a refused Pillow save is logged); every run that does not raise ends with the "successfully converted" record |
| Imgconv.ResolveOutputFilePath | dist/imgconv/main.py:355-373 | the result is the template with every `${stem}` replaced and then every `${dir}`; it raises `ValueError` exactly when that path is an existing directory |
| Imgconv.PlainUnchanged | dist/imgconv/main.py:365-366 | text without `$` passes both replacements unchanged |
| Imgconv.ResolveWithoutPlaceholders | tests/test_resolve_path.py:9-15 | a template holding neither `${stem}` nor `${dir}` (other `$` text allowed) that is not a directory comes back unchanged |
| Imgconv.ResolveRefusesDirectory | dist/imgconv/main.py:370-371 | an expansion naming an existing directory raises |
| Imgconv.ExpandStem | tests/test_resolve_path.py:17-24 | `${stem}` is replaced by the input's stem |
| Imgconv.ExpandDir | tests/test_resolve_path.py:26-33 | a leading `${dir}` is replaced by the input's parent |
| Imgconv.ExpandDirAndStem | dist/imgconv/main.py:365-366 | `${dir}` and `${stem}` in one template are each replaced by their part of the input |
| Imgconv.ResolveBesideInput | tests/test_resolve_path.py:35-42 | `${dir}/${stem}.ext` resolves to the input's folder and stem with the new extension |
| Imgconv.StemExpandedFirst | dist/imgconv/main.py:365-366 | the order matters: a stem that is literally `${dir}` is itself expanded by the second replacement |
| CliLogger.FromRgb | src/clilogger.py:6-8 | `from_rgb` is `ESC[38;2;r;g;bm`, a well-formed SGR sequence for non-negative components |
| CliLogger.BgFromRgb | src/clilogger.py:11-13 | `bg_from_rgb` is the same with 48 |
| CliLogger.SgrWellFormed | src/clilogger.py:23-46 | an escape built from digits and `;` is a well-formed SGR sequence (ECMA-48 section 8.3.117) |
| CliLogger.RgbWellFormed | src/clilogger.py:6-13 | the 24-bit colour form `kind;2;r;g;b` is well formed for any natural components |
| CliLogger.ForegroundBackground | src/clilogger.py:6-13 | a background colour is its foreground colour with the `3` of `38` turned into a `4` |
| CliLogger.LevelColor | src/clilogger.py:63-69 | exactly the five standard level names have a colour: DEBUG orange, `from_rgb(255, 165, 0)`; INFO green; WARNING yellow; ERROR red; CRITICAL bold red |
| CliLogger.LevelColorsDistinct | src/clilogger.py:63-69 | the five levels get five different colours |
| CliLogger.ColorizedStreamFormatter.constructor | src/clilogger.py:56-59 | every `%(name)s` of a non-empty format is wrapped in cyan and END; a missing or empty format gives the library default `%(message)s` (`fmt or default_format`); the stored format is never empty |
| CliLogger.ColorizedStreamFormatter.Format | src/clilogger.py:61-74 | an unknown level raises `KeyError` and changes nothing; otherwise every `%(levelname)s` is wrapped in the level's colour and END, and the result is stored back in the field |
| CliLogger.Recolor | src/clilogger.py:63-71 | one rewrite either leaves the format as it is or lengthens it by at least the END sequence |
| CliLogger.RecolorAbsent | src/clilogger.py:71 | a format without `%(levelname)s` is left as it is |
| CliLogger.RecolorOnce | src/clilogger.py:71 | a format with one level placeholder, no placeholder before or after it and no `%` in the 12 characters before it, gets exactly one colour before it and one END after it; other `%(...)s` fields may surround it |
| CliLogger.ColorsAccumulate | src/clilogger.py:71-73 | for such a format and a colour without `%`, after `k` records of one level, `k` colour prefixes and `k` END suffixes surround the placeholder |
| CliLogger.Logger.constructor | src/clilogger.py:82-91 | the logger gets the given level, INFO by default, and a formatter holding `[%(name)s] [%(levelname)s] %(message)s` with the name wrapped in cyan |
| CliLogger.LoggerColorsAccumulate | src/clilogger.py:61-91 | the format every `Logger` installs, after `k` records of one standard level, has `k` copies of that level's colour before `%(levelname)s` and `k` END sequences after it |
| CliLogger.LoggerFormatNameWrapped | src/clilogger.py:85-88 | the fixed format holds exactly one name placeholder, which the formatter wraps |
| Builder.PartitionRows | builder.py:79-84 | the import rows and the code rows are exactly the rows that do and do not start with `import` or `from`, each in input order |
| Builder.PartitionIsExact | builder.py:79-84 | every row lands in exactly one of the two lists |
| Builder.FilterKeepsKind | builder.py:80-84 | each list holds only rows of its own kind |
| Builder.DeleteBlockComment | builder.py:50-70 | the result is exactly the non-delimiter rows preceded by an even number of `"""`-led rows |
| Builder.ScanStep | builder.py:56-68 | each of the four branches of the loop keeps the kept rows and the flag "inside a block" in step with that definition |
| Builder.OutsideIsSubsequence | builder.py:55-70 | the output is an order-preserving subsequence of the input |
| Builder.DelimitersDropped | builder.py:56-65 | no `"""`-led row is ever emitted |
| Builder.NoDelimitersUnchanged | builder.py:55-68 | an input with no `"""`-led row is returned unchanged |
| Builder.OpenBlockHidesRows | builder.py:56-62 | a delimiter outside a block hides every following row up to the next delimiter, which is how a one-line docstring opens a block that stays open |
| Builder.HiddenTail | builder.py:61-62 | rows inside an open block are dropped |
| Builder.Classify | builder.py:24-31 | a statement is passed through exactly when it does not start with `from`; it raises `IndexError` exactly when it starts with `from` and has no space; a merged module is outside `lib_names`, holds no space, and comes from a statement containing `import` |
| Builder.Dedup | builder.py:18 | `list(set(xs))` has no duplicates and the same elements as `xs` |
| Builder.VisitWithoutNames | builder.py:28-39 | a passed-through statement or one from a skipped module adds no module and no names |
| Builder.VisitKnownModule | builder.py:32-33 | a statement of a module seen before extends that module's names |
| Builder.VisitNewModule | builder.py:35-36 | a statement of a new module adds the module with its names |
| Builder.VisitStatement | builder.py:24-39 | one pass of the loop raises exactly for an invalid statement, and otherwise keeps the grouping invariant |
| Builder.GroupStatements | builder.py:18-39 | the loop raises exactly when some statement is invalid, with that statement's error; otherwise each pass-through statement appears once, and each surviving module appears once with the union of its names |
| Builder.EmitMerged | builder.py:41-45 | one `from M import ...` line per module, in order, each name once |
| Builder.MergeImportStatements | builder.py:8-47 | it raises exactly when some statement is invalid, with that statement's error; otherwise the output is each distinct non-`from` statement once, then exactly one line per surviving module outside `lib_names`, whose names are the union of that module's names across all statements, each once |

## Left out

- Pillow pixel work. The imaging library is not part of this model:
  - Decoding with `Image.open` is the parameter `decoded`.
  - Copying pixels in `crop` is recorded as an edit on the picture.
  - Rasterising a pie slice, with anti-aliasing, is the parameter `pie`.
  - `ImageFilter.SMOOTH` is recorded as a flag.
  - `putalpha` and encoding in `save` are not modelled.
  - Pillow's checks of a box's coordinates are not modelled. A Pillow
    that refuses a rectangle whose far corner lies before its near one
    (`x1 < x0` or `y1 < y0`) raises `ValueError` out of `get_round_mask`
    in every run where a band comes out inverted. The model records those
    bands as empty fills instead. These are the runs:
    - round rate 1, on any side;
    - round rate 2 on an even width;
    - in the newest generation, rounding an uncropped picture whose height
      is below `2 * (width // round_rate) + 1`
      (dist/imgconv/main.py:174 with the bands at 218-245).

    `RoundMask.BandsInverted` gives the exact condition for each band.
- PDF rendering. pdf2image/poppler, the `dpi` option and the poppler path
  are library and install details. The rendered pages are the parameter
  `pages`.
- Filesystem:
  - `is_dir()` is the oracle `isDir`.
  - `mkdir` is a `MakeDir` event.
  - The glob over `Path.cwd()` in `get_img_inputs_from_user_inputs`
    (dist/imgconv/main.py:376-380) and the loop of the newest `main`
    (dist/imgconv/main.py:383-395) are I/O plumbing over
    `resolve_output_file_path` and `convert`, which are modelled.
  - Paths are taken as already-normalised strings. The normalisation
    `Path()` does (`./`, repeated or trailing `/`) is not modelled.
- Argument parsing. `src/cliparser.py` and its copies wrap argparse. Its
  defaults are a dpi of 150 (src/cliparser.py:27) and a round rate of 5
  (src/cliparser.py:31). The round-rate default appears in the
  `Preprocessor` constructor; the dpi only reaches the renderer.
- Logging internals:
  - `logging.Formatter.format`, handlers and level filtering are the library's.
  - A log record is an `Effect`.
  - `Format` returns the format string it stores, not the rendered line.
- The logger copy in dist/imgconv/main.py:10-95 is the same code as
  src/clilogger.py. The `CliLogger` module covers both.
- `builder.py`'s `main` (builder.py:89-120) and its file reading
  (builder.py:78-79) are I/O. The three functions it calls are modelled on
  rows of text.
- Iteration order of `list(set(...))`. Python's set order is a free choice
  in the model: `Dedup` may return any order. The results of the import
  merge are therefore stated as sets, and so is which invalid statement's
  error is raised.
- Uncaught save and folder failures. The model takes these calls to
  succeed, because each one raises the library's own error and nothing
  catches it:
  - `page.save` and `img.save` in the first generation;
  - in the newest `convert_pdf`, `pages[0].save` (dist/imgconv/main.py:300),
    `out_folder.mkdir` (dist/imgconv/main.py:306) and `page.save`
    (dist/imgconv/main.py:309).

  The newest generation's caught save failure in `convert_by_pillow`
  (`saveOk`) is modelled.
- `Path.with_name` raises `ValueError` for an empty name. That happens only
  for an output path with an empty name, which `Imgconv.PageDestParts`
  excludes by requiring a suffix.
- CliLogger.RecolorOnce: stated for a format with a single
  `%(levelname)s` placeholder, which covers the format `Logger` installs
  (`CliLogger.LoggerColorsAccumulate`). A format with several level
  placeholders is not covered.
- CliLogger.ColorizedStreamFormatter.constructor: `logging.Formatter`
  checks the format and raises `ValueError` when it has no `%(...)`
  conversion. That check is the library's and is not modelled. The
  formatter keeps such a format as it is.
- Raster.Crop: records the box without checking it. Pillow's own handling
  of a box that reaches outside the picture is not modelled.
- Where the description of the program and its code disagree, the model
  follows the code:
  - `resolve_output_file_path` raises `ValueError` for an existing
    directory (dist/imgconv/main.py:370-371); it has no directory mode.
  - A PDF of zero pages takes the multi-page branch in both generations: a
    warning is logged and nothing is saved (and, in the newest, the folder
    is made).
  - A picture that cannot be decoded raises out of `preprocess`.
  - The help of `--round-rate` (src/cliparser.py:31) says rate 2 gives an
    exact circle. The code gives the inscribed disc only on odd sides
    (`Img2Ico.RateTwoOddSquareIsDisc`). On even sides the two bands are
    inverted and every corner box overhangs the picture by one pixel
    (`Img2Ico.RateTwoEvenSquareOverhangs`). A Pillow that checks boxes
    raises `ValueError` on the inverted bands, so such a run fails rather
    than drawing a disc.
  - The tests import `resolve_output_file_path` from `dist.main`. The
    function exists only in dist/imgconv/main.py, and that is the copy
    modelled.
