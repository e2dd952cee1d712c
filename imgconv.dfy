/**
 * The newest command line, `imgconv`: a `Preprocessor` whose crop and
 * rounding are both optional, `convert_pdf` writing a multi-page document
 * into a folder named after the output, `convert` dispatching on the
 * input's suffix, and `resolve_output_file_path` expanding the `${stem}` and
 * `${dir}` placeholders of the output template.
 */
module Imgconv {
  import opened Results
  import opened Strings
  import opened Paths
  import opened RoundMask
  import opened Raster
  import opened Effects
  import Img2Ico

  /** The preprocessing options fixed when the converter starts. */
  class Preprocessor {
    const doCropCenter: bool
    const doRound: bool
    const roundRate: int

    /** `Preprocessor(do_crop_center=False, do_round=False, round_rate=5)` */
    constructor (doCropCenter: bool := false, doRound: bool := false, roundRate: int := 5)
      ensures this.doCropCenter == doCropCenter && this.doRound == doRound && this.roundRate == roundRate
    {
      this.doCropCenter := doCropCenter;
      this.doRound := doRound;
      this.roundRate := roundRate;
    }

    /**
     * `preprocess(image_path)` on the decoded picture (`None` when
     * `Image.open` raises).  Only the steps that are switched on happen, the
     * crop before the rounding; the radius is taken from the width the
     * picture has after the crop step, which is the original width when
     * cropping is off.
     */
    function Preprocess(decoded: Option<Image>): (r: Result<Image, Failure>)
      ensures decoded.None? ==> r == Err(Undecodable)
      ensures decoded.Some? ==> (r.Err? <==> doRound && roundRate == 0)
      ensures decoded.Some? && r.Err? ==> r.error == ZeroDivision
      ensures r.Ok? && !doCropCenter && !doRound ==> r.value == decoded.value
      ensures r.Ok? ==>
        var img := decoded.value;
        var side := Min(img.width, img.height);
        var cropping := doCropCenter && img.width != img.height;
        var out := r.value;
        (doCropCenter ==> out.width == side && out.height == side) &&
        (!doCropCenter ==> out.width == img.width && out.height == img.height) &&
        |out.edits| == |img.edits| + (if cropping then 1 else 0) + (if doRound then 1 else 0) &&
        out.edits[..|img.edits|] == img.edits &&
        (cropping ==> out.edits[|img.edits|] == Cropped(CropCenter(img.width, img.height, side, side))) &&
        (doRound ==>
           var last := out.edits[|out.edits| - 1];
           last.RoundTrimmed? && last.smoothed &&
           Radius(if doCropCenter then side else img.width, roundRate) == Ok(last.radius) &&
           last.mask == MaskCommands(out.width, out.height, last.radius, last.radius))
    {
      if decoded.None? then
        Err(Undecodable)
      else
        var image := if doCropCenter then CropMaxSquare(decoded.value) else decoded.value;
        if !doRound then
          Ok(image)
        else
          var r := Radius(image.width, roundRate);
          if r.Err? then Err(r.error) else Ok(TrimRound(image, r.value, true))
    }
  }

  /** With cropping on, the newer preprocessor does exactly what the first generation's did. */
  lemma CroppingMatchesFirstGeneration(p: Preprocessor, decoded: Option<Image>)
    requires p.doCropCenter
    ensures p.Preprocess(decoded) == Img2Ico.Preprocess(decoded, p.doRound, p.roundRate)
  {
  }

  /** The folder a multi-page document goes to: the output path with its suffix dropped. */
  function PagesFolder(output: string): string
  {
    WithName(output, Stem(output))
  }

  /** `out_folder / f"{i}{fmt_out}"` */
  function PageDest(output: string, i: nat): string
  {
    JoinPath(PagesFolder(output), IntToString(i) + Suffix(output))
  }

  /**
   * What `convert_pdf` does with the rendered `pages`: one page is saved to
   * the output path; otherwise (zero pages included) a warning, the folder,
   * and page `i` saved as `<folder>/<i><suffix>`, in page order.
   */
  ghost predicate FansOut<P>(input: string, output: string, pages: seq<P>, effects: seq<Effect<P>>)
  {
    if |pages| == 1 then
      effects == [SavePage(pages[0], output, None)]
    else
      var folder := PagesFolder(output);
      |effects| == |pages| + 2 &&
      effects[0] == Log(Warning, PagesInFolder(input, folder)) && effects[1] == MakeDir(folder) &&
      forall i :: 0 <= i < |pages| ==> effects[i + 2] == SavePage(pages[i], PageDest(output, i), None)
  }

  /** `convert_pdf(img_input, img_output, options)`: saves the pages and returns them. */
  method ConvertPdf<P>(input: string, output: string, pages: seq<P>) returns (result: seq<P>, effects: seq<Effect<P>>)
    ensures result == pages
    ensures FansOut(input, output, pages, effects)
  {
    result := pages;
    if |pages| == 1 {
      effects := [SavePage(pages[0], output, None)];
    } else {
      var outFolder := WithName(output, Stem(output));
      var fmtOut := Suffix(output);
      effects := [Log(Warning, PagesInFolder(input, outFolder)), MakeDir(outFolder)];
      var i := 0;
      while i < |pages|
        invariant 0 <= i <= |pages|
        invariant |effects| == i + 2
        invariant effects[0] == Log(Warning, PagesInFolder(input, outFolder)) && effects[1] == MakeDir(outFolder)
        invariant forall k :: 0 <= k < i ==> effects[k + 2] == SavePage(pages[k], PageDest(output, k), None)
      {
        var dest := JoinPath(outFolder, IntToString(i) + fmtOut);
        assert dest == PageDest(output, i);
        ghost var before := effects;
        effects := effects + [SavePage(pages[i], dest, None)];
        assert effects[..i + 2] == before;
        i := i + 1;
      }
    }
  }

  /** Different pages go to different files. */
  lemma PageDestsDistinct(output: string, i: nat, j: nat)
    requires PageDest(output, i) == PageDest(output, j)
    ensures i == j
  {
    var folder, ext := PagesFolder(output), Suffix(output);
    var prefix := if folder != [] && folder[|folder| - 1] == '/' then folder else folder + "/";
    var si, sj := NatToString(i), NatToString(j);
    assert PageDest(output, i) == prefix + (si + ext);
    assert PageDest(output, j) == prefix + (sj + ext);
    assert si + ext == PageDest(output, i)[|prefix|..];
    assert sj + ext == PageDest(output, j)[|prefix|..];
    assert si == (si + ext)[..|si + ext| - |ext|];
    assert sj == (sj + ext)[..|sj + ext| - |ext|];
    NatToStringInjective(i, j);
  }

  /**
   * When the output has a suffix, the folder is named after the output's
   * stem, and page `i` sits in that folder with stem `i` and the output's
   * suffix.
   */
  lemma PageDestParts(output: string, i: nat)
    requires Suffix(output) != ""
    ensures Name(PagesFolder(output)) == Stem(output)
    ensures Parent(PageDest(output, i)) == PagesFolder(output)
    ensures Stem(PageDest(output, i)) == IntToString(i)
    ensures Suffix(PageDest(output, i)) == Suffix(output)
  {
    SuffixIsExtension(output);
    var stem, ext := Stem(output), Suffix(output);
    WithNameParts(output, stem);
    var folder := PagesFolder(output);
    assert folder[|folder| - 1] == stem[|stem| - 1];
    var digits := NatToString(i);
    assert PageDest(output, i) == folder + "/" + digits + ext;
    NameParts(folder, digits, ext);
  }

  /** The input suffixes handed to the imaging library. */
  const PillowExtensions: seq<string> :=
    [".bmp", ".eps", ".gif", ".icns", ".ico", ".im", ".jpeg", ".jpg", ".msp", ".pcx", ".png", ".sgi", ".xbm"]

  /** `convert_by_pillow(image, img_output)`: a refused save is logged, not raised. */
  function ConvertByPillow<P>(image: Image, output: string, saveOk: bool): (r: seq<Effect<P>>)
    ensures SaveImage(image, output) in r <==> saveOk
    ensures forall e :: e in r ==> e.SaveImage? || (e.Log? && e.level == Error)
    ensures !saveOk ==> Log(Error, SaveFailed) in r
  {
    if saveOk then [SaveImage(image, output)] else [Log(Error, SaveFailed), Log(Error, Traceback)]
  }

  /**
   * `convert(img_input, img_output, preprocessor, options)`.  `pages` is what
   * the PDF renderer returns for the input, `decoded` what `Image.open`
   * returns, and `saveOk` whether the imaging library accepts the save.  A
   * run that does not raise always ends with the "successfully converted"
   * record, whichever branch ran.
   */
  method Convert<P>(p: Preprocessor, input: string, output: string, pages: seq<P>, decoded: Option<Image>, saveOk: bool)
    returns (run: Run<P>)
    ensures var ext := Suffix(input);
      run.raised.Some? <==> ext != ".pdf" && ext in PillowExtensions && p.Preprocess(decoded).Err?
    ensures run.raised.None? ==> |run.effects| >= 1 && run.effects[|run.effects| - 1] == Log(Info, Converted(input, output))
    ensures Suffix(input) == ".pdf" ==> FansOut(input, output, pages, run.effects[..|run.effects| - 1])
    ensures Suffix(input) != ".pdf" && Suffix(input) in PillowExtensions ==>
      match p.Preprocess(decoded)
      case Ok(image) => run.effects == ConvertByPillow(image, output, saveOk) + [Log(Info, Converted(input, output))]
      case Err(Undecodable) => run == Run([Log(Error, OpenFailed(input)), Log(Error, Traceback)], Some(Undecodable))
      case Err(e) => run == Run([], Some(e))
    ensures Suffix(input) != ".pdf" && Suffix(input) !in PillowExtensions ==>
      run.effects == [Log(Error, NotPermitted(Suffix(input))), Log(Info, Converted(input, output))]
  {
    var inputFormat := Suffix(input);
    var done := Log(Info, Converted(input, output));
    if inputFormat == ".pdf" {
      var _, effects := ConvertPdf(input, output, pages);
      run := Run(effects + [done], None);
      assert run.effects[..|run.effects| - 1] == effects;
    } else if inputFormat in PillowExtensions {
      var image := p.Preprocess(decoded);
      match image
      case Ok(img) =>
        run := Run(ConvertByPillow(img, output, saveOk) + [done], None);
      case Err(Undecodable) =>
        run := Run([Log(Error, OpenFailed(input)), Log(Error, Traceback)], Some(Undecodable));
      case Err(e) =>
        run := Run([], Some(e));
    } else {
      run := Run([Log(Error, NotPermitted(inputFormat)), done], None);
    }
  }

  /** Why `resolve_output_file_path` raises. */
  datatype PathError = OutputIsDirectory   // `ValueError`: the expanded path names an existing directory

  const StemVar := "${stem}"
  const DirVar := "${dir}"

  /** The template with every `${stem}` expanded, and then every `${dir}`. */
  function Expand(input: string, out: string): string
  {
    ReplaceAll(ReplaceAll(out, StemVar, Stem(input)), DirVar, Parent(input))
  }

  /**
   * `resolve_output_file_path(img_input, out)`, with the file system's answer
   * to "is this an existing directory" given as `isDir`.
   */
  function ResolveOutputFilePath(input: string, out: string, isDir: string -> bool): (r: Result<string, PathError>)
    ensures r.Ok? ==> r.value == Expand(input, out) && !isDir(r.value)
    ensures r.Err? <==> isDir(Expand(input, out))
  {
    var expanded := Expand(input, out);
    if isDir(expanded) then Err(OutputIsDirectory) else Ok(expanded)
  }

  /** `s` has no `$`, so it holds no placeholder. */
  predicate Plain(s: string)
  {
    forall i :: 0 <= i < |s| ==> s[i] != '$'
  }

  /** A plain string is left alone by both expansions. */
  lemma PlainUnchanged(s: string, input: string)
    requires Plain(s)
    ensures ReplaceAll(s, StemVar, Stem(input)) == s
    ensures ReplaceAll(s, DirVar, Parent(input)) == s
  {
    FirstCharAbsent(s, StemVar);
    ReplaceAbsent(s, StemVar, Stem(input));
    FirstCharAbsent(s, DirVar);
    ReplaceAbsent(s, DirVar, Parent(input));
  }

  /** A template holding neither `${stem}` nor `${dir}` is the output path itself, whatever other `$` it has. */
  lemma ResolveWithoutPlaceholders(input: string, out: string, isDir: string -> bool)
    requires !Contains(out, StemVar) && !Contains(out, DirVar) && !isDir(out)
    ensures ResolveOutputFilePath(input, out, isDir) == Ok(out)
  {
    ReplaceAbsent(out, StemVar, Stem(input));
    ReplaceAbsent(out, DirVar, Parent(input));
  }

  /** An existing directory is refused, whatever the template. */
  lemma ResolveRefusesDirectory(input: string, out: string, isDir: string -> bool)
    requires isDir(Expand(input, out))
    ensures ResolveOutputFilePath(input, out, isDir) == Err(OutputIsDirectory)
  {
  }

  /** `${stem}` between plain text becomes the input's stem. */
  lemma ExpandStem(input: string, a: string, b: string)
    requires Plain(a) && Plain(b) && Plain(Stem(input))
    ensures Expand(input, a + StemVar + b) == a + Stem(input) + b
  {
    FirstCharAbsent(a, StemVar);
    FirstCharAbsent(b, StemVar);
    ReplaceOnce(a, b, StemVar, Stem(input));
    var s := a + Stem(input) + b;
    assert Plain(s) by {
      forall i | 0 <= i < |s| ensures s[i] != '$' {
        if i < |a| { assert s[i] == a[i]; }
        else if i < |a| + |Stem(input)| { assert s[i] == Stem(input)[i - |a|]; }
        else { assert s[i] == b[i - |a| - |Stem(input)|]; }
      }
    }
    PlainUnchanged(s, input);
  }

  /** `${dir}` followed by plain text holds no `${stem}`. */
  lemma NoStemVarAfterDirVar(m: string)
    requires Plain(m)
    ensures !Contains(DirVar + m, StemVar)
  {
    var t := DirVar + m;
    forall i | 0 <= i <= |t| - |StemVar| ensures !OccursAt(t, StemVar, i) {
      var w := t[i..i + |StemVar|];
      assert StemVar[0] == '$' && StemVar[2] == 's';
      if i == 0 {
        assert w[2] == DirVar[2] == 'd';
      } else if i < |DirVar| {
        assert w[0] == DirVar[i] != '$';
      } else {
        assert w[0] == m[i - |DirVar|];
      }
    }
  }

  /** Plain text stays plain around a plain stem. */
  lemma PlainConcat(a: string, b: string, c: string)
    requires Plain(a) && Plain(b) && Plain(c)
    ensures Plain(a + b + c)
  {
    var s := a + b + c;
    forall i | 0 <= i < |s| ensures s[i] != '$' {
      if i < |a| { assert s[i] == a[i]; }
      else if i < |a| + |b| { assert s[i] == b[i - |a|]; }
      else { assert s[i] == c[i - |a| - |b|]; }
    }
  }

  /** `${dir}` at the front of a template is replaced by `parent`, and plain text after it is kept. */
  lemma ReplaceLeadingDir(rest: string, parent: string)
    requires Plain(rest)
    ensures ReplaceAll(DirVar + rest, DirVar, parent) == parent + rest
  {
    assert StartsWith(DirVar + rest, DirVar);
    assert (DirVar + rest)[|DirVar|..] == rest;
    FirstCharAbsent(rest, DirVar);
    ReplaceAbsent(rest, DirVar, parent);
  }

  /** A template `${dir}<rest>` with plain `rest` becomes the input's parent directory followed by `rest`. */
  lemma ExpandDir(input: string, rest: string)
    requires Plain(rest)
    ensures Expand(input, DirVar + rest) == Parent(input) + rest
  {
    NoStemVarAfterDirVar(rest);
    ReplaceAbsent(DirVar + rest, StemVar, Stem(input));
    ReplaceLeadingDir(rest, Parent(input));
  }

  /** `${dir}` followed by non-empty plain text leaves no room for `${stem}` to begin in its last six characters. */
  lemma DirVarTailFree(m: string)
    requires Plain(m) && |m| > 0
    ensures TailFree(DirVar + m, StemVar[0], |StemVar| - 1)
  {
    var left := DirVar + m;
    forall i | 0 <= i < |left| && |left| - (|StemVar| - 1) <= i ensures left[i] != StemVar[0] {
      if i < |DirVar| { assert left[i] == DirVar[i]; }
      else { assert left[i] == m[i - |DirVar|]; }
    }
  }

  /** The two passes over `${dir}m${stem}b`, for any replacement texts. */
  lemma ReplaceDirAndStem(m: string, b: string, stem: string, parent: string)
    requires Plain(m) && Plain(b) && Plain(stem) && |m| > 0
    ensures ReplaceAll(ReplaceAll(DirVar + m + StemVar + b, StemVar, stem), DirVar, parent) == parent + m + stem + b
  {
    var left, right := DirVar + m, m + stem + b;
    assert ReplaceAll(left + StemVar + b, StemVar, stem) == DirVar + right by {
      NoStemVarAfterDirVar(m);
      DirVarTailFree(m);
      FirstCharAbsent(b, StemVar);
      ReplaceOnce(left, b, StemVar, stem);
      assert left + stem + b == DirVar + right;
    }
    assert ReplaceAll(DirVar + right, DirVar, parent) == parent + right by {
      PlainConcat(m, stem, b);
      ReplaceLeadingDir(right, parent);
    }
    assert parent + right == parent + m + stem + b;
  }

  /**
   * `${dir}m${stem}b` with plain `m` and `b`: both placeholders are
   * expanded, provided `m` is not empty and the stem holds no `$`.
   */
  lemma ExpandDirAndStem(input: string, m: string, b: string)
    requires Plain(m) && Plain(b) && Plain(Stem(input)) && |m| > 0
    ensures Expand(input, DirVar + m + StemVar + b) == Parent(input) + m + Stem(input) + b
  {
    ReplaceDirAndStem(m, b, Stem(input), Parent(input));
  }

  /**
   * The template `${dir}/${stem}<ext>` names a file beside the input with
   * the input's stem and the extension `ext` (when that stem is a plain name,
   * `Paths.NameParts` then reads the same stem, suffix and parent back).
   */
  lemma ResolveBesideInput(input: string, ext: string, isDir: string -> bool)
    requires Plain(ext) && Plain(Stem(input))
    requires !isDir(Parent(input) + "/" + Stem(input) + ext)
    ensures ResolveOutputFilePath(input, DirVar + "/" + StemVar + ext, isDir) == Ok(Parent(input) + "/" + Stem(input) + ext)
  {
    ReplaceDirAndStem("/", ext, Stem(input), Parent(input));
  }

  /**
   * `${stem}` is expanded first, so a stem that itself reads `${dir}` is
   * expanded again by the second pass.
   */
  lemma StemExpandedFirst(input: string)
    requires Stem(input) == DirVar
    ensures Expand(input, StemVar) == Parent(input)
  {
    assert !Contains("", StemVar) && !Contains("", DirVar);
    ReplaceOnce("", "", StemVar, DirVar);
    assert "" + StemVar + "" == StemVar && "" + DirVar + "" == DirVar;
    ReplaceOnce("", "", DirVar, Parent(input));
    assert "" + Parent(input) + "" == Parent(input);
  }
}
