/**
 * `main` of the first generation (`src/main.py` and the same function in
 * both bundles): the input's suffix is tested first, then the output's, with
 * exact, case-sensitive string comparison.
 */
module CliMain {
  import opened Results
  import opened Paths
  import opened Raster
  import opened Effects
  import Img2Ico
  import Pdf2Img

  /** Which branch of `main` runs. */
  datatype Route = PdfRoute | IcoRoute | Rejected

  /** The `if`/`elif`/`else` of `main` on the two suffixes. */
  function ChooseRoute(inputSuffix: string, outputSuffix: string): (r: Route)
    ensures r == PdfRoute <==> inputSuffix == ".pdf"
    ensures r == IcoRoute <==> inputSuffix != ".pdf" && outputSuffix == ".ico"
    ensures r == Rejected <==> inputSuffix != ".pdf" && outputSuffix != ".ico"
  {
    if inputSuffix == ".pdf" then PdfRoute
    else if outputSuffix == ".ico" then IcoRoute
    else Rejected
  }

  /**
   * `main()` for one input and one output path.  `pages` is what the PDF
   * renderer returns for the input and `decoded` what `Image.open` returns;
   * each is consulted only on its own branch.
   */
  method Dispatch<P>(input: string, output: string, pages: seq<P>, decoded: Option<Image>, doRound: bool, roundRate: int)
    returns (run: Run<P>)
    ensures ChooseRoute(Suffix(input), Suffix(output)) == PdfRoute ==>
      run.raised.None? && |run.effects| >= 2 && run.effects[0] == Log(Info, ConvertingPdf) &&
      (|pages| == 1 ==> run.effects == [Log(Info, ConvertingPdf), SavePage(pages[0], output, None)]) &&
      (|pages| != 1 ==>
         |run.effects| == |pages| + 2 && run.effects[1] == Log(Warning, SplitIntoPages(input)) &&
         forall i :: 0 <= i < |pages| ==>
           run.effects[i + 2] == SavePage(pages[i], Pdf2Img.PageDest(output, i), Some(Suffix(output))))
    ensures ChooseRoute(Suffix(input), Suffix(output)) == IcoRoute ==>
      var c := Img2Ico.ConvertImg2Ico<P>(decoded, output, doRound, roundRate);
      run == Run([Log(Info, ConvertingIco)] + c.effects, c.raised)
    ensures ChooseRoute(Suffix(input), Suffix(output)) == Rejected ==>
      run == Run([Log(Error, UnsupportedExtension(Suffix(input)))], None)
  {
    var inputFormat := Suffix(input);
    var outputFormat := Suffix(output);
    if inputFormat == ".pdf" {
      var effects := Pdf2Img.ConvertPdf2Image(input, output, pages);
      run := Run([Log(Info, ConvertingPdf)] + effects, None);
    } else if outputFormat == ".ico" {
      var c := Img2Ico.ConvertImg2Ico<P>(decoded, output, doRound, roundRate);
      run := Run([Log(Info, ConvertingIco)] + c.effects, c.raised);
    } else {
      run := Run([Log(Error, UnsupportedExtension(inputFormat))], None);
    }
  }

  /**
   * Upper-case extensions match neither test: `scan.PDF` to `icon.ICO` is
   * rejected, for any directories and stems.
   */
  lemma UpperCaseIsRejected(inDir: string, inStem: string, outDir: string, outStem: string)
    requires |inStem| > 0 && inStem[0] != '.' && forall i :: 0 <= i < |inStem| ==> inStem[i] != '/'
    requires |outStem| > 0 && outStem[0] != '.' && forall i :: 0 <= i < |outStem| ==> outStem[i] != '/'
    ensures ChooseRoute(Suffix(inDir + "/" + inStem + ".PDF"), Suffix(outDir + "/" + outStem + ".ICO")) == Rejected
  {
    NameParts(inDir, inStem, ".PDF");
    NameParts(outDir, outStem, ".ICO");
  }

  /** A PDF input takes the PDF branch even when the output asks for an icon. */
  lemma PdfBeforeIco(inDir: string, inStem: string, output: string)
    requires |inStem| > 0 && inStem[0] != '.' && forall i :: 0 <= i < |inStem| ==> inStem[i] != '/'
    ensures ChooseRoute(Suffix(inDir + "/" + inStem + ".pdf"), Suffix(output)) == PdfRoute
  {
    NameParts(inDir, inStem, ".pdf");
  }

  /** A file named just `.pdf` has no suffix in pathlib's sense, so it is not treated as a PDF. */
  lemma DotfileIsNotPdf(input: string, output: string)
    requires Name(input) == ".pdf" && Suffix(output) != ".ico"
    ensures ChooseRoute(Suffix(input), Suffix(output)) == Rejected
  {
    DotfileHasNoSuffix(input);
  }

  /** A name whose only dot is its first character has no suffix. */
  lemma DotfileHasNoSuffix(p: string)
    requires |Name(p)| > 0 && Name(p)[0] == '.'
    requires forall i :: 0 < i < |Name(p)| ==> Name(p)[i] != '.'
    ensures Suffix(p) == ""
  {
    LastIndexOfAt(Name(p), '.', 0);
  }
}
