/**
 * `convert_pdf2image` of the first generation (the `src` tree and both of
 * its bundles): a document of exactly one page is saved to the output path;
 * any other number of pages, zero included, logs a warning and saves page
 * `i` to `<parent>/<stem>_<i>`, passing the output's suffix as the format
 * because that name has no extension of its own.
 */
module Pdf2Img {
  import opened Results
  import opened Strings
  import opened Paths
  import opened Effects

  /** `f"{folder}/{stem}_{i}"` with `folder` and `stem` taken from the output path. */
  function PageDest(output: string, i: nat): string
  {
    Parent(output) + "/" + Stem(output) + "_" + IntToString(i)
  }

  /** `convert_pdf2image(img_input, img_output, dpi)` for the rendered `pages`. */
  method ConvertPdf2Image<P>(input: string, output: string, pages: seq<P>) returns (effects: seq<Effect<P>>)
    ensures |pages| == 1 ==> effects == [SavePage(pages[0], output, None)]
    ensures |pages| != 1 ==>
      |effects| == |pages| + 1 && effects[0] == Log(Warning, SplitIntoPages(input)) &&
      forall i :: 0 <= i < |pages| ==> effects[i + 1] == SavePage(pages[i], PageDest(output, i), Some(Suffix(output)))
  {
    var outputFormat := Some(Suffix(output));
    if |pages| == 1 {
      effects := [SavePage(pages[0], output, None)];
    } else {
      effects := [Log(Warning, SplitIntoPages(input))];
      var folder := Parent(output);
      var stem := Stem(output);
      var i := 0;
      while i < |pages|
        invariant 0 <= i <= |pages|
        invariant |effects| == i + 1 && effects[0] == Log(Warning, SplitIntoPages(input))
        invariant forall k :: 0 <= k < i ==> effects[k + 1] == SavePage(pages[k], PageDest(output, k), outputFormat)
      {
        var dest := folder + "/" + stem + "_" + IntToString(i);
        assert dest == PageDest(output, i);
        ghost var before := effects;
        effects := effects + [SavePage(pages[i], dest, outputFormat)];
        assert effects[..i + 1] == before;
        i := i + 1;
      }
    }
  }

  /** Different pages go to different files. */
  lemma PageDestsDistinct(output: string, i: nat, j: nat)
    requires PageDest(output, i) == PageDest(output, j)
    ensures i == j
  {
    var prefix := Parent(output) + "/" + Stem(output) + "_";
    assert PageDest(output, i) == prefix + NatToString(i);
    assert PageDest(output, j) == prefix + NatToString(j);
    assert NatToString(i) == PageDest(output, i)[|prefix|..];
    assert NatToString(j) == PageDest(output, j)[|prefix|..];
    NatToStringInjective(i, j);
  }

  /** Every page lands beside the output path, named after its stem and the page number. */
  lemma PageDestBesideOutput(output: string, i: nat)
    ensures Parent(PageDest(output, i)) == Parent(output)
    ensures Name(PageDest(output, i)) == Stem(output) + "_" + IntToString(i)
  {
    var folder, stem, digits := Parent(output), Stem(output), IntToString(i);
    assert digits == NatToString(i);
    PageNameParts(folder, stem, digits);
    assert PageDest(output, i) == folder + "/" + stem + "_" + digits;
  }

  /** The parts of `folder/stem_digits` for a `stem` without `/` and a string of digits. */
  lemma PageNameParts(folder: string, stem: string, digits: string)
    requires |folder| > 0
    requires forall k :: 0 <= k < |stem| ==> stem[k] != '/'
    requires forall k :: 0 <= k < |digits| ==> '0' <= digits[k] <= '9'
    ensures Parent(folder + "/" + stem + "_" + digits) == folder
    ensures Name(folder + "/" + stem + "_" + digits) == stem + "_" + digits
  {
    var n := stem + "_" + digits;
    forall k | 0 <= k < |n| ensures n[k] != '/' {
      if k > |stem| {
        assert n[k] == digits[k - |stem| - 1];
      }
    }
    assert folder + "/" + stem + "_" + digits == folder + "/" + n;
    ChildParts(folder, n);
  }

  /** A name of a dot-free stem, `_` and digits has no suffix. */
  lemma PageNameHasNoSuffix(p: string, stem: string, digits: string)
    requires Name(p) == stem + "_" + digits
    requires forall k :: 0 <= k < |stem| ==> stem[k] != '.'
    requires forall k :: 0 <= k < |digits| ==> '0' <= digits[k] <= '9'
    ensures Suffix(p) == ""
  {
    var n := stem + "_" + digits;
    forall k | 0 <= k < |n| ensures n[k] != '.' {
      if k < |stem| {
        assert n[k] == stem[k];
      } else if k > |stem| {
        assert n[k] == digits[k - |stem| - 1];
      }
    }
    assert LastIndexOf(n, '.') == -1;
  }

  /**
   * When the output's stem has no dot, a page file has no suffix at all,
   * which is why the format is passed to the save explicitly.
   */
  lemma PageDestHasNoSuffix(output: string, i: nat)
    requires forall k :: 0 <= k < |Stem(output)| ==> Stem(output)[k] != '.'
    ensures Suffix(PageDest(output, i)) == ""
  {
    PageDestBesideOutput(output, i);
    PageNameHasNoSuffix(PageDest(output, i), Stem(output), NatToString(i));
  }
}
