/**
 * The extraction driver of the image splitter: walk the squares of the best
 * tiling in order and ask the image library to crop each one into its own
 * file, named `<prefix><index>.jpg` with the index counting up from 0.
 *
 * Reading the image's metadata and the crop-and-save itself belong to the
 * image library; here the dimensions are parameters and the outcome of each
 * crop is given by `cropToFile` (true: the write succeeded, false: it was
 * rejected, which ends the run).
 */
module Driver {
  import opened Geometry

  // ---------------------------------------------------------------------------
  // Output file names
  // ---------------------------------------------------------------------------

  /** The character of a decimal digit. */
  function DigitChar(d: int): (c: char)
    requires 0 <= d < 10
  {
    ('0' as int + d) as char
  }

  predicate IsDigit(c: char)
  {
    '0' <= c <= '9'
  }

  /** The decimal text of a natural number, as a template literal renders it. */
  function DecimalString(n: nat): (s: string)
    ensures |s| >= 1
    ensures forall c :: c in s ==> IsDigit(c)
    ensures s[0] == '0' ==> n == 0 && s == "0"
  {
    if n < 10 then [DigitChar(n)] else DecimalString(n / 10) + [DigitChar(n % 10)]
  }

  /** The number a string of decimal digits denotes. */
  function DecimalValue(s: string): (n: int)
  {
    if s == [] then 0 else DecimalValue(s[..|s| - 1]) * 10 + (s[|s| - 1] as int - '0' as int)
  }

  /** Reading back the decimal text of n gives n. */
  lemma {:induction false} DecimalRoundTrip(n: nat)
    ensures DecimalValue(DecimalString(n)) == n
  {
    if n >= 10 {
      var s := DecimalString(n);
      assert s[..|s| - 1] == DecimalString(n / 10);
      DecimalRoundTrip(n / 10);
    }
  }

  /** The name of the i-th output file. */
  function OutputPath(prefix: string, i: nat): (path: string)
  {
    prefix + DecimalString(i) + ".jpg"
  }

  /** Distinct indices give distinct file names, so no output overwrites another. */
  lemma OutputPathInjective(prefix: string, i: nat, j: nat)
    ensures OutputPath(prefix, i) == OutputPath(prefix, j) <==> i == j
  {
    if OutputPath(prefix, i) == OutputPath(prefix, j) {
      var p, q := OutputPath(prefix, i), OutputPath(prefix, j);
      assert p[|prefix|..|p| - 4] == DecimalString(i);
      assert q[|prefix|..|q| - 4] == DecimalString(j);
      DecimalRoundTrip(i);
      DecimalRoundTrip(j);
    }
  }

  /** The first files of a run, and the first two-digit index. */
  lemma OutputPathExamples(prefix: string)
    ensures OutputPath(prefix, 0) == prefix + "0.jpg"
    ensures OutputPath(prefix, 1) == prefix + "1.jpg"
    ensures OutputPath(prefix, 10) == prefix + "10.jpg"
  {
  }

  // ---------------------------------------------------------------------------
  // The crop plan
  // ---------------------------------------------------------------------------

  /** One request to the image library: crop `region` and write it to `outputPath`. */
  datatype CropRequest = CropRequest(region: Square, outputPath: string)

  /** The requests of a complete run: the i-th square goes to the i-th output file. */
  function CropPlan(squares: seq<Square>, prefix: string): (plan: seq<CropRequest>)
  {
    seq(|squares|, i requires 0 <= i < |squares| => CropRequest(squares[i], OutputPath(prefix, i)))
  }

  /** The plan has one request per square, in order, and no two write the same file. */
  lemma CropPlanDistinctFiles(squares: seq<Square>, prefix: string)
    ensures |CropPlan(squares, prefix)| == |squares|
    ensures forall i :: 0 <= i < |squares| ==> CropPlan(squares, prefix)[i].region == squares[i]
    ensures forall i, j :: 0 <= i < |squares| && 0 <= j < |squares| && i != j ==>
      CropPlan(squares, prefix)[i].outputPath != CropPlan(squares, prefix)[j].outputPath
  {
    forall i, j | 0 <= i < |squares| && 0 <= j < |squares| && i != j
      ensures CropPlan(squares, prefix)[i].outputPath != CropPlan(squares, prefix)[j].outputPath
    {
      OutputPathInjective(prefix, i, j);
    }
  }

  /** For the best tiling, every requested region lies inside the image and none overlap. */
  lemma CropPlanWithinImage(w: int, h: int, prefix: string)
    requires w > 0 && h > 0
    ensures var plan := CropPlan(BestSquares(w, h), prefix);
      && |plan| >= 1
      && (forall i :: 0 <= i < |plan| ==> Within(plan[i].region, w, h))
      && (forall i, j :: 0 <= i < |plan| && 0 <= j < |plan| && i != j ==>
            !Overlap(plan[i].region, plan[j].region))
  {
    BestSquaresNonEmpty(w, h);
    BestSquaresWithin(w, h);
    BestSquaresDisjoint(w, h);
  }

  // ---------------------------------------------------------------------------
  // splitImage
  // ---------------------------------------------------------------------------

  /**
   * splitImage on an image of w by h pixels: the crop requests issued, in
   * order, the final value of the file counter, and whether every crop
   * succeeded. A rejected crop ends the run at once.
   */
  method SplitImage(w: int, h: int, prefix: string, cropToFile: (Square, string) -> bool)
    returns (issued: seq<CropRequest>, counter: nat, ok: bool)
    requires w > 0 && h > 0
    ensures counter == |issued| <= |BestSquares(w, h)|
    ensures issued == CropPlan(BestSquares(w, h), prefix)[..counter]
    ensures ok ==> (
      && counter == |BestSquares(w, h)|
      && forall n :: 0 <= n < counter ==> cropToFile(issued[n].region, issued[n].outputPath))
    ensures !ok ==> (
      && 0 < counter
      && !cropToFile(issued[counter - 1].region, issued[counter - 1].outputPath)
      && forall n :: 0 <= n < counter - 1 ==> cropToFile(issued[n].region, issued[n].outputPath))
  {
    var squares := BestSquares(w, h);
    ghost var plan := CropPlan(squares, prefix);
    issued, counter, ok := [], 0, true;
    var index := 0;
    while index < |squares|
      invariant index == counter == |issued| <= |squares|
      invariant issued == plan[..counter]
      invariant forall n :: 0 <= n < counter ==> cropToFile(issued[n].region, issued[n].outputPath)
    {
      var square := squares[index];
      var outputPath := OutputPath(prefix, counter);
      counter := counter + 1;
      issued := issued + [CropRequest(square, outputPath)];
      assert issued == plan[..counter];
      if !cropToFile(square, outputPath) {
        ok := false;
        return;
      }
      index := index + 1;
    }
  }
}
