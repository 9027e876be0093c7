/**
 * The `SeamFinder` contract: what a horizontal seam is, what it costs, and that a finder
 * returns one of least cost; a vertical seam is a horizontal seam of the transposed picture.
 * The searching finders themselves are not part of this model: a finder is any function
 * value, and `MeetsSeamFinderContract` is what each of them promises.
 */
module SeamFinding {

  /** A pixel colour, as the packed RGB integer the picture stores. */
  type Color = int

  /** A picture by columns: `pixels[x][y]` is the pixel in column `x`, row `y`. */
  datatype Picture = Picture(width: nat, height: nat, pixels: seq<seq<Color>>)

  predicate WellFormed(p: Picture)
  {
    |p.pixels| == p.width && forall x :: 0 <= x < p.width ==> |p.pixels[x]| == p.height
  }

  /** `Picture.transposed()`: rows become columns. */
  function Transposed(p: Picture): (r: Picture)
    requires WellFormed(p)
    ensures WellFormed(r) && r.width == p.height && r.height == p.width
    ensures forall x, y :: 0 <= x < r.width && 0 <= y < r.height ==> r.pixels[x][y] == p.pixels[y][x]
  {
    Picture(p.height, p.width,
      seq(p.height, (y: int) requires 0 <= y < p.height =>
        seq(p.width, (x: int) requires 0 <= x < p.width => p.pixels[x][y])))
  }

  lemma TransposedTwice(p: Picture)
    requires WellFormed(p)
    ensures Transposed(Transposed(p)) == p
  {
    var t := Transposed(Transposed(p));
    forall x | 0 <= x < p.width
      ensures t.pixels[x] == p.pixels[x]
    {
    }
  }

  /** An energy function: the cost of the pixel at column `x`, row `y`. */
  type EnergyFunction = (Picture, int, int) -> nat

  /** A seam finder: a horizontal seam, one row index per column. */
  type SeamFinder = (Picture, EnergyFunction) -> seq<int>

  /**
   * One row index per column, each inside the picture, neighbouring entries adjacent or
   * diagonally adjacent.
   */
  predicate ValidHorizontalSeam(p: Picture, seam: seq<int>)
  {
    && |seam| == p.width
    && (forall x :: 0 <= x < |seam| ==> 0 <= seam[x] < p.height)
    && (forall x :: 0 < x < |seam| ==> -1 <= seam[x] - seam[x - 1] <= 1)
  }

  /** One column index per row, each inside the picture, neighbours at most one apart. */
  predicate ValidVerticalSeam(p: Picture, seam: seq<int>)
  {
    && |seam| == p.height
    && (forall y :: 0 <= y < |seam| ==> 0 <= seam[y] < p.width)
    && (forall y :: 0 < y < |seam| ==> -1 <= seam[y] - seam[y - 1] <= 1)
  }

  /** The sum over the columns `x` of the energy of pixel `(x, seam[x])`. */
  function SeamEnergy(p: Picture, f: EnergyFunction, seam: seq<int>): nat
  {
    if seam == [] then 0
    else SeamEnergy(p, f, seam[..|seam| - 1]) + f(p, |seam| - 1, seam[|seam| - 1])
  }

  /** The sum over the rows `y` of the energy of pixel `(seam[y], y)`. */
  function VerticalSeamEnergy(p: Picture, f: EnergyFunction, seam: seq<int>): nat
  {
    if seam == [] then 0
    else VerticalSeamEnergy(p, f, seam[..|seam| - 1]) + f(p, seam[|seam| - 1], |seam| - 1)
  }

  ghost predicate IsMinimumHorizontalSeam(p: Picture, f: EnergyFunction, seam: seq<int>)
  {
    && ValidHorizontalSeam(p, seam)
    && forall s :: ValidHorizontalSeam(p, s) ==> SeamEnergy(p, f, seam) <= SeamEnergy(p, f, s)
  }

  /** A horizontal seam exists unless the picture has columns but no rows. */
  predicate HasHorizontalSeam(p: Picture)
  {
    WellFormed(p) && (p.height > 0 || p.width == 0)
  }

  /** `findHorizontal`: on every picture that has a seam, a seam of least energy. */
  ghost predicate MeetsSeamFinderContract(finder: SeamFinder)
  {
    forall p, f :: HasHorizontalSeam(p) ==> IsMinimumHorizontalSeam(p, f, finder(p, f))
  }

  lemma SeamExistsIff(p: Picture)
    requires WellFormed(p)
    ensures (exists s :: ValidHorizontalSeam(p, s)) <==> HasHorizontalSeam(p)
  {
    if HasHorizontalSeam(p) {
      var s := seq(p.width, x => 0);
      assert ValidHorizontalSeam(p, s);
    } else {
      forall s
        ensures !ValidHorizontalSeam(p, s)
      {
        assert |s| > 0 ==> !(0 <= s[0] < p.height);
      }
    }
  }

  /** Below any valid seam lies a seam of least energy. */
  lemma {:induction false} MinimumBelow(p: Picture, f: EnergyFunction, s: seq<int>)
    returns (m: seq<int>)
    requires ValidHorizontalSeam(p, s)
    ensures IsMinimumHorizontalSeam(p, f, m) && SeamEnergy(p, f, m) <= SeamEnergy(p, f, s)
    decreases SeamEnergy(p, f, s)
  {
    if IsMinimumHorizontalSeam(p, f, s) {
      m := s;
    } else {
      var t :| ValidHorizontalSeam(p, t) && SeamEnergy(p, f, t) < SeamEnergy(p, f, s);
      m := MinimumBelow(p, f, t);
    }
  }

  /** The finder contract can be met: every picture with a seam has a seam of least energy. */
  lemma MinimumSeamExists(p: Picture, f: EnergyFunction)
    requires HasHorizontalSeam(p)
    ensures exists m :: IsMinimumHorizontalSeam(p, f, m)
  {
    SeamExistsIff(p);
    var s :| ValidHorizontalSeam(p, s);
    var m := MinimumBelow(p, f, s);
  }

  lemma VerticalSeamsAreTransposedHorizontal(p: Picture)
    requires WellFormed(p)
    ensures forall s :: ValidVerticalSeam(p, s) <==> ValidHorizontalSeam(Transposed(p), s)
  {
  }

  /**
   * `findVertical`: the finder's horizontal seam of the transposed picture, which is a
   * vertical seam of the picture of least energy as the transposed picture measures it.
   */
  function FindVertical(finder: SeamFinder, p: Picture, f: EnergyFunction): (seam: seq<int>)
    requires WellFormed(p)
    ensures MeetsSeamFinderContract(finder) && (p.width > 0 || p.height == 0) ==>
      && ValidVerticalSeam(p, seam)
      && forall s :: ValidVerticalSeam(p, s) ==>
           SeamEnergy(Transposed(p), f, seam) <= SeamEnergy(Transposed(p), f, s)
  {
    VerticalSeamsAreTransposedHorizontal(p);
    finder(Transposed(p), f)
  }

  /**
   * For an energy function that does not care which way the picture is turned (as the
   * dual-gradient energy does not), the energy of a seam of the transposed picture is the
   * energy of the same pixels read as a vertical seam.
   */
  lemma {:induction false} TransposedSeamEnergy(p: Picture, f: EnergyFunction, seam: seq<int>)
    requires WellFormed(p)
    requires forall x, y :: f(Transposed(p), y, x) == f(p, x, y)
    ensures SeamEnergy(Transposed(p), f, seam) == VerticalSeamEnergy(p, f, seam)
    decreases |seam|
  {
    if seam != [] {
      TransposedSeamEnergy(p, f, seam[..|seam| - 1]);
    }
  }
}
