/**
 * `SeamCarver`: holds a picture, an energy function and a seam finder, and shrinks the
 * picture by one row (`RemoveHorizontal`) or one column (`RemoveVertical`) at a time by
 * copying every pixel except those on a least-energy seam into a new picture.
 */
module Carving {
  import opened Wrappers
  import opened SeamFinding

  /** Two well-formed pictures of the same size with the same pixels are equal. */
  lemma SamePicture(a: Picture, b: Picture)
    requires WellFormed(a) && WellFormed(b) && a.width == b.width && a.height == b.height
    requires forall x, y :: 0 <= x < a.width && 0 <= y < a.height ==> a.pixels[x][y] == b.pixels[x][y]
    ensures a == b
  {
    forall x | 0 <= x < a.width
      ensures a.pixels[x] == b.pixels[x]
    {
    }
  }

  /** A column with the pixel at row `i` taken out. */
  function DeleteAt(column: seq<Color>, i: int): (r: seq<Color>)
    requires 0 <= i < |column|
    ensures |r| == |column| - 1
    ensures forall y :: 0 <= y < |r| ==> r[y] == if y < i then column[y] else column[y + 1]
  {
    column[..i] + column[i + 1..]
  }

  function InsertAt(column: seq<Color>, i: int, c: Color): seq<Color>
    requires 0 <= i <= |column|
  {
    column[..i] + [c] + column[i..]
  }

  /** Taking a pixel out and putting it back gives the column back. */
  lemma InsertUndoesDelete(column: seq<Color>, i: int)
    requires 0 <= i < |column|
    ensures InsertAt(DeleteAt(column, i), i, column[i]) == column
  {
    assert column == column[..i] + [column[i]] + column[i + 1..];
  }

  /**
   * The removal loops touch `seam[x]` for every column `x` of the picture and then read or
   * write the rows on both sides of it, so they run through exactly when this holds; extra
   * entries past the width are never read.
   */
  predicate HorizontalSeamFits(p: Picture, seam: seq<int>)
  {
    |seam| >= p.width && forall x :: 0 <= x < p.width ==> 0 <= seam[x] < p.height
  }

  predicate VerticalSeamFits(p: Picture, seam: seq<int>)
  {
    |seam| >= p.height && forall y :: 0 <= y < p.height ==> 0 <= seam[y] < p.width
  }

  lemma ValidSeamsFit(p: Picture, seam: seq<int>)
    ensures ValidHorizontalSeam(p, seam) ==> HorizontalSeamFits(p, seam)
    ensures ValidVerticalSeam(p, seam) ==> VerticalSeamFits(p, seam)
  {
  }

  /**
   * The picture one row shorter: in column `x`, rows above `seam[x]` are kept where they
   * are and rows below it move up by one.
   */
  function RemoveHorizontalSeam(p: Picture, seam: seq<int>): (r: Picture)
    requires WellFormed(p) && p.height > 0 && HorizontalSeamFits(p, seam)
    ensures WellFormed(r) && r.width == p.width && r.height == p.height - 1
    ensures forall x, y :: 0 <= x < r.width && 0 <= y < r.height ==>
      r.pixels[x][y] == if y < seam[x] then p.pixels[x][y] else p.pixels[x][y + 1]
  {
    Picture(p.width, p.height - 1,
      seq(p.width, (x: int) requires 0 <= x < p.width => DeleteAt(p.pixels[x], seam[x])))
  }

  /**
   * The picture one column narrower: in row `y`, columns left of `seam[y]` are kept where
   * they are and columns right of it move left by one.
   */
  function RemoveVerticalSeam(p: Picture, seam: seq<int>): (r: Picture)
    requires WellFormed(p) && p.width > 0 && VerticalSeamFits(p, seam)
    ensures WellFormed(r) && r.width == p.width - 1 && r.height == p.height
    ensures forall x, y :: 0 <= x < r.width && 0 <= y < r.height ==>
      r.pixels[x][y] == if x < seam[y] then p.pixels[x][y] else p.pixels[x + 1][y]
  {
    Picture(p.width - 1, p.height,
      seq(p.width - 1, (x: int) requires 0 <= x < p.width - 1 =>
        seq(p.height, (y: int) requires 0 <= y < p.height =>
          if x < seam[y] then p.pixels[x][y] else p.pixels[x + 1][y])))
  }

  /** The seam's pixels, one per column, in column order. */
  function SeamPixels(p: Picture, seam: seq<int>): (r: seq<Color>)
    requires WellFormed(p) && HorizontalSeamFits(p, seam)
    ensures |r| == p.width
  {
    seq(p.width, (x: int) requires 0 <= x < p.width => p.pixels[x][seam[x]])
  }

  /** Putting the seam's pixels back into the carved picture restores the original. */
  lemma RemovalLosesOnlyTheSeam(p: Picture, seam: seq<int>)
    requires WellFormed(p) && p.height > 0 && HorizontalSeamFits(p, seam)
    ensures var r := RemoveHorizontalSeam(p, seam);
      var c := SeamPixels(p, seam);
      forall x :: 0 <= x < p.width ==> InsertAt(r.pixels[x], seam[x], c[x]) == p.pixels[x]
  {
    forall x | 0 <= x < p.width
      ensures InsertAt(RemoveHorizontalSeam(p, seam).pixels[x], seam[x], SeamPixels(p, seam)[x]) == p.pixels[x]
    {
      InsertUndoesDelete(p.pixels[x], seam[x]);
    }
  }

  /** Removing a vertical seam is removing the same seam horizontally from the transposed picture. */
  lemma VerticalRemovalMirrorsHorizontal(p: Picture, seam: seq<int>)
    requires WellFormed(p) && p.width > 0 && VerticalSeamFits(p, seam)
    ensures HorizontalSeamFits(Transposed(p), seam)
    ensures RemoveVerticalSeam(p, seam) == Transposed(RemoveHorizontalSeam(Transposed(p), seam))
  {
    var t := Transposed(p);
    assert HorizontalSeamFits(t, seam);
    SamePicture(RemoveVerticalSeam(p, seam), Transposed(RemoveHorizontalSeam(t, seam)));
  }

  class SeamCarver {
    const f: EnergyFunction
    const finder: SeamFinder
    /** `picture[x, y]`: column `x`, row `y`. */
    var picture: array2<Color>

    /** The current picture as a value. */
    function Snapshot(): (p: Picture)
      reads this, picture
      ensures WellFormed(p) && p.width == picture.Length0 && p.height == picture.Length1
      ensures forall x, y :: 0 <= x < p.width && 0 <= y < p.height ==> p.pixels[x][y] == picture[x, y]
    {
      var a := picture;
      Picture(a.Length0, a.Length1,
        seq(a.Length0, (x: int) requires 0 <= x < a.Length0 reads a =>
          seq(a.Length1, (y: int) requires 0 <= y < a.Length1 reads a => a[x, y])))
    }

    constructor (p: Picture, f: EnergyFunction, finder: SeamFinder)
      requires WellFormed(p)
      ensures Snapshot() == p && this.f == f && this.finder == finder && fresh(picture)
    {
      this.f := f;
      this.finder := finder;
      var a := new Color[p.width, p.height]((x: int, y: int) requires 0 <= x < p.width && 0 <= y < p.height => p.pixels[x][y]);
      picture := a;
      new;
      SamePicture(Snapshot(), p);
    }

    /**
     * The constructor: the file (already decoded into a picture), the energy function and
     * the seam finder must all be present.
     */
    static method Open(file: Option<Picture>, f: Option<EnergyFunction>, finder: Option<SeamFinder>)
      returns (r: Result<SeamCarver>)
      requires file.Some? ==> WellFormed(file.value)
      ensures r.Failure? <==> file.None? || f.None? || finder.None?
      ensures r.Failure? ==> r.error == IllegalArgument
      ensures r.Success? ==>
        && fresh(r.value) && fresh(r.value.picture)
        && r.value.Snapshot() == file.value && r.value.f == f.value && r.value.finder == finder.value
    {
      if file.None? || f.None? || finder.None? {
        return Failure(IllegalArgument);
      }
      var carver := new SeamCarver(file.value, f.value, finder.value);
      return Success(carver);
    }

    /** The copy loops of `removeHorizontal`: every column without its seam pixel, into a new array. */
    static method CopyAroundHorizontalSeam(a: array2<Color>, seam: seq<int>, ghost before: Picture)
      returns (result: array2<Color>)
      requires WellFormed(before) && before.width == a.Length0 && before.height == a.Length1
      requires forall x, y :: 0 <= x < a.Length0 && 0 <= y < a.Length1 ==> before.pixels[x][y] == a[x, y]
      requires a.Length1 > 0 && HorizontalSeamFits(before, seam)
      ensures fresh(result)
      ensures result.Length0 == a.Length0 && result.Length1 == a.Length1 - 1
      ensures forall x, y :: 0 <= x < result.Length0 && 0 <= y < result.Length1 ==>
        result[x, y] == RemoveHorizontalSeam(before, seam).pixels[x][y]
    {
      var w, h := a.Length0, a.Length1;
      ghost var expected := RemoveHorizontalSeam(before, seam);
      result := new Color[w, h - 1];
      for x := 0 to w
        invariant forall i, j :: 0 <= i < x && 0 <= j < h - 1 ==> result[i, j] == expected.pixels[i][j]
      {
        for y := 0 to seam[x]
          invariant forall i, j :: 0 <= i < x && 0 <= j < h - 1 ==> result[i, j] == expected.pixels[i][j]
          invariant forall j :: 0 <= j < y ==> result[x, j] == expected.pixels[x][j]
        {
          result[x, y] := a[x, y];
        }
        for y := seam[x] to h - 1
          invariant forall i, j :: 0 <= i < x && 0 <= j < h - 1 ==> result[i, j] == expected.pixels[i][j]
          invariant forall j :: 0 <= j < y ==> result[x, j] == expected.pixels[x][j]
        {
          result[x, y] := a[x, y + 1];
        }
      }
    }

    /**
     * Removes the finder's horizontal seam and returns it. A picture without rows cannot
     * lose one, and a seam that leaves the picture makes the copy fail; either way the
     * picture is left as it was.
     */
    method RemoveHorizontal() returns (r: Result<seq<int>>)
      modifies this
      ensures var before := old(Snapshot());
        var seam := finder(before, f);
        && (before.height == 0 ==> r == Failure(IllegalArgument))
        && (before.height > 0 && !HorizontalSeamFits(before, seam) ==> r == Failure(IndexOutOfBounds))
        && (r.Success? <==> before.height > 0 && HorizontalSeamFits(before, seam))
        && (r.Failure? ==> picture == old(picture))
        && (r.Success? ==> r.value == seam && fresh(picture) && Snapshot() == RemoveHorizontalSeam(before, seam))
      ensures MeetsSeamFinderContract(finder) && old(picture.Length1) > 0 ==>
        r.Success? && IsMinimumHorizontalSeam(old(Snapshot()), f, r.value)
    {
      var before := Snapshot();
      var seam := finder(before, f);
      var a := picture;
      var w, h := a.Length0, a.Length1;
      if h == 0 {
        return Failure(IllegalArgument);
      }
      if |seam| < w || exists x :: 0 <= x < w && !(0 <= seam[x] < h) {
        return Failure(IndexOutOfBounds);
      }
      var result := CopyAroundHorizontalSeam(a, seam, before);
      picture := result;
      SamePicture(Snapshot(), RemoveHorizontalSeam(before, seam));
      r := Success(seam);
    }

    /** The copy loops of `removeVertical`: every row without its seam pixel, into a new array. */
    static method CopyAroundVerticalSeam(a: array2<Color>, seam: seq<int>, ghost before: Picture)
      returns (result: array2<Color>)
      requires WellFormed(before) && before.width == a.Length0 && before.height == a.Length1
      requires forall x, y :: 0 <= x < a.Length0 && 0 <= y < a.Length1 ==> before.pixels[x][y] == a[x, y]
      requires a.Length0 > 0 && VerticalSeamFits(before, seam)
      ensures fresh(result)
      ensures result.Length0 == a.Length0 - 1 && result.Length1 == a.Length1
      ensures forall x, y :: 0 <= x < result.Length0 && 0 <= y < result.Length1 ==>
        result[x, y] == RemoveVerticalSeam(before, seam).pixels[x][y]
    {
      var w, h := a.Length0, a.Length1;
      ghost var expected := RemoveVerticalSeam(before, seam);
      result := new Color[w - 1, h];
      for y := 0 to h
        invariant forall i, j :: 0 <= i < w - 1 && 0 <= j < y ==> result[i, j] == expected.pixels[i][j]
      {
        CopyRowAroundSeam(a, result, y, seam[y]);
        forall i | 0 <= i < w - 1
          ensures result[i, y] == expected.pixels[i][y]
        {
          assert result[i, y] == if i < seam[y] then a[i, y] else a[i + 1, y];
        }
      }
    }

    /** The two copy loops for one row `y`: the columns left of `s`, then those right of it, shifted left. */
    static method CopyRowAroundSeam(a: array2<Color>, result: array2<Color>, y: int, s: int)
      requires result != a && result.Length0 == a.Length0 - 1 && result.Length1 == a.Length1
      requires 0 <= y < a.Length1 && 0 <= s < a.Length0
      modifies result
      ensures forall i {:trigger result[i, y]} :: 0 <= i < result.Length0 ==>
        result[i, y] == if i < s then a[i, y] else a[i + 1, y]
      ensures forall i, j :: 0 <= i < result.Length0 && 0 <= j < result.Length1 && j != y ==>
        result[i, j] == old(result[i, j])
    {
      for x := 0 to s
        invariant forall i :: 0 <= i < x ==> result[i, y] == a[i, y]
        invariant forall i, j :: 0 <= i < result.Length0 && 0 <= j < result.Length1 && j != y ==>
          result[i, j] == old(result[i, j])
      {
        result[x, y] := a[x, y];
      }
      for x := s to a.Length0 - 1
        invariant forall i :: 0 <= i < s ==> result[i, y] == a[i, y]
        invariant forall i :: s <= i < x ==> result[i, y] == a[i + 1, y]
        invariant forall i, j :: 0 <= i < result.Length0 && 0 <= j < result.Length1 && j != y ==>
          result[i, j] == old(result[i, j])
      {
        result[x, y] := a[x + 1, y];
      }
    }

    /**
     * Removes the finder's vertical seam (its horizontal seam of the transposed picture)
     * and returns it; failures as for `RemoveHorizontal`, with columns for rows.
     */
    method RemoveVertical() returns (r: Result<seq<int>>)
      modifies this
      ensures var before := old(Snapshot());
        var seam := FindVertical(finder, before, f);
        && (before.width == 0 ==> r == Failure(IllegalArgument))
        && (before.width > 0 && !VerticalSeamFits(before, seam) ==> r == Failure(IndexOutOfBounds))
        && (r.Success? <==> before.width > 0 && VerticalSeamFits(before, seam))
        && (r.Failure? ==> picture == old(picture))
        && (r.Success? ==> r.value == seam && fresh(picture) && Snapshot() == RemoveVerticalSeam(before, seam))
      ensures MeetsSeamFinderContract(finder) && old(picture.Length0) > 0 ==>
        r.Success? && ValidVerticalSeam(old(Snapshot()), r.value)
    {
      var before := Snapshot();
      var seam := FindVertical(finder, before, f);
      var a := picture;
      var w, h := a.Length0, a.Length1;
      if w == 0 {
        return Failure(IllegalArgument);
      }
      if |seam| < h || exists y :: 0 <= y < h && !(0 <= seam[y] < w) {
        return Failure(IndexOutOfBounds);
      }
      var result := CopyAroundVerticalSeam(a, seam, before);
      picture := result;
      SamePicture(Snapshot(), RemoveVerticalSeam(before, seam));
      r := Success(seam);
    }
  }

  predicate SizeInRange(size: int, max: int)
  {
    3 <= size <= max
  }

  /**
   * `promptForSize`: reads sizes until one lies in `[3, max]` and answers it; `inputs` are
   * the integers the console supplies, and running out of them fails as the scanner does.
   */
  method PromptForSize(inputs: seq<int>, max: int) returns (r: Result<int>)
    ensures r.Success? ==> SizeInRange(r.value, max)
    ensures r.Success? ==>
      exists i :: 0 <= i < |inputs| && inputs[i] == r.value && forall j :: 0 <= j < i ==> !SizeInRange(inputs[j], max)
    ensures r.Failure? <==> forall j :: 0 <= j < |inputs| ==> !SizeInRange(inputs[j], max)
    ensures r.Failure? ==> r.error == NoSuchElement
  {
    var i := 0;
    while i < |inputs|
      invariant 0 <= i <= |inputs|
      invariant forall j :: 0 <= j < i ==> !SizeInRange(inputs[j], max)
    {
      var size := inputs[i];
      if 3 <= size && size <= max {
        return Success(size);
      }
      i := i + 1;
    }
    return Failure(NoSuchElement);
  }
}
