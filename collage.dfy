/** `create_collage` of scr/camera/camera_controller.py: the readable images
    are resized to one tile size and laid out `cols` per row for at most
    `rows` rows, rows joined with np.hstack and stacked with np.vstack.
    Resizing and stacking are abstract; the grid they are given is exact. */
module Collage {
  import opened Wrappers
  import opened Frames
  import opened Disk
  import opened PyText

  /** The pictures among `paths` that decode, in order. */
  function Readable(disk: Disk, paths: seq<string>): (images: seq<Picture>)
    ensures |images| <= |paths|
  {
    if paths == [] then []
    else
      var prev := Readable(disk, paths[..|paths| - 1]);
      match Read(disk, paths[|paths| - 1])
      case None => prev
      case Some(p) => prev + [p]
  }

  /** Python's `a // b`: the quotient rounded toward minus infinity. */
  function FloorDiv(a: int, b: int): (q: int)
    requires b != 0
    ensures b > 0 ==> q == a / b
    ensures a >= 0 && b < 0 ==> q <= 0
  {
    if b > 0 then a / b else (-a) / (-b)
  }

  /** The rows the loop `for i in range(rows)` builds: row `i` is
      `images[i*cols:(i+1)*cols]`, kept only when non-empty. */
  function GroupRows(images: seq<Picture>, cols: nat, count: nat): (g: seq<seq<Picture>>)
    requires cols > 0
    ensures |g| <= count
  {
    if count == 0 then []
    else
      var row := Slice(images, (count - 1) * cols, count * cols);
      GroupRows(images, cols, count - 1) + (if row == [] then [] else [row])
  }

  function Flatten(rows: seq<seq<Picture>>): seq<Picture> {
    if rows == [] then [] else Flatten(rows[..|rows| - 1]) + rows[|rows| - 1]
  }

  function MinNat(a: nat, b: nat): nat { if a < b then a else b }

  lemma MulMono(a: nat, b: nat, c: nat)
    requires a <= b
    ensures a * c <= b * c
  {
  }

  lemma MulSucc(k: nat, c: nat)
    ensures (k + 1) * c == k * c + c
  {
  }

  lemma {:induction false} FlattenSnoc(rows: seq<seq<Picture>>, row: seq<Picture>)
    ensures Flatten(rows + [row]) == Flatten(rows) + row
  {
    assert (rows + [row])[..|rows|] == rows;
  }

  /** What the grouping guarantees, for `g == GroupRows(images, cols, count)`:
      the rows read back in order are the first `count * cols` images (or all
      of them), no row is empty or longer than `cols`, and every row but the
      last is full. */
  predicate Grouped(images: seq<Picture>, cols: nat, count: nat, g: seq<seq<Picture>>) {
    && Flatten(g) == images[..MinNat(|images|, count * cols)]
    && (forall i :: 0 <= i < |g| ==> 0 < |g[i]| <= cols)
    && (forall i :: 0 <= i < |g| - 1 ==> |g[i]| == cols)
    && |g| <= count
    && (|g| < count ==> |images| <= |g| * cols)
    && (g != [] ==> |images| <= count * cols || |g[|g| - 1]| == cols)
  }

  /** A step of the loop that finds no image left keeps the grouping. */
  lemma GroupStepEmpty(images: seq<Picture>, cols: nat, k: nat, prev: seq<seq<Picture>>)
    requires cols > 0 && Grouped(images, cols, k, prev)
    requires Slice(images, k * cols, (k + 1) * cols) == []
    ensures Grouped(images, cols, k + 1, prev)
  {
    MulSucc(k, cols);
    assert |images| <= k * cols;
  }

  /** While images remain past row `k`, the `k` rows so far are all there. */
  lemma GroupedRowCount(images: seq<Picture>, cols: nat, k: nat, prev: seq<seq<Picture>>)
    requires cols > 0 && Grouped(images, cols, k, prev) && k * cols < |images|
    ensures |prev| == k
  {
    if |prev| < k {
      MulMono(|prev|, k - 1, cols);
      MulSucc(k - 1, cols);
      assert false;
    }
  }

  /** Appending row `k` extends the images read so far by that row. */
  lemma FlattenStep(images: seq<Picture>, cols: nat, k: nat, prev: seq<seq<Picture>>)
    requires cols > 0 && k * cols < |images|
    requires Flatten(prev) == images[..MinNat(|images|, k * cols)]
    ensures Flatten(prev + [Slice(images, k * cols, (k + 1) * cols)]) == images[..MinNat(|images|, (k + 1) * cols)]
  {
    var m := k * cols;
    MulSucc(k, cols);
    var row := Slice(images, m, m + cols);
    FlattenSnoc(prev, row);
    assert images[..MinNat(|images|, (k + 1) * cols)] == images[..m] + row;
  }

  /** Appending a non-empty row of at most `cols` after full rows keeps
      every row but the last full. */
  lemma RowWidthsStep(prev: seq<seq<Picture>>, row: seq<Picture>, cols: nat)
    requires forall i :: 0 <= i < |prev| ==> |prev[i]| == cols
    requires 0 < |row| <= cols && cols > 0
    ensures var g := prev + [row];
            && (forall i :: 0 <= i < |g| ==> 0 < |g[i]| <= cols)
            && (forall i :: 0 <= i < |g| - 1 ==> |g[i]| == cols)
  {
  }

  /** A step of the loop that finds images appends the next full (or final) row. */
  lemma GroupStepRow(images: seq<Picture>, cols: nat, k: nat, prev: seq<seq<Picture>>)
    requires cols > 0 && Grouped(images, cols, k, prev)
    requires Slice(images, k * cols, (k + 1) * cols) != []
    ensures Grouped(images, cols, k + 1, prev + [Slice(images, k * cols, (k + 1) * cols)])
  {
    var m := k * cols;
    MulSucc(k, cols);
    var row := Slice(images, m, m + cols);
    GroupedRowCount(images, cols, k, prev);
    FlattenStep(images, cols, k, prev);
    assert forall i :: 0 <= i < |prev| ==> |prev[i]| == cols by {
      if prev != [] {
        assert |prev[|prev| - 1]| == cols;
      }
    }
    RowWidthsStep(prev, row, cols);
  }

  /** The grouping reads the images in order, stops after `count * cols` of
      them, and fills every row but the last completely. */
  lemma {:induction false} GroupRowsShape(images: seq<Picture>, cols: nat, count: nat)
    requires cols > 0
    ensures Grouped(images, cols, count, GroupRows(images, cols, count))
  {
    if count > 0 {
      var k := count - 1;
      GroupRowsShape(images, cols, k);
      var prev := GroupRows(images, cols, k);
      var row := Slice(images, k * cols, (k + 1) * cols);
      var g := GroupRows(images, cols, count);
      assert g == prev + (if row == [] then [] else [row]);
      assert k + 1 == count;
      if row == [] {
        GroupStepEmpty(images, cols, k, prev);
        assert g == prev;
      } else {
        GroupStepRow(images, cols, k, prev);
        assert g == prev + [row];
      }
    } else {
      assert count * cols == 0;
    }
  }

  /** np.vstack accepts the rows only when they are all equally wide. */
  predicate SameWidth(rows: seq<seq<Picture>>) {
    forall i :: 0 <= i < |rows| ==> |rows[i]| == |rows[0]|
  }

  /** `create_collage` as a function: `Returned(None)` for no paths or no
      readable image; otherwise what the layout makes of the images read. */
  function CollageAsWritten(disk: Disk, paths: seq<string>, rows: int, cols: int): (r: Outcome<Option<Picture>>)
    ensures (paths == [] || Readable(disk, paths) == []) ==> r == Returned(None)
    ensures var images := Readable(disk, paths);
            images != [] && (rows == 0 || cols == 0) ==> r == Raised(ZeroDivisionError)
    ensures var images := Readable(disk, paths);
            images != [] && rows != 0 && cols != 0 ==>
              var tw, th := FloorDiv(PictureWidth(images[0]), cols), FloorDiv(PictureHeight(images[0]), rows);
              && (tw <= 0 || th <= 0 ==> r == Raised(OpenCvError))
              && (tw > 0 && th > 0 ==>
                    && rows > 0 && cols > 0
                    && (!SameWidth(GroupRows(images, cols, rows)) ==> r == Raised(ValueError))
                    && (SameWidth(GroupRows(images, cols, rows)) ==>
                          r == Returned(Some(Collage(GroupRows(images, cols, rows), tw, th)))))
    ensures r.Returned? && r.value.Some? ==>
              && rows > 0 && cols > 0 && r.value.value.Collage? && SameWidth(r.value.value.tiles)
              && r.value.value.tiles == GroupRows(Readable(disk, paths), cols, rows)
  {
    if paths == [] then Returned(None) else LayOut(Readable(disk, paths), rows, cols)
  }

  /** The layout step of `create_collage` on the images read: `None` when
      there is no image; `ZeroDivisionError` for a zero layout dimension
      (`w // cols`, `h // rows`); cv2.resize's error for a tile side that is
      not positive; np.vstack's `ValueError` for rows of unequal length;
      otherwise the grouped rows, each tile sized from the first image. */
  function LayOut(images: seq<Picture>, rows: int, cols: int): (r: Outcome<Option<Picture>>)
    ensures images == [] ==> r == Returned(None)
    ensures images != [] && (rows == 0 || cols == 0) ==> r == Raised(ZeroDivisionError)
    ensures images != [] && rows != 0 && cols != 0 ==>
              var tw, th := FloorDiv(PictureWidth(images[0]), cols), FloorDiv(PictureHeight(images[0]), rows);
              && (tw <= 0 || th <= 0 ==> r == Raised(OpenCvError))
              && (tw > 0 && th > 0 ==>
                    && rows > 0 && cols > 0
                    && (!SameWidth(GroupRows(images, cols, rows)) ==> r == Raised(ValueError))
                    && (SameWidth(GroupRows(images, cols, rows)) ==>
                          r == Returned(Some(Collage(GroupRows(images, cols, rows), tw, th)))))
    ensures r.Returned? && r.value.Some? ==>
              && rows > 0 && cols > 0 && r.value.value.Collage? && SameWidth(r.value.value.tiles)
              && r.value.value.tiles == GroupRows(images, cols, rows)
  {
    if images == [] then Returned(None)
    else if rows == 0 || cols == 0 then Raised(ZeroDivisionError)
    else
      var tw := FloorDiv(PictureWidth(images[0]), cols);
      var th := FloorDiv(PictureHeight(images[0]), rows);
      if tw <= 0 || th <= 0 then Raised(OpenCvError)
      else
        assert rows > 0 && cols > 0;
        var grid := GroupRows(images, cols, rows);
        // the first row always holds images[0], so `if collage_rows:` holds
        GroupRowsNonEmpty(images, cols, rows);
        if !SameWidth(grid) then Raised(ValueError)
        else Returned(Some(Collage(grid, tw, th)))
  }

  /** With an image and at least one row, the grouping has a row. */
  lemma {:induction false} GroupRowsNonEmpty(images: seq<Picture>, cols: nat, count: nat)
    requires images != [] && cols > 0 && count > 0
    ensures GroupRows(images, cols, count) != []
  {
    if count > 1 {
      GroupRowsNonEmpty(images, cols, count - 1);
    } else {
      assert Slice(images, 0, cols) != [];
    }
  }

  /** np.vstack fails exactly when there are at least two rows and the last
      is only partly filled. */
  lemma VStackFailsOnPartialLastRow(images: seq<Picture>, cols: nat, count: nat)
    requires cols > 0
    ensures var g := GroupRows(images, cols, count);
            !SameWidth(g) <==> |g| >= 2 && |g[|g| - 1]| < cols
  {
    var g := GroupRows(images, cols, count);
    GroupRowsShape(images, cols, count);
    WidthsOfGrouped(images, cols, count, g);
    SameWidthOfRows(g, cols);
  }

  lemma WidthsOfGrouped(images: seq<Picture>, cols: nat, count: nat, g: seq<seq<Picture>>)
    requires Grouped(images, cols, count, g)
    ensures forall i :: 0 <= i < |g| ==> 0 < |g[i]| <= cols
    ensures forall i :: 0 <= i < |g| - 1 ==> |g[i]| == cols
  {
  }

  /** Rows of at most `cols` tiles, all full but perhaps the last, are
      unequal exactly when there are two or more and the last is partial. */
  lemma SameWidthOfRows(g: seq<seq<Picture>>, cols: nat)
    requires forall i :: 0 <= i < |g| ==> 0 < |g[i]| <= cols
    requires forall i :: 0 <= i < |g| - 1 ==> |g[i]| == cols
    ensures !SameWidth(g) <==> |g| >= 2 && |g[|g| - 1]| < cols
  {
    if |g| >= 2 && |g[|g| - 1]| < cols {
      PartialLastRowIsNarrower(g, cols);
    } else {
      FullRowsAreEqual(g, cols);
    }
  }

  lemma PartialLastRowIsNarrower(g: seq<seq<Picture>>, cols: nat)
    requires |g| >= 2 && |g[0]| == cols && |g[|g| - 1]| < cols
    ensures !SameWidth(g)
  {
  }

  lemma FullRowsAreEqual(g: seq<seq<Picture>>, cols: nat)
    requires forall i :: 0 <= i < |g| ==> |g[i]| <= cols
    requires forall i :: 0 <= i < |g| - 1 ==> |g[i]| == cols
    requires |g| < 2 || |g[|g| - 1]| >= cols
    ensures SameWidth(g)
  {
    if |g| >= 2 {
      assert |g[|g| - 1]| == cols;
    }
  }

  /** The images past `rows * cols` never reach the collage, and the tiles
      read row by row are the readable images in order. */
  lemma CollageUsesImagesInOrder(disk: Disk, paths: seq<string>, rows: int, cols: int)
    requires CollageAsWritten(disk, paths, rows, cols).Returned?
    requires CollageAsWritten(disk, paths, rows, cols).value.Some?
    ensures rows > 0 && cols > 0
    ensures var images := Readable(disk, paths);
            Flatten(CollageAsWritten(disk, paths, rows, cols).value.value.tiles) ==
              images[..MinNat(|images|, rows * cols)]
  {
    GroupRowsShape(Readable(disk, paths), cols, rows);
  }

  /** `create_collage(image_paths, output_path, layout=(rows, cols))`.
      `encodable` is whether OpenCV has a writer for the extension of
      `output_path` (cv2.imwrite raises when it has none); `written` is
      what cv2.imwrite then achieves, and its result is ignored. */
  method CreateCollage(imagePaths: seq<string>, outputPath: string, rows: int, cols: int,
                       disk: Disk, encodable: bool, written: bool)
    returns (result: Outcome<Option<string>>, after: Disk)
    ensures var spec := CollageAsWritten(disk, imagePaths, rows, cols);
      && (spec.Raised? ==> result == Raised(spec.error) && after == disk)
      && (spec.Returned? && spec.value.None? ==> result == Returned(None) && after == disk)
      && (spec.Returned? && spec.value.Some? && !encodable ==> result == Raised(OpenCvError) && after == disk)
      && (spec.Returned? && spec.value.Some? && encodable ==>
            result == Returned(Some(outputPath)) && after == Write(disk, outputPath, spec.value.value, written))
  {
    if imagePaths == [] {
      return Returned(None), disk;
    }
    var images := ReadImages(imagePaths, disk);
    if images == [] {
      return Returned(None), disk;
    }
    if rows == 0 || cols == 0 {
      return Raised(ZeroDivisionError), disk;
    }
    var tw := FloorDiv(PictureWidth(images[0]), cols);
    var th := FloorDiv(PictureHeight(images[0]), rows);
    if tw <= 0 || th <= 0 {
      return Raised(OpenCvError), disk;
    }
    assert rows > 0 && cols > 0;
    var collageRows := BuildRows(images, rows, cols);
    // the first row always holds images[0], so `if collage_rows:` holds
    GroupRowsNonEmpty(images, cols, rows);
    if !SameWidth(collageRows) {
      return Raised(ValueError), disk;
    }
    if !encodable {
      return Raised(OpenCvError), disk;
    }
    after := Write(disk, outputPath, Collage(collageRows, tw, th), written);
    result := Returned(Some(outputPath));
  }

  /** The first loop of `create_collage`: `cv2.imread` on every path,
      keeping the images that decode. */
  method ReadImages(paths: seq<string>, disk: Disk) returns (images: seq<Picture>)
    ensures images == Readable(disk, paths)
  {
    images := [];
    for i := 0 to |paths|
      invariant images == Readable(disk, paths[..i])
    {
      assert paths[..i + 1][..i] == paths[..i];
      var img := Read(disk, paths[i]);
      if img.Some? {
        images := images + [img.value];
      }
    }
    assert paths[..|paths|] == paths;
  }

  /** The second loop of `create_collage`: one `np.hstack` row per
      non-empty slice of `cols` images, for `rows` slices. */
  method BuildRows(images: seq<Picture>, rows: int, cols: int) returns (collageRows: seq<seq<Picture>>)
    requires rows > 0 && cols > 0
    ensures collageRows == GroupRows(images, cols, rows)
  {
    collageRows := [];
    for i := 0 to rows
      invariant collageRows == GroupRows(images, cols, i)
    {
      var row := Slice(images, i * cols, (i + 1) * cols);
      assert GroupRows(images, cols, i + 1) == collageRows + (if row == [] then [] else [row]);
      if row != [] {
        collageRows := collageRows + [row];
      }
    }
  }

  /** The kiosk's three shots in the default 2x2 layout: the rows are
      [photo 1, photo 2] and [photo 3], and np.vstack raises. */
  lemma ThreePhotosInTwoByTwoRaise(disk: Disk, paths: seq<string>, a: Picture, b: Picture, c: Picture)
    requires |paths| == 3
    requires Read(disk, paths[0]) == Some(a) && Read(disk, paths[1]) == Some(b) && Read(disk, paths[2]) == Some(c)
    requires PictureWidth(a) >= 2 && PictureHeight(a) >= 2
    ensures CollageAsWritten(disk, paths, 2, 2) == Raised(ValueError)
  {
    assert paths[..2][..1] == paths[..1];
    assert paths[..1][..0] == [];
    assert paths[..3][..2] == paths[..2];
    assert Readable(disk, paths[..1]) == [a];
    assert Readable(disk, paths[..2]) == [a, b];
    assert paths[..3] == paths;
    assert Readable(disk, paths) == [a, b, c];
    var g := GroupRows([a, b, c], 2, 2);
    assert Slice([a, b, c], 0, 2) == [a, b];
    assert Slice([a, b, c], 2, 4) == [c];
    assert GroupRows([a, b, c], 2, 0) == [];
    assert GroupRows([a, b, c], 2, 1) == [[a, b]];
    assert g == [[a, b], [c]];
    assert |g[1]| != |g[0]|;
  }

  /** The evidently intended collage: the last row is padded with blank
      tiles, so every row holds `cols` tiles and np.vstack always succeeds. */
  function PadRow(row: seq<Picture>, cols: nat, blank: Picture): (r: seq<Picture>)
    ensures |row| <= cols ==> |r| == cols && r[..|row|] == row
    ensures |row| <= cols ==> forall j :: |row| <= j < cols ==> r[j] == blank
    ensures |row| > cols ==> r == row
  {
    if |row| >= cols then row else row + seq(cols - |row|, _ => blank)
  }

  function PadRows(grid: seq<seq<Picture>>, cols: nat, blank: Picture): (r: seq<seq<Picture>>)
    ensures |r| == |grid|
    ensures forall i :: 0 <= i < |grid| ==> r[i] == PadRow(grid[i], cols, blank)
  {
    seq(|grid|, i requires 0 <= i < |grid| => PadRow(grid[i], cols, blank))
  }

  function CollageCorrected(disk: Disk, paths: seq<string>, rows: int, cols: int): (r: Outcome<Option<Picture>>)
    ensures (paths == [] || Readable(disk, paths) == []) ==> r == Returned(None)
  {
    if paths == [] then Returned(None)
    else
      var images := Readable(disk, paths);
      if images == [] then Returned(None)
      else if rows == 0 || cols == 0 then Raised(ZeroDivisionError)
      else
        var tw := FloorDiv(PictureWidth(images[0]), cols);
        var th := FloorDiv(PictureHeight(images[0]), rows);
        if tw <= 0 || th <= 0 then Raised(OpenCvError)
        else
          assert rows > 0 && cols > 0;
          Returned(Some(Collage(PadRows(GroupRows(images, cols, rows), cols, Blank(tw, th)), tw, th)))
  }

  /** Padding leaves every row exactly `cols` tiles wide, its own tiles first. */
  lemma PadRowsRectangular(g: seq<seq<Picture>>, cols: nat, blank: Picture)
    requires forall i :: 0 <= i < |g| ==> |g[i]| <= cols
    ensures var r := PadRows(g, cols, blank);
            && SameWidth(r)
            && forall i :: 0 <= i < |g| ==> |r[i]| == cols && r[i][..|g[i]|] == g[i]
  {
    var r := PadRows(g, cols, blank);
    forall i | 0 <= i < |g|
      ensures |r[i]| == cols && r[i][..|g[i]|] == g[i]
    {
      assert r[i] == PadRow(g[i], cols, blank);
    }
  }

  /** The corrected collage, when it is produced, is the padded grid. */
  lemma CollageCorrectedValue(disk: Disk, paths: seq<string>, rows: int, cols: int)
    requires Readable(disk, paths) != []
    requires CollageCorrected(disk, paths, rows, cols).Returned?
    ensures rows > 0 && cols > 0
    ensures var images := Readable(disk, paths);
            var tw := FloorDiv(PictureWidth(images[0]), cols);
            var th := FloorDiv(PictureHeight(images[0]), rows);
            CollageCorrected(disk, paths, rows, cols) ==
              Returned(Some(Collage(PadRows(GroupRows(images, cols, rows), cols, Blank(tw, th)), tw, th)))
  {
    assert paths != [];
  }

  /** With a readable image and a usable layout the corrected collage is
      always produced: every row has exactly `cols` tiles, and row by row
      they are the readable images (at most `rows * cols` of them) followed
      by blank tiles. */
  lemma CollageCorrectedIsRectangular(disk: Disk, paths: seq<string>, rows: int, cols: int)
    requires Readable(disk, paths) != []
    requires CollageCorrected(disk, paths, rows, cols).Returned?
    ensures rows > 0 && cols > 0
    ensures var r := CollageCorrected(disk, paths, rows, cols);
            && r.value.Some? && r.value.value.Collage?
            && SameWidth(r.value.value.tiles)
            && forall i :: 0 <= i < |r.value.value.tiles| ==> |r.value.value.tiles[i]| == cols
    ensures var r := CollageCorrected(disk, paths, rows, cols);
            var images := Readable(disk, paths);
            var g := GroupRows(images, cols, rows);
            && Flatten(g) == images[..MinNat(|images|, rows * cols)]
            && |r.value.value.tiles| == |g|
            && forall i :: 0 <= i < |g| ==> r.value.value.tiles[i][..|g[i]|] == g[i]
  {
    CollageCorrectedValue(disk, paths, rows, cols);
    var images := Readable(disk, paths);
    var g := GroupRows(images, cols, rows);
    GroupRowsShape(images, cols, rows);
    var tw := FloorDiv(PictureWidth(images[0]), cols);
    var th := FloorDiv(PictureHeight(images[0]), rows);
    PadRowsRectangular(g, cols, Blank(tw, th));
  }
}
