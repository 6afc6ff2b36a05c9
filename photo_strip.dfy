/** `create_photo_strip` of scr/camera/camera_controller.py: three photos,
    each pasted twice (left and right column) over a template stretched to a
    1200x1800 canvas. Pixels are abstract: the strip is the template plus the
    ordered list of pastes, and `ShownAt` says which picture is visible at a
    canvas point. */
module PhotoStrip {
  import opened Wrappers
  import opened Frames
  import opened Disk

  const SlotSize: int := 460

  /** `left_positions`: the left column, top to bottom. */
  const LeftPositions: seq<Rect> := [Rect(75, 55, 460, 460), Rect(75, 545, 460, 460), Rect(75, 1035, 460, 460)]

  /** `right_positions`: the right column, top to bottom. */
  const RightPositions: seq<Rect> := [Rect(675, 55, 460, 460), Rect(675, 545, 460, 460), Rect(675, 1035, 460, 460)]

  /** The six slots: 460x460 squares inside the canvas, no two overlapping. */
  function Slots(): (slots: seq<Rect>)
    ensures |slots| == 6
    ensures forall k :: 0 <= k < 6 ==>
              slots[k].InsideCanvas(StripCanvasWidth, StripCanvasHeight) && slots[k].w == slots[k].h == SlotSize
    ensures forall k, l :: 0 <= k < l < 6 ==> slots[k].DisjointFrom(slots[l])
  {
    LeftPositions + RightPositions
  }

  /** Each right slot is its left slot moved 600 pixels to the right: the
      two halves of the print are the same strip. */
  lemma RightColumnRepeatsLeft(i: int)
    requires 0 <= i < 3
    ensures RightPositions[i] == LeftPositions[i].(x := LeftPositions[i].x + 600)
  {
  }

  /** The picture visible at canvas point (x, y) once `ps` has been pasted
      over `canvas` in order: the last paste that covers it, else the canvas. */
  function ShownAt(canvas: Picture, ps: seq<Placement>, x: int, y: int): Picture {
    if ps == [] then canvas
    else if ps[|ps| - 1].slot.Contains(x, y) then ps[|ps| - 1].photo
    else ShownAt(canvas, ps[..|ps| - 1], x, y)
  }

  /** Step 2 of `create_photo_strip`'s loop: photo `i` is used when its path
      exists and decodes; otherwise it is skipped. */
  function LoadPhoto(disk: Disk, path: string): (r: Option<Picture>)
    ensures r == Read(disk, path)
  {
    if !Exists(disk, path) then None else Read(disk, path)
  }

  /** The pastes made for the first `n` photos: left slot then right slot
      for each photo that loaded, none for one that did not. */
  function Placements(photos: seq<Option<Picture>>, n: nat): (ps: seq<Placement>)
    requires n <= |photos| && n <= 3
    ensures |ps| <= 2 * n && |ps| % 2 == 0
  {
    if n == 0 then []
    else
      var pasted := if photos[n - 1].None? then []
                    else [Placement(photos[n - 1].value, LeftPositions[n - 1]),
                          Placement(photos[n - 1].value, RightPositions[n - 1])];
      Placements(photos, n - 1) + pasted
  }

  predicate InSlots(i: int, x: int, y: int)
    requires 0 <= i < 3
  {
    LeftPositions[i].Contains(x, y) || RightPositions[i].Contains(x, y)
  }

  /** Pasting a photo into both slots of row `i` shows it there and leaves
      every other point as it was. */
  lemma ShownAfterPair(canvas: Picture, prev: seq<Placement>, p: Picture, i: int, x: int, y: int)
    requires 0 <= i < 3
    ensures ShownAt(canvas, prev + [Placement(p, LeftPositions[i]), Placement(p, RightPositions[i])], x, y) ==
              if InSlots(i, x, y) then p else ShownAt(canvas, prev, x, y)
  {
    var ps := prev + [Placement(p, LeftPositions[i]), Placement(p, RightPositions[i])];
    assert ps[..|ps| - 1][..|ps| - 2] == prev;
  }

  /** A point lies in the slots of at most one photo. */
  lemma SlotsOfOnePhoto(i: int, j: int, x: int, y: int)
    requires 0 <= i < 3 && 0 <= j < 3 && i != j && InSlots(i, x, y)
    ensures !InSlots(j, x, y)
  {
  }

  /** What the finished strip shows: inside either slot of a photo that
      loaded, that photo; everywhere else (other slots included), the template. */
  lemma {:induction false} StripShows(canvas: Picture, photos: seq<Option<Picture>>, n: nat, x: int, y: int)
    requires n <= |photos| && n <= 3
    ensures forall i :: 0 <= i < n && photos[i].Some? && InSlots(i, x, y) ==>
              ShownAt(canvas, Placements(photos, n), x, y) == photos[i].value
    ensures (forall i :: 0 <= i < n ==> photos[i].None? || !InSlots(i, x, y)) ==>
              ShownAt(canvas, Placements(photos, n), x, y) == canvas
  {
    if n > 0 {
      StripShows(canvas, photos, n - 1, x, y);
      var prev := Placements(photos, n - 1);
      if photos[n - 1].None? {
        assert Placements(photos, n) == prev;
      } else {
        var p := photos[n - 1].value;
        assert Placements(photos, n) ==
               prev + [Placement(p, LeftPositions[n - 1]), Placement(p, RightPositions[n - 1])];
        ShownAfterPair(canvas, prev, p, n - 1, x, y);
        forall i | 0 <= i < n - 1 && InSlots(i, x, y)
          ensures !InSlots(n - 1, x, y)
        {
          SlotsOfOnePhoto(i, n - 1, x, y);
        }
      }
    }
  }

  /** `create_photo_strip(image_paths, template_path, output_path)`.
      `saved` is whether PIL's `save` succeeds; when it raises, the
      exception is caught and `None` returned. */
  method CreatePhotoStrip(imagePaths: seq<string>, templatePath: string, outputPath: string,
                          disk: Disk, saved: bool)
    returns (result: Option<string>, after: Disk)
    ensures |imagePaths| != 3 ==> result.None? && after == disk
    ensures |imagePaths| == 3 && Read(disk, templatePath).None? ==> result.None? && after == disk
    ensures |imagePaths| == 3 && Read(disk, templatePath).Some? ==>
              && (saved ==> result == Some(outputPath)
                            && after == Write(disk, outputPath,
                                              Strip(Read(disk, templatePath).value,
                                                    Placements(seq(3, i requires 0 <= i < 3 => Read(disk, imagePaths[i])), 3)),
                                              true))
              && (!saved ==> result.None? && after == disk)
  {
    if |imagePaths| != 3 {
      return None, disk;
    }
    if !Exists(disk, templatePath) {
      return None, disk;
    }
    var template := Read(disk, templatePath);
    if template.None? {
      return None, disk;   // Image.open raises; caught
    }
    ghost var photos := seq(3, i requires 0 <= i < 3 => Read(disk, imagePaths[i]));
    var placements: seq<Placement> := [];
    for i := 0 to 3
      invariant placements == Placements(photos, i)
    {
      var photo := LoadPhoto(disk, imagePaths[i]);
      if photo.None? {
        continue;
      }
      placements := placements + [Placement(photo.value, LeftPositions[i])];
      placements := placements + [Placement(photo.value, RightPositions[i])];
    }
    if !saved {
      return None, disk;     // save raises; caught
    }
    after := Write(disk, outputPath, Strip(template.value, placements), true);
    result := Some(outputPath);
  }
}
