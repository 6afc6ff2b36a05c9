/** The filesystem as the camera code sees it: directories, and files that
    OpenCV or PIL can decode (or not). Image contents are kept abstract: a
    decoded file is the `Picture` that was written to it, compression aside. */
module Disk {
  import opened Wrappers
  import opened Frames

  /** Size of a saved photo strip: 4x6 inches at 300 DPI. */
  const StripCanvasWidth: nat := 1200
  const StripCanvasHeight: nat := 1800

  /** What decoding an image file yields. */
  datatype Picture =
    | Photo(frame: Frame)
        // a frame saved with cv2.imwrite
    | Strip(canvas: Picture, placements: seq<Placement>)
        // the template stretched to the strip canvas, then each placement pasted in order
    | Collage(tiles: seq<seq<Picture>>, tileWidth: nat, tileHeight: nat)
        // rows of tiles, each tile resized to tileWidth x tileHeight, stacked with numpy
    | Blank(width: nat, height: nat)
        // an all-black filler tile

  /** One `paste` call: `photo`, stretched to the slot, drawn over the slot. */
  datatype Placement = Placement(photo: Picture, slot: Rect)

  /** The (width, height) OpenCV reports for a decoded picture: its `shape`. */
  function PictureWidth(p: Picture): (w: int)
    ensures w >= 0
  {
    match p
    case Photo(f) => f.width
    case Strip(_, _) => StripCanvasWidth
    case Collage(tiles, tw, _) => if tiles == [] then 0 else tw * |tiles[0]|
    case Blank(w, _) => w
  }

  function PictureHeight(p: Picture): (h: int)
    ensures h >= 0
  {
    match p
    case Photo(f) => f.Height()
    case Strip(_, _) => StripCanvasHeight
    case Collage(tiles, _, th) => th * |tiles|
    case Blank(_, h) => h
  }

  /** `files[p] == None`: a file exists at `p` but does not decode as an image. */
  datatype Disk = Disk(dirs: set<string>, files: map<string, Option<Picture>>)

  /** `os.path.exists`. */
  predicate Exists(d: Disk, path: string) {
    path in d.dirs || path in d.files
  }

  /** `cv2.imread` (and PIL's `Image.open`): the picture, or `None` when the
      path is missing, is a directory, or does not decode. */
  function Read(d: Disk, path: string): (r: Option<Picture>)
    ensures r.Some? ==> Exists(d, path)
  {
    if path in d.files then d.files[path] else None
  }

  /** `os.makedirs(dir, exist_ok=True)`: raises on the empty path and on a
      path that is a regular file; otherwise `dir` is a directory afterwards. */
  function MakeDirs(d: Disk, dir: string): (r: Outcome<Disk>)
    ensures r.Returned? <==> dir != "" && dir !in d.files
    ensures r.Returned? ==> r.value.dirs == d.dirs + {dir} && r.value.files == d.files
  {
    if dir == "" then Raised(FileNotFound)
    else if dir in d.files then Raised(FileExists)
    else Returned(d.(dirs := d.dirs + {dir}))
  }

  /** An image write whose success is decided by the operating system
      (`written`): on success `path` decodes to `picture`; on failure the disk
      is unchanged. */
  function Write(d: Disk, path: string, picture: Picture, written: bool): (r: Disk)
    ensures r.dirs == d.dirs
    ensures written ==> Read(r, path) == Some(picture)
    ensures forall q :: q != path ==> Read(r, q) == Read(d, q)
    ensures !written ==> r == d
  {
    if written then d.(files := d.files[path := Some(picture)]) else d
  }
}
