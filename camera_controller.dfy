/** `CameraController` of scr/camera/camera_controller.py: the device handle
    (`camera`, `is_open`, `last_frame`), single and multiple captures saved to
    disk, and the frame-level helpers it exposes. The hardware answers
    (`isOpened()`, `read()`, the negotiated resolution), the clock
    (timestamps) and whether each file write succeeds are parameters. */
module Camera {
  import opened Wrappers
  import opened PyText
  import opened Frames
  import opened Disk

  /** (width, height) in pixels. */
  type Resolution = (int, int)

  /** The `cv2.VideoCapture` object: the device index it was created for,
      whether `isOpened()` reported success, whether `release()` was called,
      and the resolution the driver settled on after the requested one was set. */
  datatype Device = Device(index: int, openOk: bool, released: bool, negotiated: Resolution)

  /** The controller's mutable fields as one value. */
  datatype DeviceState = DeviceState(camera: Option<Device>, isOpen: bool, lastFrame: Option<Frame>)
  {
    /** `is_open` is set only after a successful open and cleared on release. */
    predicate Consistent() {
      isOpen ==> camera.Some? && camera.value.openOk && !camera.value.released
    }

    /** The guard of `get_frame`: only in this state is the device read. */
    predicate Live() {
      isOpen && camera.Some?
    }
  }

  /** State after `__init__`: no capture object, closed, no frame yet. */
  const Unopened := DeviceState(None, false, None)

  /** `open_camera`: a new capture object for `index` replaces the old one;
      `is_open` becomes what the device reported. */
  function Open(s: DeviceState, index: int, reportsOpened: bool, negotiated: Resolution): (r: DeviceState)
    ensures r.Consistent()
    ensures r.isOpen == reportsOpened && r.Live() == reportsOpened
    ensures r.camera.Some? && r.camera.value.index == index && !r.camera.value.released
    ensures r.lastFrame == s.lastFrame
  {
    DeviceState(Some(Device(index, reportsOpened, false, negotiated)), reportsOpened, s.lastFrame)
  }

  /** `get_actual_resolution`: `None` whenever the camera is not open. */
  function ActualResolution(s: DeviceState): (r: Option<Resolution>)
    requires s.Consistent()
    ensures r.None? <==> !s.isOpen
    ensures r.Some? ==> s.camera.Some? && r.value == s.camera.value.negotiated
  {
    if !s.isOpen then None else Some(s.camera.value.negotiated)
  }

  datatype ReadResult = ReadResult(state: DeviceState, frame: Option<Frame>)

  /** `get_frame`: `deviceReads` and `captured` are what `read()` returns.
      A frame comes back only from a live device whose read succeeded, and
      only then is it remembered as the last frame. */
  function ReadFrame(s: DeviceState, deviceReads: bool, captured: Frame): (r: ReadResult)
    ensures r.frame.Some? <==> s.Live() && deviceReads
    ensures r.frame.Some? ==> r.frame.value == captured && r.state.lastFrame == r.frame
    ensures r.frame.None? ==> r.state == s
    ensures r.state.camera == s.camera && r.state.isOpen == s.isOpen
  {
    if !s.isOpen || s.camera.None? then ReadResult(s, None)
    else if deviceReads then ReadResult(s.(lastFrame := Some(captured)), Some(captured))
    else ReadResult(s, None)
  }

  /** `close_camera` (also run by `__del__`): with a capture object, release
      it and clear `is_open`; without one, do nothing. */
  function Close(s: DeviceState): (r: DeviceState)
    ensures s.camera.None? ==> r == s
    ensures s.camera.Some? ==> !r.isOpen && r.camera == Some(s.camera.value.(released := true))
    ensures r.lastFrame == s.lastFrame
    ensures s.Consistent() ==> r.Consistent()
  {
    match s.camera
    case None => s
    case Some(d) => DeviceState(Some(d.(released := true)), false, s.lastFrame)
  }

  /** Closing twice is closing once. */
  lemma CloseIdempotent(s: DeviceState)
    ensures Close(Close(s)) == Close(s)
  {
  }

  /** Once the camera is closed, no frame can be read and no resolution is reported. */
  lemma NothingReadAfterClose(s: DeviceState, deviceReads: bool, captured: Frame)
    requires s.Consistent()
    ensures ReadFrame(Close(s), deviceReads, captured).frame.None?
    ensures ActualResolution(Close(s)).None?
  {
  }

  /** In a consistent state a frame only ever comes from an opened, unreleased device. */
  lemma FramesComeFromOpenDevice(s: DeviceState, deviceReads: bool, captured: Frame)
    requires s.Consistent() && ReadFrame(s, deviceReads, captured).frame.Some?
    ensures s.camera.value.openOk && !s.camera.value.released
  {
  }

  /** The file name `take_photo` uses: the caller's, or a timestamped default. */
  function PhotoFileName(filename: Option<string>, timestamp: string): (name: string)
    ensures filename.Some? ==> name == filename.value
    ensures filename.None? ==> |name| == 6 + |timestamp| && name[..6] == "photo_" && name[6..] == timestamp
  {
    match filename
    case Some(n) => n
    case None => "photo_" + timestamp
  }

  /** `os.path.join(save_dir, f"{filename}.jpg")`. */
  function PhotoPath(saveDir: string, filename: Option<string>, timestamp: string): (p: string)
    ensures |p| >= 4 && p[|p| - 4..] == ".jpg"
  {
    Join(saveDir, PhotoFileName(filename, timestamp) + ".jpg")
  }

  datatype PhotoResult = PhotoResult(state: DeviceState, outcome: Outcome<Option<string>>, disk: Disk)

  /** `take_photo` as a function of the state before it: read a frame; with
      none, return `None` having touched nothing on disk; otherwise crop it
      if asked, create the directory and write the file. The path is
      returned whether or not the write succeeded (`written`). */
  function TakePhotoStep(s: DeviceState, disk: Disk, saveDir: string, filename: Option<string>,
                         cropSquare: bool, timestamp: string, deviceReads: bool, captured: Frame,
                         written: bool): (r: PhotoResult)
    ensures r.state == ReadFrame(s, deviceReads, captured).state
    ensures !(s.Live() && deviceReads) ==> r.outcome == Returned(None) && r.disk == disk
    ensures s.Live() && deviceReads && MakeDirs(disk, saveDir).Raised? ==>
              r.outcome == Raised(MakeDirs(disk, saveDir).error) && r.disk == disk
    ensures s.Live() && deviceReads && MakeDirs(disk, saveDir).Returned? ==>
              && r.outcome == Returned(Some(PhotoPath(saveDir, filename, timestamp)))
              && saveDir in r.disk.dirs
              && (forall q :: q != PhotoPath(saveDir, filename, timestamp) ==> Read(r.disk, q) == Read(disk, q))
              && (written ==> Read(r.disk, PhotoPath(saveDir, filename, timestamp)) ==
                               Some(Photo(if cropSquare then CenterSquare(captured) else captured)))
              && (!written ==> r.disk == MakeDirs(disk, saveDir).value)
  {
    var read := ReadFrame(s, deviceReads, captured);
    match read.frame
    case None => PhotoResult(read.state, Returned(None), disk)
    case Some(frame) =>
      var saved := if cropSquare then CenterSquare(frame) else frame;
      match MakeDirs(disk, saveDir)
      case Raised(e) => PhotoResult(read.state, Raised(e), disk)
      case Returned(d) =>
        var path := PhotoPath(saveDir, filename, timestamp);
        PhotoResult(read.state, Returned(Some(path)), Write(d, path, Photo(saved), written))
  }

  /** What the hardware and the clock answer during shot `i` of `capture_multiple`. */
  datatype Shot = Shot(timestamp: string, deviceReads: bool, frame: Frame, written: bool)

  /** The file name of shot `i`: `photo_{timestamp}_img{i+1}`. */
  function ShotName(shot: Shot, i: nat): (name: string)
    ensures var p := "photo_" + shot.timestamp + "_img";
            && |name| > |p| && name[..|p|] == p
            && (forall k :: |p| <= k < |name| ==> IsDigit(name[k]))
            && DigitsValue(name[|p|..]) == i + 1
  {
    var p := "photo_" + shot.timestamp + "_img";
    var name := p + DecimalString(i + 1);
    assert name[|p|..] == DecimalString(i + 1);
    DecimalStringRoundTrip(i + 1);
    name
  }

  function ShotPath(saveDir: string, shots: nat -> Shot, i: nat): string {
    PhotoPath(saveDir, Some(ShotName(shots(i), i)), shots(i).timestamp)
  }

  predicate ShotSucceeds(s: DeviceState, shots: nat -> Shot, i: nat) {
    s.Live() && shots(i).deviceReads
  }

  predicate SomeShotSucceeds(s: DeviceState, shots: nat -> Shot, n: nat) {
    exists i :: 0 <= i < n && ShotSucceeds(s, shots, i)
  }

  /** The indices of the successful shots among the first `n`, in shot order. */
  function SucceededShots(s: DeviceState, shots: nat -> Shot, n: nat): seq<nat> {
    if n == 0 then []
    else SucceededShots(s, shots, n - 1) + (if ShotSucceeds(s, shots, n - 1) then [n - 1] else [])
  }

  /** The paths of the successful shots among the first `n`, in shot order. */
  function CapturedPaths(s: DeviceState, saveDir: string, shots: nat -> Shot, n: nat): seq<string> {
    var idx := SucceededShots(s, shots, n);
    seq(|idx|, k requires 0 <= k < |idx| => ShotPath(saveDir, shots, idx[k]))
  }

  /** The disk after the first `n` shots, when creating `saveDir` succeeds. */
  function CapturedDisk(s: DeviceState, disk: Disk, saveDir: string, shots: nat -> Shot, n: nat): Disk {
    if n == 0 then disk
    else
      var d := CapturedDisk(s, disk, saveDir, shots, n - 1);
      if ShotSucceeds(s, shots, n - 1) then
        Write(d.(dirs := d.dirs + {saveDir}), ShotPath(saveDir, shots, n - 1),
              Photo(CenterSquare(shots(n - 1).frame)), shots(n - 1).written)
      else d
  }

  /** `last_frame` after the first `n` shots. */
  function LastFrameAfter(s: DeviceState, shots: nat -> Shot, n: nat): Option<Frame> {
    if n == 0 then s.lastFrame
    else if ShotSucceeds(s, shots, n - 1) then Some(shots(n - 1).frame)
    else LastFrameAfter(s, shots, n - 1)
  }

  /** Shot `i` has a path exactly when it succeeded; the paths follow shot
      order, at most one per shot. */
  lemma {:induction false} SucceededShotsExact(s: DeviceState, shots: nat -> Shot, n: nat)
    ensures |SucceededShots(s, shots, n)| <= n
    ensures forall k :: 0 <= k < |SucceededShots(s, shots, n)| ==>
              SucceededShots(s, shots, n)[k] < n && ShotSucceeds(s, shots, SucceededShots(s, shots, n)[k])
    ensures forall k, l :: 0 <= k < l < |SucceededShots(s, shots, n)| ==>
              SucceededShots(s, shots, n)[k] < SucceededShots(s, shots, n)[l]
    ensures forall i :: 0 <= i < n && ShotSucceeds(s, shots, i) ==> i in SucceededShots(s, shots, n)
  {
    if n > 0 {
      SucceededShotsExact(s, shots, n - 1);
    }
  }

  /** When every shot succeeds, every shot has its path, in order. */
  lemma {:induction false} AllShotsCaptured(s: DeviceState, saveDir: string, shots: nat -> Shot, n: nat)
    requires forall i :: 0 <= i < n ==> ShotSucceeds(s, shots, i)
    ensures SucceededShots(s, shots, n) == seq(n, i => i)
    ensures |CapturedPaths(s, saveDir, shots, n)| == n
    ensures forall i :: 0 <= i < n ==> CapturedPaths(s, saveDir, shots, n)[i] == ShotPath(saveDir, shots, i)
  {
    if n > 0 {
      AllShotsCaptured(s, saveDir, shots, n - 1);
      assert SucceededShots(s, shots, n) == seq(n - 1, i => i) + [n - 1];
    }
  }

  /** A closed camera captures nothing, however many shots are asked for. */
  lemma {:induction false} ClosedCameraCapturesNothing(s: DeviceState, saveDir: string, shots: nat -> Shot, n: nat)
    requires !s.Live()
    ensures CapturedPaths(s, saveDir, shots, n) == []
  {
    if n > 0 {
      ClosedCameraCapturesNothing(s, saveDir, shots, n - 1);
    }
  }

  /** Before any shot has succeeded nothing has been written. */
  lemma {:induction false} NoSuccessNoWrite(s: DeviceState, disk: Disk, saveDir: string, shots: nat -> Shot, n: nat)
    requires !SomeShotSucceeds(s, shots, n)
    ensures CapturedDisk(s, disk, saveDir, shots, n) == disk
    ensures LastFrameAfter(s, shots, n) == s.lastFrame
  {
    if n > 0 {
      assert !ShotSucceeds(s, shots, n - 1);
      NoSuccessNoWrite(s, disk, saveDir, shots, n - 1);
    }
  }

  /** The photos never land on `saveDir` itself, so whether it can be
      created does not change during the loop. */
  lemma {:induction false} SaveDirStaysFree(s: DeviceState, disk: Disk, saveDir: string, shots: nat -> Shot, n: nat)
    requires saveDir != ""
    ensures (saveDir in CapturedDisk(s, disk, saveDir, shots, n).files) == (saveDir in disk.files)
  {
    if n > 0 {
      SaveDirStaysFree(s, disk, saveDir, shots, n - 1);
      var name := ShotName(shots(n - 1), n - 1) + ".jpg";
      assert name[0] == 'p';
      assert |ShotPath(saveDir, shots, n - 1)| > |saveDir|;
    }
  }

  lemma SomeShotSucceedsStep(s: DeviceState, shots: nat -> Shot, n: nat)
    ensures SomeShotSucceeds(s, shots, n + 1) <==> SomeShotSucceeds(s, shots, n) || ShotSucceeds(s, shots, n)
  {
    if SomeShotSucceeds(s, shots, n + 1) && !ShotSucceeds(s, shots, n) {
      var i :| 0 <= i < n + 1 && ShotSucceeds(s, shots, i);
      assert i < n;
    }
  }

  /** The paths grow by shot `n`'s path exactly when shot `n` succeeds. */
  lemma CapturedPathsStep(s: DeviceState, saveDir: string, shots: nat -> Shot, n: nat)
    ensures CapturedPaths(s, saveDir, shots, n + 1) ==
              CapturedPaths(s, saveDir, shots, n) + (if ShotSucceeds(s, shots, n) then [ShotPath(saveDir, shots, n)] else [])
  {
    var idx := SucceededShots(s, shots, n);
    var prev := CapturedPaths(s, saveDir, shots, n);
    var next := CapturedPaths(s, saveDir, shots, n + 1);
    if ShotSucceeds(s, shots, n) {
      assert SucceededShots(s, shots, n + 1) == idx + [n];
      assert |next| == |prev| + 1;
      assert forall k :: 0 <= k < |prev| ==> next[k] == prev[k];
      assert next == prev + [ShotPath(saveDir, shots, n)];
    } else {
      assert SucceededShots(s, shots, n + 1) == idx;
    }
  }

  /** Shot `n` of `capture_multiple` as `take_photo` performs it, from the
      disk the first `n` shots left and any last frame: it raises exactly
      when it is the first successful shot and the directory cannot be
      made; otherwise it leaves the disk and the paths of `n + 1` shots. */
  lemma CaptureStep(s: DeviceState, disk: Disk, saveDir: string, shots: nat -> Shot, n: nat, lf: Option<Frame>)
    requires MakeDirs(disk, saveDir).Raised? ==> !SomeShotSucceeds(s, shots, n)
    ensures var shot := shots(n);
            var r := TakePhotoStep(s.(lastFrame := lf), CapturedDisk(s, disk, saveDir, shots, n), saveDir,
                                   Some(ShotName(shot, n)), true, shot.timestamp, shot.deviceReads, shot.frame, shot.written);
            && r.state.camera == s.camera && r.state.isOpen == s.isOpen
            && (r.outcome.Raised? <==> ShotSucceeds(s, shots, n) && MakeDirs(disk, saveDir).Raised?)
            && (r.outcome.Raised? ==> r.outcome.error == MakeDirs(disk, saveDir).error && r.disk == disk)
            && (r.outcome.Returned? ==>
                  && r.disk == CapturedDisk(s, disk, saveDir, shots, n + 1)
                  && r.state.lastFrame == (if ShotSucceeds(s, shots, n) then Some(shot.frame) else lf)
                  && (r.outcome.value.Some? <==> ShotSucceeds(s, shots, n))
                  && (r.outcome.value.Some? ==> r.outcome.value.value == ShotPath(saveDir, shots, n)))
  {
    var cur := CapturedDisk(s, disk, saveDir, shots, n);
    if MakeDirs(disk, saveDir).Raised? {
      NoSuccessNoWrite(s, disk, saveDir, shots, n);
    } else {
      SaveDirStaysFree(s, disk, saveDir, shots, n);
      assert MakeDirs(cur, saveDir).Returned?;
    }
  }

  class CameraController {
    const cameraIndex: int
    const resolution: Resolution
    var camera: Option<Device>
    var isOpen: bool
    var lastFrame: Option<Frame>

    function State(): DeviceState
      reads this
    {
      DeviceState(camera, isOpen, lastFrame)
    }

    ghost predicate Valid()
      reads this
    {
      State().Consistent()
    }

    /** `__init__(camera_index=0, resolution=(1920, 1080))`. */
    constructor (cameraIndex: int, resolution: Resolution)
      ensures Valid() && State() == Unopened
      ensures this.cameraIndex == cameraIndex && this.resolution == resolution
    {
      this.cameraIndex := cameraIndex;
      this.resolution := resolution;
      camera := None;
      isOpen := false;
      lastFrame := None;
    }

    /** `open_camera`: `reportsOpened` is `VideoCapture.isOpened()`. */
    method OpenCamera(reportsOpened: bool, negotiated: Resolution) returns (ok: bool)
      modifies this
      ensures Valid()
      ensures State() == Open(old(State()), cameraIndex, reportsOpened, negotiated)
      ensures ok == isOpen == reportsOpened
    {
      camera := Some(Device(cameraIndex, reportsOpened, false, negotiated));
      if reportsOpened {
        isOpen := true;
        ok := true;
      } else {
        isOpen := false;
        ok := false;
      }
    }

    /** `get_actual_resolution`. */
    method GetActualResolution() returns (r: Option<Resolution>)
      requires Valid()
      ensures r.None? <==> !isOpen
      ensures r.Some? ==> camera.Some? && r.value == camera.value.negotiated
    {
      if !isOpen {
        return None;
      }
      r := Some(camera.value.negotiated);
    }

    /** `get_frame`: `deviceReads` and `captured` are what `read()` returns. */
    method GetFrame(deviceReads: bool, captured: Frame) returns (frame: Option<Frame>)
      modifies this`lastFrame
      ensures ReadResult(State(), frame) == ReadFrame(old(State()), deviceReads, captured)
    {
      if !isOpen || camera.None? {
        return None;
      }
      if deviceReads {
        lastFrame := Some(captured);
        frame := Some(captured);
      } else {
        frame := None;
      }
    }

    /** `get_preview_frame`: a fresh frame, resized when a target size is given. */
    method GetPreviewFrame(targetSize: Option<(int, int)>, deviceReads: bool, captured: Frame, cv: OpenCv)
      returns (frame: Option<Frame>)
      modifies this`lastFrame
      ensures State() == ReadFrame(old(State()), deviceReads, captured).state
      ensures frame.Some? <==> old(State()).Live() && deviceReads
      ensures frame.Some? ==> frame.value == (match targetSize
                                               case None => captured
                                               case Some(size) => cv.resize(captured, size.0, size.1))
    {
      frame := GetFrame(deviceReads, captured);
      if frame.None? {
        return None;
      }
      if targetSize.Some? {
        frame := Some(cv.resize(frame.value, targetSize.value.0, targetSize.value.1));
      }
    }

    /** `get_last_frame`. */
    method GetLastFrame() returns (frame: Option<Frame>)
      ensures frame == lastFrame
    {
      frame := lastFrame;
    }

    /** `close_camera`. */
    method CloseCamera()
      requires Valid()
      modifies this
      ensures Valid()
      ensures State() == Close(old(State()))
    {
      if camera.Some? {
        camera := Some(camera.value.(released := true));
        isOpen := false;
      }
    }

    /** `take_photo(save_dir, filename, crop_square)`. */
    method TakePhoto(saveDir: string, filename: Option<string>, cropSquare: bool, timestamp: string,
                     deviceReads: bool, captured: Frame, written: bool, disk: Disk)
      returns (result: Outcome<Option<string>>, after: Disk)
      modifies this`lastFrame
      ensures PhotoResult(State(), result, after) ==
              TakePhotoStep(old(State()), disk, saveDir, filename, cropSquare, timestamp, deviceReads, captured, written)
    {
      var frame := GetFrame(deviceReads, captured);
      if frame.None? {
        return Returned(None), disk;
      }
      var saved := frame.value;
      if cropSquare {
        saved := CenterSquare(saved);
      }
      var made := MakeDirs(disk, saveDir);
      if made.Raised? {
        return Raised(made.error), disk;
      }
      var name := PhotoFileName(filename, timestamp);
      var path := Join(saveDir, name + ".jpg");
      after := Write(made.value, path, Photo(saved), written);
      result := Returned(Some(path));
    }

    /** `capture_multiple(count, delay, save_dir)`: `count` shots, each
        cropped and saved as `photo_{timestamp}_img{i+1}.jpg`; a failed
        shot is skipped and the loop goes on. The pause between shots is
        not modelled. */
    method CaptureMultiple(count: int, saveDir: string, shots: nat -> Shot, disk: Disk)
      returns (result: Outcome<seq<string>>, after: Disk)
      modifies this`lastFrame
      ensures var s, n := old(State()), if count < 0 then 0 else count;
        && camera == s.camera && isOpen == s.isOpen
        && (SomeShotSucceeds(s, shots, n) && MakeDirs(disk, saveDir).Raised? ==>
              && result == Raised(MakeDirs(disk, saveDir).error) && after == disk
              && exists k :: 0 <= k < n && ShotSucceeds(s, shots, k) && !SomeShotSucceeds(s, shots, k)
                             && lastFrame == Some(shots(k).frame))
        && (!(SomeShotSucceeds(s, shots, n) && MakeDirs(disk, saveDir).Raised?) ==>
              && result == Returned(CapturedPaths(s, saveDir, shots, n))
              && after == CapturedDisk(s, disk, saveDir, shots, n)
              && lastFrame == LastFrameAfter(s, shots, n))
    {
      ghost var s := State();
      var n := if count < 0 then 0 else count;
      var paths: seq<string> := [];
      after := disk;
      var i := 0;
      while i < n
        invariant 0 <= i <= n
        invariant camera == s.camera && isOpen == s.isOpen
        invariant paths == CapturedPaths(s, saveDir, shots, i)
        invariant after == CapturedDisk(s, disk, saveDir, shots, i)
        invariant lastFrame == LastFrameAfter(s, shots, i)
        invariant MakeDirs(disk, saveDir).Raised? ==> !SomeShotSucceeds(s, shots, i)
      {
        var shot := shots(i);
        var name := ShotName(shot, i);
        CaptureStep(s, disk, saveDir, shots, i, lastFrame);
        CapturedPathsStep(s, saveDir, shots, i);
        SomeShotSucceedsStep(s, shots, i);
        assert State() == s.(lastFrame := lastFrame);
        var r, d := TakePhoto(saveDir, Some(name), true, shot.timestamp, shot.deviceReads, shot.frame, shot.written, after);
        if r.Raised? {
          assert ShotSucceeds(s, shots, i) && !SomeShotSucceeds(s, shots, i) && lastFrame == Some(shots(i).frame);
          return Raised(r.error), d;
        }
        after := d;
        if r.value.Some? {
          paths := paths + [r.value.value];
        }
        i := i + 1;
      }
      result := Returned(paths);
    }
  }

  /** `save_frame`: `False` for no frame; otherwise what `cv2.imwrite`
      reports (`written`), unless it raises first: `encodable` is whether
      OpenCV has a writer for the extension of `path`, and an empty frame is
      refused as well. */
  function SaveFrame(frame: Option<Frame>, path: string, encodable: bool, written: bool, disk: Disk)
    : (r: (Outcome<bool>, Disk))
    ensures frame.None? ==> r == (Returned(false), disk)
    ensures frame.Some? && (!encodable || frame.value.width == 0 || frame.value.Height() == 0) ==>
              r == (Raised(OpenCvError), disk)
    ensures r.0.Returned? && frame.Some? ==>
              && encodable && frame.value.width > 0 && frame.value.Height() > 0
              && r.0.value == written
              && (written ==> Read(r.1, path) == Some(Photo(frame.value)))
              && (forall q :: q != path ==> Read(r.1, q) == Read(disk, q))
    ensures !(r.0 == Returned(true)) ==> r.1 == disk
  {
    match frame
    case None => (Returned(false), disk)
    case Some(f) =>
      if !encodable || f.width == 0 || f.Height() == 0 then (Raised(OpenCvError), disk)
      else (Returned(written), Write(disk, path, Photo(f), written))
  }
}
