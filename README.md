# Photobooth core in Dafny

A model of the core of a Raspberry-Pi photobooth kiosk, with proofs about it.

- **Camera controller** (`scr/camera/camera_controller.py`). The `CameraController` is a class: the capture handle, the `is_open` flag and the last frame. Photos are taken one at a time or in a series and saved to disk. Frames can be cropped to a centred square, flipped and filtered. Saved photos are assembled into a grid collage or into a two-column photo strip over a template.
- **Colour utilities** (`scr/utilities/utils_screen.py`). The numbered colour schemes and the `#rrggbb` lighten/darken arithmetic behind the button hover and pressed colours. Also the rule that decides which labels get restyled.
- **E-mail screen** (`scr/ui_functions/send_email_screen_function.py`). The address validator is a regular expression, stated as a language and decided by a scan. The screen is a class: the address field, the title, the two buttons' enabled flags, the photos to send and the return to the home page.

Modules, one per file:

- `Wrappers`: `Option`, and `Outcome`, which stands for a Python exception.
- `PyText`: `str.strip`, `os.path.join`, `str(n)` and slicing.
- `Frames`: frames as pixel grids, plus crop, flip and filter dispatch.
- `Disk`: the filesystem as a value.
- `Camera`, `Collage` and `PhotoStrip`: the camera controller.
- `ColorSchemes`: the colour utilities.
- `EmailAddress` and `EmailScreen`: the e-mail screen.

The outside world enters as parameters:

- the camera's `isOpened()` and `read()` answers and its negotiated resolution;
- timestamps;
- whether `cv2.imwrite` or PIL's `save` succeeded;
- whether the mail sender delivered.

OpenCV's pixel operations (colour conversion, blur, sharpen, resize) are function-valued fields of `Frames.OpenCv`. They are left uninterpreted.

## Model

| member | source | states |
|---|---|---|
| Camera.Open | scr/camera/camera_controller.py:22-41 | a new capture object for the controller's index replaces the old one; `is_open` equals what the device reported; the state stays consistent and `last_frame` is kept |
| Camera.ActualResolution | scr/camera/camera_controller.py:43-49 | `None` exactly when the camera is not open, else the resolution the device negotiated |
| Camera.ReadFrame | scr/camera/camera_controller.py:51-66 | a frame comes back iff the camera is open with a capture object and the read succeeds; only then does `last_frame` become that frame; otherwise nothing changes |
| Camera.Close | scr/camera/camera_controller.py:298-303 | with a capture object: released and `is_open` cleared; without one: no change; consistency preserved |
| Camera.CloseIdempotent | scr/camera/camera_controller.py:298-303 | closing twice equals closing once |
| Camera.NothingReadAfterClose | scr/camera/camera_controller.py:45-46 | after `close_camera` on any consistent state, `get_frame` yields nothing and `get_actual_resolution` is `None` |
| Camera.FramesComeFromOpenDevice | scr/camera/camera_controller.py:56-63 | in a consistent state every frame read comes from an opened, unreleased device |
| Camera.PhotoPath | scr/camera/camera_controller.py:135-139 | the saved path always ends in ".jpg" |
| Camera.PhotoFileName | scr/camera/camera_controller.py:134-136 | the caller's name when one is given, else `photo_` followed by the timestamp |
| Camera.TakePhotoStep | scr/camera/camera_controller.py:112-145 | no frame: returns `None` with the disk untouched and no directory made; `makedirs` raising: the error propagates with the disk untouched; otherwise the joined path is returned whether or not the write succeeded, the directory exists and no other path changes; a successful write makes the path decode to the photo, cropped iff `crop_square` |
| Camera.SucceededShotsExact | scr/camera/camera_controller.py:158-171 | the recorded shots are exactly the successful ones, each index at most once, in shot order, at most `count` of them |
| Camera.ShotName | scr/camera/camera_controller.py:164-165 | `photo_{timestamp}_img` followed by decimal digits that read back as i+1 |
| Camera.AllShotsCaptured | scr/camera/camera_controller.py:158-171 | when every shot succeeds, shot *i* contributes the i-th path, named with `_img{i+1}` |
| Camera.ClosedCameraCapturesNothing | scr/camera/camera_controller.py:160-169 | a closed camera yields no paths, however many shots are asked for |
| Camera.NoSuccessNoWrite | scr/camera/camera_controller.py:160-169 | while no shot has succeeded the disk and `last_frame` are unchanged |
| Camera.SaveDirStaysFree | scr/camera/camera_controller.py:132-139 | the photos never land on the save directory itself, so whether `makedirs` succeeds does not change during the loop |
| Camera.CameraController.constructor | scr/camera/camera_controller.py:8-20 | no capture object, closed, no last frame; index and resolution stored |
| Camera.CameraController.OpenCamera | scr/camera/camera_controller.py:22-41 | new state is `Open` of the old one; the returned flag equals `is_open` equals the device's report |
| Camera.CameraController.GetActualResolution | scr/camera/camera_controller.py:43-49 | `None` iff not open; otherwise the negotiated resolution |
| Camera.CameraController.GetFrame | scr/camera/camera_controller.py:51-66 | result and new state are `ReadFrame` of the old state |
| Camera.CameraController.GetPreviewFrame | scr/camera/camera_controller.py:68-83 | same read as `get_frame`; the frame is resized iff a target size is given |
| Camera.CameraController.GetLastFrame | scr/camera/camera_controller.py:220-222 | returns the stored last frame |
| Camera.CameraController.CloseCamera | scr/camera/camera_controller.py:298-303 | new state is `Close` of the old one |
| Camera.CameraController.TakePhoto | scr/camera/camera_controller.py:112-145 | result, disk and new state are `TakePhotoStep` of the old state |
| Camera.CameraController.CaptureMultiple | scr/camera/camera_controller.py:147-171 | the loop returns the paths of the successful shots in order; the disk holds each successful shot cropped under its `_img{i+1}` name; `last_frame` is the last successful frame; a `makedirs` error on the first successful shot propagates with the disk untouched and `last_frame` set to that shot's frame |
| Camera.SaveFrame | scr/camera/camera_controller.py:206-218 | no frame gives `False` and no write; no writer for the extension or an empty frame raises the OpenCV error with no write; otherwise the write's own result, on success the path decodes to the frame, and no other path changes |
| Frames.CenterSquare | scr/camera/camera_controller.py:96-110 | the crop is a square of side min(w, h) that fits inside the frame; pixel (i, j) of the crop is pixel (i + OffsetY, j + OffsetX) of the frame |
| Frames.KeepColumns | scr/camera/camera_controller.py:99-103 | a wider frame cut to the `h` columns from `x`: an h-by-h square whose pixel (i, j) is the frame's (i, j + x) |
| Frames.KeepRows | scr/camera/camera_controller.py:104-108 | a taller frame cut to the `w` rows from `y`: a w-by-w square whose pixel (i, j) is the frame's (i + y, j) |
| Frames.CropToSquare | scr/camera/camera_controller.py:85-110 | `None` stays `None`; a frame becomes its centre square (`CenterSquare`), of side min(w, h) |
| Frames.CropIsCentred | scr/camera/camera_controller.py:99-108 | the crop is centred: the margins cut off on the two sides differ by at most one pixel, the extra pixel going to the right (wider frame) or bottom (taller frame) margin |
| Frames.CropOfSquareIsIdentity | scr/camera/camera_controller.py:96-110 | a square frame comes back unchanged |
| Frames.CropIdempotent | scr/camera/camera_controller.py:96-110 | cropping a crop changes nothing |
| Frames.Flip | scr/camera/camera_controller.py:281-282 | same dimensions; a horizontal flip mirrors columns (code 1) and a vertical flip mirrors rows (code 0) |
| Frames.FlipInvolution | scr/camera/camera_controller.py:281-282 | flipping twice the same way restores the frame |
| Frames.FlipFrame | scr/camera/camera_controller.py:269-282 | `None` stays `None`; otherwise same dimensions, and flipping the result again gives back the input |
| Frames.ApplyFilter | scr/camera/camera_controller.py:173-204 | `None` stays `None`; "none" and every unrecognised name return the frame unchanged |
| Frames.ApplyFilterByKind | scr/camera/camera_controller.py:185-201 | each of "grayscale", "sepia", "blur", "sharpen" dispatches to its own OpenCV operation |
| Frames.DisjointRectsShareNoPoint | scr/camera/camera_controller.py:350-361 | two disjoint slots never cover the same canvas point |
| Disk.Read | scr/camera/camera_controller.py:239-240 | a decoded picture implies the path exists |
| Disk.MakeDirs | scr/camera/camera_controller.py:132 | succeeds iff the path is non-empty and not a regular file; then the directory exists and no file changes |
| Disk.Write | scr/camera/camera_controller.py:142 | on success the path decodes to the picture and no other path changes; on failure the disk is unchanged |
| PhotoStrip.Slots | scr/camera/camera_controller.py:350-361 | six 460x460 slots, all inside the 1200x1800 canvas, pairwise disjoint |
| PhotoStrip.RightColumnRepeatsLeft | scr/camera/camera_controller.py:350-361 | each right slot is its left slot shifted 600 pixels right |
| PhotoStrip.Placements | scr/camera/camera_controller.py:364-394 | two pastes (left, then right) per loaded photo and none for a skipped one, so at most 2n pastes, always an even number |
| PhotoStrip.LoadPhoto | scr/camera/camera_controller.py:367-376 | the existence check then `imread` yield exactly the decoded picture, if any |
| PhotoStrip.StripShows | scr/camera/camera_controller.py:363-394 | a point in photo *i*'s left or right slot shows photo *i* when it loaded; a point in no loaded photo's slot shows the template |
| PhotoStrip.CreatePhotoStrip | scr/camera/camera_controller.py:311-406 | not exactly three paths, or no readable template: `None` and nothing written; otherwise, if saving succeeds, the output path is returned and the disk is the old one with the output path holding the template with every loaded photo pasted into both its slots, nothing else changed; a failed save gives `None` and nothing written |
| Collage.Readable | scr/camera/camera_controller.py:237-241 | at most one image per path |
| Collage.GroupRows | scr/camera/camera_controller.py:255-260 | the loop over `range(rows)` keeps at most one row per iteration |
| Collage.FloorDiv | scr/camera/camera_controller.py:250 | Python's `//`: the Euclidean quotient for a positive divisor, never positive for a non-negative dividend and a negative divisor |
| Collage.GroupRowsShape | scr/camera/camera_controller.py:255-260 | the rows read back in order are the first rows*cols readable images (or all of them); no row is empty or longer than `cols`; every row but the last is full |
| Collage.CollageAsWritten | scr/camera/camera_controller.py:224-267 | no paths or no readable image: `None`; on the readable images: `ZeroDivisionError` iff a layout dimension is 0, the resize error iff a tile side `w // cols` or `h // rows` is not positive, `ValueError` iff the grouped rows differ in width, and otherwise the collage of the grouped rows at that tile size |
| Collage.LayOut | scr/camera/camera_controller.py:243-265 | no image: `None`; `ZeroDivisionError` iff a layout dimension is 0; the resize error iff a tile side is not positive; `ValueError` iff the grouped rows differ in width; otherwise the collage of the images grouped `cols` to a row at the tile size of the first image |
| Collage.ReadImages | scr/camera/camera_controller.py:237-241 | the reading loop keeps exactly the images that decode, in path order (`Readable`) |
| Collage.BuildRows | scr/camera/camera_controller.py:255-260 | the row-building loop yields exactly the non-empty `cols`-slices for `rows` slices (`GroupRows`) |
| Collage.VStackFailsOnPartialLastRow | scr/camera/camera_controller.py:255-263 | the rows are unequal exactly when there are at least two rows and the last is not full |
| Collage.CollageUsesImagesInOrder | scr/camera/camera_controller.py:255-265 | the tiles, read row by row, are the readable images in order, and images past rows*cols are never used |
| Collage.CreateCollage | scr/camera/camera_controller.py:224-267 | the looped implementation returns, raises and writes exactly as `CollageAsWritten`; when a collage is made, an output path with no writer raises the OpenCV error with nothing written, and otherwise the path is returned and written |
| Collage.ThreePhotosInTwoByTwoRaise | scr/camera/camera_controller.py:255-263 | three readable photos in the default 2x2 layout make `np.vstack` raise |
| Collage.PadRowsRectangular | scr/camera/camera_controller.py:255-263 | padding gives every row exactly `cols` tiles, its own tiles first |
| Collage.CollageCorrectedIsRectangular | scr/camera/camera_controller.py:255-265 | the corrected collage always has `cols` tiles per row, holding the readable images in order followed by blank tiles |
| ColorSchemes.GetAllColorSchemes | scr/utilities/utils_screen.py:88-102 | keys are exactly 1..8, with ROSE_GOLD under 8 |
| ColorSchemes.GetColorScheme | scr/utilities/utils_screen.py:60-86 | 1..7 give GREEN, PINK, PURPLE, BLUE, PEACH, LAVENDER and MINT; every other number gives PINK; ROSE_GOLD is never returned |
| ColorSchemes.AllColorSchemesAgree | scr/utilities/utils_screen.py:60-102 | the full table agrees with the lookup on 1..7; every looked-up scheme is in the table; the one under 8 is never looked up |
| ColorSchemes.ParseHexSlice | scr/utilities/utils_screen.py:260 | `int(slice, 16)` on a slice of at most two characters, skipping only the whitespace `int()` skips: the value lies in -15..255, and the empty slice raises |
| ColorSchemes.ParseHexSliceOfDigits | scr/utilities/utils_screen.py:260 | two hex digits parse to 16*high + low |
| ColorSchemes.SeparatorIsNotSkipped | scr/utilities/utils_screen.py:260 | an ASCII separator (\x1c, \x1f) beside a digit makes `int(slice, 16)` raise: `int()` does not skip it although `str.isspace()` counts it |
| ColorSchemes.NoBreakSpaceIsSkipped | scr/utilities/utils_screen.py:260 | a no-break space beside a digit is skipped: the slice parses as the digit |
| ColorSchemes.LStripHash | scr/utilities/utils_screen.py:259 | drops every leading '#' and nothing else |
| ColorSchemes.ParseHexColor | scr/utilities/utils_screen.py:259-260 | each parsed component lies in -15..255; fewer than five characters after the `#`s leave the last slice empty, which raises |
| ColorSchemes.FormatHexColor | scr/utilities/utils_screen.py:266 | starts with '#'; for non-negative components at least six hex digits follow |
| ColorSchemes.HexDigits | scr/utilities/utils_screen.py:266 | `format(n, 'x')` is non-empty hex, one digit exactly when n < 16 |
| ColorSchemes.Format02x | scr/utilities/utils_screen.py:266 | `{:02x}` of a non-negative number is at least two hex digits; of a negative one starts with '-' |
| ColorSchemes.Format02xOfByte | scr/utilities/utils_screen.py:266 | a byte is written as exactly two lower-case digits, high first |
| ColorSchemes.ParseFormatRoundTrip | scr/utilities/utils_screen.py:259-266 | formatting byte components and parsing them back gives the same components |
| ColorSchemes.FormatParseRoundTrip | scr/utilities/utils_screen.py:259-266 | parsing a `#rrggbb` colour and formatting it gives the colour lower-cased |
| ColorSchemes.TruncDiv | scr/utilities/utils_screen.py:262 | `int()` of a quotient truncates toward zero: the remainder it leaves lies in [0, b) for a non-negative numerator and in (-b, 0] for a negative one |
| ColorSchemes.LightenComponent | scr/utilities/utils_screen.py:262-264 | the `min(255, ...)` caps a lightened component at 255 |
| ColorSchemes.DarkenComponent | scr/utilities/utils_screen.py:283-285 | the `max(0, ...)` keeps a darkened component at or above 0 |
| ColorSchemes.LightenComponentBounds | scr/utilities/utils_screen.py:262-264 | for 0 <= percent <= 100 a component rises to at most 255; 0% keeps it; 100% gives 255 |
| ColorSchemes.DarkenComponentBounds | scr/utilities/utils_screen.py:283-285 | for 0 <= percent <= 100 a component falls but stays >= 0; 0% keeps it; 100% gives 0 |
| ColorSchemes.LightenColor | scr/utilities/utils_screen.py:248-266 | raises ValueError iff a component does not parse; otherwise a '#'-prefixed string |
| ColorSchemes.DarkenColor | scr/utilities/utils_screen.py:269-287 | raises ValueError iff a component does not parse; otherwise a '#'-prefixed string |
| ColorSchemes.SeparatedColorRaises | scr/utilities/utils_screen.py:259-260 | `#\x1c5\x1c5\x1c5` makes both `lighten_color` and `darken_color` raise ValueError, whatever the percent |
| ColorSchemes.LightenColorSpec | scr/utilities/utils_screen.py:248-266 | on `#rrggbb` and 0..100%: lower-case `#rrggbb` whose components lie between the input's and 255; 0% is the input lower-cased; 100% is `#ffffff` |
| ColorSchemes.DarkenColorSpec | scr/utilities/utils_screen.py:269-287 | on `#rrggbb` and 0..100%: lower-case `#rrggbb` whose components lie between 0 and the input's; 0% is the input lower-cased; 100% is `#000000` |
| ColorSchemes.SchemeColorsAreHex | scr/utilities/utils_screen.py:4-58 | every colour of every scheme, ROSE_GOLD included, is `#RRGGBB` |
| ColorSchemes.ButtonShadesAreWellFormed | scr/utilities/utils_screen.py:127-147 | the 15% hover and pressed shades of any selected scheme never raise and are lower-case `#rrggbb` |
| ColorSchemes.StyleAllLabels | scr/utilities/utils_screen.py:189-201 | a label takes the scheme's text colour iff its name is not one of the six excluded names; the others keep theirs |
| EmailAddress.IndexOf | scr/ui_functions/send_email_screen_function.py:51 | the first occurrence of a character, or none iff it is absent |
| EmailAddress.LastIndexOf | scr/ui_functions/send_email_screen_function.py:51 | the last occurrence of a character, or none iff it is absent |
| EmailAddress.SplitAddress | scr/ui_functions/send_email_screen_function.py:51 | the three parts concatenate back to the input, with no '@' in the local part and no '.' in the top-level part |
| EmailAddress.Accepts | scr/ui_functions/send_email_screen_function.py:51 | an accepted address contains '@' and has at least six characters (`a@b.cc`) |
| EmailAddress.AcceptsIsSound | scr/ui_functions/send_email_screen_function.py:51-52 | every accepted string is `local@domain.tld` over the pattern's character classes |
| EmailAddress.AcceptsIsComplete | scr/ui_functions/send_email_screen_function.py:51-52 | every string of that shape is accepted |
| EmailAddress.ValidateEmailMatchesPattern | scr/ui_functions/send_email_screen_function.py:45-52 | `validate_email` holds iff the pattern matches the whole string, or the whole string minus one final newline (Python's `$`) |
| EmailAddress.ValidateEmail | scr/ui_functions/send_email_screen_function.py:45-52 | a valid address contains '@' and has at least six characters |
| EmailAddress.AcceptedHasOneAt | scr/ui_functions/send_email_screen_function.py:51 | an accepted address holds exactly one '@' |
| EmailAddress.StrippedInputNeedsNoNewline | scr/ui_functions/send_email_screen_function.py:56-63 | on stripped input `validate_email` and the plain pattern agree |
| EmailScreen.Decide | scr/ui_functions/send_email_screen_function.py:56-65 | empty iff the stripped text is empty; invalid iff it is non-empty and not accepted; otherwise the recipient is the stripped text and has the address shape |
| EmailScreen.SendEmailScreen.constructor | scr/ui_functions/send_email_screen_function.py:12-34 | no photos, no strip, empty field with the placeholder, both buttons enabled, as construction gives once the background helper it calls exists |
| EmailScreen.SendEmailScreen.SetPhotos | scr/ui_functions/send_email_screen_function.py:40-43 | both values stored verbatim, nothing else changed |
| EmailScreen.SendEmailScreen.SetInputText | scr/ui_functions/send_email_screen_function.py:56 | the text `self.lineEdit_email.text()` then reads is what the user typed; this models the user typing, not a function of the source |
| EmailScreen.SendEmailScreen.SendEmail | scr/ui_functions/send_email_screen_function.py:54-86 | empty or invalid address: only the title changes and nothing is sent; otherwise both buttons are disabled and the request goes to the sender; on failure both are re-enabled with the failure title; on success they stay disabled and the return home is scheduled |
| EmailScreen.SendEmailScreen.Dispatch | scr/ui_functions/send_email_screen_function.py:67-110 | buttons off and "Sending..."; no strip path raises TypeError; otherwise recipient, strip path and photos go to the sender |
| EmailScreen.SendEmailScreen.GoToHome | scr/ui_functions/send_email_screen_function.py:117-128 | field cleared, main label reset, both buttons enabled and page 1 shown, whatever came before |
| EmailScreen.SendEmailScreen.SkipEmail | scr/ui_functions/send_email_screen_function.py:112-115 | the same reset as `go_to_home` |
| EmailScreen.SendEmailScreen.HomeTimerFires | scr/ui_functions/send_email_screen_function.py:78-81 | the scheduled return home performs `go_to_home` once; with none pending nothing changes |

## Left out

- `adjust_brightness` (camera_controller.py:284-296): float scaling inside `cv2.convertScaleAbs`.
- Pixel contents of grayscale, sepia, blur, sharpen and resize: uninterpreted OpenCV operations.
- LANCZOS resampling, JPEG quality and DPI metadata. A saved picture decodes to what was written; compression loss is not modelled.
- `time.sleep` between shots: timing does not change the result.
- `print` output and the traceback in `create_photo_strip`: logging only.
- The return value of `cv2.imwrite` in `take_photo` and `create_collage`: ignored by the source, and likewise ignored here.
- Camera.TakePhotoStep: `cv2.imwrite` raising on an empty frame is not modelled; a frame the device delivers is taken to be non-empty. The `.jpg` extension always has a writer.
- `makedirs` failures other than an empty path and a path that is a regular file (missing permissions, a file among the ancestors): the filesystem is flat in this model.
- `open_camera` replaces the previous capture object without releasing it. The model records only the new object.
- `cv2.resize` on an empty target size: it is left uninterpreted.
- `__del__`: it runs `close_camera`, which is modelled.
- `np.hstack` on tiles of different sizes: every tile is resized to the same size first, so only `np.vstack` can fail.
- ColorSchemes.DarkenComponent: computes the exact rational `c*(100-p)/100`, truncated. The source multiplies by the float `1 - percent/100`, which can truncate to one less: for c = 5 and percent = 80 that float is just under 0.2, so the source gives 0 where the model gives 1.
- ColorSchemes.LightenComponent: percent is an integer, and the model computes the exact rational `c + (255-c)*percent/100`, truncated. For 0 <= percent <= 100 (and up to about 10^13 in magnitude) the source's float quotient never crosses an integer, so its result is the exact one. Beyond that the source's float sum rounds, and for a percent around 10^306 or more in magnitude the true division raises OverflowError; the model returns a colour there.
- ColorSchemes.LightenColor: inherits the `LightenComponent` gap: for a percent beyond about 10^13 in magnitude the source rounds, and beyond about 10^306 it raises OverflowError, where the model returns the exact result.
- ColorSchemes.DarkenColor: inherits the `DarkenComponent` gap, and for a percent around 10^306 or more in magnitude the source's float arithmetic raises OverflowError where the model returns a colour.
- ColorSchemes.ParseHexSlice: Python's `int(s, 16)` also accepts non-ASCII Unicode decimal digits; this model treats them as invalid.
- Stylesheet text of `style_button`, `style_label` and `style_line_edit`, and widget traversal with `findChildren`. Only the colours they use and the label-exclusion rule are modelled.
- `set_background`, `style_all_buttons` and `style_all_line_edits`: stylesheet assignment only.
- EmailScreen.SendEmailScreen: the mail sender (scr/utilities/email_sender.py is not part of this model). Its result is the `delivered` parameter. `processEvents` and the 2-second delay are not modelled; the timer is the `homeScheduled` flag. Of `design_setup`, only the placeholder text and the cleared field are modelled; the background call is covered by the next line.
- EmailScreen.SendEmailScreen.constructor: the model assumes the background helper exists. As written, `design_setup` (send_email_screen_function.py:27) calls `utils_screen.pink_background`, which utils_screen.py does not define (its background helper is `set_background`, line 105). Constructing the screen therefore raises AttributeError before the placeholder is set or the field cleared.
- The TypeError from `os.path.exists(None)` is returned as an outcome. What Qt does with an exception escaping a slot is not modelled.

## Findings

| source | as written | input that shows it | evidently intended | confidence | as-written member | corrected member |
|---|---|---|---|---|---|---|
| scr/camera/camera_controller.py:255-265 | rows of `cols` images are stacked with `np.vstack`, which raises when the last row is only partly filled and there is more than one row | three readable photos with the default layout (2, 2): rows of widths 2 and 1 | a collage in which the missing tiles are left blank | not executed | Collage.ThreePhotosInTwoByTwoRaise | Collage.CollageCorrectedIsRectangular |
