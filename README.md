# Face-recognition access control: the decision code, in Dafny

This project models the code around the two neural networks of a face-recognition
access-control system. The networks are a face detector and an embedding network. It
proves properties of that model. The model and proofs cover:

- The best-face candidate scan. The same loop is copied into the Flask server's
  `authenticate` and `register_user`, the live recogniser `reconocer.py` and the
  enrolment script `registrar.py`. It is modelled once, in `Detector`.
- The nearest-enrolled-user scan, and the server's three-way access decision.
- The two multi-frame reducers. Authentication keeps the best of 10 frames;
  registration keeps the best of 15.
- Registration: the stripped-name checks, and the access flag stored as False while the
  response reports `access_granted` as True.
- The server's state: the cached user base and the session user. It is a class whose
  two routes update it.
- The recogniser's `.npy` loader, its nearest-name scan and its two-way label.
- The enrolment script: it stops at the first frame with a face and saves to
  `base_rostros/<name>.npy`. When the name contains neither ".npy" nor a path
  separator, the loader maps this file back to the same name.
- The detector diagnostic `tests/test-yolo.py`, which draws every candidate passing its
  looser filters.

Modules:

- `Common`: candidates, boxes, frames and embeddings.
- `PyStr`: the Python string built-ins that are used: `strip()`, `endswith()` and
  `replace(pat, "")`.
- `Detector`: the scan, and Python `int()` as truncation toward zero.
- `App`: the server.
- `Reconocer`, `Registrar` and `YoloTest`: the three scripts.

Every loop of the modelled core is a `method` with loop invariants. Each is proved equal to a
recursive specification function over the same inputs. The properties are lemmas about
those functions.

Floats are modelled as `real`. A failed `cap.read()` is `None`. The detector output for
a frame, the embedding the network returns for the selected crop, and the cosine
distance are all inputs.

Two facts about the code worth knowing:

- An accepted box can be 49 px wide although its unrounded width is at least 50. The
  size filter looks at `w_box` before truncation, and truncating the two corners can
  lose almost two pixels. `Detector.NarrowAcceptedBox` exhibits such a box, and
  `Detector.AcceptedBoxGeometry` states what does hold.
- The live recogniser keeps no state between frames: each frame's overlay depends on
  that frame alone (`Reconocer.ViewsIndependent`).

## Model

| member | source | states |
|---|---|---|
| Detector.Trunc | app.py:267-270 | `int()` truncates toward zero: for x >= 0 the result is in (x-1, x]; for x < 0 it is in [x, x+1) |
| Detector.TruncSmallNegative | reconocer.py:81-88 | a left or top edge in (-1, 0) truncates to 0, so it passes the `x1 < 0` / `y1 < 0` check |
| Detector.AcceptedBoxGeometry | app.py:262-275 | a box passing the size and bounds filters lies inside the W x H frame. Its unrounded size is at least the minimum, and its integer width and height exceed the unrounded ones minus 2. With the 50 px minimum, x1 < x2 and y1 < y2 |
| Detector.CornersGeometry | app.py:267-275 | the same facts about the truncated corners of a rescaled box |
| Detector.EdgeSpan | registrar.py:77-80 | truncation shrinks an interval with a non-negative left end by less than 2 |
| Detector.NarrowAcceptedBox | app.py:262-278 | a concrete candidate in a 640x640 frame is accepted with the box (0, 75, 49, 125), which is only 49 px wide |
| Detector.ScanByFindsBest | app.py:256-278 | a running maximum with strict `>` and an acceptance test finds nothing iff nothing is accepted. Otherwise it keeps the box and confidence of an accepted candidate of maximal confidence that is strictly above every earlier accepted one (the lowest index wins a tie) |
| Detector.ScanFindsBest | app.py:256-278 | the scan selects nothing iff no candidate has conf > 0.55 and passes the 50 px size and in-frame checks. Otherwise it selects the first most confident such candidate, with its box |
| Detector.SelectedBoxInFrame | app.py:256-278 | the box the scan selects satisfies 0 <= x1 < x2 <= W and 0 <= y1 < y2 <= H, and its confidence is above 0.55 |
| Detector.BestIsUnique | app.py:261 | at most one candidate meets the selection criterion |
| Detector.LowConfidenceSelectsNothing | app.py:256-261 | if every confidence is <= 0.55, no box is selected |
| Detector.SingleEligibleSelected | app.py:256-278 | exactly one eligible candidate is selected with its own box and confidence, whatever the others are |
| Detector.RejectedDoesNotRaiseBar | app.py:261-278 | a rejected candidate leaves `best_conf` unchanged: a more confident but too-small candidate does not prevent a later, less confident, valid one from being chosen |
| Detector.SelectFace | reconocer.py:66-92 | the loop as written (size check before bounds check) computes the scan. It returns no box iff nothing is eligible, else the best candidate's box and confidence |
| Detector.FaceConfAboveThreshold | app.py:261 | a selected face always has confidence above 0.55 |
| PyStr.LStrip | app.py:345 | removes exactly a whitespace prefix and leaves no leading whitespace |
| PyStr.RStrip | app.py:345 | removes exactly a whitespace suffix and leaves no trailing whitespace |
| PyStr.StripEmptyIffBlank | app.py:345-349 | `strip()` is empty iff the string is all whitespace (including empty) |
| PyStr.StripIdempotent | app.py:345 | stripping twice is stripping once |
| PyStr.Remove | reconocer.py:24 | `replace(pat, "")` never lengthens the string |
| PyStr.RemoveAppended | reconocer.py:24 | removing an unbordered pattern from `s + pat`, where `s` does not contain it, gives `s` |
| App.NearestIsFirstMinimum | app.py:288-298 | the user scan reports "DESCONOCIDO" at 1e9 without access when every user is at distance >= 1e9. Otherwise it reports the first minimum-distance user, with that same user's access flag |
| App.NearestBounded | app.py:289 | the reported distance never exceeds 1e9 |
| App.NearestUser | app.py:288-298 | the scan loop as written computes `Nearest`, with both cases above |
| App.BestOfFramesIsFirstMinimum | app.py:230-306 | the frame reducer keeps nothing iff no frame has a face with a match below 1e9. Otherwise it keeps the match of the first frame of minimal distance |
| App.BestFrameByIsFirstMinimum | app.py:230-306 | for any per-frame match, the reducer that replaces only on a strictly smaller distance keeps nothing iff no frame has a match below 1e9. Otherwise it keeps the first frame of minimal distance |
| App.MatchFrames | app.py:230-306 | the ten-read loop as written computes the frame reducer's state: the first closest match, or nothing at 1e9 |
| App.EmptyBaseKeepsNothing | app.py:289-306 | with no enrolled users nothing is kept, even when faces were found |
| App.EmptyBaseReportsNoFace | app.py:300-313 | with no users and a working camera the response is "no face detected" |
| App.DecisionTable | app.py:315-331 | Welcome iff distance < 0.55 and access; identified-but-refused iff distance < 0.55 without access; unrecognised iff distance >= 0.55. This includes the rows 0.3/true, 0.3/false, 0.7/true and 0.55 |
| App.WelcomeIsAuthorisedNearest | app.py:233-317 | a welcome names an enrolled user with the access flag. That user is the first nearest one, at distance < 0.55, for the face of some frame read |
| App.BestCaptureIsFirstMaximum | app.py:360-420 | registration keeps nothing iff no frame has a face. Otherwise it keeps the embedding and confidence of the first most confident detection |
| App.BestCaptureByIsFirstMaximum | app.py:360-418 | for any per-frame capture with positive confidence, the reducer that replaces only on a strictly higher confidence keeps nothing iff no frame offers a capture. Otherwise it keeps the first most confident one |
| App.CaptureFrames | app.py:360-418 | the fifteen-read loop as written computes the capture reducer's state: the first most confident face's embedding, or nothing at 0 |
| App.NameChecksComeFirst | app.py:345-357 | an empty stripped name or an existing name is refused with the users unchanged, whatever the camera and its frames |
| App.BlankNameRefused | app.py:345-349 | a missing or all-whitespace name is refused |
| App.RegisteredUserHasNoAccess | app.py:345-451 | success appends exactly one user under the stripped, new, non-empty name. Its embedding is that of the first most confident capture. The response says access granted while the stored flag is False, and names stay unique |
| App.NewUserIsNotWelcomed | app.py:315-317 | a freshly registered user is never welcomed, whatever frames are presented |
| App.Server.constructor | app.py:32-38 | the server starts with the loaded users and no session user |
| App.Server.Authenticate | app.py:223-331 | the route as written returns the modelled response and keeps the names unique. Only a welcome sets the session user, to the welcomed name |
| App.Server.RegisterUser | app.py:340-451 | the route as written returns the modelled response and the new user base, keeping names unique |
| Reconocer.Put | reconocer.py:25 | dict assignment: an existing key keeps its place and takes the new value; a new key is appended; other entries and key uniqueness are kept |
| Reconocer.LoadUnique | reconocer.py:20-26 | loaded keys are distinct |
| Reconocer.LoadKeys | reconocer.py:22-25 | a name is a key iff some listed file ends in ".npy" and has that name once every ".npy" is removed |
| Reconocer.LoadValues | reconocer.py:22-25 | each key holds the contents of the last listed file that maps to it |
| Reconocer.DoubledExtension | reconocer.py:23-24 | "a.npy.npy" is loaded as "a", and a non-".npy" file is ignored |
| Reconocer.LoadBase | reconocer.py:20-26 | the loader loop as written computes `Load`, with unique keys and exactly the keys above |
| Reconocer.NearestNameAgrees | reconocer.py:104-112 | the recogniser's name scan reports the same name and distance as the server's user scan over the same embeddings |
| Reconocer.NearestNameIsFirstMinimum | reconocer.py:104-112 | the name scan reports the first nearest name, or "DESCONOCIDO" at 1e9 when everyone is at least that far away (in particular with an empty base) |
| Reconocer.FindClosest | reconocer.py:104-112 | the scan loop as written computes `NearestName` |
| Reconocer.LabelTable | reconocer.py:115-120 | green with the matched name iff distance < 0.55; red "DESCONOCIDO" otherwise, including at 0.55 |
| Reconocer.LabelAgreesWithServer | reconocer.py:115-120 | the label is green iff the server would identify the user, granted or not. No access flag is consulted |
| Reconocer.ViewsIndependent | reconocer.py:47-121 | each frame's view depends only on that frame: the views of two runs of reads concatenate |
| Reconocer.SingleView | reconocer.py:47-121 | a failed read shows nothing. A read shows a box iff it has a face, and the box is the scan's |
| Reconocer.Run | reconocer.py:47-121 | the frame loop as written computes `Views` |
| Registrar.FileName | registrar.py:108 | the saved file name is the typed name followed by ".npy", so the loader accepts it |
| Registrar.SavePath | registrar.py:108 | the path is "base_rostros/" followed by the file name |
| Registrar.EnrollmentIsFirstFace | registrar.py:37-115 | nothing is saved iff no frame has a face. Otherwise the face of the first frame with one is saved |
| Registrar.LaterFramesIgnored | registrar.py:92-115 | once a frame with a face has been read, later frames make no difference |
| Registrar.Enroll | registrar.py:37-115 | the loop as written computes `Enrollment` |
| Registrar.SavedNameLoadsBack | reconocer.py:22-25 | a name without ".npy" in it is loaded back from its file as exactly that name |
| Registrar.SavedFileLoadsBack | registrar.py:108 | if no other file maps to the same name, the loaded base holds the saved embedding under that name |
| Registrar.NameWithExtensionIsLost | registrar.py:108 | the name "a.npy" is saved as "a.npy.npy" and loaded back as "a" |
| YoloTest.FilterByInIndexOrder | tests/test-yolo.py:37-69 | the filter's output is the drawings of exactly the passing candidates, in increasing index order |
| YoloTest.PassingIsListed | tests/test-yolo.py:37-69 | every passing candidate is drawn |
| YoloTest.DrawnInIndexOrder | tests/test-yolo.py:37-69 | every candidate passing the diagnostic's filters is drawn, nothing else is, and drawings are in index order |
| YoloTest.DrawnSound | tests/test-yolo.py:39-65 | every drawing has conf >= 0.55, lies inside the frame, is non-empty, and comes from a candidate whose unrounded size is >= 10 px |
| YoloTest.EligibleIsDrawable | tests/test-yolo.py:39-65 | the selection's filters are stricter than the diagnostic's |
| YoloTest.SelectedBoxIsDrawn | tests/test-yolo.py:37-69 | the face the scan selects is among the diagnostic's drawings |
| YoloTest.SelectedIsListed | tests/test-yolo.py:37-69 | the same for any selection test stricter than the filter |
| YoloTest.BoundaryConfidenceDrawnNotSelected | tests/test-yolo.py:39 | a candidate at exactly 0.55 is drawn but never selected |
| YoloTest.SmallFaceDrawnNotSelected | tests/test-yolo.py:64-65 | a 20 px face is drawn but never selected |
| YoloTest.DrawDetections | tests/test-yolo.py:37-69 | the loop as written (bounds check before size check) computes `DrawnBoxes` (size check before bounds check), so the two filter orders accept the same candidates |

## Left out

- Flask routes, JSON bodies, HTTP status codes, `login_required`, the cookie session
  and the response messages. They are web plumbing. Only which branch is taken is
  modelled.
- Camera I/O: `get_camera`, `video_feed`, `abrir_camara`, `cv2.imshow`, `waitKey`,
  `rectangle` and `putText`. These are I/O and UI. A camera is an input flag, and the
  frames read are a finite input sequence.
- The ESC key that cancels `registrar.py`, `reconocer.py` and `tests/test-yolo.py`.
  The loops are modelled over the reads made before the program ends.
- ONNX inference, image preprocessing (`preprocess_arcface`, resizing, colour
  conversion) and `session_options.py`. These are foreign calls. Detector output and
  embeddings are inputs.
- `distancia_coseno`. This is floating-point numerics. Any distance function may stand
  for it.
- Floating-point rounding. Reals are used instead: confidences, coordinates and
  distances are exact.
- The fixed count of 8400 candidates. The scan runs over whatever candidate sequence the
  frame carries.
- The database layer: `guardar_usuario`, `obtener_usuarios`, the SQLAlchemy models, and
  `toggle_user_access` / `delete_user`. These are thin wrappers over the store, and
  exceptions from it are not modelled. The reload after a successful registration is
  modelled as appending the new user. This assumes the store returns rows in insertion
  order.
- File writes and directory listing (`np.save`, `os.listdir`, `os.makedirs`). Only the
  name and path strings are modelled. The listing is an input sequence.
- Float formatting of labels (`:.3f`, `:.2f`). The overlay carries the distance itself.
- A JSON request whose `username` is not a string. It would raise before any check.
- The drawing in `registrar.py`: the rectangle and the confidence text are drawn onto
  the frame before the face is cropped from it, so the saved embedding is computed from a
  crop that carries a 2-px green border. Here a frame's `face` is simply the embedding
  the network returns for the selected crop, whatever pixels that crop holds.
- Concurrency: the server runs with `threaded=True`. Two registrations of the same
  name can both pass the duplicate check before either inserts, and the second then
  fails in the store rather than being reported as already registered. The user cache
  can also be replaced while an authentication is reading frames. `App.Server`'s routes
  are modelled as atomic.
- Non-finite detector output (inf or NaN coordinates). Python `int()` raises on those
  before the size filter runs. Here every coordinate is a finite real.
- PyStr.Remove: modelled only for a non-empty pattern. That is the only use, with
  ".npy".
