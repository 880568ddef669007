/** The best-face candidate scan. The server's `authenticate` and `register_user`,
    the live recogniser and the enrolment script all run the same loop over the
    detector's candidates (only the order of two assignments differs between the
    copies), so it is modelled once here. */
module Detector {
  import opened Common

  /** Side of the square detector input the candidates are expressed in. */
  const ModelSize: real := 640.0
  /** A candidate is considered only with confidence strictly above this. */
  const ConfThreshold: real := 0.55
  /** Minimum unrounded width and height, in frame pixels, of an accepted face. */
  const MinFaceSize: real := 50.0

  /** Python's `int()` on a float: rounds toward zero, so it never moves a value
      away from zero and never by a whole unit. */
  function Trunc(x: real): (r: int)
    ensures 0.0 <= x ==> 0 <= r && r as real <= x < r as real + 1.0
    ensures x < 0.0 ==> r <= 0 && r as real - 1.0 < x <= r as real
  {
    if x >= 0.0 then x.Floor else -((-x).Floor)
  }

  /** A left or top edge in (-1, 0) truncates to 0 and so passes the `x1 < 0` check. */
  lemma TruncSmallNegative(x: real)
    requires -1.0 < x < 0.0
    ensures Trunc(x) == 0
  {
  }

  /** A candidate's centre and size, rescaled to frame pixels. */
  datatype Scaled = Scaled(cx: real, cy: real, w: real, h: real)

  /** Rescales with the independent factors `W / 640` and `H / 640`. */
  function ToFrame(c: Candidate, width: nat, height: nat): Scaled {
    var sx := width as real / ModelSize;
    var sy := height as real / ModelSize;
    Scaled(c.x * sx, c.y * sy, c.w * sx, c.h * sy)
  }

  /** Centre and size to truncated corners. */
  function Corners(s: Scaled): Box {
    Box(Trunc(s.cx - s.w / 2.0), Trunc(s.cy - s.h / 2.0),
        Trunc(s.cx + s.w / 2.0), Trunc(s.cy + s.h / 2.0))
  }

  /** The box a candidate would produce in a `width` x `height` frame. */
  function BoxOf(c: Candidate, width: nat, height: nat): Box {
    Corners(ToFrame(c, width, height))
  }

  /** The size filter, on the unrounded scaled size. */
  predicate TooSmall(s: Scaled, minSize: real) {
    s.w < minSize || s.h < minSize
  }

  /** The bounds filter, on the truncated corners. */
  predicate OutOfFrame(b: Box, width: nat, height: nat) {
    b.x1 < 0 || b.y1 < 0 || b.x2 > width || b.y2 > height
  }

  /** A candidate passes both geometry filters at minimum size `minSize`. */
  predicate FitsFrame(c: Candidate, width: nat, height: nat, minSize: real) {
    var s := ToFrame(c, width, height);
    !TooSmall(s, minSize) && !OutOfFrame(Corners(s), width, height)
  }

  /** A candidate the scan may select: above the confidence threshold and a face of
      at least 50 px lying inside the frame. */
  predicate Eligible(c: Candidate, width: nat, height: nat) {
    c.conf > ConfThreshold && FitsFrame(c, width, height, MinFaceSize)
  }

  /** Every box that passes the geometry filters lies inside the frame, and is non-empty
      whenever `minSize >= 2`: truncation moves each corner by less than one pixel, so the
      integer width exceeds the unrounded width minus 2. The integer width can thus be
      below `minSize` (see `NarrowAcceptedBox`). */
  lemma AcceptedBoxGeometry(c: Candidate, width: nat, height: nat, minSize: real)
    requires FitsFrame(c, width, height, minSize) && minSize >= 0.0
    ensures var s := ToFrame(c, width, height); var b := BoxOf(c, width, height);
      0 <= b.x1 && 0 <= b.y1 && b.x2 <= width && b.y2 <= height
      && s.w >= minSize && s.h >= minSize
      && (b.x2 - b.x1) as real > s.w - 2.0 && (b.y2 - b.y1) as real > s.h - 2.0
      && (minSize >= 2.0 ==> b.x1 < b.x2 && b.y1 < b.y2)
  {
    CornersGeometry(ToFrame(c, width, height), width, height, minSize);
  }

  /** `AcceptedBoxGeometry` for an already scaled centre and size. */
  lemma CornersGeometry(s: Scaled, width: nat, height: nat, minSize: real)
    requires !TooSmall(s, minSize) && !OutOfFrame(Corners(s), width, height) && minSize >= 0.0
    ensures var b := Corners(s);
      0 <= b.x1 && 0 <= b.y1 && b.x2 <= width && b.y2 <= height
      && s.w >= minSize && s.h >= minSize
      && (b.x2 - b.x1) as real > s.w - 2.0 && (b.y2 - b.y1) as real > s.h - 2.0
      && (minSize >= 2.0 ==> b.x1 < b.x2 && b.y1 < b.y2)
  {
    var b := Corners(s);
    EdgeSpan(s.cx - s.w / 2.0, s.cx + s.w / 2.0, b.x1, b.x2);
    EdgeSpan(s.cy - s.h / 2.0, s.cy + s.h / 2.0, b.y1, b.y2);
  }

  /** The truncated ends of the interval [lo, hi], when the left one is not negative,
      are more than `hi - lo - 2` apart. */
  lemma EdgeSpan(lo: real, hi: real, left: int, right: int)
    requires left == Trunc(lo) && right == Trunc(hi) && 0 <= left && lo <= hi
    ensures (right - left) as real > hi - lo - 2.0
  {
  }

  /** An accepted box can be only 49 px wide: a left edge at -0.5 truncates to 0 while
      the right edge at 49.5 truncates to 49. */
  lemma NarrowAcceptedBox()
    ensures var c := Candidate(24.5, 100.0, 50.0, 50.0, 0.9);
      Eligible(c, 640, 640) && BoxOf(c, 640, 640) == Box(0, 75, 49, 125)
  {
    var c := Candidate(24.5, 100.0, 50.0, 50.0, 0.9);
    var s := ToFrame(c, 640, 640);
    assert s == Scaled(24.5, 100.0, 50.0, 50.0);
    TruncSmallNegative(-0.5);
    assert Trunc(49.5) == 49;
  }

  /** The loop's running state: `best_conf` and `best_box`. */
  datatype ScanState = ScanState(bestConf: real, bestBox: Option<Box>)

  /** The running maximum for an arbitrary acceptance test `ok` and box map `box`:
      one iteration replaces the best only on a strictly greater confidence, and only
      when the candidate is accepted. Starts from `best_conf = 0, best_box = None`. */
  function ScanBy(cs: seq<Candidate>, ok: Candidate -> bool, box: Candidate -> Box): ScanState
    decreases |cs|
  {
    if |cs| == 0 then ScanState(0.0, None)
    else
      var st := ScanBy(cs[..|cs| - 1], ok, box);
      var c := cs[|cs| - 1];
      if c.conf > st.bestConf && ok(c) then ScanState(c.conf, Some(box(c))) else st
  }

  /** Candidate `k` is accepted, of maximal confidence among the accepted candidates, and
      strictly above every earlier accepted one (so the lowest index wins a tie). */
  predicate IsBestBy(cs: seq<Candidate>, ok: Candidate -> bool, k: int) {
    0 <= k < |cs| && ok(cs[k])
    && (forall j :: 0 <= j < |cs| && ok(cs[j]) ==> cs[j].conf <= cs[k].conf)
    && (forall j :: 0 <= j < k && ok(cs[j]) ==> cs[j].conf < cs[k].conf)
  }

  /** What the running maximum should hold for `cs`: nothing, at confidence 0, exactly
      when no candidate is accepted; otherwise the box and confidence of the best one. */
  predicate KeepsBestBy(cs: seq<Candidate>, ok: Candidate -> bool, box: Candidate -> Box, st: ScanState) {
    (st.bestBox.None? <==> forall j :: 0 <= j < |cs| ==> !ok(cs[j]))
    && (st.bestBox.None? ==> st.bestConf == 0.0)
    && (st.bestBox.Some? ==>
          exists k :: 0 <= k < |cs| && IsBestBy(cs, ok, k) && st.bestConf == cs[k].conf && st.bestBox.value == box(cs[k]))
  }

  /** For any acceptance test that implies a positive confidence, the running maximum
      finds nothing exactly when nothing is accepted, and otherwise keeps the box and
      confidence of the best accepted candidate. */
  lemma {:induction false} ScanByFindsBest(cs: seq<Candidate>, ok: Candidate -> bool, box: Candidate -> Box)
    requires forall c :: ok(c) ==> c.conf > 0.0
    ensures KeepsBestBy(cs, ok, box, ScanBy(cs, ok, box))
    decreases |cs|
  {
    if |cs| > 0 {
      var p := cs[..|cs| - 1];
      ScanByFindsBest(p, ok, box);
      var prev := ScanBy(p, ok, box);
      if prev.bestBox.Some? {
        var k :| 0 <= k < |p| && IsBestBy(p, ok, k) && prev.bestConf == p[k].conf && prev.bestBox.value == box(p[k]);
        ScanAfterSome(cs, ok, box, k);
      } else {
        ScanAfterNone(cs, ok, box);
      }
    }
  }

  /** Inductive step of `ScanByFindsBest` when nothing earlier was accepted. */
  lemma ScanAfterNone(cs: seq<Candidate>, ok: Candidate -> bool, box: Candidate -> Box)
    requires forall c :: ok(c) ==> c.conf > 0.0
    requires |cs| > 0
    requires var p := cs[..|cs| - 1];
      (forall j :: 0 <= j < |p| ==> !ok(p[j])) && ScanBy(p, ok, box) == ScanState(0.0, None)
    ensures KeepsBestBy(cs, ok, box, ScanBy(cs, ok, box))
  {
    var p := cs[..|cs| - 1];
    var last := |cs| - 1;
    forall j | 0 <= j < last ensures !ok(cs[j]) {
      assert cs[j] == p[j];
    }
    if ok(cs[last]) {
      assert IsBestBy(cs, ok, last);
    }
  }

  /** Inductive step of `ScanByFindsBest` when candidate `k` is the best so far. */
  lemma ScanAfterSome(cs: seq<Candidate>, ok: Candidate -> bool, box: Candidate -> Box, k: int)
    requires forall c :: ok(c) ==> c.conf > 0.0
    requires |cs| > 0
    requires var p := cs[..|cs| - 1];
      0 <= k < |p| && IsBestBy(p, ok, k) && ScanBy(p, ok, box) == ScanState(p[k].conf, Some(box(p[k])))
    ensures KeepsBestBy(cs, ok, box, ScanBy(cs, ok, box))
  {
    var p := cs[..|cs| - 1];
    var last := |cs| - 1;
    var c := cs[last];
    assert cs[k] == p[k];
    forall j | 0 <= j < last && ok(cs[j]) ensures cs[j].conf <= cs[k].conf {
      assert cs[j] == p[j];
    }
    if c.conf > cs[k].conf && ok(c) {
      assert IsBestBy(cs, ok, last);
    } else {
      forall j | 0 <= j < k && ok(cs[j]) ensures cs[j].conf < cs[k].conf {
        assert cs[j] == p[j];
      }
      assert IsBestBy(cs, ok, k);
    }
  }

  /** The scan of the scripts: the running maximum over the eligible candidates. */
  function Scan(cs: seq<Candidate>, width: nat, height: nat): ScanState {
    ScanBy(cs, c => Eligible(c, width, height), c => BoxOf(c, width, height))
  }

  /** Candidate `k` is the one the scan should select. Ineligible candidates play no
      part at all: a rejected candidate never raises the bar for later ones. */
  predicate IsBest(cs: seq<Candidate>, width: nat, height: nat, k: int) {
    IsBestBy(cs, c => Eligible(c, width, height), k)
  }

  /** The scan finds nothing exactly when no candidate is eligible; otherwise it keeps
      the box and confidence of the best candidate. */
  lemma ScanFindsBest(cs: seq<Candidate>, width: nat, height: nat)
    ensures var st := Scan(cs, width, height);
      (st.bestBox.None? <==> forall j :: 0 <= j < |cs| ==> !Eligible(cs[j], width, height))
      && (st.bestBox.None? ==> st.bestConf == 0.0)
      && (st.bestBox.Some? ==>
            exists k :: IsBest(cs, width, height, k)
              && st.bestConf == cs[k].conf && st.bestBox.value == BoxOf(cs[k], width, height))
  {
    ScanByFindsBest(cs, c => Eligible(c, width, height), c => BoxOf(c, width, height));
    var st := Scan(cs, width, height);
    if st.bestBox.Some? {
      var k :| 0 <= k < |cs| && IsBestBy(cs, c => Eligible(c, width, height), k)
        && st.bestConf == cs[k].conf && st.bestBox.value == BoxOf(cs[k], width, height);
      assert IsBest(cs, width, height, k);
    }
  }

  /** The box the scan selects lies inside the frame and is non-empty, and its
      confidence is above 0.55. */
  lemma SelectedBoxInFrame(cs: seq<Candidate>, width: nat, height: nat)
    ensures var st := Scan(cs, width, height);
      st.bestBox.Some? ==>
        var b := st.bestBox.value;
        0 <= b.x1 < b.x2 <= width && 0 <= b.y1 < b.y2 <= height && st.bestConf > ConfThreshold
  {
    ScanFindsBest(cs, width, height);
    var st := Scan(cs, width, height);
    if st.bestBox.Some? {
      var k :| IsBest(cs, width, height, k)
        && st.bestConf == cs[k].conf && st.bestBox.value == BoxOf(cs[k], width, height);
      AcceptedBoxGeometry(cs[k], width, height, MinFaceSize);
    }
  }

  /** At most one candidate is the best one. */
  lemma BestIsUnique(cs: seq<Candidate>, width: nat, height: nat, k1: int, k2: int)
    requires IsBest(cs, width, height, k1) && IsBest(cs, width, height, k2)
    ensures k1 == k2
  {
  }

  /** If no confidence exceeds 0.55 the scan selects nothing. */
  lemma LowConfidenceSelectsNothing(cs: seq<Candidate>, width: nat, height: nat)
    requires forall j :: 0 <= j < |cs| ==> cs[j].conf <= ConfThreshold
    ensures Scan(cs, width, height).bestBox.None?
  {
    ScanFindsBest(cs, width, height);
  }

  /** A single eligible candidate is selected, whatever the others are. */
  lemma SingleEligibleSelected(cs: seq<Candidate>, width: nat, height: nat, k: int)
    requires 0 <= k < |cs| && Eligible(cs[k], width, height)
    requires forall j :: 0 <= j < |cs| && j != k ==> !Eligible(cs[j], width, height)
    ensures Scan(cs, width, height) == ScanState(cs[k].conf, Some(BoxOf(cs[k], width, height)))
  {
    ScanFindsBest(cs, width, height);
  }

  /** A candidate rejected by the geometry filters does not raise `best_conf`: here the
      first candidate has the higher confidence but is too small, and the second,
      less confident one is still selected. */
  lemma RejectedDoesNotRaiseBar()
    ensures var cs := [Candidate(320.0, 320.0, 10.0, 10.0, 0.95), Candidate(320.0, 320.0, 100.0, 100.0, 0.7)];
      Scan(cs, 640, 640) == ScanState(0.7, Some(Box(270, 270, 370, 370)))
  {
    var cs := [Candidate(320.0, 320.0, 10.0, 10.0, 0.95), Candidate(320.0, 320.0, 100.0, 100.0, 0.7)];
    assert ToFrame(cs[0], 640, 640).w == 10.0;
    assert !Eligible(cs[0], 640, 640);
    ScanAppend([], cs[0], 640, 640);
    assert [] + [cs[0]] == [cs[0]];
    assert ToFrame(cs[1], 640, 640) == Scaled(320.0, 320.0, 100.0, 100.0);
    assert Trunc(270.0) == 270 && Trunc(370.0) == 370;
    assert BoxOf(cs[1], 640, 640) == Box(270, 270, 370, 370);
    assert Eligible(cs[1], 640, 640);
    ScanAppend([cs[0]], cs[1], 640, 640);
    assert [cs[0]] + [cs[1]] == cs;
  }

  /** Scanning one more candidate is one more iteration of the loop. */
  lemma ScanAppend(cs: seq<Candidate>, c: Candidate, width: nat, height: nat)
    ensures var st := Scan(cs, width, height);
      Scan(cs + [c], width, height)
        == if c.conf > st.bestConf && Eligible(c, width, height)
           then ScanState(c.conf, Some(BoxOf(c, width, height))) else st
  {
    assert (cs + [c])[..|cs|] == cs;
  }

  /** The candidate scan, as written in the scripts: a running maximum over the
      `N` candidates with the size check before the bounds check. */
  method SelectFace(cs: seq<Candidate>, width: nat, height: nat) returns (bestConf: real, bestBox: Option<Box>)
    ensures ScanState(bestConf, bestBox) == Scan(cs, width, height)
    ensures bestBox.None? <==> forall j :: 0 <= j < |cs| ==> !Eligible(cs[j], width, height)
    ensures bestBox.Some? ==>
      exists k :: IsBest(cs, width, height, k)
        && bestConf == cs[k].conf && bestBox.value == BoxOf(cs[k], width, height)
  {
    bestConf := 0.0;
    bestBox := None;
    for i := 0 to |cs|
      invariant ScanState(bestConf, bestBox) == Scan(cs[..i], width, height)
    {
      assert cs[..i + 1][..i] == cs[..i];
      var conf := cs[i].conf;
      if conf > bestConf && conf > ConfThreshold {
        var scaled := ToFrame(cs[i], width, height);
        var box := Corners(scaled);
        if scaled.w < MinFaceSize || scaled.h < MinFaceSize {
          continue;
        }
        if box.x1 < 0 || box.y1 < 0 || box.x2 > width || box.y2 > height {
          continue;
        }
        bestBox := Some(box);
        bestConf := conf;
      }
    }
    assert cs[..|cs|] == cs;
    ScanFindsBest(cs, width, height);
  }

  /** The frame contains a selectable face: it was read and the scan found a box. */
  predicate HasFace(f: Option<Frame>) {
    f.Some? && Scan(f.value.candidates, f.value.width, f.value.height).bestBox.Some?
  }

  /** The confidence the scan reports for a frame with a face. */
  function FaceConf(f: Option<Frame>): real
    requires HasFace(f)
  {
    Scan(f.value.candidates, f.value.width, f.value.height).bestConf
  }

  /** A face is only ever reported above the 0.55 detection threshold. */
  lemma FaceConfAboveThreshold(f: Option<Frame>)
    requires HasFace(f)
    ensures FaceConf(f) > ConfThreshold
  {
    ScanFindsBest(f.value.candidates, f.value.width, f.value.height);
  }
}
