/** The detector diagnostic: instead of selecting one face it draws every candidate
    that passes its own, looser filters (confidence of at least 0.55, a box inside the
    frame, at least 10 px wide and high). */
module YoloTest {
  import opened Common
  import opened Detector

  /** The diagnostic's confidence threshold, inclusive. */
  const DrawThreshold: real := 0.55
  /** The diagnostic's minimum unrounded width and height. */
  const MinDrawSize: real := 10.0

  /** A rectangle drawn on the frame with its confidence written above it. */
  datatype Drawn = Drawn(box: Box, conf: real)

  /** A candidate the diagnostic draws. The geometry test is the selection's `FitsFrame`
      (size before bounds) at the smaller minimum size. */
  predicate Drawable(c: Candidate, width: nat, height: nat) {
    !(c.conf < DrawThreshold) && FitsFrame(c, width, height, MinDrawSize)
  }

  /** What is drawn for a candidate. */
  function DrawingOf(c: Candidate, width: nat, height: nat): Drawn {
    Drawn(BoxOf(c, width, height), c.conf)
  }

  /** The drawings `draw(c)`, in index order, of the candidates that pass `ok`. */
  function FilterBy(cs: seq<Candidate>, ok: Candidate -> bool, draw: Candidate -> Drawn): seq<Drawn>
    decreases |cs|
  {
    if |cs| == 0 then []
    else
      var d := FilterBy(cs[..|cs| - 1], ok, draw);
      var c := cs[|cs| - 1];
      if ok(c) then d + [draw(c)] else d
  }

  /** `idx` lists, in increasing order, exactly the indices of the candidates passing `ok`. */
  predicate IndicesBy(cs: seq<Candidate>, ok: Candidate -> bool, idx: seq<int>) {
    (forall m :: 0 <= m < |idx| ==> 0 <= idx[m] < |cs| && ok(cs[idx[m]]))
    && (forall m, n :: 0 <= m < n < |idx| ==> idx[m] < idx[n])
    && (forall i :: 0 <= i < |cs| && ok(cs[i]) ==> i in idx)
  }

  /** `idx` lists the passing indices and the filter's output is their drawings. */
  predicate ListsBy(cs: seq<Candidate>, ok: Candidate -> bool, draw: Candidate -> Drawn, idx: seq<int>) {
    IndicesBy(cs, ok, idx) && |idx| == |FilterBy(cs, ok, draw)|
    && forall m :: 0 <= m < |idx| ==> FilterBy(cs, ok, draw)[m] == draw(cs[idx[m]])
  }

  /** The filter keeps exactly the candidates passing `ok`, in index order. */
  lemma {:induction false} FilterByInIndexOrder(cs: seq<Candidate>, ok: Candidate -> bool, draw: Candidate -> Drawn)
    ensures exists idx :: ListsBy(cs, ok, draw, idx)
    decreases |cs|
  {
    if |cs| == 0 {
      assert ListsBy(cs, ok, draw, []);
    } else {
      var p := cs[..|cs| - 1];
      FilterByInIndexOrder(p, ok, draw);
      var idx :| ListsBy(p, ok, draw, idx);
      if ok(cs[|cs| - 1]) {
        FilterKeepsLast(cs, ok, draw, idx);
      } else {
        FilterDropsLast(cs, ok, draw, idx);
      }
    }
  }

  /** Inductive step of `FilterByInIndexOrder` when the last candidate passes. */
  lemma FilterKeepsLast(cs: seq<Candidate>, ok: Candidate -> bool, draw: Candidate -> Drawn, idx: seq<int>)
    requires |cs| > 0 && ok(cs[|cs| - 1]) && ListsBy(cs[..|cs| - 1], ok, draw, idx)
    ensures ListsBy(cs, ok, draw, idx + [|cs| - 1])
  {
    var p := cs[..|cs| - 1];
    var last := |cs| - 1;
    var idx' := idx + [last];
    forall i | 0 <= i < |cs| && ok(cs[i]) ensures i in idx' {
      if i < last {
        assert cs[i] == p[i];
      }
    }
    forall m | 0 <= m < |idx'| ensures 0 <= idx'[m] < |cs| && ok(cs[idx'[m]]) && FilterBy(cs, ok, draw)[m] == draw(cs[idx'[m]]) {
      if m < |idx| {
        assert cs[idx[m]] == p[idx[m]];
      }
    }
  }

  /** Inductive step of `FilterByInIndexOrder` when the last candidate fails. */
  lemma FilterDropsLast(cs: seq<Candidate>, ok: Candidate -> bool, draw: Candidate -> Drawn, idx: seq<int>)
    requires |cs| > 0 && !ok(cs[|cs| - 1]) && ListsBy(cs[..|cs| - 1], ok, draw, idx)
    ensures ListsBy(cs, ok, draw, idx)
  {
    var p := cs[..|cs| - 1];
    forall i | 0 <= i < |cs| && ok(cs[i]) ensures i in idx {
      assert i < |p| && cs[i] == p[i];
    }
    forall m | 0 <= m < |idx| ensures ok(cs[idx[m]]) && FilterBy(cs, ok, draw)[m] == draw(cs[idx[m]]) {
      assert cs[idx[m]] == p[idx[m]];
    }
  }

  /** A passing candidate's drawing is in the filter's output, at some position. */
  lemma PassingIsListed(cs: seq<Candidate>, ok: Candidate -> bool, draw: Candidate -> Drawn, k: int)
    requires 0 <= k < |cs| && ok(cs[k])
    ensures exists m :: 0 <= m < |FilterBy(cs, ok, draw)| && FilterBy(cs, ok, draw)[m] == draw(cs[k])
  {
    FilterByInIndexOrder(cs, ok, draw);
    var idx :| ListsBy(cs, ok, draw, idx);
    var m :| 0 <= m < |idx| && idx[m] == k;
  }

  /** The candidates' drawings, in index order, of those that pass the filters. */
  function DrawnBoxes(cs: seq<Candidate>, width: nat, height: nat): seq<Drawn> {
    FilterBy(cs, c => Drawable(c, width, height), c => DrawingOf(c, width, height))
  }

  /** `idx` lists, in increasing order, exactly the indices of the drawable candidates. */
  predicate DrawableIndices(cs: seq<Candidate>, width: nat, height: nat, idx: seq<int>) {
    IndicesBy(cs, c => Drawable(c, width, height), idx)
  }

  /** Every candidate passing the filters is drawn, nothing else is, and the drawings come
      in index order. */
  lemma DrawnInIndexOrder(cs: seq<Candidate>, width: nat, height: nat)
    ensures exists idx :: DrawableIndices(cs, width, height, idx)
              && |idx| == |DrawnBoxes(cs, width, height)|
              && forall m :: 0 <= m < |idx| ==> DrawnBoxes(cs, width, height)[m] == DrawingOf(cs[idx[m]], width, height)
  {
    var ok := c => Drawable(c, width, height);
    var draw := c => DrawingOf(c, width, height);
    FilterByInIndexOrder(cs, ok, draw);
    var idx :| ListsBy(cs, ok, draw, idx);
    assert DrawableIndices(cs, width, height, idx);
  }

  /** Every drawing has confidence at least 0.55, lies inside the frame, is the box of an
      unrounded size of at least 10 px in each direction, and is non-empty. */
  lemma DrawnSound(cs: seq<Candidate>, width: nat, height: nat, m: int)
    requires 0 <= m < |DrawnBoxes(cs, width, height)|
    ensures var d := DrawnBoxes(cs, width, height)[m];
      d.conf >= DrawThreshold
      && 0 <= d.box.x1 < d.box.x2 <= width && 0 <= d.box.y1 < d.box.y2 <= height
      && exists i :: 0 <= i < |cs| && d == DrawingOf(cs[i], width, height)
           && ToFrame(cs[i], width, height).w >= MinDrawSize && ToFrame(cs[i], width, height).h >= MinDrawSize
  {
    DrawnInIndexOrder(cs, width, height);
    var idx :| DrawableIndices(cs, width, height, idx)
      && |idx| == |DrawnBoxes(cs, width, height)|
      && forall m :: 0 <= m < |idx| ==> DrawnBoxes(cs, width, height)[m] == DrawingOf(cs[idx[m]], width, height);
    var c := cs[idx[m]];
    AcceptedBoxGeometry(c, width, height, MinDrawSize);
  }

  /** The filters the scan uses are stricter in every respect, so the face the server
      selects is always among the boxes the diagnostic draws. */
  lemma EligibleIsDrawable(c: Candidate, width: nat, height: nat)
    requires Eligible(c, width, height)
    ensures Drawable(c, width, height)
  {
  }

  lemma SelectedBoxIsDrawn(cs: seq<Candidate>, width: nat, height: nat)
    requires Scan(cs, width, height).bestBox.Some?
    ensures exists m :: 0 <= m < |DrawnBoxes(cs, width, height)|
              && DrawnBoxes(cs, width, height)[m] == Drawn(Scan(cs, width, height).bestBox.value, Scan(cs, width, height).bestConf)
  {
    forall c | Eligible(c, width, height) ensures Drawable(c, width, height) && c.conf > 0.0 {
      EligibleIsDrawable(c, width, height);
    }
    SelectedIsListed(cs, c => Eligible(c, width, height), c => BoxOf(c, width, height),
                     c => Drawable(c, width, height), c => DrawingOf(c, width, height));
    var d := DrawnBoxes(cs, width, height);
    var st := Scan(cs, width, height);
    var m :| 0 <= m < |d| && d[m] == Drawn(st.bestBox.value, st.bestConf);
  }

  /** For any selection test stricter than the filter, with matching drawings, the
      selection's result is among the filter's drawings. */
  lemma SelectedIsListed(cs: seq<Candidate>, okS: Candidate -> bool, box: Candidate -> Box,
                         okD: Candidate -> bool, draw: Candidate -> Drawn)
    requires forall c :: okS(c) ==> c.conf > 0.0 && okD(c) && draw(c) == Drawn(box(c), c.conf)
    requires ScanBy(cs, okS, box).bestBox.Some?
    ensures exists m :: 0 <= m < |FilterBy(cs, okD, draw)|
              && FilterBy(cs, okD, draw)[m] == Drawn(ScanBy(cs, okS, box).bestBox.value, ScanBy(cs, okS, box).bestConf)
  {
    ScanByFindsBest(cs, okS, box);
    var k :| 0 <= k < |cs| && IsBestBy(cs, okS, k) && ScanBy(cs, okS, box).bestConf == cs[k].conf
      && ScanBy(cs, okS, box).bestBox.value == box(cs[k]);
    PassingIsListed(cs, okD, draw, k);
  }

  /** The boundary differs from the scan's: a candidate at exactly 0.55 is drawn but can
      never be selected. */
  lemma BoundaryConfidenceDrawnNotSelected()
    ensures var c := Candidate(320.0, 320.0, 100.0, 100.0, 0.55);
      Drawable(c, 640, 640) && !Eligible(c, 640, 640)
  {
    var c := Candidate(320.0, 320.0, 100.0, 100.0, 0.55);
    assert ToFrame(c, 640, 640) == Scaled(320.0, 320.0, 100.0, 100.0);
    assert Trunc(270.0) == 270 && Trunc(370.0) == 370;
  }

  /** A 20 px face is drawn here although the scan would reject it as too small. */
  lemma SmallFaceDrawnNotSelected()
    ensures var c := Candidate(320.0, 320.0, 20.0, 20.0, 0.9);
      Drawable(c, 640, 640) && !Eligible(c, 640, 640)
  {
    var c := Candidate(320.0, 320.0, 20.0, 20.0, 0.9);
    assert ToFrame(c, 640, 640) == Scaled(320.0, 320.0, 20.0, 20.0);
    assert Trunc(310.0) == 310 && Trunc(330.0) == 330;
  }

  /** The diagnostic loop, as written: confidence first, then the bounds check, then the
      size check, each rejection a `continue`. */
  method DrawDetections(cs: seq<Candidate>, width: nat, height: nat) returns (drawn: seq<Drawn>)
    ensures drawn == DrawnBoxes(cs, width, height)
  {
    drawn := [];
    for i := 0 to |cs|
      invariant drawn == DrawnBoxes(cs[..i], width, height)
    {
      assert cs[..i + 1][..i] == cs[..i];
      var conf := cs[i].conf;
      if conf < DrawThreshold {
        continue;
      }
      var scaled := ToFrame(cs[i], width, height);
      var box := Corners(scaled);
      if box.x1 < 0 || box.y1 < 0 || box.x2 > width || box.y2 > height {
        continue;
      }
      if scaled.w < MinDrawSize || scaled.h < MinDrawSize {
        continue;
      }
      drawn := drawn + [Drawn(box, conf)];
    }
    assert cs[..|cs|] == cs;
  }
}
