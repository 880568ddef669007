/** The decision code of the Flask server: matching a live face against the enrolled
    users, the best-of-10 authentication and best-of-15 registration reducers, the
    three-way access decision, the registration name checks, and the server state
    (`base_usuarios` and the session user) those two routes update. */
module App {
  import opened Common
  import opened Detector
  import PyStr

  /** One entry of `base_usuarios`, in the dictionary's iteration order. */
  datatype User = User(name: string, access: bool, embedding: Embedding)

  /** The user scan's result: `mejor_usuario`, `mejor_distancia`, `tiene_acceso`. */
  datatype Match = Match(user: string, distance: real, access: bool)

  /** The name reported when nobody is matched. */
  const UnknownUser: string := "DESCONOCIDO"
  /** The starting distance `1e9` of both the user scan and the frame reducer. */
  const FarDistance: real := 1000000000.0
  /** A match is a recognised identity only strictly below this distance. */
  const MatchThreshold: real := 0.55
  /** Frames read by `authenticate` and by `register_user`. */
  const AuthAttempts: nat := 10
  const RegisterAttempts: nat := 15

  /** The cosine distance between two embeddings (a floating-point computation that is
      not modelled: any function may stand for it). */
  type Distance = (Embedding, Embedding) -> real

  /** The user scan's result before any user is seen. */
  const NoMatch := Match(UnknownUser, FarDistance, false)

  // ---------------------------------------------------------------- nearest user

  /** The user scan over `users` in order: a strictly smaller distance replaces the
      current best, together with that user's name and access flag. */
  function Nearest(users: seq<User>, live: Embedding, dist: Distance): Match
    decreases |users|
  {
    if |users| == 0 then NoMatch
    else
      var m := Nearest(users[..|users| - 1], live, dist);
      var u := users[|users| - 1];
      var d := dist(live, u.embedding);
      if d < m.distance then Match(u.name, d, u.access) else m
  }

  /** User `k` is the one the scan should report: closer than the sentinel, no farther
      than anybody, and strictly closer than every earlier user (the first wins a tie). */
  predicate IsNearest(users: seq<User>, live: Embedding, dist: Distance, k: int) {
    0 <= k < |users| && dist(live, users[k].embedding) < FarDistance
    && (forall j :: 0 <= j < |users| ==> dist(live, users[k].embedding) <= dist(live, users[j].embedding))
    && (forall j :: 0 <= j < k ==> dist(live, users[k].embedding) < dist(live, users[j].embedding))
  }

  /** All users at distance 1e9 or more (in particular, no users at all). */
  predicate NobodyClose(users: seq<User>, live: Embedding, dist: Distance) {
    forall j :: 0 <= j < |users| ==> dist(live, users[j].embedding) >= FarDistance
  }

  /** What the user scan reports for `users`: "DESCONOCIDO" at 1e9 without access when
      nobody is closer than 1e9, otherwise the first nearest user with that user's flag. */
  predicate ReportsNearest(users: seq<User>, live: Embedding, dist: Distance, m: Match) {
    (NobodyClose(users, live, dist) ==> m == NoMatch)
    && (!NobodyClose(users, live, dist) ==>
          exists k :: 0 <= k < |users| && IsNearest(users, live, dist, k)
            && m == Match(users[k].name, dist(live, users[k].embedding), users[k].access))
  }

  /** The user scan reports the first nearest user, or nobody when every user is at
      distance 1e9 or more (in particular when there are no users). */
  lemma {:induction false} NearestIsFirstMinimum(users: seq<User>, live: Embedding, dist: Distance)
    ensures ReportsNearest(users, live, dist, Nearest(users, live, dist))
    decreases |users|
  {
    if |users| > 0 {
      var p := users[..|users| - 1];
      NearestIsFirstMinimum(p, live, dist);
      if NobodyClose(p, live, dist) {
        NearestAfterNobody(users, live, dist);
      } else {
        var k :| IsNearest(p, live, dist, k)
          && Nearest(p, live, dist) == Match(p[k].name, dist(live, p[k].embedding), p[k].access);
        NearestAfterSomebody(users, live, dist, k);
      }
    }
  }

  /** Inductive step of `NearestIsFirstMinimum` when nobody before the last user is close. */
  lemma NearestAfterNobody(users: seq<User>, live: Embedding, dist: Distance)
    requires |users| > 0
    requires NobodyClose(users[..|users| - 1], live, dist)
    requires Nearest(users[..|users| - 1], live, dist) == NoMatch
    ensures ReportsNearest(users, live, dist, Nearest(users, live, dist))
  {
    var p := users[..|users| - 1];
    var last := |users| - 1;
    var u := users[last];
    var d := dist(live, u.embedding);
    assert Nearest(users, live, dist) == if d < FarDistance then Match(u.name, d, u.access) else NoMatch;
    forall j | 0 <= j < last ensures dist(live, users[j].embedding) >= FarDistance {
      assert users[j] == p[j];
    }
    if d < FarDistance {
      assert IsNearest(users, live, dist, last);
      assert !NobodyClose(users, live, dist);
    } else {
      assert NobodyClose(users, live, dist);
    }
  }

  /** Inductive step of `NearestIsFirstMinimum` when user `k` is the nearest so far. */
  lemma NearestAfterSomebody(users: seq<User>, live: Embedding, dist: Distance, k: int)
    requires |users| > 0
    requires IsNearest(users[..|users| - 1], live, dist, k)
    requires Nearest(users[..|users| - 1], live, dist)
      == Match(users[k].name, dist(live, users[k].embedding), users[k].access)
    ensures ReportsNearest(users, live, dist, Nearest(users, live, dist))
  {
    var p := users[..|users| - 1];
    var last := |users| - 1;
    assert users[k] == p[k];
    forall j | 0 <= j < last ensures dist(live, users[j].embedding) >= dist(live, users[k].embedding) {
      assert users[j] == p[j];
    }
    assert !NobodyClose(users, live, dist);
    if dist(live, users[last].embedding) < dist(live, users[k].embedding) {
      assert IsNearest(users, live, dist, last);
    } else {
      forall j | 0 <= j < k ensures dist(live, users[j].embedding) > dist(live, users[k].embedding) {
        assert users[j] == p[j];
      }
      assert IsNearest(users, live, dist, k);
    }
  }

  /** The reported distance never exceeds the sentinel. */
  lemma NearestBounded(users: seq<User>, live: Embedding, dist: Distance)
    ensures Nearest(users, live, dist).distance <= FarDistance
  {
    NearestIsFirstMinimum(users, live, dist);
  }

  /** The user scan as written: `for usuario, datos in base_usuarios.items()`. */
  method NearestUser(users: seq<User>, live: Embedding, dist: Distance)
    returns (bestUser: string, bestDistance: real, hasAccess: bool)
    ensures Match(bestUser, bestDistance, hasAccess) == Nearest(users, live, dist)
    ensures NobodyClose(users, live, dist) ==>
      bestUser == UnknownUser && bestDistance == FarDistance && !hasAccess
    ensures !NobodyClose(users, live, dist) ==>
      exists k :: IsNearest(users, live, dist, k) && bestUser == users[k].name
        && bestDistance == dist(live, users[k].embedding) && hasAccess == users[k].access
  {
    bestUser := UnknownUser;
    bestDistance := FarDistance;
    hasAccess := false;
    for i := 0 to |users|
      invariant Match(bestUser, bestDistance, hasAccess) == Nearest(users[..i], live, dist)
    {
      assert users[..i + 1][..i] == users[..i];
      var d := dist(live, users[i].embedding);
      if d < bestDistance {
        bestDistance := d;
        bestUser := users[i].name;
        hasAccess := users[i].access;
      }
    }
    assert users[..|users|] == users;
    NearestIsFirstMinimum(users, live, dist);
  }

  // ---------------------------------------------------------------- authentication

  /** What one of the ten reads contributes: nothing when the read failed or no face
      was found, otherwise the user scan for that frame's face. */
  function FrameMatch(f: Option<Frame>, users: seq<User>, dist: Distance): Option<Match> {
    if HasFace(f) then Some(Nearest(users, f.value.face, dist)) else None
  }

  /** `best_distance` and `best_result` of `authenticate`. */
  datatype AuthState = AuthState(bestDistance: real, bestResult: Option<Match>)

  /** The frame reducer over any per-frame match `m`: a frame's match replaces
      `best_result` only when its distance is strictly smaller than `best_distance`,
      which starts at 1e9. */
  function BestFrameBy(frames: seq<Option<Frame>>, m: Option<Frame> -> Option<Match>): AuthState
    decreases |frames|
  {
    if |frames| == 0 then AuthState(FarDistance, None)
    else
      var st := BestFrameBy(frames[..|frames| - 1], m);
      var fm := m(frames[|frames| - 1]);
      if fm.Some? && fm.value.distance < st.bestDistance then AuthState(fm.value.distance, fm) else st
  }

  /** The frame reducer of `authenticate`, over the frames' user-scan matches. */
  function BestOfFrames(frames: seq<Option<Frame>>, users: seq<User>, dist: Distance): AuthState {
    BestFrameBy(frames, f => FrameMatch(f, users, dist))
  }

  /** A frame whose match is closer than the sentinel. */
  predicate Counts(fm: Option<Match>) {
    fm.Some? && fm.value.distance < FarDistance
  }

  /** Frame `k` is the one whose match is kept: it counts, its distance is no larger than
      that of any frame with a match, and strictly smaller than every earlier one. */
  predicate IsBestFrameBy(frames: seq<Option<Frame>>, m: Option<Frame> -> Option<Match>, k: int) {
    0 <= k < |frames| && Counts(m(frames[k]))
    && (forall j :: 0 <= j < |frames| && m(frames[j]).Some? ==>
          m(frames[k]).value.distance <= m(frames[j]).value.distance)
    && (forall j :: 0 <= j < k && m(frames[j]).Some? ==>
          m(frames[k]).value.distance < m(frames[j]).value.distance)
  }

  /** What the frame reducer keeps for `frames`: nothing, at 1e9, exactly when no frame has
      a match closer than 1e9; otherwise the match of the first closest frame, at its
      distance. */
  predicate KeepsBestFrameBy(frames: seq<Option<Frame>>, m: Option<Frame> -> Option<Match>, st: AuthState) {
    (st.bestResult.None? <==> forall j :: 0 <= j < |frames| ==> !Counts(m(frames[j])))
    && (st.bestResult.None? ==> st.bestDistance == FarDistance)
    && (st.bestResult.Some? ==>
          exists k :: 0 <= k < |frames| && IsBestFrameBy(frames, m, k)
            && st.bestResult == m(frames[k])
            && st.bestDistance == st.bestResult.value.distance)
  }

  /** The generic frame reducer keeps the first closest match, or nothing. */
  lemma {:induction false} BestFrameByIsFirstMinimum(frames: seq<Option<Frame>>, m: Option<Frame> -> Option<Match>)
    ensures KeepsBestFrameBy(frames, m, BestFrameBy(frames, m))
    decreases |frames|
  {
    if |frames| > 0 {
      var p := frames[..|frames| - 1];
      BestFrameByIsFirstMinimum(p, m);
      var prev := BestFrameBy(p, m);
      if prev.bestResult.None? {
        FramesAfterNothing(frames, m);
      } else {
        var k :| 0 <= k < |p| && IsBestFrameBy(p, m, k) && prev.bestResult == m(p[k])
          && prev.bestDistance == prev.bestResult.value.distance;
        FramesAfterSomething(frames, m, k);
      }
    }
  }

  /** Inductive step of `BestFrameByIsFirstMinimum` when no earlier frame counts. */
  lemma FramesAfterNothing(frames: seq<Option<Frame>>, m: Option<Frame> -> Option<Match>)
    requires |frames| > 0
    requires var p := frames[..|frames| - 1];
      (forall j :: 0 <= j < |p| ==> !Counts(m(p[j]))) && BestFrameBy(p, m) == AuthState(FarDistance, None)
    ensures KeepsBestFrameBy(frames, m, BestFrameBy(frames, m))
  {
    var p := frames[..|frames| - 1];
    var last := |frames| - 1;
    forall j | 0 <= j < last ensures !Counts(m(frames[j])) {
      assert frames[j] == p[j];
    }
    if Counts(m(frames[last])) {
      assert IsBestFrameBy(frames, m, last);
    }
  }

  /** Inductive step of `BestFrameByIsFirstMinimum` when frame `k` is the best so far. */
  lemma FramesAfterSomething(frames: seq<Option<Frame>>, m: Option<Frame> -> Option<Match>, k: int)
    requires |frames| > 0
    requires var p := frames[..|frames| - 1];
      0 <= k < |p| && IsBestFrameBy(p, m, k) && BestFrameBy(p, m) == AuthState(m(p[k]).value.distance, m(p[k]))
    ensures KeepsBestFrameBy(frames, m, BestFrameBy(frames, m))
  {
    var p := frames[..|frames| - 1];
    var last := |frames| - 1;
    assert frames[k] == p[k];
    var bk := m(frames[k]).value.distance;
    forall j | 0 <= j < last && m(frames[j]).Some? ensures bk <= m(frames[j]).value.distance {
      assert frames[j] == p[j];
    }
    var fm := m(frames[last]);
    if fm.Some? && fm.value.distance < bk {
      assert IsBestFrameBy(frames, m, last);
    } else {
      forall j | 0 <= j < k && m(frames[j]).Some? ensures bk < m(frames[j]).value.distance {
        assert frames[j] == p[j];
      }
      assert IsBestFrameBy(frames, m, k);
    }
  }

  /** Frame `k` is the one whose user-scan match `authenticate` keeps. */
  predicate IsBestFrame(frames: seq<Option<Frame>>, users: seq<User>, dist: Distance, k: int) {
    IsBestFrameBy(frames, f => FrameMatch(f, users, dist), k)
  }

  /** What `authenticate`'s reducer keeps: nothing, at 1e9, exactly when no frame has a
      face with a match closer than 1e9 (so a detected face still yields nothing when
      every user is that far away); otherwise the match of the first closest frame. */
  predicate KeepsBestFrame(frames: seq<Option<Frame>>, users: seq<User>, dist: Distance, st: AuthState) {
    KeepsBestFrameBy(frames, f => FrameMatch(f, users, dist), st)
  }

  /** The frame reducer keeps the first closest match, or nothing. */
  lemma BestOfFramesIsFirstMinimum(frames: seq<Option<Frame>>, users: seq<User>, dist: Distance)
    ensures KeepsBestFrame(frames, users, dist, BestOfFrames(frames, users, dist))
  {
    BestFrameByIsFirstMinimum(frames, f => FrameMatch(f, users, dist));
  }

  /** With an empty user base no frame's match gets below 1e9, so nothing is kept, even
      when faces were detected. */
  lemma EmptyBaseKeepsNothing(frames: seq<Option<Frame>>, dist: Distance)
    ensures BestOfFrames(frames, [], dist).bestResult.None?
  {
    BestOfFramesIsFirstMinimum(frames, [], dist);
  }

  /** The outcome of `authenticate` as far as the decision code goes. */
  datatype AuthResponse =
    | CameraUnavailable
    | NoFaceDetected
    | Welcome(user: string)
    | NotAuthorised(user: string)
    | NotRecognised

  /** The three-way decision on the kept match. */
  function Decide(r: Match): AuthResponse {
    if r.distance < MatchThreshold && r.access then Welcome(r.user)
    else if r.distance < MatchThreshold && !r.access then NotAuthorised(r.user)
    else NotRecognised
  }

  /** The decision's truth table: success needs both a distance strictly below 0.55 and
      the access flag; below 0.55 without the flag the user is named but refused; at 0.55
      or above the face is unrecognised whatever the flag. */
  lemma DecisionTable(r: Match)
    ensures Decide(r).Welcome? <==> r.distance < MatchThreshold && r.access
    ensures Decide(r).NotAuthorised? <==> r.distance < MatchThreshold && !r.access
    ensures Decide(r).NotRecognised? <==> r.distance >= MatchThreshold
    ensures Decide(r).Welcome? || Decide(r).NotAuthorised? ==> Decide(r).user == r.user
    ensures Decide(Match(r.user, 0.3, true)) == Welcome(r.user)
    ensures Decide(Match(r.user, 0.3, false)) == NotAuthorised(r.user)
    ensures Decide(Match(r.user, 0.7, true)) == NotRecognised
    ensures Decide(Match(r.user, 0.55, r.access)) == NotRecognised
  {
  }

  /** The whole of `authenticate`: camera check, ten reads, reduction, decision. */
  function Authentication(cameraOpen: bool, frames: seq<Option<Frame>>, users: seq<User>, dist: Distance): AuthResponse {
    if !cameraOpen then CameraUnavailable
    else
      var st := BestOfFrames(frames, users, dist);
      if st.bestResult.None? then NoFaceDetected else Decide(st.bestResult.value)
  }

  /** Some frame read has a face for which enrolled user `j`, holding the access flag, is
      the first nearest user, at a distance below 0.55, under the name `name`. */
  predicate AuthorisedNearest(frames: seq<Option<Frame>>, users: seq<User>, dist: Distance, name: string) {
    exists k, j ::
      0 <= k < |frames| && 0 <= j < |users| && HasFace(frames[k])
      && IsNearest(users, frames[k].value.face, dist, j)
      && users[j].name == name && users[j].access
      && dist(frames[k].value.face, users[j].embedding) < MatchThreshold
  }

  /** A welcome names an enrolled user who has the access flag and who is the first
      nearest user, at a distance below 0.55, for the face of some frame read. */
  lemma WelcomeIsAuthorisedNearest(cameraOpen: bool, frames: seq<Option<Frame>>, users: seq<User>, dist: Distance)
    requires Authentication(cameraOpen, frames, users, dist).Welcome?
    ensures AuthorisedNearest(frames, users, dist, Authentication(cameraOpen, frames, users, dist).user)
  {
    var st := BestOfFrames(frames, users, dist);
    BestOfFramesIsFirstMinimum(frames, users, dist);
    assert st.bestResult.Some?;
    var k :| 0 <= k < |frames| && IsBestFrame(frames, users, dist, k)
      && st.bestResult == FrameMatch(frames[k], users, dist);
    var face := frames[k].value.face;
    var m := Nearest(users, face, dist);
    assert HasFace(frames[k]) && st.bestResult == Some(m);
    assert Decide(m).Welcome? && m.distance < MatchThreshold;
    NearestIsFirstMinimum(users, face, dist);
    assert !NobodyClose(users, face, dist) by {
      assert m != NoMatch;
    }
    var j :| 0 <= j < |users| && IsNearest(users, face, dist, j)
      && m == Match(users[j].name, dist(face, users[j].embedding), users[j].access);
    assert Authentication(cameraOpen, frames, users, dist).user == users[j].name;
  }

  /** With an empty user base, an open camera always yields "no face detected". */
  lemma EmptyBaseReportsNoFace(frames: seq<Option<Frame>>, dist: Distance)
    ensures Authentication(true, frames, [], dist) == NoFaceDetected
  {
    EmptyBaseKeepsNothing(frames, dist);
  }

  // ---------------------------------------------------------------- registration

  /** `best_confidence` and `best_embedding` of `register_user`. */
  datatype CaptureState = CaptureState(bestConfidence: real, bestEmbedding: Option<Embedding>)

  /** A detection worth keeping: its confidence and the face's embedding. */
  datatype Capture = Capture(confidence: real, face: Embedding)

  /** What a frame read offers the capture loop: nothing, or its best face. */
  function FaceCapture(f: Option<Frame>): Option<Capture> {
    if HasFace(f) then Some(Capture(FaceConf(f), f.value.face)) else None
  }

  /** Every capture `d` offers has a positive confidence. */
  ghost predicate PositiveConfidence(d: Option<Frame> -> Option<Capture>) {
    forall f :: d(f).Some? ==> d(f).value.confidence > 0.0
  }

  /** The capture reducer over any per-frame capture `d`: a frame's embedding is kept only
      when it offers a capture whose confidence is strictly above `best_confidence`,
      which starts at 0. */
  function BestCaptureBy(frames: seq<Option<Frame>>, d: Option<Frame> -> Option<Capture>): CaptureState
    decreases |frames|
  {
    if |frames| == 0 then CaptureState(0.0, None)
    else
      var st := BestCaptureBy(frames[..|frames| - 1], d);
      var c := d(frames[|frames| - 1]);
      if c.Some? && c.value.confidence > st.bestConfidence then CaptureState(c.value.confidence, Some(c.value.face))
      else st
  }

  /** The capture reducer of `register_user`, over the frames' best faces. */
  function BestCapture(frames: seq<Option<Frame>>): CaptureState {
    BestCaptureBy(frames, FaceCapture)
  }

  /** Frame `k` offers the capture kept: of maximal confidence, strictly above that of
      every earlier frame's capture. */
  predicate IsBestCaptureBy(frames: seq<Option<Frame>>, d: Option<Frame> -> Option<Capture>, k: int) {
    0 <= k < |frames| && d(frames[k]).Some?
    && (forall j :: 0 <= j < |frames| && d(frames[j]).Some? ==>
          d(frames[j]).value.confidence <= d(frames[k]).value.confidence)
    && (forall j :: 0 <= j < k && d(frames[j]).Some? ==>
          d(frames[j]).value.confidence < d(frames[k]).value.confidence)
  }

  /** What the generic capture reducer keeps: nothing, at confidence 0, exactly when no
      frame offers a capture; otherwise the first most confident capture. */
  predicate KeepsBestCaptureBy(frames: seq<Option<Frame>>, d: Option<Frame> -> Option<Capture>, st: CaptureState) {
    (st.bestEmbedding.None? <==> forall j :: 0 <= j < |frames| ==> d(frames[j]).None?)
    && (st.bestEmbedding.None? ==> st.bestConfidence == 0.0)
    && (st.bestEmbedding.Some? ==>
          exists k :: 0 <= k < |frames| && IsBestCaptureBy(frames, d, k)
            && st.bestEmbedding.value == d(frames[k]).value.face
            && st.bestConfidence == d(frames[k]).value.confidence)
  }

  /** The generic capture reducer keeps the first most confident capture, or nothing. */
  lemma {:induction false} BestCaptureByIsFirstMaximum(frames: seq<Option<Frame>>, d: Option<Frame> -> Option<Capture>)
    requires PositiveConfidence(d)
    ensures KeepsBestCaptureBy(frames, d, BestCaptureBy(frames, d))
    decreases |frames|
  {
    if |frames| > 0 {
      var p := frames[..|frames| - 1];
      BestCaptureByIsFirstMaximum(p, d);
      var prev := BestCaptureBy(p, d);
      if prev.bestEmbedding.None? {
        CaptureAfterNothing(frames, d);
      } else {
        var k :| 0 <= k < |p| && IsBestCaptureBy(p, d, k) && prev.bestEmbedding.value == d(p[k]).value.face
          && prev.bestConfidence == d(p[k]).value.confidence;
        CaptureAfterSomething(frames, d, k);
      }
    }
  }

  /** Inductive step of `BestCaptureByIsFirstMaximum` when no earlier frame offers a capture. */
  lemma CaptureAfterNothing(frames: seq<Option<Frame>>, d: Option<Frame> -> Option<Capture>)
    requires |frames| > 0 && PositiveConfidence(d)
    requires var p := frames[..|frames| - 1];
      (forall j :: 0 <= j < |p| ==> d(p[j]).None?) && BestCaptureBy(p, d) == CaptureState(0.0, None)
    ensures KeepsBestCaptureBy(frames, d, BestCaptureBy(frames, d))
  {
    var p := frames[..|frames| - 1];
    var last := |frames| - 1;
    forall j | 0 <= j < last ensures d(frames[j]).None? {
      assert frames[j] == p[j];
    }
    if d(frames[last]).Some? {
      assert IsBestCaptureBy(frames, d, last);
    }
  }

  /** Inductive step of `BestCaptureByIsFirstMaximum` when frame `k` is the best so far. */
  lemma CaptureAfterSomething(frames: seq<Option<Frame>>, d: Option<Frame> -> Option<Capture>, k: int)
    requires |frames| > 0
    requires var p := frames[..|frames| - 1];
      0 <= k < |p| && IsBestCaptureBy(p, d, k)
      && BestCaptureBy(p, d) == CaptureState(d(p[k]).value.confidence, Some(d(p[k]).value.face))
    ensures KeepsBestCaptureBy(frames, d, BestCaptureBy(frames, d))
  {
    var p := frames[..|frames| - 1];
    var last := |frames| - 1;
    assert frames[k] == p[k];
    var ck := d(frames[k]).value.confidence;
    forall j | 0 <= j < last && d(frames[j]).Some? ensures d(frames[j]).value.confidence <= ck {
      assert frames[j] == p[j];
    }
    var c := d(frames[last]);
    if c.Some? && c.value.confidence > ck {
      assert IsBestCaptureBy(frames, d, last);
    } else {
      forall j | 0 <= j < k && d(frames[j]).Some? ensures d(frames[j]).value.confidence < ck {
        assert frames[j] == p[j];
      }
      assert IsBestCaptureBy(frames, d, k);
    }
  }

  /** Frame `k` is the one whose embedding `register_user` keeps: it has a face of maximal
      detection confidence, strictly above that of every earlier frame with a face. */
  predicate IsBestCapture(frames: seq<Option<Frame>>, k: int) {
    0 <= k < |frames| && HasFace(frames[k])
    && (forall j :: 0 <= j < |frames| && HasFace(frames[j]) ==> FaceConf(frames[j]) <= FaceConf(frames[k]))
    && (forall j :: 0 <= j < k && HasFace(frames[j]) ==> FaceConf(frames[j]) < FaceConf(frames[k]))
  }

  /** What the capture reducer keeps: nothing, at confidence 0, exactly when no frame has a
      face; otherwise the embedding and confidence of the first most confident detection. */
  predicate KeepsBestCapture(frames: seq<Option<Frame>>, st: CaptureState) {
    (st.bestEmbedding.None? <==> forall j :: 0 <= j < |frames| ==> !HasFace(frames[j]))
    && (st.bestEmbedding.None? ==> st.bestConfidence == 0.0)
    && (st.bestEmbedding.Some? ==>
          exists k :: 0 <= k < |frames| && IsBestCapture(frames, k)
            && st.bestEmbedding.value == frames[k].value.face && st.bestConfidence == FaceConf(frames[k]))
  }

  /** The capture reducer keeps the first most confident detection, or nothing. */
  lemma BestCaptureIsFirstMaximum(frames: seq<Option<Frame>>)
    ensures KeepsBestCapture(frames, BestCapture(frames))
  {
    forall f | FaceCapture(f).Some? ensures FaceCapture(f).value.confidence > 0.0 {
      FaceConfAboveThreshold(f);
    }
    BestCaptureByIsFirstMaximum(frames, FaceCapture);
    var st := BestCapture(frames);
    if st.bestEmbedding.Some? {
      var k :| 0 <= k < |frames| && IsBestCaptureBy(frames, FaceCapture, k)
        && st.bestEmbedding.value == FaceCapture(frames[k]).value.face
        && st.bestConfidence == FaceCapture(frames[k]).value.confidence;
      assert IsBestCapture(frames, k);
    }
  }

  /** The outcome of `register_user` as far as the decision code goes. */
  datatype RegisterResponse =
    | NameRequired
    | AlreadyRegistered(user: string)
    | RegisterCameraUnavailable
    | RegisterNoFace
    | Registered(user: string, accessGranted: bool)

  /** `grant_access`: always true, and reported as `access_granted`. */
  const GrantAccess: bool := true
  /** The access column's default when a user row is created. */
  const DefaultAccess: bool := false

  /** The access flag stored for a new user: the row is created with the column default
      and, when `grant_access` holds, the flag is then set to False. */
  function StoredAccess(): bool {
    if GrantAccess then false else DefaultAccess
  }

  /** `username in base_usuarios`. */
  predicate Enrolled(users: seq<User>, name: string) {
    exists i :: 0 <= i < |users| && users[i].name == name
  }

  /** Dictionary keys are distinct. */
  predicate UniqueNames(users: seq<User>) {
    forall i, j :: 0 <= i < j < |users| ==> users[i].name != users[j].name
  }

  /** A registration's response and the user base after it. */
  datatype Registration = Registration(response: RegisterResponse, users: seq<User>)

  /** The whole of `register_user`: the stripped name must be non-empty and new before the
      camera is looked at; then fifteen reads, and the best capture is stored. The user
      base is reloaded from the store, which returns rows in insertion order. */
  function Register(requested: Option<string>, users: seq<User>, cameraOpen: bool, frames: seq<Option<Frame>>): Registration {
    var username := PyStr.Strip(requested.GetOr(""));
    if username == [] then Registration(NameRequired, users)
    else if Enrolled(users, username) then Registration(AlreadyRegistered(username), users)
    else if !cameraOpen then Registration(RegisterCameraUnavailable, users)
    else
      var cap := BestCapture(frames);
      if cap.bestEmbedding.None? then Registration(RegisterNoFace, users)
      else Registration(Registered(username, GrantAccess),
                        users + [User(username, StoredAccess(), cap.bestEmbedding.value)])
  }

  /** An empty (after stripping) or already used name is refused with the user base
      unchanged, whatever the camera and its frames would have given. */
  lemma NameChecksComeFirst(requested: Option<string>, users: seq<User>,
                            cameraOpen: bool, frames: seq<Option<Frame>>,
                            cameraOpen': bool, frames': seq<Option<Frame>>)
    requires var n := PyStr.Strip(requested.GetOr("")); n == [] || Enrolled(users, n)
    ensures Register(requested, users, cameraOpen, frames) == Register(requested, users, cameraOpen', frames')
    ensures var r := Register(requested, users, cameraOpen, frames);
      (r.response.NameRequired? || r.response.AlreadyRegistered?) && r.users == users
  {
  }

  /** A missing or all-whitespace name is refused. */
  lemma BlankNameRefused(requested: Option<string>, users: seq<User>, cameraOpen: bool, frames: seq<Option<Frame>>)
    requires forall i :: 0 <= i < |requested.GetOr("")| ==> PyStr.IsSpace(requested.GetOr("")[i])
    ensures Register(requested, users, cameraOpen, frames).response == NameRequired
  {
    PyStr.StripEmptyIffBlank(requested.GetOr(""));
  }

  /** A successful registration adds exactly one user, under the stripped name, which was
      not enrolled before, with the embedding of the first most confident capture; it
      reports access as granted while storing the access flag as False, and keeps the
      names unique. */
  lemma {:induction false} RegisteredUserHasNoAccess(requested: Option<string>, users: seq<User>,
                                                     cameraOpen: bool, frames: seq<Option<Frame>>)
    requires UniqueNames(users)
    requires Register(requested, users, cameraOpen, frames).response.Registered?
    ensures var r := Register(requested, users, cameraOpen, frames);
      var name := PyStr.Strip(requested.GetOr(""));
      r.response == Registered(name, true) && name != [] && !Enrolled(users, name)
      && |r.users| == |users| + 1 && r.users[..|users|] == users
      && r.users[|users|].name == name && !r.users[|users|].access
      && (exists k :: IsBestCapture(frames, k) && r.users[|users|].embedding == frames[k].value.face)
      && UniqueNames(r.users)
  {
    var r := Register(requested, users, cameraOpen, frames);
    BestCaptureIsFirstMaximum(frames);
    assert r.users[..|users|] == users;
  }

  /** A freshly registered user cannot log in: whichever frames the camera delivers,
      authentication never welcomes that name until its flag is changed. */
  lemma {:induction false} NewUserIsNotWelcomed(requested: Option<string>, users: seq<User>,
                                                cameraOpen: bool, frames: seq<Option<Frame>>,
                                                cameraOpen': bool, frames': seq<Option<Frame>>, dist: Distance)
    requires UniqueNames(users)
    requires Register(requested, users, cameraOpen, frames).response.Registered?
    ensures var r := Register(requested, users, cameraOpen, frames);
      Authentication(cameraOpen', frames', r.users, dist) != Welcome(r.response.user)
  {
    var r := Register(requested, users, cameraOpen, frames);
    RegisteredUserHasNoAccess(requested, users, cameraOpen, frames);
    var resp := Authentication(cameraOpen', frames', r.users, dist);
    if resp.Welcome? {
      WelcomeIsAuthorisedNearest(cameraOpen', frames', r.users, dist);
      var k, j :| 0 <= k < |frames'| && 0 <= j < |r.users| && HasFace(frames'[k])
        && IsNearest(r.users, frames'[k].value.face, dist, j)
        && r.users[j].name == resp.user && r.users[j].access
        && dist(frames'[k].value.face, r.users[j].embedding) < MatchThreshold;
      assert j < |users| && users[j] == r.users[j];
      assert resp.user != r.response.user;
    }
  }

  // ---------------------------------------------------------------- frame loops

  /** The frame loop of `authenticate`: it keeps the first closest match over the frames
      that have a face. */
  method MatchFrames(frames: seq<Option<Frame>>, users: seq<User>, dist: Distance)
    returns (bestDistance: real, bestResult: Option<Match>)
    ensures AuthState(bestDistance, bestResult) == BestOfFrames(frames, users, dist)
  {
    bestResult := None;
    bestDistance := FarDistance;
    for t := 0 to |frames|
      invariant AuthState(bestDistance, bestResult) == BestOfFrames(frames[..t], users, dist)
    {
      assert frames[..t + 1][..t] == frames[..t];
      if frames[t].None? {
        continue;
      }
      var frame := frames[t].value;
      var bestConf, bestBox := SelectFace(frame.candidates, frame.width, frame.height);
      if bestBox.Some? {
        var bestUser, distance, hasAccess := NearestUser(users, frame.face, dist);
        if distance < bestDistance {
          bestDistance := distance;
          bestResult := Some(Match(bestUser, distance, hasAccess));
        }
      }
    }
    assert frames[..|frames|] == frames;
  }

  /** The capture loop of `register_user`: it keeps the embedding of the first most
      confident face over the frames. */
  method CaptureFrames(frames: seq<Option<Frame>>) returns (bestConfidence: real, bestEmbedding: Option<Embedding>)
    ensures CaptureState(bestConfidence, bestEmbedding) == BestCapture(frames)
  {
    bestEmbedding := None;
    bestConfidence := 0.0;
    for t := 0 to |frames|
      invariant CaptureState(bestConfidence, bestEmbedding) == BestCapture(frames[..t])
    {
      assert frames[..t + 1][..t] == frames[..t];
      if frames[t].None? {
        continue;
      }
      var frame := frames[t].value;
      var bestConf, bestBox := SelectFace(frame.candidates, frame.width, frame.height);
      if bestBox.Some? && bestConf > bestConfidence {
        bestEmbedding := Some(frame.face);
        bestConfidence := bestConf;
      }
    }
    assert frames[..|frames|] == frames;
  }

  // ---------------------------------------------------------------- server state

  /** The server's mutable state: the cached user base and the session's user. */
  class Server {
    var users: seq<User>
    var sessionUser: Option<string>

    ghost predicate Valid()
      reads this
    {
      UniqueNames(users)
    }

    constructor (loaded: seq<User>)
      requires UniqueNames(loaded)
      ensures Valid() && users == loaded && sessionUser == None
    {
      users := loaded;
      sessionUser := None;
    }

    /** `authenticate`: only a welcome sets the session user; nothing else changes. */
    method Authenticate(cameraOpen: bool, frames: seq<Option<Frame>>, dist: Distance) returns (response: AuthResponse)
      requires Valid() && |frames| == AuthAttempts
      modifies this`sessionUser
      ensures Valid()
      ensures response == Authentication(cameraOpen, frames, users, dist)
      ensures sessionUser == if response.Welcome? then Some(response.user) else old(sessionUser)
    {
      if !cameraOpen {
        return CameraUnavailable;
      }
      var bestDistance, bestResult := MatchFrames(frames, users, dist);
      if bestResult.None? {
        return NoFaceDetected;
      }
      var r := bestResult.value;
      if r.distance < MatchThreshold && r.access {
        sessionUser := Some(r.user);
        response := Welcome(r.user);
      } else if r.distance < MatchThreshold && !r.access {
        response := NotAuthorised(r.user);
      } else {
        response := NotRecognised;
      }
    }

    /** `register_user`: on success the user base gains the new user with access False;
      otherwise it is unchanged. Names stay unique either way. */
    method RegisterUser(requested: Option<string>, cameraOpen: bool, frames: seq<Option<Frame>>)
      returns (response: RegisterResponse)
      requires Valid() && |frames| == RegisterAttempts
      modifies this`users
      ensures Valid()
      ensures Registration(response, users) == Register(requested, old(users), cameraOpen, frames)
    {
      var username := PyStr.Strip(requested.GetOr(""));
      var grantAccess := GrantAccess;
      if username == [] {
        return NameRequired;
      }
      if Enrolled(users, username) {
        return AlreadyRegistered(username);
      }
      if !cameraOpen {
        return RegisterCameraUnavailable;
      }
      var bestConfidence, bestEmbedding := CaptureFrames(frames);
      if bestEmbedding.None? {
        return RegisterNoFace;
      }
      var newUser := User(username, DefaultAccess, bestEmbedding.value);
      if grantAccess {
        newUser := newUser.(access := false);
      }
      RegisteredUserHasNoAccess(requested, users, cameraOpen, frames);
      users := users + [newUser];
      response := Registered(username, grantAccess);
    }
  }
}
