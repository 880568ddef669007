/** Values shared by every script of the face-recognition access system:
    detector candidates, pixel boxes, captured frames and embeddings. */
module Common {

  datatype Option<T> = None | Some(value: T) {
    /** The contained value, or `default` when there is none (Python's `dict.get(key, default)`). */
    function GetOr(default: T): T {
      if Some? then value else default
    }
  }

  /** An ArcFace embedding; the model is never run, so its entries are opaque inputs. */
  type Embedding = seq<real>

  /** One row of the detector output: centre, size and confidence, in the 640x640 input space. */
  datatype Candidate = Candidate(x: real, y: real, w: real, h: real, conf: real)

  /** Integer corner coordinates in the captured frame (left, top, right, bottom). */
  datatype Box = Box(x1: int, y1: int, x2: int, y2: int)

  /** A successfully read camera frame, reduced to what the decision code looks at:
      its size, the detector's candidates for it, and the embedding the recognition
      network returns for the crop that is taken from the box the candidate scan selects
      (in the enrolment script that crop already carries the drawn rectangle). */
  datatype Frame = Frame(width: nat, height: nat, candidates: seq<Candidate>, face: Embedding)
}
