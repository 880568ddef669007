/** The enrolment script: frames are read until one has a face, whose embedding is
    then saved under `base_rostros/<name>.npy` and the script ends. */
module Registrar {
  import opened Common
  import opened Detector
  import PyStr
  import Reconocer

  /** The face directory, as the prefix of every saved path. */
  const FaceDirectory: string := "base_rostros/"

  /** The file name an embedding is saved under: the name exactly as typed, plus ".npy". */
  function FileName(nombre: string): (r: string)
    ensures |r| == |nombre| + |Reconocer.NpyExtension|
    ensures r[..|nombre|] == nombre && Reconocer.IsNpy(r)
  {
    nombre + Reconocer.NpyExtension
  }

  /** The path `np.save` writes to. */
  function SavePath(nombre: string): (r: string)
    ensures |r| == |FaceDirectory| + |nombre| + |Reconocer.NpyExtension|
    ensures r[..|FaceDirectory|] == FaceDirectory && r[|FaceDirectory|..] == FileName(nombre)
  {
    FaceDirectory + nombre + Reconocer.NpyExtension
  }

  /** What the script writes: the path and the embedding. */
  datatype Saved = Saved(path: string, embedding: Embedding)

  /** The loop over the reads made: failed reads and frames without a face write nothing;
      the first frame with a face is saved and ends the script. */
  function Enrollment(nombre: string, captures: seq<Option<Frame>>): Option<Saved>
    decreases |captures|
  {
    if |captures| == 0 then None
    else if HasFace(captures[0]) then Some(Saved(SavePath(nombre), captures[0].value.face))
    else Enrollment(nombre, captures[1..])
  }

  /** Frame `k` is the first one read that has a face. */
  predicate FirstFace(captures: seq<Option<Frame>>, k: int) {
    0 <= k < |captures| && HasFace(captures[k])
    && forall j :: 0 <= j < k ==> !HasFace(captures[j])
  }

  /** Nothing is saved exactly when no frame has a face; otherwise the face of the first
      frame that has one is saved under the name's path. */
  lemma {:induction false} EnrollmentIsFirstFace(nombre: string, captures: seq<Option<Frame>>)
    ensures Enrollment(nombre, captures).None? <==> forall j :: 0 <= j < |captures| ==> !HasFace(captures[j])
    ensures Enrollment(nombre, captures).Some? ==>
      exists k :: FirstFace(captures, k)
        && Enrollment(nombre, captures) == Some(Saved(SavePath(nombre), captures[k].value.face))
    decreases |captures|
  {
    if |captures| > 0 {
      var rest := captures[1..];
      EnrollmentIsFirstFace(nombre, rest);
      if HasFace(captures[0]) {
        assert FirstFace(captures, 0);
      } else {
        forall j | 0 < j < |captures| ensures captures[j] == rest[j - 1] {
        }
        if Enrollment(nombre, rest).Some? {
          var k :| FirstFace(rest, k) && Enrollment(nombre, rest) == Some(Saved(SavePath(nombre), rest[k].value.face));
          assert FirstFace(captures, k + 1);
        }
      }
    }
  }

  /** Once a frame with a face has been read, later frames make no difference. */
  lemma LaterFramesIgnored(nombre: string, a: seq<Option<Frame>>, b: seq<Option<Frame>>)
    requires exists k :: 0 <= k < |a| && HasFace(a[k])
    ensures Enrollment(nombre, a + b) == Enrollment(nombre, a)
  {
    var k :| 0 <= k < |a| && HasFace(a[k]);
    LaterFramesIgnoredFrom(nombre, a, b, k);
  }

  /** `LaterFramesIgnored`, with frame `k` of `a` known to have a face. */
  lemma {:induction false} LaterFramesIgnoredFrom(nombre: string, a: seq<Option<Frame>>, b: seq<Option<Frame>>, k: int)
    requires 0 <= k < |a| && HasFace(a[k])
    ensures Enrollment(nombre, a + b) == Enrollment(nombre, a)
    decreases k
  {
    assert (a + b)[0] == a[0];
    if k > 0 && !HasFace(a[0]) {
      assert a[1..][k - 1] == a[k];
      LaterFramesIgnoredFrom(nombre, a[1..], b, k - 1);
      assert (a + b)[1..] == a[1..] + b;
    }
  }

  /** The script's loop, as written (`while True`, over the reads made). */
  method Enroll(nombre: string, captures: seq<Option<Frame>>) returns (saved: Option<Saved>)
    ensures saved == Enrollment(nombre, captures)
  {
    saved := None;
    var t := 0;
    while t < |captures|
      invariant 0 <= t <= |captures|
      invariant Enrollment(nombre, captures) == Enrollment(nombre, captures[t..])
    {
      assert captures[t..][1..] == captures[t + 1..];
      if captures[t].None? {
        t := t + 1;
        continue;
      }
      var frame := captures[t].value;
      var bestConf, bestBox := SelectFace(frame.candidates, frame.width, frame.height);
      if bestBox.Some? {
        var path := FaceDirectory + nombre + Reconocer.NpyExtension;
        return Some(Saved(path, frame.face));
      }
      t := t + 1;
    }
    assert captures[t..] == [];
  }

  /** A name without ".npy" in it comes back unchanged: the loader accepts its file and
      derives exactly that name from it. */
  lemma SavedNameLoadsBack(nombre: string, contents: Embedding)
    requires !PyStr.Contains(nombre, Reconocer.NpyExtension)
    ensures Reconocer.LoadedAs(Reconocer.StoredFile(FileName(nombre), contents), nombre)
  {
    PyStr.NpyUnbordered();
    PyStr.RemoveAppended(nombre, Reconocer.NpyExtension);
  }

  /** In a face directory where no other file maps to the same name, the loaded base holds
      the saved embedding under that name. */
  lemma SavedFileLoadsBack(nombre: string, files: seq<Reconocer.StoredFile>, i: int)
    requires !PyStr.Contains(nombre, Reconocer.NpyExtension)
    requires 0 <= i < |files| && files[i].fileName == FileName(nombre)
    requires forall j :: 0 <= j < |files| && j != i ==> !Reconocer.LoadedAs(files[j], nombre)
    ensures Reconocer.Entry(nombre, files[i].contents) in Reconocer.Load(files)
  {
    SavedNameLoadsBack(nombre, files[i].contents);
    assert files[i] == Reconocer.StoredFile(FileName(nombre), files[i].contents);
    Reconocer.LoadKeys(files, nombre);
    var base := Reconocer.Load(files);
    var n :| 0 <= n < |base| && base[n].name == nombre;
    Reconocer.LoadValues(files, n);
    var i' :| Reconocer.LastLoadedAs(files, i', nombre) && base[n].embedding == files[i'].contents;
    assert base[n] == Reconocer.Entry(nombre, files[i].contents);
  }

  /** A name that already contains ".npy" does not come back: "a.npy" is saved as
      "a.npy.npy", which the loader reads as the user "a". */
  lemma NameWithExtensionIsLost()
    ensures FileName("a.npy") == "a.npy.npy"
    ensures Reconocer.KeyOf(FileName("a.npy")) == "a"
  {
    assert "a.npy.npy"[1..] == ".npy.npy";
    assert ".npy.npy"[4..] == ".npy";
  }
}
