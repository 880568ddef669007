/** The stand-alone live recogniser: loading the user base from the `.npy` files of
    the face directory, and, for every frame read, the candidate scan, the nearest
    name and the two-way label drawn on the frame. */
module Reconocer {
  import opened Common
  import opened Detector
  import PyStr
  import App

  /** The extension of a stored embedding file. */
  const NpyExtension: string := ".npy"

  /** A directory entry of the face directory and the embedding stored in it. */
  datatype StoredFile = StoredFile(fileName: string, contents: Embedding)

  /** One entry of the `base` dictionary, in insertion order. */
  datatype Entry = Entry(name: string, embedding: Embedding)

  /** `name` is a key of the dictionary. */
  predicate HasKey(base: seq<Entry>, name: string) {
    exists i :: 0 <= i < |base| && base[i].name == name
  }

  /** Dictionary keys are distinct. */
  predicate UniqueKeys(base: seq<Entry>) {
    forall i, j :: 0 <= i < j < |base| ==> base[i].name != base[j].name
  }

  /** Python's `base[name] = value`: an existing key keeps its position and gets the new
      value; a new key is appended at the end. */
  function Put(base: seq<Entry>, name: string, value: Embedding): (r: seq<Entry>)
    ensures HasKey(base, name) ==> |r| == |base|
    ensures !HasKey(base, name) ==> r == base + [Entry(name, value)]
    ensures forall i :: 0 <= i < |base| ==> r[i].name == base[i].name
    ensures forall i :: 0 <= i < |base| && base[i].name != name ==> r[i] == base[i]
    ensures forall i :: 0 <= i < |r| && r[i].name == name ==> r[i].embedding == value
    ensures forall i :: 0 <= i < |r| ==> r[i].name == name || (i < |base| && r[i] == base[i])
    ensures HasKey(r, name)
    ensures UniqueKeys(base) ==> UniqueKeys(r)
  {
    if HasKey(base, name) then
      seq(|base|, i requires 0 <= i < |base| => if base[i].name == name then Entry(name, value) else base[i])
    else
      var r := base + [Entry(name, value)];
      assert r[|base|].name == name;
      r
  }

  /** The key `cargar_base` derives from a file name: every occurrence of ".npy" removed. */
  function KeyOf(fileName: string): string {
    PyStr.Remove(fileName, NpyExtension)
  }

  /** Only names ending in ".npy" are loaded. */
  predicate IsNpy(fileName: string) {
    PyStr.EndsWith(fileName, NpyExtension)
  }

  /** `cargar_base` over the directory listing in the order `os.listdir` returns it. */
  function Load(files: seq<StoredFile>): seq<Entry>
    decreases |files|
  {
    if |files| == 0 then []
    else
      var base := Load(files[..|files| - 1]);
      var f := files[|files| - 1];
      if IsNpy(f.fileName) then Put(base, KeyOf(f.fileName), f.contents) else base
  }

  /** A file that `cargar_base` loads under the key `name`. */
  predicate LoadedAs(f: StoredFile, name: string) {
    IsNpy(f.fileName) && KeyOf(f.fileName) == name
  }

  /** The loaded keys are distinct. */
  lemma {:induction false} LoadUnique(files: seq<StoredFile>)
    ensures UniqueKeys(Load(files))
    decreases |files|
  {
    if |files| > 0 {
      LoadUnique(files[..|files| - 1]);
    }
  }

  /** A key is loaded exactly when some ".npy" file of the listing yields it. */
  lemma {:induction false} LoadKeys(files: seq<StoredFile>, name: string)
    ensures HasKey(Load(files), name) <==> exists i :: 0 <= i < |files| && LoadedAs(files[i], name)
    decreases |files|
  {
    if |files| > 0 {
      var p := files[..|files| - 1];
      var last := |files| - 1;
      var f := files[last];
      LoadKeys(p, name);
      var base := Load(p);
      var r := Load(files);
      if HasKey(r, name) && !LoadedAs(f, name) {
        var i :| 0 <= i < |r| && r[i].name == name;
        assert i < |base| && base[i].name == name;
        var k :| 0 <= k < |p| && LoadedAs(p[k], name);
        assert files[k] == p[k];
      }
      if exists i :: 0 <= i < |files| && LoadedAs(files[i], name) {
        var i :| 0 <= i < |files| && LoadedAs(files[i], name);
        if i < last {
          assert files[i] == p[i];
          var k :| 0 <= k < |base| && base[k].name == name;
          assert r[k].name == name;
        }
      }
    }
  }

  /** The file of the listing whose contents the key `name` holds: the last one loaded
      under that key. */
  predicate LastLoadedAs(files: seq<StoredFile>, i: int, name: string) {
    0 <= i < |files| && LoadedAs(files[i], name)
    && forall j :: i < j < |files| ==> !LoadedAs(files[j], name)
  }

  /** Each entry holds the contents of the last file of the listing loaded under its key. */
  lemma {:induction false} LoadValues(files: seq<StoredFile>, n: int)
    requires 0 <= n < |Load(files)|
    ensures exists i :: LastLoadedAs(files, i, Load(files)[n].name) && Load(files)[n].embedding == files[i].contents
    decreases |files|
  {
    var p := files[..|files| - 1];
    var f := files[|files| - 1];
    var e := Load(files)[n];
    if LoadedAs(f, e.name) {
      assert LastLoadedAs(files, |files| - 1, e.name);
    } else {
      assert n < |Load(p)| && Load(p)[n] == e;
      LoadValues(p, n);
      var i :| LastLoadedAs(p, i, e.name) && e.embedding == p[i].contents;
      LastLoadedExtends(files, i, e.name);
    }
  }

  /** A file that is the last under `name` stays so when a file with another key follows. */
  lemma LastLoadedExtends(files: seq<StoredFile>, i: int, name: string)
    requires |files| > 0 && LastLoadedAs(files[..|files| - 1], i, name)
    requires !LoadedAs(files[|files| - 1], name)
    ensures LastLoadedAs(files, i, name) && files[i] == files[..|files| - 1][i]
  {
    var p := files[..|files| - 1];
    forall j | i < j < |files| ensures !LoadedAs(files[j], name) {
      if j < |p| {
        assert files[j] == p[j];
      }
    }
  }

  /** A doubled extension loses both copies, and a non-".npy" file is ignored. */
  lemma DoubledExtension()
    ensures Load([StoredFile("a.npy.npy", [1.0]), StoredFile("notes.txt", [2.0])]) == [Entry("a", [1.0])]
  {
    var files := [StoredFile("a.npy.npy", [1.0]), StoredFile("notes.txt", [2.0])];
    assert files[..1] == [files[0]];
    assert files[..1][..0] == [];
    assert KeyOf("a.npy.npy") == "a" by {
      assert "a.npy.npy"[1..] == ".npy.npy";
      assert ".npy.npy"[4..] == ".npy";
    }
    assert IsNpy("a.npy.npy");
    assert !IsNpy("notes.txt") by {
      assert "notes.txt"[5..] != NpyExtension;
    }
  }

  /** The loader, as written: `for archivo in os.listdir(...)`. */
  method LoadBase(files: seq<StoredFile>) returns (base: seq<Entry>)
    ensures base == Load(files)
    ensures UniqueKeys(base)
    ensures forall name :: HasKey(base, name) <==> exists i :: 0 <= i < |files| && LoadedAs(files[i], name)
  {
    base := [];
    for i := 0 to |files|
      invariant base == Load(files[..i])
    {
      assert files[..i + 1][..i] == files[..i];
      var archivo := files[i];
      if PyStr.EndsWith(archivo.fileName, NpyExtension) {
        var nombre := PyStr.Remove(archivo.fileName, NpyExtension);
        base := Put(base, nombre, archivo.contents);
      }
    }
    assert files[..|files|] == files;
    LoadUnique(files);
    forall name ensures HasKey(base, name) <==> exists i :: 0 <= i < |files| && LoadedAs(files[i], name) {
      LoadKeys(files, name);
    }
  }

  // ---------------------------------------------------------------- nearest name

  /** The name scan's result: `mejor_usuario` and `mejor_distancia`. */
  datatype Closest = Closest(name: string, distance: real)

  /** The name scan over the base in insertion order, replacing on a strictly smaller
      distance; it starts from "DESCONOCIDO" at 1e9. */
  function NearestName(base: seq<Entry>, live: Embedding, dist: App.Distance): Closest
    decreases |base|
  {
    if |base| == 0 then Closest(App.UnknownUser, App.FarDistance)
    else
      var c := NearestName(base[..|base| - 1], live, dist);
      var e := base[|base| - 1];
      var d := dist(live, e.embedding);
      if d < c.distance then Closest(e.name, d) else c
  }

  /** The base seen as a user collection, so that the two name scans can be compared.
      The files carry no access flag; the placeholder `false` is never read by the scan. */
  function AsUsers(base: seq<Entry>): (r: seq<App.User>)
    ensures |r| == |base|
    ensures forall i :: 0 <= i < |base| ==> r[i] == App.User(base[i].name, false, base[i].embedding)
  {
    seq(|base|, i requires 0 <= i < |base| => App.User(base[i].name, false, base[i].embedding))
  }

  /** The recogniser's name scan picks the same name at the same distance as the server's
      user scan over the same embeddings. */
  lemma {:induction false} NearestNameAgrees(base: seq<Entry>, live: Embedding, dist: App.Distance)
    ensures var m := App.Nearest(AsUsers(base), live, dist);
      NearestName(base, live, dist) == Closest(m.user, m.distance)
    decreases |base|
  {
    if |base| > 0 {
      var p := base[..|base| - 1];
      NearestNameAgrees(p, live, dist);
      assert AsUsers(base)[..|base| - 1] == AsUsers(p);
    }
  }

  /** The name scan reports the first nearest entry, or "DESCONOCIDO" at 1e9 when every
      entry is that far away; with an empty base always the latter. */
  lemma NearestNameIsFirstMinimum(base: seq<Entry>, live: Embedding, dist: App.Distance)
    ensures var c := NearestName(base, live, dist);
      ((forall j :: 0 <= j < |base| ==> dist(live, base[j].embedding) >= App.FarDistance) ==>
         c == Closest(App.UnknownUser, App.FarDistance))
      && ((exists j :: 0 <= j < |base| && dist(live, base[j].embedding) < App.FarDistance) ==>
         exists k :: App.IsNearest(AsUsers(base), live, dist, k)
           && c == Closest(base[k].name, dist(live, base[k].embedding)))
  {
    NearestNameAgrees(base, live, dist);
    App.NearestIsFirstMinimum(AsUsers(base), live, dist);
    var users := AsUsers(base);
    if exists j :: 0 <= j < |base| && dist(live, base[j].embedding) < App.FarDistance {
      var j :| 0 <= j < |base| && dist(live, base[j].embedding) < App.FarDistance;
      assert users[j].embedding == base[j].embedding;
      assert !App.NobodyClose(users, live, dist);
    } else {
      assert App.NobodyClose(users, live, dist);
    }
  }

  /** The name scan, as written: `for usuario, emb_base in base_usuarios.items()`. */
  method FindClosest(base: seq<Entry>, live: Embedding, dist: App.Distance) returns (bestName: string, bestDistance: real)
    ensures Closest(bestName, bestDistance) == NearestName(base, live, dist)
  {
    bestName := App.UnknownUser;
    bestDistance := App.FarDistance;
    for i := 0 to |base|
      invariant Closest(bestName, bestDistance) == NearestName(base[..i], live, dist)
    {
      assert base[..i + 1][..i] == base[..i];
      var d := dist(live, base[i].embedding);
      if d < bestDistance {
        bestDistance := d;
        bestName := base[i].name;
      }
    }
    assert base[..|base|] == base;
  }

  // ---------------------------------------------------------------- label

  /** What is drawn on a frame with a face: its box, the label's name, the distance shown
      beside it, and whether it is drawn in green (recognised) or red. */
  datatype Overlay = Overlay(box: Box, name: string, distance: real, recognised: bool)

  /** The two-way label decision: the matched name, in green, strictly below 0.55;
      "DESCONOCIDO", in red, otherwise. */
  function Label(box: Box, c: Closest): Overlay {
    if c.distance < App.MatchThreshold then Overlay(box, c.name, c.distance, true)
    else Overlay(box, App.UnknownUser, c.distance, false)
  }

  /** The label's truth table: green exactly below 0.55, with the matched name; red, named
      "DESCONOCIDO", otherwise (0.55 itself included); always the box and distance found. */
  lemma LabelTable(box: Box, c: Closest)
    ensures Label(box, c).recognised <==> c.distance < App.MatchThreshold
    ensures Label(box, c).name == if c.distance < App.MatchThreshold then c.name else App.UnknownUser
    ensures Label(box, c).box == box && Label(box, c).distance == c.distance
    ensures !Label(box, Closest(c.name, 0.55)).recognised
  {
  }

  /** Without an access flag the recogniser is more lenient than the server: a label is
      green exactly when the server would name the user, granted access or not, and it
      carries that same name. */
  lemma LabelAgreesWithServer(box: Box, m: App.Match)
    ensures var o := Label(box, Closest(m.user, m.distance));
      (o.recognised <==> !App.Decide(m).NotRecognised?)
      && (o.recognised ==> o.name == App.Decide(m).user)
  {
    App.DecisionTable(m);
  }

  /** What one frame read shows: no box without a face; otherwise the box and its label. */
  function OverlayOf(f: Frame, base: seq<Entry>, dist: App.Distance): Option<Overlay> {
    var st := Scan(f.candidates, f.width, f.height);
    if st.bestBox.None? then None else Some(Label(st.bestBox.value, NearestName(base, f.face, dist)))
  }

  /** The frame loop over the reads made: a failed read is skipped, every other read
      shows its own overlay. */
  function Views(captures: seq<Option<Frame>>, base: seq<Entry>, dist: App.Distance): seq<Option<Overlay>>
    decreases |captures|
  {
    if |captures| == 0 then []
    else
      var v := Views(captures[..|captures| - 1], base, dist);
      var r := captures[|captures| - 1];
      if r.None? then v else v + [OverlayOf(r.value, base, dist)]
  }

  /** Frames are processed independently: the views of two runs of reads are the views of
      the first followed by those of the second, and there is one view per successful read. */
  lemma {:induction false} ViewsIndependent(a: seq<Option<Frame>>, b: seq<Option<Frame>>, base: seq<Entry>, dist: App.Distance)
    ensures Views(a + b, base, dist) == Views(a, base, dist) + Views(b, base, dist)
    decreases |b|
  {
    if |b| == 0 {
      assert a + b == a;
    } else {
      var b' := b[..|b| - 1];
      ViewsIndependent(a, b', base, dist);
      assert (a + b)[..|a + b| - 1] == a + b';
    }
  }

  /** A frame shows a box exactly when it has a face, and the box shown is the scan's. */
  lemma SingleView(f: Frame, base: seq<Entry>, dist: App.Distance)
    ensures Views([Some(f)], base, dist) == [OverlayOf(f, base, dist)]
    ensures OverlayOf(f, base, dist).Some? <==> HasFace(Some(f))
    ensures OverlayOf(f, base, dist).Some? ==>
      OverlayOf(f, base, dist).value.box == Scan(f.candidates, f.width, f.height).bestBox.value
    ensures Views([Option<Frame>.None], base, dist) == []
  {
    assert [Some(f)][..0] == [];
    var none: seq<Option<Frame>> := [None];
    assert none[..0] == [];
  }

  /** The frame loop, as written, over the reads made before the window is closed. */
  method Run(captures: seq<Option<Frame>>, base: seq<Entry>, dist: App.Distance) returns (views: seq<Option<Overlay>>)
    ensures views == Views(captures, base, dist)
  {
    views := [];
    for t := 0 to |captures|
      invariant views == Views(captures[..t], base, dist)
    {
      assert captures[..t + 1][..t] == captures[..t];
      if captures[t].None? {
        continue;
      }
      var frame := captures[t].value;
      var bestConf, bestBox := SelectFace(frame.candidates, frame.width, frame.height);
      var shown: Option<Overlay> := None;
      if bestBox.Some? {
        var mejorUsuario, mejorDistancia := FindClosest(base, frame.face, dist);
        if mejorDistancia < App.MatchThreshold {
          shown := Some(Overlay(bestBox.value, mejorUsuario, mejorDistancia, true));
        } else {
          shown := Some(Overlay(bestBox.value, App.UnknownUser, mejorDistancia, false));
        }
      }
      views := views + [shown];
    }
    assert captures[..|captures|] == captures;
  }
}
