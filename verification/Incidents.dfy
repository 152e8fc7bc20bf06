/** Concrete runs in which a fault that nothing makes good takes a file from clients. */
module Incidents {
  import opened Dialects
  import opened Directories
  import opened DirectoryObject
  import opened DirectoryRename
  import opened FileStore
  import opened Namespace
  import opened Paths
  import opened Relocation
  import opened StreamDigest
  import opened Tables
  import opened TreeStore

  /** One live file with one byte. */
  function OneFile(path: string): State {
    State(map["f" := Row(path, Base(path), Info(1, ""), false, 0)], map[path := [7]])
  }

  lemma OneFileShown<S>(h: Hasher<S>, path: string)
    ensures Good(h, World(OneFile(path), {})) && Files(OneFile(path)) == map[path := [7]]
  {
    assert LiveAt(OneFile(path).rows, "f", path);
  }

  lemma OnlyRow(d: Dialect, path: string, dir: string)
    requires Under(dir, path)
    ensures Selected(d, OneFile(path).rows, dir) == {"f"}
  {
    SelectedStarts(d, OneFile(path).rows, dir);
    LiteralPrefix(d, dir, path);
  }

  /** A directory delete whose last update fails reports an error with the file gone. */
  lemma FailedDeleteRemoves<S>(h: Hasher<S>, d: Dialect) returns (w: World, op: Op)
    ensures Good(h, w) && Legal(d, w, op) && op.RemoveTree? && op.found && !op.restOk
    ensures Step(h, d, w, op).1.MetadataError?
    ensures Files(w.st) == map["d/a" := [7]] && Files(Step(h, d, w, op).0.st) == map[]
  {
    w := World(OneFile("d/a"), {});
    op := RemoveTree("d", true, {"d/a"}, 1, false, 1, {}, {});
    OneFileShown(h, "d/a");
    assert "d" + "/" <= "d/a";
    OnlyRow(d, "d/a", "d");
    assert Flagged(d, w.st.rows, "d", {"d/a"}) == {"f"};
    assert PathsOf(w.st.rows, {"f"}) == {"d/a"};
    assert Batches(1) == 1 && |{"f"}| == 1;
    StepRefines(h, d, w, op);
  }

  lemma PlainSiblings()
    ensures Siblings("d", "e")
  {
    assert "d"[..0] == "e"[..0] && "d"[0..] == "d" && "e"[0..] == "e";
    assert "d"[0] != "e"[0];
  }

  lemma OneFileFits(d: Dialect)
    ensures var rows := OneFile("d/a").rows;
      Selected(d, rows, "d") == {"f"} && Accepted(d, rows, {"f"}, "d", "e")
  {
    PlainSiblings();
    assert "d" + "/" <= "d/a";
    OnlyRow(d, "d/a", "d");
    SelectedAccepted(d, OneFile("d/a").rows, "d", "e");
    var rows := OneFile("d/a").rows;
    assert Fits(rows, {"f"}, "d", "e");
  }

  lemma NothingThere()
    ensures Empty(OneFile("d/a").store, "e")
  {
    assert "d/a"[0] != ("e" + "/")[0];
  }

  lemma LeavesNone(d: Dialect)
    ensures var files := map["d/a" := [7 as Byte]];
      && Injective(Going(Leaving(d, files, "d"), "d", "e"))
      && Rekeyed(d, files, "d", "e", {"d/a"}) == map[]
  {
    var files := map["d/a" := [7 as Byte]];
    assert "d" + "/" <= "d/a";
    LiteralPrefix(d, "d", "d/a");
    assert Leaving(d, files, "d") == {"d/a"};
    assert Only(Going(Leaving(d, files, "d"), "d", "e"), files.Keys - {"d/a"}) == map[];
  }

  /** A directory rename whose storage rename fails reports success with the file gone. */
  lemma LostRename<S>(h: Hasher<S>, d: Dialect) returns (w: World, op: Op)
    ensures Good(h, w) && Legal(d, w, op) && op.MoveTree? && op.allowed
    ensures Step(h, d, w, op).1.Ok? && Torn(h, d, w, op)
    ensures Files(w.st) == map["d/a" := [7]] && Files(Step(h, d, w, op).0.st) == map[]
  {
    w := World(OneFile("d/a"), {});
    op := MoveTree("d", "e", 1, true, {"d/a"}, false);
    OneFileShown(h, "d/a");
    PlainSiblings();
    OneFileFits(d);
    NothingThere();
    LostIsTorn(h, d);
    LeavesNone(d);
    StepRefines(h, d, w, op);
  }

  lemma LostIsTorn<S>(h: Hasher<S>, d: Dialect)
    ensures Torn(h, d, World(OneFile("d/a"), {}), MoveTree("d", "e", 1, true, {"d/a"}, false))
  {
    var st := OneFile("d/a");
    OneFileFits(d);
    NothingThere();
    assert "f" in LeftBehind(st, {"f"}, {"d/a"});
    assert "d/a"[1..] == "/a" && "e" + "/a" == "e/a";
    assert Target("d/a", "d", "e") == "e/a";
    assert "e/a"[0] != "d/a"[0];
    assert !Sound(h, Moved(st.rows["f"], "d", "e", 1), st.store);
  }

  /** A live file and a directory may have one path, because they are kept in different
      tables. Renaming the directory then takes the bytes of the file, with every step
      succeeding. */
  lemma RenameTakesFile<S>(h: Hasher<S>, d: Dialect) returns (w: World, op: Op)
    ensures Good(h, w) && Legal(d, w, op) && Faultless(h, op) && op.MoveTree? && op.allowed && op.ownOk
    ensures Step(h, d, w, op).1.Ok? && TakesFile(h, d, w, op) && !Good(h, Step(h, d, w, op).0)
    ensures Files(w.st) == map["d" := [7]] && ExistsLive(Step(h, d, w, op).0.st.rows, "d")
  {
    w := World(OneFile("d"), {});
    op := MoveTree("d", "e", 1, true, {}, true);
    OneFileShown(h, "d");
    PlainSiblings();
    NothingSelected(d);
    SelectedAccepted(d, w.st.rows, "d", "e");
    StageUntouched(d);
    assert LiveAt(w.st.rows, "f", "d");
    assert TakesFile(h, d, w, op);
    FaultlessTorn(h, d, w, op);
    StepSound(h, d, w, op);
    MoveNothing(w.st.rows, "d", "e", 1);
  }

  lemma NothingSelected(d: Dialect)
    ensures Selected(d, OneFile("d").rows, "d") == {}
  {
    SelectedStarts(d, OneFile("d").rows, "d");
  }

  lemma StageUntouched(d: Dialect)
    requires Accepted(d, OneFile("d").rows, Selected(d, OneFile("d").rows, "d"), "d", "e")
    ensures Empty(Stage(d, OneFile("d"), {}, "d", "e", 1), "e")
  {
    var st := OneFile("d");
    NothingSelected(d);
    ShiftNothing(st.store, Carried(st, {}, {}, "d", "e"));
  }

  /** An upload whose write fails part way reports an error with the old file truncated. */
  lemma UploadTruncates<S>(h: Hasher<S>, d: Dialect) returns (w: World, op: Op)
    ensures Good(h, w) && Legal(d, w, op) && op.Upload?
    ensures Step(h, d, w, op).1.StorageError? && Torn(h, d, w, op)
    ensures Files(w.st) == map["a" := [7]] && Files(Step(h, d, w, op).0.st) == map["a" := []]
  {
    w := World(OneFile("a"), {});
    op := Upload("a", [8], "g", 1, NO_FAULTS.(write := Partial(0)));
    OneFileShown(h, "a");
    assert LiveAt(w.st.rows, "f", "a");
    StepSound(h, d, w, op);
    StepRefines(h, d, w, op);
    assert !SuitsRow(h, w.st.rows, "a", Some([]));
  }

  // ------------------------------------------- a cleanup that comes late

  const DOOMED := Doomed("old", "a")

  /** A deleted file, then selected by a cleanup pass. */
  function Before(pending: set<Doomed>): World {
    World(State(map["old" := Row("a", "a", Info(0, ""), true, 0)], map[]), pending)
  }

  /** The file uploaded again, with or without its bytes. */
  function Again<S>(h: Hasher<S>, store: map<string, seq<Byte>>, pending: set<Doomed>): World {
    World(State(map["new" := Row("a", Base("a"), Info(1, DigestOf(h, [7])), false, 2)], store), pending)
  }

  lemma Selects<S>(h: Hasher<S>, d: Dialect)
    ensures IsStep(h, d, Before({}), Select(1), Before({DOOMED}), Ok)
  {
    var rows := Before({}).st.rows;
    assert Aged(rows, 1, {}) == {"old"};
    assert Aging(rows, 1) == {DOOMED} by { assert "old" in Aged(rows, 1, {}); }
    assert Before({}).pending + {DOOMED} == {DOOMED};
  }

  lemma Uploads<S>(h: Hasher<S>, d: Dialect)
    ensures IsStep(h, d, Before({DOOMED}), Upload("a", [7], "new", 2, NO_FAULTS), Again(h, map["a" := [7]], {DOOMED}), Ok)
  {
    var rows := Before({DOOMED}).st.rows;
    assert (map k | k in rows && rows[k].path != "a" :: rows[k]) == map[];
  }

  lemma Reaps<S>(h: Hasher<S>, d: Dialect)
    ensures IsStep(h, d, Again(h, map["a" := [7]], {DOOMED}), ReapOne(DOOMED, true, true), Again(h, map[], {}), Ok)
  {
    var w := Again(h, map["a" := [7]], {DOOMED});
    assert w.st.rows - {"old"} == w.st.rows && w.st.store - {"a"} == map[] && w.pending - {DOOMED} == {};
  }

  /** A cleanup pass selects a deleted file, the file is uploaded again, and the pass then
      removes its bytes. Every step succeeds; the live file has none at the end. */
  lemma RaceLosesFile<S>(h: Hasher<S>, d: Dialect) returns (ws: seq<World>, ops: seq<Op>, rs: seq<Result>)
    ensures IsRun(h, d, ws, ops, rs) && Good(h, ws[0]) && |ops| == 3 && rs == [Ok, Ok, Ok]
    ensures ops[0].Select? && ops[1].Upload? && ops[2].ReapOne? && forall i :: 0 <= i < 3 ==> Faultless(h, ops[i])
    ensures Files(ws[2].st) == map["a" := [7]] && Files(ws[3].st) == map[] && ExistsLive(ws[3].st.rows, "a")
    ensures !Good(h, ws[3])
  {
    ops := [Select(1), Upload("a", [7], "new", 2, NO_FAULTS), ReapOne(DOOMED, true, true)];
    ws := [Before({}), Before({DOOMED}), Again(h, map["a" := [7]], {DOOMED}), Again(h, map[], {})];
    rs := [Ok, Ok, Ok];
    Selects(h, d);
    Uploads(h, d);
    Reaps(h, d);
    assert LiveAt(ws[2].st.rows, "new", "a") && LiveAt(ws[3].st.rows, "new", "a");
    assert !Sound(h, ws[3].st.rows["new"], ws[3].st.store);
  }
}
