/** The example tree of the PerNodeFunc documentation
    (file/addfs/per_node.go:17-38) run through the overlay:
        parent/
        └─dir1/
          ├─fileA
          ├─fileB
          └─dir2/
    with one function that adds a leaf "viewX" for fileA only, and one that
    fails on fileA only. */
module AddFsScenario {
  import opened FsNode
  import opened AddFs

  const FILE_A: Node := Leaf(Info("fileA", 0x1A4, 10, 0))
  const FILE_B: Node := Leaf(Info("fileB", 0x1A4, 20, 0))
  const DIR2: Node := Dir(Info("dir2", 0x1ED, 30, 0), [])
  const DIR1: Node := Dir(Info("dir1", 0x1ED, 40, 0), [FILE_A, FILE_B, DIR2])
  const PARENT: Node := Dir(Info("parent", 0x1ED, 50, 0), [DIR1])
  const VIEW_X: Node := Leaf(Info("viewX", 0x124, 60, 0))

  /** Adds VIEW_X for an entry named fileA, nothing for any other. */
  function ViewOfA(n: Node): (r: Result<seq<Node>, Err>)
    ensures r.Success?
  {
    if n.info.name == "fileA" then Success([VIEW_X]) else Success([])
  }

  /** Fails on an entry named fileA, adds nothing for any other. */
  function FailOnA(n: Node): (r: Result<seq<Node>, Err>)
    ensures r.Failure? <==> n.info.name == "fileA"
  {
    if n.info.name == "fileA" then Failure(Failed("unreadable")) else Success([])
  }

  /** Browsing the overlay: the original entries are where they were, and a
      leaf comes back as itself, with no "..." of its own. */
  lemma BrowseOriginals()
    ensures Child(ApplyPerNodeFuncs(PARENT, [ViewOfA]), "dir1") == Success(Overlay(DIR1, [ViewOfA]))
    ensures Child(Overlay(DIR1, [ViewOfA]), "fileA") == Success(Original(FILE_A))
    ensures Child(Overlay(DIR1, [ViewOfA]), "dir2") == Success(Overlay(DIR2, [ViewOfA]))
  {
    assert "dir1" != "...";
    assert "fileA" != "...";
    assert "dir2" != "..." && "dir2" != "fileA" && "dir2" != "fileB";
    var cs := DIR1.children;
    assert cs[1..] == [FILE_B, DIR2] && cs[1..][1..] == [DIR2];
    assert Lookup([DIR2], "dir2") == Success(DIR2);
    assert Lookup([FILE_B, DIR2], "dir2") == Lookup([DIR2], "dir2");
    assert Lookup(cs, "dir2") == Lookup([FILE_B, DIR2], "dir2");
  }

  /** Browsing the additions: parent/.../dir1 and dir1/.../fileA exist, and
      .../fileA lists fileA's addition while .../fileB is empty. */
  lemma BrowseAdditions()
    ensures Child(AddsDir(PARENT, [ViewOfA]), "dir1") == Success(EntryAdds(DIR1, [ViewOfA]))
    ensures Child(Overlay(DIR1, [ViewOfA]), "...") == Success(AddsDir(DIR1, [ViewOfA]))
    ensures Child(AddsDir(DIR1, [ViewOfA]), "fileA") == Success(EntryAdds(FILE_A, [ViewOfA]))
    ensures Children(EntryAdds(FILE_A, [ViewOfA])) == Success([Original(VIEW_X)])
    ensures Children(EntryAdds(FILE_B, [ViewOfA])) == Success([])
    ensures Child(EntryAdds(FILE_A, [ViewOfA]), "viewX") == Success(Original(VIEW_X))
  {
    assert "fileB" != "fileA";
    var fns := [ViewOfA];
    assert fns[..0] == [] && fns[0] == ViewOfA;
    assert Collect(FILE_A, []) == Success([]);
    assert ViewOfA(FILE_A) == Success([VIEW_X]);
    assert [] + [VIEW_X] == [VIEW_X];
    assert Collect(FILE_A, fns) == Success([VIEW_X]);
    assert [VIEW_X][1..] == [];
    assert Dedup([VIEW_X]) == [VIEW_X];
    assert RecurseAll([VIEW_X], fns) == [Original(VIEW_X)];
    assert ViewOfA(FILE_B) == Success([]);
    var none: seq<Node> := [];
    assert none + none == none;
    assert Collect(FILE_B, fns) == Success([]);
    assert Dedup(none) == none && |RecurseAll(none, fns)| == 0;
  }

  /** A function failing on fileA fails only fileA's additions: the "..."
      listing and fileB's additions are unaffected. */
  lemma FailureIsolation()
    ensures Children(AddsDir(DIR1, [FailOnA])).Success?
    ensures Children(EntryAdds(FILE_A, [FailOnA])) == Failure(FuncError(0, Failed("unreadable")))
    ensures Children(EntryAdds(FILE_B, [FailOnA])) == Success([])
  {
    assert "fileB" != "fileA";
    var fns := [FailOnA];
    assert fns[..0] == [] && fns[0] == FailOnA;
    assert Collect(FILE_B, []) == Success([]);
    assert FailOnA(FILE_B) == Success([]);
    var none: seq<Node> := [];
    assert none + none == none;
    assert Collect(FILE_B, fns) == Success([]);
    assert Dedup(none) == none && |RecurseAll(none, fns)| == 0;
  }
}
