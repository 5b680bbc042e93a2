/** Properties of the overlay of file/addfs/per_node.go: what each kind of
    overlay directory answers to Child and Children, the metadata rules,
    the merge of the per-node functions' additions and the fail-fast rule. */
module AddFsProps {
  import opened FsNode
  import opened AddFs

  /** "..." under a wrapper is always the additions directory of the wrapped
      original, named "..." and otherwise carrying the original's metadata;
      an entry of the original that is itself called "..." is shadowed. */
  lemma OverlayChildReserved(p: Node, fns: seq<PerNodeFunc>)
    requires p.Dir?
    ensures Child(ApplyPerNodeFuncs(p, fns), ADDS_DIR_NAME) == Success(AddsDir(p, fns))
    ensures ViewInfo(AddsDir(p, fns)) == p.info.(name := ADDS_DIR_NAME)
  {
  }

  /** Any other name is looked up in the original: its error comes back
      unchanged, and a found child comes back through Recurse. */
  lemma OverlayChildDelegates(p: Node, fns: seq<PerNodeFunc>, name: string)
    requires p.Dir? && name != ADDS_DIR_NAME
    ensures Lookup(p.children, name).Failure? ==>
      Child(ApplyPerNodeFuncs(p, fns), name) == Failure(Lookup(p.children, name).error)
    ensures Lookup(p.children, name).Success? ==>
      Child(ApplyPerNodeFuncs(p, fns), name) == Success(Recurse(Lookup(p.children, name).value, fns))
  {
  }

  /** An entry whose name is its own (and not "...") is found under the
      wrapper as itself when it is a leaf, and wrapped when it is a
      directory. */
  lemma {:induction false} OverlayChildOfEntry(p: Node, fns: seq<PerNodeFunc>, i: nat)
    requires p.Dir? && i < |p.children|
    requires p.children[i].info.name != ADDS_DIR_NAME
    requires forall j :: 0 <= j < |p.children| && j != i ==> p.children[j].info.name != p.children[i].info.name
    ensures var c := p.children[i];
      Child(ApplyPerNodeFuncs(p, fns), c.info.name) ==
        Success(if c.Dir? then Overlay(c, fns) else Original(c))
  {
    LookupUnique(p.children, i);
  }

  /** Looking up a name only one node carries finds that node. */
  lemma LookupUnique(cs: seq<Node>, i: nat)
    requires i < |cs|
    requires forall j :: 0 <= j < |cs| && j != i ==> cs[j].info.name != cs[i].info.name
    ensures Lookup(cs, cs[i].info.name) == Success(cs[i])
  {
    var r := Lookup(cs, cs[i].info.name);
    assert cs[i].info.name in Names(cs);
    var j :| 0 <= j < |cs| && cs[j] == r.value && r.value.info.name == cs[i].info.name;
  }

  /** perNodeRecurse hands a leaf back unchanged and wraps a directory with
      the same functions. */
  lemma RecurseCases(n: Node, fns: seq<PerNodeFunc>)
    ensures n.Leaf? ==> Recurse(n, fns) == Original(n)
    ensures n.Dir? ==> Recurse(n, fns) == Overlay(n, fns)
  {
  }

  /** A wrapper lists the additions directory first and then every original
      child, in order, through Recurse. */
  lemma OverlayChildrenShape(p: Node, fns: seq<PerNodeFunc>)
    requires p.Dir?
    ensures var r := Children(ApplyPerNodeFuncs(p, fns));
      && r.Success?
      && |r.value| == |p.children| + 1
      && r.value[0] == AddsDir(p, fns)
      && forall i :: 0 <= i < |p.children| ==> r.value[i + 1] == Recurse(p.children[i], fns)
  {
    var tail := RecurseAll(p.children, fns);
    var w := [AddsDir(p, fns)] + tail;
    assert Children(ApplyPerNodeFuncs(p, fns)) == Success(w);
    forall i | 0 <= i < |p.children| ensures w[i + 1] == Recurse(p.children[i], fns) {
      assert w[i + 1] == tail[i];
    }
  }

  /** The listing does not filter out an original "..." entry: it is listed
      beside the additions directory, though Child("...") never reaches it. */
  lemma ShadowedEntryStillListed(p: Node, fns: seq<PerNodeFunc>, i: nat)
    requires p.Dir? && i < |p.children| && p.children[i].info.name == ADDS_DIR_NAME
    ensures var w := Children(ApplyPerNodeFuncs(p, fns)).value;
      && ViewName(w[0]) == ADDS_DIR_NAME
      && ViewName(w[i + 1]) == ADDS_DIR_NAME
      && Child(ApplyPerNodeFuncs(p, fns), ADDS_DIR_NAME) == Success(w[0])
  {
  }

  /** The additions directory: metadata of the original renamed "...",
      lookup through the original (its error unchanged), and one per-entry
      directory per original child, files and directories alike. */
  lemma AddsDirBehaviour(p: Node, fns: seq<PerNodeFunc>, name: string)
    requires p.Dir?
    ensures ViewInfo(AddsDir(p, fns)) == p.info.(name := ADDS_DIR_NAME)
    ensures Lookup(p.children, name).Failure? ==>
      Child(AddsDir(p, fns), name) == Failure(Lookup(p.children, name).error)
    ensures Lookup(p.children, name).Success? ==>
      Child(AddsDir(p, fns), name) == Success(EntryAdds(Lookup(p.children, name).value, fns))
    ensures var r := Children(AddsDir(p, fns));
      && r.Success?
      && |r.value| == |p.children|
      && forall i :: 0 <= i < |p.children| ==>
           r.value[i] == EntryAdds(p.children[i], fns) && ViewName(r.value[i]) == p.children[i].info.name
  {
  }

  /** Listing an additions directory never runs a per-node function, so it
      cannot fail, whatever the functions do on any entry. */
  lemma AddsDirListingNeverFails(p: Node, fns: seq<PerNodeFunc>)
    requires p.Dir?
    ensures Children(AddsDir(p, fns)).Success?
    ensures forall name :: Child(AddsDir(p, fns), name).Failure? ==> Child(AddsDir(p, fns), name).error == NotFound(name)
  {
  }

  /** A per-entry directory's permission bits are the entry's with all three
      execute bits on, even when the entry has no permission bits at all. */
  lemma EntryAddsPermission(e: Node, fns: seq<PerNodeFunc>)
    ensures ViewInfo(EntryAdds(e, fns)).perm == e.info.perm | EXEC_BITS
    ensures e.info.perm == 0 ==> ViewInfo(EntryAdds(e, fns)).perm == EXEC_BITS
  {
  }

  /** The merge keeps exactly the names of its input, and under each name
      the last node that carries it. */
  lemma {:induction false} MergeLastWins(s: seq<Node>, k: string)
    ensures k in Merge(s) <==> exists i :: 0 <= i < |s| && s[i].info.name == k
    ensures k in Merge(s) ==>
      exists i :: 0 <= i < |s| && s[i].info.name == k && Merge(s)[k] == s[i]
        && forall j :: i < j < |s| ==> s[j].info.name != k
  {
    if |s| > 0 {
      var init := s[..|s| - 1];
      var last := s[|s| - 1];
      MergeSnoc(init, last);
      assert s == init + [last];
      if last.info.name != k {
        MergeLastWins(init, k);
        if k in Merge(s) {
          var i :| 0 <= i < |init| && init[i].info.name == k && Merge(init)[k] == init[i]
            && forall j :: i < j < |init| ==> init[j].info.name != k;
          assert s[i] == init[i];
        }
        if exists i :: 0 <= i < |s| && s[i].info.name == k {
          var i :| 0 <= i < |s| && s[i].info.name == k;
          assert init[i] == s[i];
        }
      }
    }
  }

  /** Merging a concatenation is the union of the two merges, the second
      winning on shared names. */
  lemma {:induction false} MergeConcat(a: seq<Node>, b: seq<Node>)
    ensures Merge(a + b) == Merge(a) + Merge(b)
    decreases |b|
  {
    if |b| == 0 {
      assert a + b == a;
    } else {
      var init := b[..|b| - 1];
      var y := b[|b| - 1];
      assert b == init + [y];
      assert a + b == (a + init) + [y];
      MergeSnoc(a + init, y);
      MergeSnoc(init, y);
      MergeConcat(a, init);
    }
  }

  /** Appending a function: on success its additions override the earlier
      functions' under shared names. */
  lemma CollectSnoc(e: Node, fns: seq<PerNodeFunc>, f: PerNodeFunc)
    requires Collect(e, fns).Success? && f(e).Success?
    ensures Collect(e, fns + [f]) == Success(Collect(e, fns).value + f(e).value)
    ensures Merge(Collect(e, fns + [f]).value) == Merge(Collect(e, fns).value) + Merge(f(e).value)
  {
    assert (fns + [f])[..|fns|] == fns;
    MergeConcat(Collect(e, fns).value, f(e).value);
  }

  /** Two functions that both add name k for entry e: the per-entry
      directory holds one node named k, the second function's (its last one
      named k), whatever the first added. */
  lemma ConflictLaterFuncWins(e: Node, f1: PerNodeFunc, f2: PerNodeFunc, k: string)
    requires f1(e).Success? && f2(e).Success?
    requires k in Names(f2(e).value)
    ensures k in Merge(f2(e).value)
    ensures Child(EntryAdds(e, [f1, f2]), k) == Success(Recurse(Merge(f2(e).value)[k], [f1, f2]))
  {
    MergeKeys(f2(e).value);
    assert [f1] == [] + [f1];
    assert [f1, f2] == [f1] + [f2];
    CollectSnoc(e, [], f1);
    CollectSnoc(e, [f1], f2);
    var adds := Collect(e, [f1, f2]).value;
    EntryAddsChild(e, [f1, f2]);
  }

  /** A per-entry directory's lookup is the merge's: the node last added
      under the name, through Recurse, or NotFound. */
  lemma EntryAddsChild(e: Node, fns: seq<PerNodeFunc>)
    requires Collect(e, fns).Success?
    ensures forall k :: (Child(EntryAdds(e, fns), k) ==
      (var m := Merge(Collect(e, fns).value);
       if k in m then Success(Recurse(m[k], fns)) else Failure(NotFound(k))))
  {
    forall k ensures Child(EntryAdds(e, fns), k) ==
      var m := Merge(Collect(e, fns).value);
      if k in m then Success(Recurse(m[k], fns)) else Failure(NotFound(k))
    {
      LookupDedup(Collect(e, fns).value, k);
    }
  }

  /** A per-entry directory lists its merge: one node per distinct added
      name, the last one added, each through Recurse. */
  lemma EntryAddsListing(e: Node, fns: seq<PerNodeFunc>)
    requires Collect(e, fns).Success?
    ensures Children(EntryAdds(e, fns)).Success?
    ensures IsListingOf(Children(EntryAdds(e, fns)).value, Merge(Collect(e, fns).value), fns)
  {
    DedupIsListing(Collect(e, fns).value, fns);
  }

  /** Fail-fast: when function k is the first to fail on e, both Child and
      Children of e's per-entry directory fail with k's error wrapped, and
      no later function decides anything. */
  lemma FailFast(e: Node, fns: seq<PerNodeFunc>, k: nat, name: string)
    requires k < |fns| && fns[k](e).Failure?
    requires forall j :: 0 <= j < k ==> fns[j](e).Success?
    ensures Collect(e, fns) == Failure(FuncError(k, fns[k](e).error))
    ensures Children(EntryAdds(e, fns)) == Failure(FuncError(k, fns[k](e).error))
    ensures Child(EntryAdds(e, fns), name) == Failure(FuncError(k, fns[k](e).error))
  {
    var r := Collect(e, fns);
    assert r.Failure?;
    if r.error.index < k {
    } else if r.error.index > k {
    }
  }

  /** One entry's additions fail exactly when some function fails on that
      entry; nothing about other entries enters into it. */
  lemma EntryAddsFailsIff(e: Node, fns: seq<PerNodeFunc>)
    ensures Children(EntryAdds(e, fns)).Failure? <==> exists k :: 0 <= k < |fns| && fns[k](e).Failure?
  {
  }

  /** The conflict log names k exactly when k is added more than once. */
  lemma ConflictLogged(s: seq<Node>, k: string)
    ensures k in ConflictLog(s) <==>
      exists i, j :: 0 <= i < j < |s| && s[i].info.name == k && s[j].info.name == k
  {
    if k in ConflictLog(s) {
      ConflictLoggedOnlyRepeats(s, k);
    }
    if exists i, j :: 0 <= i < j < |s| && s[i].info.name == k && s[j].info.name == k {
      var i, j :| 0 <= i < j < |s| && s[i].info.name == k && s[j].info.name == k;
      ConflictLoggedRepeats(s, k, i, j);
    }
  }

  /** A logged name is carried by two additions. */
  lemma {:induction false} ConflictLoggedOnlyRepeats(s: seq<Node>, k: string)
    requires k in ConflictLog(s)
    ensures exists i, j :: 0 <= i < j < |s| && s[i].info.name == k && s[j].info.name == k
  {
    var init := s[..|s| - 1];
    var last := s[|s| - 1];
    ConflictLogSnoc(init, last);
    assert s == init + [last];
    if k in ConflictLog(init) {
      ConflictLoggedOnlyRepeats(init, k);
      var i, j :| 0 <= i < j < |init| && init[i].info.name == k && init[j].info.name == k;
      assert s[i] == init[i] && s[j] == init[j];
    } else {
      MergeKeys(init);
      assert last.info.name == k && k in Names(init);
      var i :| 0 <= i < |init| && init[i].info.name == k;
      assert s[i] == init[i];
    }
  }

  /** A name carried by two additions is logged. */
  lemma {:induction false} ConflictLoggedRepeats(s: seq<Node>, k: string, i: nat, j: nat)
    requires i < j < |s| && s[i].info.name == k && s[j].info.name == k
    ensures k in ConflictLog(s)
    decreases |s|
  {
    var init := s[..|s| - 1];
    var last := s[|s| - 1];
    ConflictLogSnoc(init, last);
    assert s == init + [last];
    assert init[i] == s[i];
    if j < |s| - 1 {
      assert init[j] == s[j];
      ConflictLoggedRepeats(init, k, i, j);
    } else {
      MergeKeys(init);
      assert k in Names(init);
    }
  }

  /** Every node a lookup returns is also listed. */
  lemma ChildIsListed(v: View, name: string)
    requires IsParent(v) && Child(v, name).Success?
    ensures Children(v).Success?
    ensures exists i :: 0 <= i < |Children(v).value| && Children(v).value[i] == Child(v, name).value
  {
    var w := Children(v).value;
    var c := Child(v, name).value;
    match v
    case Overlay(orig, fns) =>
      if name == ADDS_DIR_NAME {
        assert w[0] == c;
      } else {
        var i :| 0 <= i < |orig.children| && orig.children[i] == Lookup(orig.children, name).value;
        assert w[i + 1] == c;
      }
    case AddsDir(orig, fns) =>
      var i :| 0 <= i < |orig.children| && orig.children[i] == Lookup(orig.children, name).value;
      assert w[i] == c;
    case EntryAdds(entry, fns) =>
      var d := Dedup(Collect(entry, fns).value);
      var i :| 0 <= i < |d| && d[i] == Lookup(d, name).value;
      assert w[i] == c;
  }

  /** Every listed node can be looked up by its name. */
  lemma ListedIsReachable(v: View, i: nat)
    requires IsParent(v) && Children(v).Success? && i < |Children(v).value|
    ensures Child(v, ViewName(Children(v).value[i])).Success?
  {
    match v
    case Overlay(orig, fns) =>
      if i > 0 {
        assert orig.children[i - 1].info.name in Names(orig.children);
      }
    case AddsDir(orig, fns) =>
      assert orig.children[i].info.name in Names(orig.children);
    case EntryAdds(entry, fns) =>
      var d := Dedup(Collect(entry, fns).value);
      assert d[i].info.name in Names(d);
  }

  /** The names of `cs` are pairwise different. */
  predicate DistinctNames(cs: seq<Node>) {
    forall i, j :: 0 <= i < j < |cs| ==> cs[i].info.name != cs[j].info.name
  }

  /** A view whose listed names are pairwise different: a per-entry
      directory always (its listing is deduplicated), the "..." directory
      when the original's names are distinct, and a wrapper when they are
      distinct and none of them is "...". */
  predicate UniquelyListed(v: View) {
    match v
    case Original(_) => false
    case Overlay(orig, _) => orig.Dir? && DistinctNames(orig.children) && ADDS_DIR_NAME !in Names(orig.children)
    case AddsDir(orig, _) => orig.Dir? && DistinctNames(orig.children)
    case EntryAdds(_, _) => true
  }

  /** Where listed names are unique, looking a listed node up by its name
      returns that very node: browsing by listing and by lookup agree. */
  lemma ListedIsFound(v: View, i: nat)
    requires IsParent(v) && UniquelyListed(v)
    requires Children(v).Success? && i < |Children(v).value|
    ensures Child(v, ViewName(Children(v).value[i])) == Success(Children(v).value[i])
  {
    match v
    case Overlay(orig, fns) =>
      if i > 0 {
        var cs := orig.children;
        assert cs[i - 1].info.name in Names(cs);
        LookupUnique(cs, i - 1);
      }
    case AddsDir(orig, fns) =>
      LookupUnique(orig.children, i);
    case EntryAdds(entry, fns) =>
      LookupUnique(Dedup(Collect(entry, fns).value), i);
  }
}
