/** The read-only overlay of file/addfs/per_node.go. Wrapping a directory
    exposes its children unchanged (directories re-wrapped, leaves passed
    through) plus a reserved "..." directory; under "..." every original
    entry gets a directory holding what the per-node functions compute for
    it. The overlay is lazy: a `View` is a finite description of a node and
    `Child`/`Children` compute what lies below it only when asked. */
module AddFs {
  import opened FsNode

  /** A per-node function: from one node, the "addition" nodes to show for
      it, or an error. */
  type PerNodeFunc = Node -> Result<seq<Node>, Err>

  /** The name of the additions directory, reserved at every overlay level. */
  const ADDS_DIR_NAME: string := "..."

  /** The three execute bits (octal 0111) forced onto every per-entry
      additions directory. */
  const EXEC_BITS: bv9 := 0x49

  /** A node of the overlay tree.
      - `Original(node)`: a leaf of the original tree handed out unchanged;
      - `Overlay(orig, fns)`: the wrapper of directory `orig` (perNodeImpl);
      - `AddsDir(orig, fns)`: the "..." directory of `orig` (perNodeAdds);
      - `EntryAdds(entry, fns)`: the additions directory of one entry
        (the result of newAddsForChild). */
  datatype View =
    | Original(node: Node)
    | Overlay(orig: Node, fns: seq<PerNodeFunc>)
    | AddsDir(orig: Node, fns: seq<PerNodeFunc>)
    | EntryAdds(entry: Node, fns: seq<PerNodeFunc>)

  /** A view is well formed when the wrapped original of a wrapper or of an
      additions directory is a directory. */
  predicate Wf(v: View) {
    match v
    case Original(_) => true
    case Overlay(orig, _) => orig.Dir?
    case AddsDir(orig, _) => orig.Dir?
    case EntryAdds(_, _) => true
  }

  /** Whether a view has the Parent capability (can be asked for children).
      `Original` views are the leaves Recurse hands back unchanged; the
      overlay never hands out an original directory unwrapped. */
  predicate IsParent(v: View) {
    Wf(v) && !v.Original?
  }

  /** The metadata of the "..." directory: the original's, renamed. */
  function AddsDirInfo(orig: Info): (r: Info)
    ensures r.name == ADDS_DIR_NAME
    ensures r.(name := orig.name) == orig
  {
    orig.(name := ADDS_DIR_NAME)
  }

  /** The metadata of a per-entry additions directory: name, modification
      time and cache hint copied from the entry, permission bits the entry's
      with the three execute bits forced on. */
  function EntryAddsInfo(entry: Info): (r: Info)
    ensures r.name == entry.name && r.modTime == entry.modTime
    ensures r.cacheableFor == entry.cacheableFor
    ensures r.perm & EXEC_BITS == EXEC_BITS
    ensures r.perm & entry.perm == entry.perm
    ensures r.perm & !EXEC_BITS == entry.perm & !EXEC_BITS
  {
    Info(entry.name, entry.perm | EXEC_BITS, entry.modTime, entry.cacheableFor)
  }

  /** The metadata a view reports. A wrapper reports its original's. */
  function ViewInfo(v: View): Info {
    match v
    case Original(n) => n.info
    case Overlay(orig, _) => orig.info
    case AddsDir(orig, _) => AddsDirInfo(orig.info)
    case EntryAdds(entry, _) => EntryAddsInfo(entry.info)
  }

  function ViewName(v: View): string {
    ViewInfo(v).name
  }

  /** The cache-validity hint a view reports (perNodeImpl.CacheableFor
      forwards the original's). */
  function CacheableFor(v: View): (r: int)
    ensures v.Original? ==> r == v.node.info.cacheableFor
    ensures v.Overlay? ==> r == v.orig.info.cacheableFor
    ensures v.AddsDir? ==> r == v.orig.info.cacheableFor
    ensures v.EntryAdds? ==> r == v.entry.info.cacheableFor
  {
    ViewInfo(v).cacheableFor
  }

  /** ApplyPerNodeFuncs: the overlay of directory `original`. */
  function ApplyPerNodeFuncs(original: Node, fns: seq<PerNodeFunc>): (r: View)
    requires original.Dir?
    ensures IsParent(r) && ViewInfo(r) == original.info
  {
    Overlay(original, fns)
  }

  /** perNodeRecurse: directories are re-wrapped, leaves pass through. */
  function Recurse(n: Node, fns: seq<PerNodeFunc>): (r: View)
    ensures Wf(r) && ViewInfo(r) == n.info
    ensures IsParent(r) <==> n.Dir?
  {
    if n.Dir? then ApplyPerNodeFuncs(n, fns) else Original(n)
  }

  /** Each node of `cs` passed through Recurse. */
  function RecurseAll(cs: seq<Node>, fns: seq<PerNodeFunc>): seq<View> {
    seq(|cs|, i requires 0 <= i < |cs| => Recurse(cs[i], fns))
  }

  /** What the functions return for `e`, taken in function order and then
      in output order; the first failing function ends the computation with
      its error wrapped, and the functions after it are not consulted. */
  function Collect(e: Node, fns: seq<PerNodeFunc>): (r: Result<seq<Node>, Err>)
    ensures r.Success? <==> forall k :: 0 <= k < |fns| ==> fns[k](e).Success?
    ensures r.Failure? ==>
      && r.error.FuncError?
      && r.error.index < |fns|
      && fns[r.error.index](e) == Failure(r.error.cause)
      && forall k :: 0 <= k < r.error.index ==> fns[k](e).Success?
    decreases |fns|
  {
    if |fns| == 0 then Success([])
    else
      var init := fns[..|fns| - 1];
      assert forall k :: 0 <= k < |init| ==> init[k] == fns[k];
      match Collect(e, init)
      case Failure(err) => Failure(err)
      case Success(prev) =>
        match fns[|fns| - 1](e)
        case Failure(cause) => Failure(FuncError(|fns| - 1, cause))
        case Success(out) => Success(prev + out)
  }

  /** The accumulator of the merge loop after `s` has been added to it in
      order: every name maps to the node last added under it. */
  function Merge(s: seq<Node>): map<string, Node> {
    if |s| == 0 then map[]
    else Merge(s[..|s| - 1])[s[|s| - 1].info.name := s[|s| - 1]]
  }

  /** The accumulator's keys are the names added. */
  lemma {:induction false} MergeKeys(s: seq<Node>)
    ensures Merge(s).Keys == Names(s)
  {
    if |s| > 0 {
      var init := s[..|s| - 1];
      MergeKeys(init);
      assert Names(s) == Names(init) + {s[|s| - 1].info.name} by {
        assert forall i :: 0 <= i < |init| ==> init[i] == s[i];
      }
    }
  }

  /** The accumulator holds, under every name, a node of that name. */
  lemma {:induction false} MergeKeyed(s: seq<Node>)
    ensures forall k :: k in Merge(s) ==> Merge(s)[k].info.name == k
  {
    if |s| > 0 {
      MergeKeyed(s[..|s| - 1]);
    }
  }

  /** The conflict diagnostics the merge loop logs while `s` is added: one
      name each time a name already in the accumulator is added again. */
  ghost function ConflictLog(s: seq<Node>): seq<string> {
    if |s| == 0 then []
    else
      var init := s[..|s| - 1];
      var last := s[|s| - 1];
      ConflictLog(init) + (if last.info.name in Merge(init) then [last.info.name] else [])
  }

  /** `s` with every node dropped that has a later node of the same name:
      one node per name, the last one, in the order of those last
      occurrences. The canonical order of a per-entry listing. */
  function Dedup(s: seq<Node>): (r: seq<Node>)
    ensures Names(r) == Names(s)
    ensures forall i, j :: 0 <= i < j < |r| ==> r[i].info.name != r[j].info.name
  {
    if |s| == 0 then []
    else
      var rest := Dedup(s[1..]);
      assert s == [s[0]] + s[1..];
      NamesCons(s[0], s[1..]);
      NamesCons(s[0], rest);
      if s[0].info.name in Names(s[1..]) then rest
      else
        assert forall i :: 0 <= i < |rest| ==> rest[i].info.name in Names(s[1..]);
        [s[0]] + rest
  }

  /** `w` lists the accumulator `m` in some order: exactly one view per
      name, the recursion of the node `m` holds for it. */
  ghost predicate IsListingOf(w: seq<View>, m: map<string, Node>, fns: seq<PerNodeFunc>) {
    && |w| == |m|
    && (forall i :: 0 <= i < |w| ==> ViewName(w[i]) in m && w[i] == Recurse(m[ViewName(w[i])], fns))
    && (forall i, j :: 0 <= i < j < |w| ==> ViewName(w[i]) != ViewName(w[j]))
    && (forall k :: k in m ==> exists i :: 0 <= i < |w| && ViewName(w[i]) == k)
  }

  /** Child(ctx, name) of every kind of view. */
  function Child(v: View, name: string): (r: Result<View, Err>)
    requires IsParent(v)
    ensures r.Success? ==> Wf(r.value) && ViewName(r.value) == name
    ensures r.Failure? ==> r.error == NotFound(name) || (v.EntryAdds? && r.error.FuncError?)
  {
    match v
    case Overlay(orig, fns) =>
      if name == ADDS_DIR_NAME then Success(AddsDir(orig, fns))
      else
        (match Lookup(orig.children, name)
         case Failure(err) => Failure(err)
         case Success(c) => Success(Recurse(c, fns)))
    case AddsDir(orig, fns) =>
      (match Lookup(orig.children, name)
       case Failure(err) => Failure(err)
       case Success(c) => Success(NewAddsForChild(c, fns)))
    case EntryAdds(entry, fns) =>
      (match Collect(entry, fns)
       case Failure(err) => Failure(err)
       case Success(adds) =>
         match Lookup(Dedup(adds), name)
         case Failure(err) => Failure(err)
         case Success(c) => Success(Recurse(c, fns)))
  }

  /** Children() of every kind of view. The original tree's listings cannot
      fail here, so only a per-entry additions directory can fail to list,
      and only when a function fails. */
  function Children(v: View): (r: Result<seq<View>, Err>)
    requires IsParent(v)
    ensures r.Success? ==> forall i :: 0 <= i < |r.value| ==> Wf(r.value[i])
    ensures r.Failure? ==> v.EntryAdds? && r.error.FuncError?
  {
    match v
    case Overlay(orig, fns) => Success([AddsDir(orig, fns)] + RecurseAll(orig.children, fns))
    case AddsDir(orig, fns) =>
      Success(seq(|orig.children|, i requires 0 <= i < |orig.children| => NewAddsForChild(orig.children[i], fns)))
    case EntryAdds(entry, fns) =>
      (match Collect(entry, fns)
       case Failure(err) => Failure(err)
       case Success(adds) => Success(RecurseAll(Dedup(adds), fns)))
  }

  /** newAddsForChild: the additions directory of one entry. */
  function NewAddsForChild(entry: Node, fns: seq<PerNodeFunc>): (r: View)
    ensures IsParent(r)
    ensures ViewInfo(r) == EntryAddsInfo(entry.info)
  {
    EntryAdds(entry, fns)
  }

  /** A failure among the first `n` functions is the failure of all of them:
      the functions after it make no difference. */
  lemma {:induction false} CollectPrefixFailure(e: Node, fns: seq<PerNodeFunc>, n: nat)
    requires n <= |fns|
    requires Collect(e, fns[..n]).Failure?
    ensures Collect(e, fns) == Collect(e, fns[..n])
    decreases |fns|
  {
    if n < |fns| {
      var init := fns[..|fns| - 1];
      assert init[..n] == fns[..n];
      CollectPrefixFailure(e, init, n);
    } else {
      assert fns[..n] == fns;
    }
  }

  /** Adding one node to the front of the merge input: the accumulator only
      changes if no later node has the same name. */
  lemma {:induction false} MergeCons(x: Node, r: seq<Node>)
    ensures Merge([x] + r) ==
      if x.info.name in Merge(r) then Merge(r) else Merge(r)[x.info.name := x]
    decreases |r|
  {
    if |r| == 0 {
      assert [x] + r == [] + [x];
      MergeSnoc([], x);
    } else {
      var init := r[..|r| - 1];
      var y := r[|r| - 1];
      assert r == init + [y];
      assert [x] + r == ([x] + init) + [y];
      MergeSnoc([x] + init, y);
      MergeSnoc(init, y);
      MergeCons(x, init);
    }
  }

  /** Adding one node to the back of the merge input logs its name if the
      name was already there. */
  lemma ConflictLogSnoc(s: seq<Node>, y: Node)
    ensures ConflictLog(s + [y]) ==
      ConflictLog(s) + (if y.info.name in Merge(s) then [y.info.name] else [])
  {
    assert (s + [y])[..|s|] == s;
  }

  /** Adding one node to the back of the merge input overwrites its name. */
  lemma MergeSnoc(s: seq<Node>, y: Node)
    ensures Merge(s + [y]) == Merge(s)[y.info.name := y]
  {
    assert (s + [y])[..|s|] == s;
  }

  /** Dedup lists the accumulator: looking a name up in it finds the node
      the merge kept for that name. */
  lemma {:induction false} LookupDedup(s: seq<Node>, k: string)
    ensures Lookup(Dedup(s), k) == if k in Merge(s) then Success(Merge(s)[k]) else Failure(NotFound(k))
  {
    if |s| > 0 {
      var x, r := s[0], s[1..];
      assert s == [x] + r;
      MergeCons(x, r);
      LookupDedup(r, k);
      if x.info.name !in Names(r) {
        assert ([x] + Dedup(r))[1..] == Dedup(r);
      }
    }
  }

  /** The recursion of Dedup's output lists the accumulator. */
  lemma {:induction false} DedupIsListing(s: seq<Node>, fns: seq<PerNodeFunc>)
    ensures IsListingOf(RecurseAll(Dedup(s), fns), Merge(s), fns)
  {
    var d := Dedup(s);
    var w := RecurseAll(d, fns);
    var m := Merge(s);
    MergeKeys(s);
    forall i | 0 <= i < |w|
      ensures ViewName(w[i]) in m && w[i] == Recurse(m[ViewName(w[i])], fns)
    {
      assert ViewName(w[i]) == d[i].info.name;
      LookupDedup(s, d[i].info.name);
      assert Lookup(d, d[i].info.name) == Success(d[i]) by {
        var c := Lookup(d, d[i].info.name);
        assert d[i].info.name in Names(d);
        var j :| 0 <= j < |d| && d[j] == c.value && c.value.info.name == d[i].info.name
          && forall j' :: 0 <= j' < j ==> d[j'].info.name != d[i].info.name;
        assert j == i;
      }
    }
    forall k | k in m
      ensures exists i :: 0 <= i < |w| && ViewName(w[i]) == k
    {
      var i :| 0 <= i < |d| && d[i].info.name == k;
      assert ViewName(w[i]) == k;
    }
    DedupLength(s);
  }

  lemma {:induction false} DedupLength(s: seq<Node>)
    ensures |Dedup(s)| == |Merge(s)|
  {
    if |s| > 0 {
      var x, r := s[0], s[1..];
      assert s == [x] + r;
      MergeCons(x, r);
      MergeKeys(r);
      DedupLength(r);
      if x.info.name !in Names(r) {
        assert Merge(s).Keys == Merge(r).Keys + {x.info.name};
      }
    }
  }

  /** The FuncChildren closure of newAddsForChild: run the functions in
      order, failing on the first error; merge the additions by name, the
      last one winning and every overwrite logged; then recurse each
      survivor. The survivors come out in the map's (unspecified) order. */
  method EntryAddsChildren(e: Node, fns: seq<PerNodeFunc>) returns (r: Result<seq<View>, Err>, ghost conflicts: seq<string>)
    ensures Collect(e, fns).Failure? ==> r == Failure(Collect(e, fns).error)
    ensures Collect(e, fns).Failure? ==>
      var k := Collect(e, fns).error.index;
      Collect(e, fns[..k]).Success? && conflicts == ConflictLog(Collect(e, fns[..k]).value)
    ensures Collect(e, fns).Success? ==>
      && r.Success?
      && IsListingOf(r.value, Merge(Collect(e, fns).value), fns)
      && conflicts == ConflictLog(Collect(e, fns).value)
  {
    var adds: map<string, Node> := map[];
    ghost var seen: seq<Node> := [];
    conflicts := [];
    var i := 0;
    while i < |fns|
      invariant 0 <= i <= |fns|
      invariant Collect(e, fns[..i]) == Success(seen)
      invariant adds == Merge(seen)
      invariant conflicts == ConflictLog(seen)
    {
      assert fns[..i + 1][..i] == fns[..i];
      var out := fns[i](e);
      if out.Failure? {
        r := Failure(FuncError(i, out.error));
        CollectPrefixFailure(e, fns, i + 1);
        return;
      }
      adds, conflicts := MergeAdds(adds, seen, conflicts, out.value);
      seen := seen + out.value;
      i := i + 1;
    }
    assert fns[..i] == fns;
    MergeKeyed(seen);

    var wrapped := WrapAdds(adds, fns);
    r := Success(wrapped);
  }

  /** The second loop of the closure: every survivor of the merge passed
      through Recurse, in the map's iteration order. */
  method WrapAdds(adds: map<string, Node>, fns: seq<PerNodeFunc>) returns (wrapped: seq<View>)
    requires forall k :: k in adds ==> adds[k].info.name == k
    ensures IsListingOf(wrapped, adds, fns)
  {
    wrapped := [];
    ghost var order: seq<string> := [];
    var keys := adds.Keys;
    while keys != {}
      invariant keys <= adds.Keys
      invariant WrappedSoFar(wrapped, order, adds.Keys - keys, adds, fns)
      decreases keys
    {
      var k :| k in keys;
      WrappedStep(wrapped, order, keys, adds, fns, k);
      wrapped := wrapped + [Recurse(adds[k], fns)];
      order := order + [k];
      keys := keys - {k};
    }
    WrappedDone(wrapped, order, adds, fns);
  }

  /** The invariant of WrapAdds: `wrapped` holds the recursion of the nodes
      under the keys `done`, visited in `order`, each once. */
  ghost predicate WrappedSoFar(wrapped: seq<View>, order: seq<string>, done: set<string>,
                               adds: map<string, Node>, fns: seq<PerNodeFunc>)
  {
    && done <= adds.Keys
    && |wrapped| == |order| == |done|
    && (forall i :: 0 <= i < |order| ==> order[i] in done)
    && (forall i :: 0 <= i < |order| ==> wrapped[i] == Recurse(adds[order[i]], fns))
    && (forall i, j :: 0 <= i < j < |order| ==> order[i] != order[j])
    && (forall k :: k in done ==> k in order)
  }

  /** One iteration of WrapAdds keeps its invariant. */
  lemma WrappedStep(wrapped: seq<View>, order: seq<string>, keys: set<string>,
                    adds: map<string, Node>, fns: seq<PerNodeFunc>, k: string)
    requires keys <= adds.Keys && k in keys
    requires WrappedSoFar(wrapped, order, adds.Keys - keys, adds, fns)
    ensures WrappedSoFar(wrapped + [Recurse(adds[k], fns)], order + [k], adds.Keys - (keys - {k}), adds, fns)
  {
    assert adds.Keys - (keys - {k}) == (adds.Keys - keys) + {k};
  }

  /** When every key is visited, WrapAdds' result lists the accumulator. */
  lemma WrappedDone(wrapped: seq<View>, order: seq<string>, adds: map<string, Node>, fns: seq<PerNodeFunc>)
    requires forall k :: k in adds ==> adds[k].info.name == k
    requires WrappedSoFar(wrapped, order, adds.Keys - {}, adds, fns)
    ensures IsListingOf(wrapped, adds, fns)
  {
    assert adds.Keys - {} == adds.Keys;
    ListingFromOrder(wrapped, order, adds, fns);
  }

  /** A list of views is a listing of `m` when it follows an order of `m`'s
      keys that names each key once. */
  lemma ListingFromOrder(w: seq<View>, order: seq<string>, m: map<string, Node>, fns: seq<PerNodeFunc>)
    requires forall k :: k in m ==> m[k].info.name == k
    requires |w| == |order| == |m|
    requires forall i :: 0 <= i < |order| ==> order[i] in m && w[i] == Recurse(m[order[i]], fns)
    requires forall i, j :: 0 <= i < j < |order| ==> order[i] != order[j]
    requires forall k :: k in m ==> k in order
    ensures IsListingOf(w, m, fns)
  {
    forall i | 0 <= i < |w| ensures ViewName(w[i]) == order[i] {
    }
    forall k | k in m ensures exists i :: 0 <= i < |w| && ViewName(w[i]) == k {
      var i :| 0 <= i < |order| && order[i] == k;
      assert ViewName(w[i]) == k;
    }
  }

  /** The inner loop of the closure: the additions of one function put into
      the accumulator in order, each overwrite of a name logged. */
  method MergeAdds(adds: map<string, Node>, ghost seen: seq<Node>, ghost log: seq<string>, out: seq<Node>)
    returns (merged: map<string, Node>, ghost newLog: seq<string>)
    requires adds == Merge(seen) && log == ConflictLog(seen)
    ensures merged == Merge(seen + out) && newLog == ConflictLog(seen + out)
  {
    merged, newLog := adds, log;
    ghost var cur := seen;
    var j := 0;
    while j < |out|
      invariant 0 <= j <= |out|
      invariant cur == seen + out[..j]
      invariant merged == Merge(cur) && newLog == ConflictLog(cur)
    {
      var add := out[j];
      var name := add.info.name;
      MergeSnoc(cur, add);
      ConflictLogSnoc(cur, add);
      if name in merged {
        newLog := newLog + [name];
      }
      merged := merged[name := add];
      cur := cur + [add];
      assert out[..j + 1] == out[..j] + [add];
      j := j + 1;
    }
    assert out[..j] == out;
  }
}
