/** The node abstraction the overlay is built on: file metadata, a tree of
    leaves and directories, lookup of a child by name, and the error values
    that travel through the tree. Only what the overlay uses is modelled. */
module FsNode {

  /** Success with a value, or failure with an error (Go's `(T, error)` pair). */
  datatype Result<+T, +E> = Success(value: T) | Failure(error: E)

  /** File metadata as the overlay sees it: the name, the nine permission bits
      of the mode, the modification time and the cache-validity hint. The last
      two are opaque values that are only copied and forwarded. */
  datatype Info = Info(name: string, perm: bv9, modTime: int, cacheableFor: int)

  /** A node of the original tree: a leaf, or a directory with its children
      in listing order. */
  datatype Node = Leaf(info: Info) | Dir(info: Info, children: seq<Node>)

  /** The errors this model distinguishes. `FuncError` is the overlay's
      wrapping of the error returned by the per-node function at `index`;
      `Failed` stands for any other error a per-node function may return. */
  datatype Err = NotFound(name: string) | FuncError(index: nat, cause: Err) | Failed(reason: string)

  /** The names of a list of nodes. */
  function Names(cs: seq<Node>): set<string> {
    set i | 0 <= i < |cs| :: cs[i].info.name
  }

  /** A directory's lookup by name: the first child carrying the name, or
      NotFound when no child does. */
  function Lookup(cs: seq<Node>, name: string): (r: Result<Node, Err>)
    ensures r.Success? <==> name in Names(cs)
    ensures r.Failure? ==> r.error == NotFound(name)
    ensures r.Success? ==>
      exists i :: 0 <= i < |cs| && cs[i] == r.value && r.value.info.name == name
        && forall j :: 0 <= j < i ==> cs[j].info.name != name
  {
    if |cs| == 0 then Failure(NotFound(name))
    else if cs[0].info.name == name then Success(cs[0])
    else
      assert cs == [cs[0]] + cs[1..];
      NamesCons(cs[0], cs[1..]);
      Lookup(cs[1..], name)
  }

  /** The names of a list with one more node in front. */
  lemma NamesCons(x: Node, r: seq<Node>)
    ensures Names([x] + r) == {x.info.name} + Names(r)
  {
    var a := [x] + r;
    forall n | n in Names(r) ensures n in Names(a) {
      var i :| 0 <= i < |r| && r[i].info.name == n;
      assert a[i + 1] == r[i];
    }
    forall n | n in Names(a) ensures n in {x.info.name} + Names(r) {
      var i :| 0 <= i < |a| && a[i].info.name == n;
      if i > 0 { assert r[i - 1] == a[i]; }
    }
    assert a[0] == x;
  }
}
