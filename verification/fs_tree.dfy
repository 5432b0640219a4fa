/** An immutable model of the filesystem the scaffolding CLI writes into, and
    the order-free meaning of recursively copying one tree onto another.

    `Node` is a tree as it sits on disk: a plain file with its bytes, or a
    directory mapping entry names to sub-trees.  `Listed` is a source tree as
    the copy routine walks it: every directory also carries the order in which
    `readdirSync` lists its entries. */
module FsTree {
  import opened Results

  type Name = string
  type Path = seq<Name>
  type Bytes = seq<bv8>

  datatype Node = File(content: Bytes) | Dir(children: map<Name, Node>)

  datatype Listed = LFile(bytes: Bytes) | LDir(names: seq<Name>, entries: map<Name, Listed>) {

    /** Every directory lists each of its entries exactly once, as
        `readdirSync` does. */
    predicate Valid() {
      match this
      case LFile(_) => true
      case LDir(names, entries) =>
        && (forall i, j :: 0 <= i < j < |names| ==> names[i] != names[j])
        && (forall i :: 0 <= i < |names| ==> names[i] in entries)
        && (forall k :: k in entries ==> k in names)
        && (forall k :: k in entries ==> entries[k].Valid())
    }
  }

  /** The tree a listed source stands for, forgetting the listing order. */
  function Abs(l: Listed): (n: Node)
    ensures l.LFile? <==> n.File?
    ensures l.LDir? ==> n.children.Keys == l.entries.Keys
  {
    match l
    case LFile(b) => File(b)
    case LDir(_, entries) => Dir(map k | k in entries :: Abs(entries[k]))
  }

  /** The entry `k` of a directory, or `None` when it does not exist. */
  function Child(c: map<Name, Node>, k: Name): (r: Option<Node>)
    ensures r.Some? <==> k in c
    ensures r.Some? ==> r.value == c[k]
  {
    if k in c then Some(c[k]) else None
  }

  /** The node reached by following `p` from `n`; `None` when a step is
      missing or passes through a plain file. */
  function Lookup(n: Node, p: Path): Option<Node>
    decreases p
  {
    if p == [] then Some(n)
    else match n
      case File(_) => None
      case Dir(c) => if p[0] in c then Lookup(c[p[0]], p[1..]) else None
  }

  /** The content of the plain file at `p`, if there is one. */
  function FileAt(n: Node, p: Path): Option<Bytes> {
    match Lookup(n, p)
    case Some(File(b)) => Some(b)
    case _ => None
  }

  /** Copying `s` onto the existing node `d` raises no error: a file never
      lands on a directory (EISDIR), and a non-empty directory never lands on
      a file (ENOTDIR).  An EMPTY directory over a file is harmless: nothing
      is created because the destination already exists and there is
      nothing to copy into it. */
  predicate Compatible(s: Node, d: Node) {
    match s
    case File(_) => d.File?
    case Dir(c) =>
      match d
      case File(_) => c == map[]
      case Dir(e) => forall k :: k in c && k in e ==> Compatible(c[k], e[k])
  }

  /** `Compatible` for a destination that may not exist yet. */
  predicate Fits(s: Node, d: Option<Node>) {
    d.None? || Compatible(s, d.value)
  }

  /** The tree left at a destination `d` after copying `s` onto it: files of
      `s` replace what is there, directories are merged, nothing of `d` is
      removed. */
  function Overlay(s: Node, d: Node): Node
    requires Compatible(s, d)
    decreases s, 0
  {
    match s
    case File(_) => s
    case Dir(c) =>
      match d
      case File(_) => d
      case Dir(e) => Dir(map k | k in c.Keys + e.Keys :: if k in c then Place(c[k], Child(e, k)) else e[k])
  }

  /** `Overlay` onto a destination that may not exist: a missing destination
      receives a copy of `s`. */
  function Place(s: Node, d: Option<Node>): Node
    requires Fits(s, d)
    decreases s, 1
  {
    if d.None? then s else Overlay(s, d.value)
  }

  /** Every tree may be copied onto itself. */
  lemma {:induction false} CompatibleReflexive(n: Node)
    ensures Compatible(n, n)
  {
    match n
    case File(_) =>
    case Dir(c) =>
      forall k | k in c
        ensures Compatible(c[k], c[k])
      {
        CompatibleReflexive(c[k]);
      }
  }

  /** Copying a tree onto an identical tree changes nothing. */
  lemma {:induction false} OverlaySelf(n: Node)
    ensures Compatible(n, n) && Overlay(n, n) == n
  {
    CompatibleReflexive(n);
    match n
    case File(_) =>
    case Dir(c) =>
      forall k | k in c
        ensures Overlay(c[k], c[k]) == c[k]
      {
        OverlaySelf(c[k]);
      }
  }

  /** The files after a copy: wherever `s` has a file, the result has that
      file with the same content (containment, and overwriting of a file
      already there); anywhere else the result has exactly the files `d`
      had (preservation). */
  lemma {:induction false} OverlayFiles(s: Node, d: Node, p: Path)
    requires Compatible(s, d)
    ensures FileAt(Overlay(s, d), p) == if FileAt(s, p).Some? then FileAt(s, p) else FileAt(d, p)
    decreases p
  {
    if p != [] {
      match s
      case File(_) =>
      case Dir(c) =>
        match d
        case File(_) =>
        case Dir(e) =>
          var k := p[0];
          if k in c && k in e {
            OverlayFiles(c[k], e[k], p[1..]);
          }
    }
  }

  /** A copy never deletes and never invents: a path exists afterwards
      exactly when it existed in the source or in the destination. */
  lemma {:induction false} OverlayPaths(s: Node, d: Node, p: Path)
    requires Compatible(s, d)
    ensures Lookup(Overlay(s, d), p).Some? <==> Lookup(s, p).Some? || Lookup(d, p).Some?
    decreases p
  {
    if p != [] {
      match s
      case File(_) =>
      case Dir(c) =>
        match d
        case File(_) =>
        case Dir(e) =>
          var k := p[0];
          if k in c && k in e {
            OverlayPaths(c[k], e[k], p[1..]);
          }
    }
  }

  /** A node the source does not reach is left exactly as it was. */
  lemma {:induction false} OverlayKeepsUnrelated(s: Node, d: Node, p: Path)
    requires Compatible(s, d)
    requires Lookup(s, p).None?
    ensures Lookup(Overlay(s, d), p) == Lookup(d, p)
    decreases p
  {
    match s
    case File(_) =>
    case Dir(c) =>
      match d
      case File(_) =>
      case Dir(e) =>
        var k := p[0];
        if k in c && k in e {
          OverlayKeepsUnrelated(c[k], e[k], p[1..]);
        }
  }

  /** Copying the same source a second time changes nothing. */
  lemma {:induction false} OverlayIdempotent(s: Node, d: Node)
    requires Compatible(s, d)
    ensures Compatible(s, Overlay(s, d))
    ensures Overlay(s, Overlay(s, d)) == Overlay(s, d)
    decreases s
  {
    match s
    case File(_) =>
    case Dir(c) =>
      match d
      case File(_) =>
      case Dir(e) =>
        var m := Overlay(s, d).children;
        forall k | k in c
          ensures k in m && Compatible(c[k], m[k]) && Overlay(c[k], m[k]) == m[k]
        {
          assert m[k] == Place(c[k], Child(e, k));
          if k in e {
            OverlayIdempotent(c[k], e[k]);
          } else {
            OverlaySelf(c[k]);
          }
        }
        var m2 := Overlay(s, Overlay(s, d)).children;
        assert m2.Keys == m.Keys;
        forall k | k in m
          ensures m2[k] == m[k]
        {
          if k in c {
            assert m2[k] == Place(c[k], Child(m, k));
          }
        }
        assert m2 == m;
  }

  lemma PlaceIdempotent(s: Node, d: Option<Node>)
    requires Fits(s, d)
    ensures Compatible(s, Place(s, d))
    ensures Overlay(s, Place(s, d)) == Place(s, d)
  {
    if d.None? {
      OverlaySelf(s);
    } else {
      OverlayIdempotent(s, d.value);
    }
  }
}
