/** The recursive directory copy of the scaffolding CLI (`copyDir` and the
    single-file copy it shares with the allow-list loop), walking the source
    in the order `readdirSync` lists it, with Node's kind-conflict errors made
    explicit. */
module CopyDir {
  import opened Results
  import opened FsTree

  /** The two ways a copy step throws. */
  datatype CopyError =
    | IsADirectory   // a file is copied or written where a directory stands (EISDIR)
    | NotADirectory  // something is created beneath a plain file (ENOTDIR)

  /** `copyFileSync` / `writeFileSync` of `b` to a destination holding `d`:
      creates or overwrites a file, and fails when a directory is there. */
  function PutFile(b: Bytes, d: Option<Node>): (r: Result<Node, CopyError>)
    ensures r.Success? <==> Fits(File(b), d)
    ensures r.Success? ==> r.value == Place(File(b), d)
    ensures r.Failure? ==> r.error == IsADirectory
  {
    match d
    case Some(Dir(_)) => Failure(IsADirectory)
    case _ => Success(File(b))
  }

  /** Copies one source entry onto the destination `d` at the same relative
      path: a file through `PutFile`, a directory through `CopyDir`, which
      first creates the destination directory when it does not exist. */
  function CopyEntry(l: Listed, d: Option<Node>): Result<Node, CopyError>
    requires l.Valid()
    decreases l, 1
  {
    match l
    case LFile(b) => PutFile(b, d)
    case LDir(names, _) =>
      var start := if d.None? then Dir(map[]) else d.value;
      CopyChildren(l, names, start)
  }

  /** The `for (const entry of entries)` loop of `copyDir`: copies the
      entries of `l` named by `names`, in that order, into `dest`.  The first
      failing entry aborts the loop. */
  function CopyChildren(l: Listed, names: seq<Name>, dest: Node): Result<Node, CopyError>
    requires l.LDir? && l.Valid()
    requires forall k :: k in names ==> k in l.entries
    decreases l, 0, |names|
  {
    if names == [] then Success(dest)
    else
      match dest
      case File(_) => Failure(NotADirectory)
      case Dir(e) =>
        var n := names[0];
        var r :- CopyEntry(l.entries[n], Child(e, n));
        CopyChildren(l, names[1..], Dir(e[n := r]))
  }

  /** Which error a failing copy raises: a file copied onto a directory
      raises EISDIR, and a non-empty directory copied onto a plain file
      raises ENOTDIR when its first entry is created beneath that file. */
  lemma CopyEntryErrors(l: Listed, d: Option<Node>)
    requires l.Valid()
    ensures l.LFile? ==> (CopyEntry(l, d).Failure? <==> d.Some? && d.value.Dir?)
    ensures l.LFile? && CopyEntry(l, d).Failure? ==> CopyEntry(l, d).error == IsADirectory
    ensures l.LDir? && l.names != [] && d.Some? && d.value.File? ==> CopyEntry(l, d) == Failure(NotADirectory)
  {
  }

  /** Every entry of `l` named in `names` fits what `e` already holds under
      that name. */
  ghost predicate NamesFit(l: Listed, names: seq<Name>, e: map<Name, Node>)
    requires l.LDir? && l.Valid()
    requires forall k :: k in names ==> k in l.entries
  {
    forall k :: k in names && k in e ==> Compatible(Abs(l.entries[k]), e[k])
  }

  /** The declarative result of copying the entries `names` of a listed
      directory into the children `e` of an existing directory. */
  ghost function OverlayNames(l: Listed, names: seq<Name>, e: map<Name, Node>): map<Name, Node>
    requires l.LDir? && l.Valid()
    requires forall k :: k in names ==> k in l.entries
    requires NamesFit(l, names, e)
  {
    map k | k in e.Keys + (set k | k in names) :: if k in names then Place(Abs(l.entries[k]), Child(e, k)) else e[k]
  }

  /** The names a valid directory lists are exactly the keys of the tree it
      stands for. */
  lemma ListedNames(l: Listed)
    requires l.LDir? && l.Valid()
    ensures forall k :: k in l.names <==> k in Abs(l).children
  {
  }

  /** All listed entries of `l` fit the children `e` exactly when the tree
      `l` stands for fits the directory `e`. */
  lemma AllNamesFit(l: Listed, e: map<Name, Node>)
    requires l.LDir? && l.Valid()
    ensures NamesFit(l, l.names, e) <==> Compatible(Abs(l), Dir(e))
  {
    ListedNames(l);
  }

  /** Copying all listed entries of `l` into the children `e` is the overlay
      of the tree `l` stands for onto the directory `e`. */
  lemma OverlayAllNames(l: Listed, e: map<Name, Node>)
    requires l.LDir? && l.Valid()
    ensures NamesFit(l, l.names, e) <==> Compatible(Abs(l), Dir(e))
    ensures NamesFit(l, l.names, e) ==> Dir(OverlayNames(l, l.names, e)) == Overlay(Abs(l), Dir(e))
  {
    AllNamesFit(l, e);
    if NamesFit(l, l.names, e) {
      var m := OverlayNames(l, l.names, e);
      var want := Overlay(Abs(l), Dir(e)).children;
      OverlayAllNamesKeys(l, e);
      forall k | k in m
        ensures m[k] == want[k]
      {
        OverlayAllNamesAt(l, e, k);
      }
      assert m == want;
    }
  }

  /** `OverlayAllNames` on the set of names. */
  lemma OverlayAllNamesKeys(l: Listed, e: map<Name, Node>)
    requires l.LDir? && l.Valid()
    requires Compatible(Abs(l), Dir(e)) && NamesFit(l, l.names, e)
    ensures Overlay(Abs(l), Dir(e)).Dir?
    ensures OverlayNames(l, l.names, e).Keys == Overlay(Abs(l), Dir(e)).children.Keys
  {
    ListedNames(l);
  }

  /** `OverlayAllNames` at a single name. */
  lemma OverlayAllNamesAt(l: Listed, e: map<Name, Node>, k: Name)
    requires l.LDir? && l.Valid()
    requires Compatible(Abs(l), Dir(e)) && NamesFit(l, l.names, e)
    requires k in l.entries || k in e
    ensures k in OverlayNames(l, l.names, e) && k in Overlay(Abs(l), Dir(e)).children
    ensures OverlayNames(l, l.names, e)[k] == Overlay(Abs(l), Dir(e)).children[k]
  {
    ListedNames(l);
    var c := Abs(l).children;
    if k in c {
      assert Overlay(Abs(l), Dir(e)).children[k] == Place(c[k], Child(e, k));
    }
  }

  /** One step of the copy loop: overlaying the first name, then the rest,
      is overlaying them all. */
  lemma OverlayNamesStep(l: Listed, names: seq<Name>, e: map<Name, Node>)
    requires l.LDir? && l.Valid()
    requires forall k :: k in names ==> k in l.entries
    requires names != [] && names[0] !in names[1..]
    requires Fits(Abs(l.entries[names[0]]), Child(e, names[0]))
    ensures var e' := e[names[0] := Place(Abs(l.entries[names[0]]), Child(e, names[0]))];
            && (NamesFit(l, names, e) <==> NamesFit(l, names[1..], e'))
            && (NamesFit(l, names, e) ==> OverlayNames(l, names, e) == OverlayNames(l, names[1..], e'))
  {
    var n := names[0];
    var rest := names[1..];
    var e' := e[n := Place(Abs(l.entries[n]), Child(e, n))];
    assert forall k :: k in names <==> k == n || k in rest;
    if NamesFit(l, names, e) {
      var m := OverlayNames(l, names, e);
      var m' := OverlayNames(l, rest, e');
      assert m.Keys == m'.Keys;
      forall k | k in m
        ensures m[k] == m'[k]
      {
      }
    }
  }

  /** The copy of a single entry succeeds exactly when its tree fits the
      destination, and then leaves the order-free `Place` of it there. */
  lemma {:induction false} CopyEntryCorrect(l: Listed, d: Option<Node>)
    requires l.Valid()
    ensures CopyEntry(l, d).Success? <==> Fits(Abs(l), d)
    ensures CopyEntry(l, d).Success? ==> CopyEntry(l, d).value == Place(Abs(l), d)
    decreases l, 1
  {
    match l
    case LFile(b) =>
    case LDir(names, entries) =>
      var start := if d.None? then Dir(map[]) else d.value;
      match start
      case File(x) =>
        if names != [] {
          assert names[0] in Abs(l).children;
        }
      case Dir(e) =>
        CopyChildrenCorrect(l, names, e);
        OverlayAllNames(l, e);
        if d.None? {
          OverlaySelf(Abs(l));
          assert Overlay(Abs(l), Dir(map[])) == Abs(l);
        }
  }

  /** The copy loop succeeds exactly when every listed entry fits what is
      already at its name, and its result is then the order-free overlay of
      the listed entries. */
  lemma {:induction false} CopyChildrenCorrect(l: Listed, names: seq<Name>, e: map<Name, Node>)
    requires l.LDir? && l.Valid()
    requires forall k :: k in names ==> k in l.entries
    requires forall i, j :: 0 <= i < j < |names| ==> names[i] != names[j]
    ensures CopyChildren(l, names, Dir(e)).Success? <==> NamesFit(l, names, e)
    ensures NamesFit(l, names, e) ==> CopyChildren(l, names, Dir(e)).value == Dir(OverlayNames(l, names, e))
    decreases l, 0, |names|
  {
    if names != [] {
      var n := names[0];
      var child := l.entries[n];
      CopyEntryCorrect(child, Child(e, n));
      if Fits(Abs(child), Child(e, n)) {
        var rest := names[1..];
        assert n !in rest;
        var e' := e[n := Place(Abs(child), Child(e, n))];
        CopyChildrenCorrect(l, rest, e');
        OverlayNamesStep(l, names, e);
      }
    }
  }

  /** `copyDir` does not depend on the order `readdirSync` lists entries in:
      two listings of the same source tree copy to the same result. */
  lemma CopyOrderIndependent(l1: Listed, l2: Listed, d: Option<Node>)
    requires l1.Valid() && l2.Valid()
    requires Abs(l1) == Abs(l2)
    ensures CopyEntry(l1, d).Success? <==> CopyEntry(l2, d).Success?
    ensures CopyEntry(l1, d).Success? ==> CopyEntry(l1, d).value == CopyEntry(l2, d).value
  {
    CopyEntryCorrect(l1, d);
    CopyEntryCorrect(l2, d);
  }
}
