/** The part of Node's POSIX `path.basename` the CLI relies on: the project
    name is the last `/`-separated segment of the target directory. */
module PosixPath {

  const Sep: char := '/'

  /** `p` with every trailing separator removed. */
  function TrimTrailingSeps(p: string): string {
    if p != [] && p[|p| - 1] == Sep then TrimTrailingSeps(p[..|p| - 1]) else p
  }

  /** The part of `p` after its last separator. */
  function LastSegment(p: string): string {
    if p == [] || p[|p| - 1] == Sep then []
    else LastSegment(p[..|p| - 1]) + [p[|p| - 1]]
  }

  /** `path.basename(p)`: the last segment, ignoring trailing separators
      (so `"/a/b/"` names `"b"`, and `"/"` names the empty string). */
  function Basename(p: string): string {
    LastSegment(TrimTrailingSeps(p))
  }

  /** Trimming removes separators only, from the end only, and all of them. */
  lemma {:induction false} TrimTrailingSepsSpec(p: string)
    ensures var r := TrimTrailingSeps(p);
            && |r| <= |p| && r == p[..|r|]
            && (r == [] || r[|r| - 1] != Sep)
            && (forall i :: |r| <= i < |p| ==> p[i] == Sep)
    decreases |p|
  {
    if p != [] && p[|p| - 1] == Sep {
      var q := p[..|p| - 1];
      TrimTrailingSepsSpec(q);
      var r := TrimTrailingSeps(q);
      assert p[..|r|] == q[..|r|];
    }
  }

  /** The last segment is the longest suffix of `p` free of separators. */
  lemma {:induction false} LastSegmentSpec(p: string)
    ensures var r := LastSegment(p);
            && |r| <= |p| && r == p[|p| - |r|..]
            && Sep !in r
            && (|r| == |p| || p[|p| - |r| - 1] == Sep)
    decreases |p|
  {
    if p != [] && p[|p| - 1] != Sep {
      var q := p[..|p| - 1];
      LastSegmentSpec(q);
      var r := LastSegment(q);
      assert p[|p| - |r| - 1..] == q[|q| - |r|..] + [p[|p| - 1]];
    }
  }

  /** The base name holds no separator, and is empty exactly when the path
      holds nothing but separators. */
  lemma BasenameSpec(p: string)
    ensures Sep !in Basename(p)
    ensures Basename(p) == [] <==> forall i :: 0 <= i < |p| ==> p[i] == Sep
  {
    var t := TrimTrailingSeps(p);
    TrimTrailingSepsSpec(p);
    LastSegmentSpec(t);
    if t != [] {
      assert LastSegment(t) != [];
    }
  }

  /** A plain name, with no separator in it, is its own last segment. */
  lemma {:induction false} LastSegmentAfterSep(dir: string, name: string)
    requires Sep !in name
    ensures LastSegment(dir + [Sep] + name) == name
    decreases |name|
  {
    if name != [] {
      var p := dir + [Sep] + name;
      var name' := name[..|name| - 1];
      assert p[..|p| - 1] == dir + [Sep] + name';
      LastSegmentAfterSep(dir, name');
      assert name == name' + [name[|name| - 1]];
    }
  }

  /** `basename(join(dir, name))` gives back `name`: the segment the CLI
      reads is the one the directory was created under. */
  lemma BasenameOfJoin(dir: string, name: string)
    requires name != [] && Sep !in name
    ensures Basename(dir + [Sep] + name) == name
  {
    var p := dir + [Sep] + name;
    assert p[|p| - 1] == name[|name| - 1];
    assert TrimTrailingSeps(p) == p;
    LastSegmentAfterSep(dir, name);
  }

  /** A trailing separator does not change the base name. */
  lemma BasenameTrailingSep(p: string)
    ensures Basename(p + [Sep]) == Basename(p)
  {
    assert (p + [Sep])[..|p|] == p;
  }
}
