/** The scaffolding run of `bin/cli.js`: copy the allow-listed top-level
    entries of the template into the target directory, then write the
    synthesized `package.json` there.  The template's root is a map from
    name to listed tree (an allow-listed name missing from it is what
    `existsSync` reports absent); the target root is the children of the
    current working directory. */
module Materializer {
  import opened Results
  import opened FsTree
  import opened CopyDir
  import opened JsValue
  import Manifest

  /** The top-level template entries a run copies, in the order it copies them. */
  const FilesToCopy: seq<Name> := ["src", "public", ".env.example", ".gitignore", ".prettierignore", ".prettierrc"]

  /** The manifest file written into the target root. */
  const ManifestFile: Name := "package.json"

  /** The part of the template a run copies: its entries whose names are
      allow-listed, as one directory tree. */
  function Selected(allow: seq<Name>, template: map<Name, Listed>): (s: Node)
    ensures s.Dir?
    ensures forall k :: k in s.children <==> k in allow && k in template
  {
    Dir(map k | k in template && k in allow :: Abs(template[k]))
  }

  /** Adding a template entry to the selection adds it to the overlay and
      changes nothing else. */
  lemma OverlayInsert(c: map<Name, Node>, e: map<Name, Node>, n: Name, a: Node)
    requires Compatible(Dir(c), Dir(e))
    requires Fits(a, Child(e, n))
    ensures Compatible(Dir(c[n := a]), Dir(e))
    ensures Overlay(Dir(c[n := a]), Dir(e)).children == Overlay(Dir(c), Dir(e)).children[n := Place(a, Child(e, n))]
  {
    var m := Overlay(Dir(c[n := a]), Dir(e)).children;
    var m' := Overlay(Dir(c), Dir(e)).children[n := Place(a, Child(e, n))];
    assert m.Keys == m'.Keys;
    forall k | k in m
      ensures m[k] == m'[k]
    {
    }
  }

  /** Writing a name the source does not have commutes with the overlay. */
  lemma OverlayOutside(c: map<Name, Node>, e: map<Name, Node>, n: Name, x: Node)
    requires Compatible(Dir(c), Dir(e))
    requires n !in c
    ensures Compatible(Dir(c), Dir(e[n := x]))
    ensures Overlay(Dir(c), Dir(e[n := x])).children == Overlay(Dir(c), Dir(e)).children[n := x]
  {
    var m := Overlay(Dir(c), Dir(e[n := x])).children;
    var m' := Overlay(Dir(c), Dir(e)).children[n := x];
    assert m.Keys == m'.Keys;
    forall k | k in m
      ensures m[k] == m'[k]
    {
    }
  }

  /** A selection that fits the target still fits after dropping names. */
  lemma SelectedPrefixFits(allow: seq<Name>, i: nat, template: map<Name, Listed>, target: map<Name, Node>)
    requires i <= |allow|
    ensures Compatible(Selected(allow, template), Dir(target)) ==> Compatible(Selected(allow[..i], template), Dir(target))
  {
    var small := Selected(allow[..i], template).children;
    var big := Selected(allow, template).children;
    forall k | k in small
      ensures k in big && small[k] == big[k]
    {
    }
  }

  /** An allow-listed name the template lacks adds nothing to the selection. */
  lemma SelectedSkip(allow: seq<Name>, i: nat, template: map<Name, Listed>)
    requires i < |allow| && allow[i] !in template
    ensures Selected(allow[..i + 1], template) == Selected(allow[..i], template)
  {
    assert allow[..i + 1] == allow[..i] + [allow[i]];
  }

  /** One turn of the allow-list loop, on the overlay built so far: copying
      the next name succeeds exactly when the longer selection still fits,
      and extends the overlay to it. */
  lemma AllowListStep(allow: seq<Name>, i: nat, template: map<Name, Listed>, target: map<Name, Node>)
    requires i < |allow| && allow[i] in template
    requires forall k :: k in template ==> template[k].Valid()
    requires Compatible(Selected(allow[..i], template), Dir(target))
    ensures var n := allow[i];
            var cur := Overlay(Selected(allow[..i], template), Dir(target)).children;
            var res := CopyEntry(template[n], Child(cur, n));
            && (res.Success? <==> Compatible(Selected(allow[..i + 1], template), Dir(target)))
            && (res.Success? ==> cur[n := res.value] == Overlay(Selected(allow[..i + 1], template), Dir(target)).children)
  {
    var n := allow[i];
    var before := Selected(allow[..i], template);
    var cur := Overlay(before, Dir(target)).children;
    var a := Abs(template[n]);
    assert allow[..i + 1] == allow[..i] + [n];
    assert Selected(allow[..i + 1], template) == Dir(before.children[n := a]);
    CopyEntryCorrect(template[n], Child(cur, n));
    var res := CopyEntry(template[n], Child(cur, n));
    if n in before.children {
      assert before.children[n := a] == before.children;
      assert cur[n] == Place(a, Child(target, n));
      PlaceIdempotent(a, Child(target, n));
      assert cur[n := res.value] == cur;
    } else {
      assert Child(cur, n) == Child(target, n);
      if res.Success? {
        OverlayInsert(before.children, target, n, a);
      } else {
        assert Selected(allow[..i + 1], template).children[n] == a;
      }
    }
  }

  /** The `filesToCopy.forEach` loop: each allow-listed name present in the
      template is copied onto the target (a directory by `copyDir`, a file by
      `copyFileSync`); absent names are skipped.  It succeeds exactly when
      the selected template fits the target, and then leaves the order-free
      overlay of the selection on the target. */
  method CopyAllowListed(allow: seq<Name>, template: map<Name, Listed>, target: map<Name, Node>)
    returns (r: Result<map<Name, Node>, CopyError>)
    requires forall k :: k in template ==> template[k].Valid()
    ensures r.Success? <==> Compatible(Selected(allow, template), Dir(target))
    ensures r.Success? ==> r.value == Overlay(Selected(allow, template), Dir(target)).children
  {
    var cur := target;
    for i := 0 to |allow|
      invariant Compatible(Selected(allow[..i], template), Dir(target))
      invariant cur == Overlay(Selected(allow[..i], template), Dir(target)).children
    {
      var n := allow[i];
      if n in template {
        var res := CopyEntry(template[n], Child(cur, n));
        AllowListStep(allow, i, template, target);
        SelectedPrefixFits(allow, i + 1, template, target);
        if res.Failure? {
          return Failure(res.error);
        }
        cur := cur[n := res.value];
      } else {
        SelectedSkip(allow, i, template);
      }
    }
    assert allow[..|allow|] == allow;
    return Success(cur);
  }

  /** A run can complete: the allow-listed template fits the target, and no
      directory stands where the manifest is written. */
  ghost predicate CanMaterialize(template: map<Name, Listed>, target: map<Name, Node>) {
    && Compatible(Selected(FilesToCopy, template), Dir(target))
    && Fits(File([]), Child(target, ManifestFile))
  }

  /** The target root after a completed run that wrote `doc` as the
      manifest. */
  ghost function Materialized(template: map<Name, Listed>, target: map<Name, Node>, doc: Bytes): map<Name, Node>
    requires CanMaterialize(template, target)
  {
    Overlay(Selected(FilesToCopy, template), Dir(target)).children[ManifestFile := File(doc)]
  }

  lemma ManifestFileNotCopied()
    ensures ManifestFile !in FilesToCopy
  {
  }

  /** One run of the CLI, without the `npm install` that follows it.
      `stringify` stands for `JSON.stringify(_, null, 2)`. */
  method Materialize(
    template: map<Name, Listed>, templateManifest: map<string, Json>, targetDir: string,
    target: map<Name, Node>, stringify: seq<Manifest.Field> -> Bytes)
    returns (r: Result<map<Name, Node>, CopyError>)
    requires forall k :: k in template ==> template[k].Valid()
    ensures r.Success? <==> CanMaterialize(template, target)
    ensures r.Success? ==> r.value == Materialized(template, target, stringify(Manifest.NewManifest(targetDir, templateManifest)))
  {
    var copied :- CopyAllowListed(FilesToCopy, template, target);
    ManifestFileNotCopied();
    assert Child(copied, ManifestFile) == Child(target, ManifestFile);
    var doc := stringify(Manifest.NewManifest(targetDir, templateManifest));
    var written :- PutFile(doc, Child(copied, ManifestFile));
    return Success(copied[ManifestFile := written]);
  }

  /** Running the CLI a second time on its own output changes nothing. */
  lemma MaterializeIdempotent(
    template: map<Name, Listed>, target: map<Name, Node>, doc: Bytes)
    requires CanMaterialize(template, target)
    ensures CanMaterialize(template, Materialized(template, target, doc))
    ensures Materialized(template, Materialized(template, target, doc), doc)
         == Materialized(template, target, doc)
  {
    var s := Selected(FilesToCopy, template);
    var f := File(doc);
    var once := Overlay(s, Dir(target));
    var t1 := once.children[ManifestFile := f];
    ManifestFileNotCopied();
    OverlayIdempotent(s, Dir(target));
    OverlayOutside(s.children, once.children, ManifestFile, f);
    assert Overlay(s, Dir(t1)).children == once.children[ManifestFile := f];
  }

  /** Top-level names a run does not copy are left exactly as they were:
      every name off the allow-list, and every allow-listed name the
      template lacks; only the manifest file is rewritten. */
  lemma MaterializeLeavesOthers(
    template: map<Name, Listed>, target: map<Name, Node>, doc: Bytes, k: Name)
    requires CanMaterialize(template, target)
    requires k != ManifestFile
    requires k !in FilesToCopy || k !in template
    ensures var t := Materialized(template, target, doc);
            Child(t, k) == Child(target, k)
  {
  }

  /** Every file under an allow-listed template entry is found at the same
      relative path in the target with the same content; every other path
      below the target root keeps the file it had (if any). */
  lemma MaterializeFiles(
    template: map<Name, Listed>, target: map<Name, Node>, doc: Bytes, p: Path)
    requires CanMaterialize(template, target)
    requires p != [] && p[0] != ManifestFile
    ensures var t := Materialized(template, target, doc);
            var fromTemplate := if p[0] in FilesToCopy && p[0] in template then FileAt(Abs(template[p[0]]), p[1..]) else None;
            FileAt(Dir(t), p) == if fromTemplate.Some? then fromTemplate else FileAt(Dir(target), p)
  {
    var s := Selected(FilesToCopy, template);
    OverlayFiles(s, Dir(target), p);
    var t := Materialized(template, target, doc);
    assert Lookup(Dir(t), p) == Lookup(Overlay(s, Dir(target)), p);
  }

  /** Nothing in the target is deleted, and nothing appears that neither the
      allow-listed template nor the target had, apart from the manifest. */
  lemma MaterializePaths(
    template: map<Name, Listed>, target: map<Name, Node>, doc: Bytes, p: Path)
    requires CanMaterialize(template, target)
    requires p != [] && p[0] != ManifestFile
    ensures var t := Materialized(template, target, doc);
            Lookup(Dir(t), p).Some? <==> Lookup(Selected(FilesToCopy, template), p).Some? || Lookup(Dir(target), p).Some?
  {
    var s := Selected(FilesToCopy, template);
    OverlayPaths(s, Dir(target), p);
    var t := Materialized(template, target, doc);
    assert Lookup(Dir(t), p) == Lookup(Overlay(s, Dir(target)), p);
  }

  /** The manifest file of a completed run holds the synthesized manifest. */
  lemma MaterializeWritesManifest(
    template: map<Name, Listed>, target: map<Name, Node>, doc: Bytes)
    requires CanMaterialize(template, target)
    ensures var t := Materialized(template, target, doc);
            Child(t, ManifestFile) == Some(File(doc))
  {
  }
}
