/** Synthesis of the new project's `package.json`: a reshaping of the
    template's parsed manifest in which `name` comes from the target
    directory, `version` is reset, and five fields pass through.  The result
    is the object as `JSON.stringify` writes it: an ordered list of fields,
    where a field whose value is `undefined` is dropped. */
module Manifest {
  import opened Results
  import opened JsValue
  import opened PosixPath

  type Field = (string, Json)

  const InitialVersion: string := "1.0.0"

  /** The template fields copied verbatim, in the order they are written. */
  const PassThroughKeys: seq<string> := ["description", "main", "scripts", "dependencies", "devDependencies"]

  /** Position of a key in the written manifest; 7 for any key the manifest
      never holds. */
  function KeyRank(k: string): (r: nat)
    ensures r <= 7
  {
    if k == "name" then 0
    else if k == "version" then 1
    else if k == "description" then 2
    else if k == "main" then 3
    else if k == "scripts" then 4
    else if k == "dependencies" then 5
    else if k == "devDependencies" then 6
    else 7
  }

  /** The pass-through keys sit at ranks 2 to 6, in list order. */
  lemma PassThroughRanks()
    ensures forall i :: 0 <= i < |PassThroughKeys| ==> KeyRank(PassThroughKeys[i]) == i + 2
  {
    assert KeyRank("description") == 2;
    assert KeyRank("main") == 3;
    assert KeyRank("scripts") == 4;
    assert KeyRank("dependencies") == 5;
    assert KeyRank("devDependencies") == 6;
  }

  /** The fields `keys` of `source`, in the order of `keys`, leaving out the
      keys `source` lacks. */
  function Carry(keys: seq<string>, source: map<string, Json>): seq<Field>
    decreases |keys|
  {
    if keys == [] then []
    else
      var rest := Carry(keys[1..], source);
      if keys[0] in source then [(keys[0], source[keys[0]])] + rest else rest
  }

  /** The manifest written into the target directory `targetDir` for the
      parsed template manifest `source`. */
  function NewManifest(targetDir: string, source: map<string, Json>): (r: seq<Field>)
    ensures |r| >= 2 && r[0].0 == "name" && r[1].0 == "version"
  {
    [("name", Str(Basename(targetDir))), ("version", Str(InitialVersion))] + Carry(PassThroughKeys, source)
  }

  /** A carried field holds the source's value exactly when the key is among
      those carried and the source has it. */
  lemma {:induction false} CarryGet(keys: seq<string>, source: map<string, Json>, k: string)
    ensures Get(Carry(keys, source), k) == if k in keys && k in source then Some(source[k]) else None
    decreases |keys|
  {
    if keys != [] {
      CarryGet(keys[1..], source, k);
      assert k in keys <==> k == keys[0] || k in keys[1..];
    }
  }

  /** The keys of `fields` strictly increase under `rank`. */
  ghost predicate SortedBy(fields: seq<Field>, rank: string -> nat) {
    forall i, j :: 0 <= i < j < |fields| ==> rank(fields[i].0) < rank(fields[j].0)
  }

  /** Every key of `fields` ranks above `bound`. */
  ghost predicate Above(fields: seq<Field>, bound: nat, rank: string -> nat) {
    forall i :: 0 <= i < |fields| ==> bound < rank(fields[i].0)
  }

  /** Only keys from `keys` are carried. */
  lemma {:induction false} CarryKeys(keys: seq<string>, source: map<string, Json>)
    ensures forall f :: f in Carry(keys, source) ==> f.0 in keys
    decreases |keys|
  {
    if keys != [] {
      CarryKeys(keys[1..], source);
    }
  }

  /** Carried keys rank above any bound that all of `keys` rank above. */
  lemma {:induction false} CarryAbove(keys: seq<string>, source: map<string, Json>, rank: string -> nat, bound: nat)
    requires forall i :: 0 <= i < |keys| ==> bound < rank(keys[i])
    ensures Above(Carry(keys, source), bound, rank)
    decreases |keys|
  {
    if keys != [] {
      CarryAbove(keys[1..], source, rank, bound);
      var r := Carry(keys, source);
      var rest := Carry(keys[1..], source);
      if keys[0] in source {
        assert forall i :: 1 <= i < |r| ==> r[i] == rest[i - 1];
      }
    }
  }

  /** Carried fields keep the relative order of `keys`, for any ranking of
      keys that `keys` is sorted by. */
  lemma {:induction false} CarryOrdered(keys: seq<string>, source: map<string, Json>, rank: string -> nat)
    requires forall i, j :: 0 <= i < j < |keys| ==> rank(keys[i]) < rank(keys[j])
    ensures SortedBy(Carry(keys, source), rank)
    decreases |keys|
  {
    if keys != [] {
      var r := Carry(keys, source);
      var rest := Carry(keys[1..], source);
      CarryOrdered(keys[1..], source, rank);
      CarryAbove(keys[1..], source, rank, rank(keys[0]));
      if keys[0] in source {
        forall i, j | 0 <= i < j < |r|
          ensures rank(r[i].0) < rank(r[j].0)
        {
          assert r[j] == rest[j - 1];
          if i > 0 {
            assert r[i] == rest[i - 1];
          }
        }
      }
    }
  }

  /** Every property of the written manifest: `name` is the target
      directory's base name and `version` is "1.0.0" whatever the template
      says; the five pass-through fields equal the template's when it has
      them and are absent when it does not; no other key appears. */
  lemma ManifestFields(targetDir: string, source: map<string, Json>, k: string)
    ensures Get(NewManifest(targetDir, source), k) ==
      if k == "name" then Some(Str(Basename(targetDir)))
      else if k == "version" then Some(Str(InitialVersion))
      else if k in PassThroughKeys && k in source then Some(source[k])
      else None
  {
    var r := NewManifest(targetDir, source);
    assert r[2..] == Carry(PassThroughKeys, source);
    CarryGet(PassThroughKeys, source, k);
    if k != "name" && k != "version" {
      assert Get(r, k) == Get(r[1..], k) == Get(r[2..], k);
    }
  }

  /** The manifest is sorted by any ranking that puts `name` before
      `version` before the pass-through keys in their listed order. */
  lemma NewManifestSortedBy(targetDir: string, source: map<string, Json>, rank: string -> nat)
    requires rank("name") < rank("version")
    requires forall i :: 0 <= i < |PassThroughKeys| ==> rank("version") < rank(PassThroughKeys[i])
    requires forall i, j :: 0 <= i < j < |PassThroughKeys| ==> rank(PassThroughKeys[i]) < rank(PassThroughKeys[j])
    ensures SortedBy(NewManifest(targetDir, source), rank)
  {
    var r := NewManifest(targetDir, source);
    var rest := Carry(PassThroughKeys, source);
    CarryOrdered(PassThroughKeys, source, rank);
    CarryAbove(PassThroughKeys, source, rank, rank("version"));
    forall i, j | 0 <= i < j < |r|
      ensures rank(r[i].0) < rank(r[j].0)
    {
      if j >= 2 {
        assert r[j] == rest[j - 2];
      }
      if i >= 2 {
        assert r[i] == rest[i - 2];
      }
    }
  }

  /** The written keys are distinct and come in the order name, version, description, main, scripts,
      dependencies, devDependencies. */
  lemma ManifestKeyOrder(targetDir: string, source: map<string, Json>)
    ensures SortedBy(NewManifest(targetDir, source), KeyRank)
  {
    PassThroughRanks();
    assert KeyRank("name") == 0 && KeyRank("version") == 1;
    NewManifestSortedBy(targetDir, source, KeyRank);
  }

  /** No key outside name, version and the five pass-through keys is
      written, whatever else the template manifest holds. */
  lemma ManifestKeysKnown(targetDir: string, source: map<string, Json>)
    ensures forall f :: f in NewManifest(targetDir, source) ==> f.0 == "name" || f.0 == "version" || f.0 in PassThroughKeys
  {
    var head: seq<Field> := [("name", Str(Basename(targetDir))), ("version", Str(InitialVersion))];
    var rest := Carry(PassThroughKeys, source);
    CarryKeys(PassThroughKeys, source);
    forall f: Field | f in head + rest
      ensures f.0 == "name" || f.0 == "version" || f.0 in PassThroughKeys
    {
      if f !in rest {
        assert f == head[0] || f == head[1];
      }
    }
  }

  /** The worked example: a template manifest without `devDependencies`,
      materialized into a directory named `myapp`. */
  lemma ManifestExample()
    ensures var source := map[
              "name" := Str("rest-setup"),
              "version" := Str("2.3.0"),
              "description" := Str("demo"),
              "main" := Str("src/index.js"),
              "scripts" := Obj([("start", Str("node src/index.js"))]),
              "dependencies" := Obj([("express", Str("^4.18.0"))]),
              "license" := Str("ISC")];
            NewManifest("/home/u/myapp", source) == [
              ("name", Str("myapp")),
              ("version", Str("1.0.0")),
              ("description", Str("demo")),
              ("main", Str("src/index.js")),
              ("scripts", Obj([("start", Str("node src/index.js"))])),
              ("dependencies", Obj([("express", Str("^4.18.0"))]))]
  {
    var source := map[
      "name" := Str("rest-setup"),
      "version" := Str("2.3.0"),
      "description" := Str("demo"),
      "main" := Str("src/index.js"),
      "scripts" := Obj([("start", Str("node src/index.js"))]),
      "dependencies" := Obj([("express", Str("^4.18.0"))]),
      "license" := Str("ISC")];
    BasenameOfJoin("/home/u", "myapp");
    assert "/home/u/myapp" == "/home/u" + [Sep] + "myapp";
    var keys := PassThroughKeys;
    assert keys[4..] == ["devDependencies"] && "devDependencies" !in source;
    assert Carry(keys[4..], source) == [];
    assert Carry(keys[3..], source) == [("dependencies", source["dependencies"])];
    assert Carry(keys[2..], source) == [("scripts", source["scripts"])] + Carry(keys[3..], source);
    assert Carry(keys[1..], source) == [("main", source["main"])] + Carry(keys[2..], source);
    assert Carry(keys, source) == [("description", source["description"])] + Carry(keys[1..], source);
  }
}
