/** The scaffolding steps of bin/cli.js that act on the target directory: the
    confirmation gate before an existing directory is removed, the template copy, the
    `package.json` name patch and the dotfile renames. */
module Scaffold {
  import opened Wrappers
  import opened FileTree
  import opened PackageNames
  import PackageManagers

  const ManifestFile: string := "package.json"

  /** Template entries that cannot ship under their dotted names, and the names they get. */
  const Renames: seq<(string, string)> := [
    ("gitignore", ".gitignore"),
    ("prettierignore", ".prettierignore"),
    ("vscode", ".vscode"),
    ("claude", ".claude")
  ]

  /** The `name` of the manifest at the top of `n`, if there is one. */
  function ManifestName(n: Node): Option<string>
  {
    match Lookup(n, [ManifestFile])
    case Some(File(Package(m))) => m.name
    case _ => None
  }

  /** Lines 169-172: read `package.json` from the target, parse it, set `name`, write it
      back. Reading fails when the target or the file is missing, when the target is a
      file or the manifest a directory, and parsing fails on anything but a manifest. */
  function PatchManifest(target: Option<Node>, packageName: string): (r: Result<Node, FsError>)
    ensures r.Success? <==> target.Some? && target.value.Dir? && ManifestFile in target.value.children
                            && target.value.children[ManifestFile].File?
                            && target.value.children[ManifestFile].content.Package?
    ensures r.Success? ==> r.value.Dir? && ManifestName(r.value) == Some(packageName)
    ensures r.Success? ==> var m := target.value.children[ManifestFile].content.manifest;
                           Lookup(r.value, [ManifestFile]) == Some(File(Package(Manifest(Some(packageName), m.otherFields))))
    ensures r.Success? ==> r.value.children.Keys == target.value.children.Keys
                           && forall name | name in r.value.children && name != ManifestFile ::
                                r.value.children[name] == target.value.children[name]
  {
    if target.None? then Failure(NotFound)
    else if target.value.File? then Failure(NotADirectory)
    else
      var cs := target.value.children;
      if ManifestFile !in cs then Failure(NotFound)
      else match cs[ManifestFile]
        case Dir(_) => Failure(IsADirectory)
        case File(Bytes(_)) => Failure(ParseError)
        case File(Package(m)) =>
          var patched := Dir(cs[ManifestFile := File(Package(m.(name := Some(packageName))))]);
          assert Lookup(patched, [ManifestFile]) == Lookup(patched.children[ManifestFile], []);
          Success(patched)
  }

  /** `if (fs.existsSync(from)) fs.renameSync(from, to)` inside the target directory.
      A missing entry is skipped. A rename replaces a file or an empty directory at the new
      name, and fails when it would put a file over a directory, a directory over a file,
      or a directory over a non-empty directory. */
  function RenameEntry(entries: map<string, Node>, from: string, to: string): (r: Result<map<string, Node>, FsError>)
    ensures r.Failure? ==> from in entries && to in entries && from != to
    ensures r.Success? && from in entries && from != to ==>
              from !in r.value && to in r.value && r.value[to] == entries[from]
    ensures r.Success? ==> forall name :: name != from && name != to ==> Get(r.value, name) == Get(entries, name)
    ensures r.Success? && (from !in entries || from == to) ==> r.value == entries
  {
    if from !in entries || from == to then Success(entries)
    else
      var moving := entries[from];
      if to in entries && moving.File? && entries[to].Dir? then Failure(IsADirectory)
      else if to in entries && moving.Dir? && entries[to].File? then Failure(NotADirectory)
      else if to in entries && moving.Dir? && entries[to].Dir? && entries[to].children != map[] then Failure(DirectoryNotEmpty)
      else Success((entries - {from})[to := moving])
  }

  /** The `renames` loop: each pair in turn; the first failure ends the loop and leaves the
      renames done so far in place. */
  function RenameAll(entries: map<string, Node>, pairs: seq<(string, string)>): (r: (map<string, Node>, Outcome<FsError>))
    ensures forall name | name !in NameSet(pairs) :: Get(r.0, name) == Get(entries, name)
    decreases |pairs|
  {
    if pairs == [] then (entries, Pass)
    else match RenameEntry(entries, pairs[0].0, pairs[0].1)
      case Failure(e) => (entries, Fail(e))
      case Success(next) => RenameAll(next, pairs[1..])
  }

  /** Every name a list of renames mentions. */
  function NameSet(pairs: seq<(string, string)>): (names: set<string>)
    ensures forall i :: 0 <= i < |pairs| ==> pairs[i].0 in names && pairs[i].1 in names
  {
    if pairs == [] then {} else {pairs[0].0, pairs[0].1} + NameSet(pairs[1..])
  }

  /** No two renames share a name, and none renames an entry to itself. */
  ghost predicate NamesDistinct(pairs: seq<(string, string)>)
  {
    && (forall i :: 0 <= i < |pairs| ==> pairs[i].0 != pairs[i].1)
    && (forall i, j :: 0 <= i < j < |pairs| ==>
          pairs[i].0 != pairs[j].0 && pairs[i].0 != pairs[j].1 &&
          pairs[i].1 != pairs[j].0 && pairs[i].1 != pairs[j].1)
  }

  lemma {:induction false} NameSetExact(pairs: seq<(string, string)>, name: string)
    requires name in NameSet(pairs)
    ensures exists i :: 0 <= i < |pairs| && (pairs[i].0 == name || pairs[i].1 == name)
  {
    if name !in {pairs[0].0, pairs[0].1} {
      NameSetExact(pairs[1..], name);
      var i :| 0 <= i < |pairs[1..]| && (pairs[1..][i].0 == name || pairs[1..][i].1 == name);
      assert pairs[i + 1] == pairs[1..][i];
    }
  }

  /** Renames with distinct names are independent of one another: after them all, each
      source that existed is at its new name and gone from its old one, a missing source
      left its new name as it was, and every name not mentioned is unchanged. */
  lemma {:induction false} RenameAllEffect(entries: map<string, Node>, pairs: seq<(string, string)>, result: map<string, Node>)
    requires NamesDistinct(pairs)
    requires RenameAll(entries, pairs) == (result, Pass)
    ensures forall i :: 0 <= i < |pairs| ==> pairs[i].0 !in result
    ensures forall i :: 0 <= i < |pairs| ==>
              Get(result, pairs[i].1) == if pairs[i].0 in entries then Some(entries[pairs[i].0]) else Get(entries, pairs[i].1)
    ensures forall name | name !in NameSet(pairs) :: Get(result, name) == Get(entries, name)
    decreases |pairs|
  {
    if pairs != [] {
      var (from, to) := pairs[0];
      var next := RenameEntry(entries, from, to).value;
      var rest := pairs[1..];
      assert NamesDistinct(rest) by {
        forall i, j | 0 <= i < j < |rest| ensures
          rest[i].0 != rest[j].0 && rest[i].0 != rest[j].1 &&
          rest[i].1 != rest[j].0 && rest[i].1 != rest[j].1
        {
          assert rest[i] == pairs[i + 1] && rest[j] == pairs[j + 1];
        }
      }
      RenameAllEffect(next, rest, result);
      assert from !in NameSet(rest) && to !in NameSet(rest) by {
        if from in NameSet(rest) { NameSetExact(rest, from); }
        if to in NameSet(rest) { NameSetExact(rest, to); }
      }
      forall i | 1 <= i < |pairs|
        ensures pairs[i].0 !in result
        ensures Get(result, pairs[i].1) == if pairs[i].0 in entries then Some(entries[pairs[i].0]) else Get(entries, pairs[i].1)
      {
        assert pairs[i] == rest[i - 1];
      }
    }
  }

  /** Whether the renames fail depends on the original entries alone: they fail exactly
      when one of them, applied first, would fail. */
  lemma {:induction false} RenameAllFails(entries: map<string, Node>, pairs: seq<(string, string)>)
    requires NamesDistinct(pairs)
    ensures RenameAll(entries, pairs).1.Fail? <==>
              exists i :: 0 <= i < |pairs| && RenameEntry(entries, pairs[i].0, pairs[i].1).Failure?
    decreases |pairs|
  {
    if pairs != [] {
      var (from, to) := pairs[0];
      var first := RenameEntry(entries, from, to);
      if first.Success? {
        var rest := pairs[1..];
        assert NamesDistinct(rest) by {
          forall i, j | 0 <= i < j < |rest| ensures
            rest[i].0 != rest[j].0 && rest[i].0 != rest[j].1 &&
            rest[i].1 != rest[j].0 && rest[i].1 != rest[j].1
          {
            assert rest[i] == pairs[i + 1] && rest[j] == pairs[j + 1];
          }
        }
        RenameAllFails(first.value, rest);
        forall i | 0 <= i < |rest|
          ensures RenameEntry(first.value, rest[i].0, rest[i].1).Failure? == RenameEntry(entries, pairs[i + 1].0, pairs[i + 1].1).Failure?
        {
          assert rest[i] == pairs[i + 1];
          var (f, t) := rest[i];
          assert Get(first.value, f) == Get(entries, f) && Get(first.value, t) == Get(entries, t);
        }
      }
    }
  }

  lemma RenamesDistinct()
    ensures NamesDistinct(Renames)
  {
  }

  /** The renames never touch the manifest. */
  lemma ManifestNotRenamed()
    ensures ManifestFile !in NameSet(Renames)
  {
  }

  /** For the tool's own list: each of `gitignore`, `prettierignore`, `vscode` and
      `claude` that the target holds ends up under its dotted name; one that is missing is
      skipped; nothing else changes. When none of the dotted names is taken already, the
      renames cannot fail. */
  lemma DotfilesRenamed(entries: map<string, Node>)
    ensures (forall i :: 0 <= i < |Renames| ==> Renames[i].1 !in entries) ==> RenameAll(entries, Renames).1 == Pass
    ensures RenameAll(entries, Renames).1 == Pass ==>
              var result := RenameAll(entries, Renames).0;
              && (forall i :: 0 <= i < |Renames| ==> Renames[i].0 !in result)
              && (forall i :: 0 <= i < |Renames| && Renames[i].0 in entries ==>
                    Renames[i].1 in result && result[Renames[i].1] == entries[Renames[i].0])
              && (forall name | name !in NameSet(Renames) :: Get(result, name) == Get(entries, name))
  {
    RenamesDistinct();
    RenameAllFails(entries, Renames);
    if RenameAll(entries, Renames).1 == Pass {
      RenameAllEffect(entries, Renames, RenameAll(entries, Renames).0);
    }
  }

  /** The final state of a fresh target after the copy, the manifest patch and the
      renames, and how the run ends. */
  function Materialize(template: Node, packageName: string): (r: (Option<Node>, Outcome<FsError>))
    ensures r.0.Some?
    ensures ManifestFile !in Entries(Some(template)) ==>
              r == (Some(template), Fail(if template.Dir? then NotFound else NotADirectory))
  {
    CopyIntoNothing(template);
    var copied := Overlay(None, template);
    match PatchManifest(Some(copied), packageName)
    case Failure(e) => (Some(copied), Fail(e))
    case Success(patched) =>
      var (renamed, outcome) := RenameAll(patched.children, Renames);
      (Some(Dir(renamed)), outcome)
  }

  /** The manifest of a successfully scaffolded project carries the sanitised name, and
      every other top-level entry of the template is in place, the dotfiles under their
      dotted names. */
  lemma MaterializedProject(template: Node, packageName: string)
    requires template.Dir?
    requires Materialize(template, packageName).1 == Pass
    ensures var final := Materialize(template, packageName).0;
            && final.Some? && final.value.Dir?
            && ManifestName(final.value) == Some(packageName)
            && (forall i :: 0 <= i < |Renames| && Renames[i].0 in template.children ==>
                  Get(final.value.children, Renames[i].1) == Some(template.children[Renames[i].0]))
            && (forall name | name !in NameSet(Renames) && name != ManifestFile ::
                  Get(final.value.children, name) == Get(template.children, name))
  {
    CopyIntoNothing(template);
    var patched := PatchManifest(Some(template), packageName).value;
    DotfilesRenamed(patched.children);
    var renamed := RenameAll(patched.children, Renames).0;
    ManifestNotRenamed();
    assert Lookup(Dir(renamed), [ManifestFile]) == Lookup(renamed[ManifestFile], []);
    assert Lookup(patched, [ManifestFile]) == Lookup(patched.children[ManifestFile], []);
  }

  /** How a run ends. */
  datatype RunOutcome = Done(manager: PackageManagers.PackageManager) | Cancelled | Failed(error: FsError)

  /** The target directory: what lies at `path.resolve(process.cwd(), projectName)`,
      or nothing. */
  class Target {
    var tree: Option<Node>

    constructor (existing: Option<Node>)
      ensures tree == existing
    {
      tree := existing;
    }

    /** `fs.rmSync(targetDir, { recursive: true, force: true })` */
    method Remove()
      modifies this
      ensures tree == None
    {
      tree := None;
    }

    /** `copyDir(TEMPLATE_DIR, targetDir)` */
    method CopyTemplate(template: Node) returns (r: Outcome<FsError>)
      requires template.Dir?
      modifies this
      ensures r.Pass? <==> !Conflicts(old(tree), template)
      ensures tree == if r.Pass? then Some(Overlay(old(tree), template)) else old(tree)
    {
      var copied := CopyDir(template, tree);
      if copied.Success? {
        tree := Some(copied.value);
        r := Pass;
      } else {
        r := Fail(copied.error);
      }
    }

    /** Lines 169-172: the manifest's `name` becomes `packageName`. */
    method UpdateManifest(packageName: string) returns (r: Outcome<FsError>)
      modifies this
      ensures var spec := PatchManifest(old(tree), packageName);
              && (r.Pass? <==> spec.Success?)
              && (spec.Failure? ==> r == Fail(spec.error) && tree == old(tree))
              && (spec.Success? ==> tree == Some(spec.value))
    {
      var patched := PatchManifest(tree, packageName);
      if patched.Success? {
        tree := Some(patched.value);
        r := Pass;
      } else {
        r := Fail(patched.error);
      }
    }

    /** Lines 175-188: the `renames` loop over the top level of the target. */
    method RenameDotfiles() returns (r: Outcome<FsError>)
      modifies this
      ensures var (result, outcome) := RenameAll(Entries(old(tree)), Renames);
              && r == outcome
              && tree == if old(tree).Some? && old(tree).value.Dir? then Some(Dir(result)) else old(tree)
    {
      var entries := Entries(tree);
      r := Pass;
      for i := 0 to |Renames|
        invariant RenameAll(Entries(old(tree)), Renames) == RenameAll(entries, Renames[i..])
        invariant tree == old(tree)
        invariant !(tree.Some? && tree.value.Dir?) ==> entries == map[]
      {
        var (from, to) := Renames[i];
        if from in entries {
          var moved := RenameEntry(entries, from, to);
          if moved.Failure? {
            if tree.Some? && tree.value.Dir? {
              tree := Some(Dir(entries));
            }
            return Fail(moved.error);
          }
          entries := moved.value;
        }
        assert Renames[i..][1..] == Renames[i + 1..];
      }
      if tree.Some? && tree.value.Dir? {
        tree := Some(Dir(entries));
      }
    }

    /** Lines 105-188 without the wording of prompts and messages: an existing target is
        removed only when the user confirms; then the package manager is chosen, and a
        dismissed prompt cancels the run even though the target is already gone; then the
        template is copied, the manifest is named after the sanitised project name and the
        dotfiles are renamed. A finished run reports the chosen manager. */
    method Create(projectName: string, template: Node, overwrite: bool,
                  argv: seq<string>, userAgent: Option<string>, answer: PackageManagers.PromptAnswer)
      returns (r: RunOutcome)
      requires template.Dir?
      modifies this
      ensures old(tree).Some? && !overwrite ==> r == Cancelled && tree == old(tree)
      ensures (old(tree).None? || overwrite) && PackageManagers.Choose(argv, userAgent, answer).Cancelled? ==>
                r == Cancelled && tree == None
      ensures (old(tree).None? || overwrite) && PackageManagers.Choose(argv, userAgent, answer).Selected? ==>
                var (final, outcome) := Materialize(template, ToValidPackageName(projectName));
                && tree == final
                && r == (if outcome.Pass? then Done(PackageManagers.Choose(argv, userAgent, answer).pm) else Failed(outcome.error))
      ensures r.Done? ==> tree.Some? && ManifestName(tree.value) == Some(ToValidPackageName(projectName))
    {
      if tree.Some? {
        if !overwrite {
          return Cancelled;
        }
        Remove();
      }
      var packageName := ToValidPackageName(projectName);
      var choice := PackageManagers.Choose(argv, userAgent, answer);
      if choice.Cancelled? {
        return Cancelled;
      }
      CopyIntoNothing(template);
      var copied := CopyTemplate(template);
      var patched := UpdateManifest(packageName);
      if patched.Fail? {
        return Failed(patched.error);
      }
      var renamed := RenameDotfiles();
      r := if renamed.Pass? then Done(choice.pm) else Failed(renamed.error);
      if r.Done? {
        MaterializedProject(template, packageName);
      }
    }
  }
}
