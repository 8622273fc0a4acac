/** The template copy of the scaffolding tool (bin/cli.js, `copyDir` and `copy`) over an
    abstract directory tree. A directory maps entry names to nodes; a file holds its
    content. */
module FileTree {
  import opened Wrappers

  /** A parsed `package.json`: its `name` field and the rest of its top-level fields. */
  datatype Manifest = Manifest(name: Option<string>, otherFields: map<string, string>)

  /** File content: the bytes of a file, or, for a file whose text parses as a JSON
      object with the fields of a manifest, that object. */
  datatype Content = Bytes(data: seq<bv8>) | Package(manifest: Manifest)

  datatype Node = File(content: Content) | Dir(children: map<string, Node>)

  /** The filesystem failures the tool does not catch. */
  datatype FsError =
    | AlreadyExists      // EEXIST: creating a directory where a file is
    | IsADirectory       // EISDIR: writing a file where a directory is
    | NotADirectory      // ENOTDIR: a path goes through a file
    | DirectoryNotEmpty  // ENOTEMPTY: renaming over a non-empty directory
    | NotFound           // ENOENT
    | ParseError         // JSON.parse on a file that is not a manifest

  /** The entries of an existing directory; nothing for a file or a missing entry. */
  function Entries(n: Option<Node>): map<string, Node>
  {
    if n.Some? && n.value.Dir? then n.value.children else map[]
  }

  function Get(m: map<string, Node>, name: string): Option<Node>
  {
    if name in m then Some(m[name]) else None
  }

  /** The node reached from `n` by following `path`, if any. */
  function Lookup(n: Node, path: seq<string>): Option<Node>
  {
    if path == [] then Some(n)
    else match n
      case File(_) => None
      case Dir(cs) => if path[0] in cs then Lookup(cs[path[0]], path[1..]) else None
  }

  /** Copying `src` onto `dest` fails somewhere: a file meets an existing directory, or a
      directory meets an existing file. */
  predicate Conflicts(dest: Option<Node>, src: Node)
    decreases src
  {
    match src
    case File(_) => dest.Some? && dest.value.Dir?
    case Dir(cs) =>
      || (dest.Some? && dest.value.File?)
      || exists name | name in cs :: Conflicts(Get(Entries(dest), name), cs[name])
  }

  /** What `dest` becomes when `src` is copied onto it without conflict: files of `src`
      replace what was there, directories are merged, and entries `src` does not name are
      kept. */
  function Overlay(dest: Option<Node>, src: Node): Node
    decreases src
  {
    match src
    case File(c) => File(c)
    case Dir(cs) =>
      var base := Entries(dest);
      Dir(map name | name in base.Keys + cs.Keys ::
            if name in cs then Overlay(Get(base, name), cs[name]) else base[name])
  }

  /** `copy(src, dest)`: a directory is copied by `copyDir`, a file by `copyFileSync`,
      which replaces an existing file and fails on an existing directory. */
  method Copy(src: Node, dest: Option<Node>) returns (r: Result<Node, FsError>)
    ensures r.Success? <==> !Conflicts(dest, src)
    ensures r.Success? ==> r.value == Overlay(dest, src)
    decreases src, 1
  {
    if src.Dir? {
      r := CopyDir(src, dest);
    } else if dest.Some? && dest.value.Dir? {
      r := Failure(IsADirectory);
    } else {
      r := Success(src);
    }
  }

  /** `copyDir(src, dest)`: `mkdirSync(dest, { recursive: true })`, which fails on an
      existing file and keeps an existing directory, then a copy of every entry of `src`
      in whatever order `readdirSync` lists them; the first failure ends the copy. */
  method CopyDir(src: Node, dest: Option<Node>) returns (r: Result<Node, FsError>)
    requires src.Dir?
    ensures r.Success? <==> !Conflicts(dest, src)
    ensures r.Success? ==> r.value == Overlay(dest, src)
    decreases src, 0
  {
    if dest.Some? && dest.value.File? {
      return Failure(AlreadyExists);
    }
    var base := Entries(dest);
    var entries := base;
    var pending := src.children.Keys;
    while pending != {}
      invariant pending <= src.children.Keys
      invariant entries.Keys == base.Keys + (src.children.Keys - pending)
      invariant forall name | name in src.children && name !in pending ::
                  !Conflicts(Get(base, name), src.children[name])
                  && entries[name] == Overlay(Get(base, name), src.children[name])
      invariant forall name | name in base && (name !in src.children || name in pending) ::
                  entries[name] == base[name]
      decreases pending
    {
      var name :| name in pending;
      assert Get(entries, name) == Get(base, name);
      var copied := Copy(src.children[name], Get(entries, name));
      if copied.Failure? {
        assert Conflicts(Get(Entries(dest), name), src.children[name]);
        return copied;
      }
      entries := entries[name := copied.value];
      pending := pending - {name};
    }
    var merged := Overlay(dest, src).children;
    assert entries.Keys == merged.Keys;
    assert forall name | name in entries :: entries[name] == merged[name];
    r := Success(Dir(entries));
  }

  /** Copying into a place where nothing exists never fails and reproduces the source
      exactly, content for content. */
  lemma {:induction false} CopyIntoNothing(src: Node)
    ensures !Conflicts(None, src)
    ensures Overlay(None, src) == src
  {
    match src
    case File(_) =>
    case Dir(cs) =>
      forall name | name in cs
        ensures !Conflicts(None, cs[name]) && Overlay(None, cs[name]) == cs[name]
      {
        CopyIntoNothing(cs[name]);
      }
      assert Overlay(None, src).children == cs;
  }

  /** Every file of the source is found, with the same content, at the same path of the
      copy. */
  lemma {:induction false} OverlayHasSourceFiles(dest: Option<Node>, src: Node, path: seq<string>, c: Content)
    requires !Conflicts(dest, src)
    requires Lookup(src, path) == Some(File(c))
    ensures Lookup(Overlay(dest, src), path) == Some(File(c))
    decreases path
  {
    if path != [] {
      var cs := src.children;
      var name := path[0];
      OverlayHasSourceFiles(Get(Entries(dest), name), cs[name], path[1..], c);
    }
  }

  /** Every file already at the destination that the source does not name survives the
      copy unchanged. */
  lemma {:induction false} OverlayKeepsOtherFiles(dest: Node, src: Node, path: seq<string>, c: Content)
    requires !Conflicts(Some(dest), src)
    requires Lookup(dest, path) == Some(File(c)) && Lookup(src, path) == None
    ensures Lookup(Overlay(Some(dest), src), path) == Some(File(c))
    decreases path
  {
    var name := path[0];
    var cs := src.children;
    if name in cs {
      OverlayKeepsOtherFiles(dest.children[name], cs[name], path[1..], c);
    }
  }

  /** Copying the same source a second time changes nothing. */
  lemma {:induction false} CopyTwice(dest: Option<Node>, src: Node)
    requires !Conflicts(dest, src)
    ensures !Conflicts(Some(Overlay(dest, src)), src)
    ensures Overlay(Some(Overlay(dest, src)), src) == Overlay(dest, src)
    decreases src
  {
    match src
    case File(_) =>
    case Dir(cs) =>
      var once := Overlay(dest, src);
      forall name | name in cs
        ensures Get(Entries(Some(once)), name) == Some(Overlay(Get(Entries(dest), name), cs[name]))
        ensures !Conflicts(Get(Entries(Some(once)), name), cs[name])
        ensures Overlay(Get(Entries(Some(once)), name), cs[name]) == once.children[name]
      {
        CopyTwice(Get(Entries(dest), name), cs[name]);
      }
      assert Overlay(Some(once), src).children == once.children;
  }
}
