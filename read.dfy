/** Reading a menu hierarchy from disk: the tree of record files found under a root directory,
    and the menu entries those files hold, with their tokens resolved on request. */
module Read {

  import opened Wrappers
  import opened Strings
  import opened Tokens
  import opened Menu
  import opened Files

  /** A record file found on disk, the root directory of the hierarchy it was found in, and
      the record files of its nested entries. */
  datatype FrmbFile = FrmbFile(path: Path, rootDir: Path, children: seq<FrmbFile>)
  {
    /** The file sits directly in the root directory of its hierarchy: its path is the root
        followed by one more name. */
    predicate AtRoot()
      ensures path != [] ==> (AtRoot() <==> |path| == |rootDir| + 1 && path[..|rootDir|] == rootDir)
    {
      Parent(path) == rootDir
    }
  }

  /** Why reading a record fails: the file is gone, or it does not name its entry. */
  datatype ReadError = FileNotFound(path: Path) | MissingName(path: Path)

  /** An icon field read from a record: an empty one counts as no icon. */
  function IconField(icon: Option<string>): Option<string>
  {
    if icon.Some? && icon.value != "" then icon else None
  }

  /** The entry held by the record file `path`, given the entries nested under it. The
      identifier is the file's stem; a missing command or paths field is empty, a missing
      `enabled` is true, a missing or empty icon is none, and a missing name is an error. */
  function ReadMenuItemFromFile(disk: Disk, path: Path, children: seq<MenuItem>): (r: Result<MenuItem, ReadError>)
    ensures r.Failure? <==> path !in disk.records || disk.records[path].name.None?
    ensures r.Failure? ==> r.error == if path !in disk.records then FileNotFound(path) else MissingName(path)
    ensures r.Success? ==>
      var rec := disk.records[path];
      && r.value.name == rec.name.value
      && r.value.identifier == Stem(path)
      && (r.value.icon.Some? <==> rec.icon.Some? && rec.icon.value != "")
      && (r.value.icon.Some? ==> r.value.icon == rec.icon)
      && r.value.command == (if rec.command.Some? then rec.command.value else [])
      && r.value.paths == (if rec.paths.Some? then rec.paths.value else [])
      && r.value.enabled == (rec.enabled.None? || rec.enabled.value)
      && r.value.children == children
  {
    if path !in disk.records then Failure(FileNotFound(path))
    else
      var rec := disk.records[path];
      if rec.name.None? then Failure(MissingName(path))
      else
        Success(MenuItem(
          name := rec.name.value,
          identifier := Stem(path),
          icon := IconField(rec.icon),
          command := if rec.command.Some? then rec.command.value else [],
          paths := if rec.paths.Some? then rec.paths.value else [],
          children := children,
          enabled := if rec.enabled.Some? then rec.enabled.value else true))
  }

  // The tree of record files.

  /** The directories deeper than `dir`: the loader only ever descends into one of them, so
      this set shrinks on each descent. */
  function Deeper(disk: Disk, dir: Path): set<Path>
  {
    set d | d in disk.dirs && |d| > |dir|
  }

  lemma DeeperShrinks(disk: Disk, dir: Path, stem: string)
    requires EntryDir(dir, stem) in disk.dirs
    ensures Deeper(disk, EntryDir(dir, stem)) < Deeper(disk, dir)
  {
    assert EntryDir(dir, stem) in Deeper(disk, dir);
  }

  /** The record files of `dir`, in listing order, each with the tree of the same-named
      directory beside it when there is one; every node records `root`. */
  function LoadTree(disk: Disk, dir: Path, root: Path): (r: seq<FrmbFile>)
    ensures |r| == |disk.Listing(dir)|
    ensures forall i :: 0 <= i < |r| ==> r[i] == LoadNode(disk, dir, root, disk.Listing(dir)[i])
    decreases Deeper(disk, dir), 1
  {
    LoadEntries(disk, dir, root, disk.Listing(dir))
  }

  /** One node per stem, in the order of the stems. */
  function LoadEntries(disk: Disk, dir: Path, root: Path, stems: seq<string>): (r: seq<FrmbFile>)
    ensures |r| == |stems|
    ensures forall i :: 0 <= i < |r| ==> r[i] == LoadNode(disk, dir, root, stems[i])
    decreases Deeper(disk, dir), 0, |stems|
  {
    if stems == [] then []
    else LoadEntries(disk, dir, root, stems[..|stems| - 1]) + [LoadNode(disk, dir, root, stems[|stems| - 1])]
  }

  /** The node of the record file of `stem` in `dir`: it lies in `dir`, records `root`, and
      has one child per record of the directory beside it, none when there is no such
      directory. */
  function LoadNode(disk: Disk, dir: Path, root: Path, stem: string): (r: FrmbFile)
    ensures r.path == RecordPath(dir, stem) && r.rootDir == root
    ensures Parent(r.path) == dir && Stem(r.path) == FileStem(stem)
    ensures |r.children| == if EntryDir(dir, stem) in disk.dirs then |disk.Listing(EntryDir(dir, stem))| else 0
    decreases Deeper(disk, dir), 0, 0
  {
    RecordPathParts(dir, stem);
    var sub := EntryDir(dir, stem);
    FrmbFile(
      RecordPath(dir, stem),
      root,
      if sub in disk.dirs then (DeeperShrinks(disk, dir, stem); LoadTree(disk, sub, root)) else [])
  }

  /** Walks `rootDir` and returns its record files, each with the tree of its nested record
      files; the root of the walk is handed down unchanged. */
  method ReadMenuHierarchyAsFile(disk: Disk, rootDir: Path, initialRoot: Option<Path> := None)
    returns (output: seq<FrmbFile>)
    ensures output == LoadTree(disk, rootDir, if initialRoot.Some? then initialRoot.value else rootDir)
    decreases Deeper(disk, rootDir), 1
  {
    var stems := disk.Listing(rootDir);
    var root := if initialRoot.Some? then initialRoot.value else rootDir;
    output := [];
    for i := 0 to |stems|
      invariant output == LoadEntries(disk, rootDir, root, stems[..i])
    {
      var frmbObj := ReadRecordFile(disk, rootDir, root, stems[i]);
      output := output + [frmbObj];
      LoadEntriesStep(disk, rootDir, root, stems, i);
    }
    assert stems[..|stems|] == stems;
  }

  /** Loading one more stem adds its node at the end. */
  lemma LoadEntriesStep(disk: Disk, dir: Path, root: Path, stems: seq<string>, i: nat)
    requires i < |stems|
    ensures LoadEntries(disk, dir, root, stems[..i + 1])
         == LoadEntries(disk, dir, root, stems[..i]) + [LoadNode(disk, dir, root, stems[i])]
  {
    assert stems[..i + 1][..i] == stems[..i];
  }

  /** The node of one listed record file: the tree of the directory beside it, when there is
      one, becomes its children. */
  method ReadRecordFile(disk: Disk, rootDir: Path, root: Path, stem: string) returns (frmbObj: FrmbFile)
    ensures frmbObj == LoadNode(disk, rootDir, root, stem)
    decreases Deeper(disk, rootDir), 0
  {
    var children: seq<FrmbFile> := [];
    var frmbPath := RecordPath(rootDir, stem);
    var frmbDir := Parent(frmbPath) + [Stem(frmbPath)];
    assert frmbDir == EntryDir(rootDir, stem) by {
      RecordPathParts(rootDir, stem);
    }
    if frmbDir in disk.dirs {
      DeeperShrinks(disk, rootDir, stem);
      children := ReadMenuHierarchyAsFile(disk, frmbDir, Some(root));
    }
    frmbObj := FrmbFile(frmbPath, root, children);
  }

  /** Every node of the tree sits in the directory its parent node names, and records `root`. */
  predicate Placed(nodes: seq<FrmbFile>, dir: Path, root: Path)
    decreases nodes
  {
    forall i :: 0 <= i < |nodes| ==>
      && nodes[i].rootDir == root
      && Parent(nodes[i].path) == dir
      && Placed(nodes[i].children, dir + [Stem(nodes[i].path)], root)
  }

  /** The loader puts each node in the directory it was listed in and hands the root of the
      walk to every node, however deep. */
  lemma {:induction false} LoadTreePlaced(disk: Disk, dir: Path, root: Path)
    ensures Placed(LoadTree(disk, dir, root), dir, root)
    decreases Deeper(disk, dir)
  {
    var nodes := LoadTree(disk, dir, root);
    forall i | 0 <= i < |nodes|
      ensures nodes[i].rootDir == root && Parent(nodes[i].path) == dir
      ensures Placed(nodes[i].children, dir + [Stem(nodes[i].path)], root)
    {
      var stem := disk.Listing(dir)[i];
      RecordPathParts(dir, stem);
      if EntryDir(dir, stem) in disk.dirs {
        DeeperShrinks(disk, dir, stem);
        LoadTreePlaced(disk, EntryDir(dir, stem), root);
      }
    }
  }

  /** No node of the tree is at the root of its hierarchy. */
  predicate NoneAtRoot(nodes: seq<FrmbFile>)
    decreases nodes
  {
    forall i :: 0 <= i < |nodes| ==> !nodes[i].AtRoot() && NoneAtRoot(nodes[i].children)
  }

  lemma {:induction false} DeepNodesNotAtRoot(nodes: seq<FrmbFile>, dir: Path, root: Path)
    requires Placed(nodes, dir, root) && |dir| > |root|
    ensures NoneAtRoot(nodes)
    decreases nodes
  {
    forall i | 0 <= i < |nodes| ensures !nodes[i].AtRoot() && NoneAtRoot(nodes[i].children) {
      DeepNodesNotAtRoot(nodes[i].children, dir + [Stem(nodes[i].path)], root);
    }
  }

  /** In the tree read from a root directory, every node records that directory as its root,
      the top-level nodes are at the root, and no nested node is. */
  lemma AtRootExactlyTopLevel(disk: Disk, root: Path)
    ensures forall i :: 0 <= i < |LoadTree(disk, root, root)| ==>
      && LoadTree(disk, root, root)[i].rootDir == root
      && LoadTree(disk, root, root)[i].AtRoot()
      && NoneAtRoot(LoadTree(disk, root, root)[i].children)
  {
    var nodes := LoadTree(disk, root, root);
    LoadTreePlaced(disk, root, root);
    forall i | 0 <= i < |nodes|
      ensures nodes[i].rootDir == root && nodes[i].AtRoot() && NoneAtRoot(nodes[i].children)
    {
      DeepNodesNotAtRoot(nodes[i].children, root + [Stem(nodes[i].path)], root);
    }
  }

  // Entries from record files.

  /** The tokens a record file may use: its own directory and the root of its hierarchy, with
      their backslashes doubled. */
  function ResolverFor(f: FrmbFile): (r: TokenResolver)
    ensures HalveBackslashes(r.cwd) == Some(Render(Parent(f.path)))
    ensures HalveBackslashes(r.root) == Some(Render(f.rootDir))
  {
    HalveUndoesDouble(Render(Parent(f.path)));
    HalveUndoesDouble(Render(f.rootDir));
    TokenResolver(DoubleBackslashes(Render(Parent(f.path))), DoubleBackslashes(Render(f.rootDir)))
  }

  /** An entry with the tokens of its icon and of each command argument resolved; an icon that
      resolves to nothing is dropped. */
  function ResolveItem(item: MenuItem, resolver: TokenResolver): (r: MenuItem)
    ensures r.name == item.name && r.identifier == item.identifier && r.paths == item.paths
    ensures r.enabled == item.enabled && r.children == item.children
    ensures |r.command| == |item.command|
    ensures forall i :: 0 <= i < |r.command| ==> r.command[i] == Resolution(item.command[i], resolver.Fields())
    ensures r.icon.Some? <==> item.icon.Some? && Resolution(item.icon.value, resolver.Fields()) != ""
    ensures r.icon.Some? ==> r.icon.value == Resolution(item.icon.value, resolver.Fields())
  {
    var fields := resolver.Fields();
    var icon := if item.icon.Some? then Resolution(item.icon.value, fields) else "";
    item.(
      icon := if icon != "" then Some(icon) else None,
      command := seq(|item.command|, i requires 0 <= i < |item.command| => Resolution(item.command[i], fields)))
  }

  /** The entry a record file holds, its nested entries read first and in order; the first
      failure among them, or the file's own, is the result. */
  function Content(disk: Disk, f: FrmbFile, resolve: bool): (r: Result<MenuItem, ReadError>)
    ensures f.path !in disk.records ==> r.Failure?
    ensures r.Success? ==>
      && f.path in disk.records && disk.records[f.path].name == Some(r.value.name)
      && r.value.identifier == Stem(f.path)
      && |r.value.children| == |f.children|
    decreases f, 1
  {
    match ContentAll(disk, f.children, resolve)
    case Failure(e) => Failure(e)
    case Success(children) =>
      match ReadMenuItemFromFile(disk, f.path, children)
      case Failure(e) => Failure(e)
      case Success(item) => Success(if resolve then ResolveItem(item, ResolverFor(f)) else item)
  }

  /** The entries of the files in order; the first file that fails decides the failure. */
  function ContentAll(disk: Disk, fs: seq<FrmbFile>, resolve: bool): (r: Result<seq<MenuItem>, ReadError>)
    ensures r.Success? ==>
      && |r.value| == |fs|
      && forall i :: 0 <= i < |fs| ==> r.value[i].identifier == Stem(fs[i].path)
    decreases fs, 0
  {
    if fs == [] then Success([])
    else
      match ContentAll(disk, fs[..|fs| - 1], resolve)
      case Failure(e) => Failure(e)
      case Success(items) =>
        match Content(disk, fs[|fs| - 1], resolve)
        case Failure(e) => Failure(e)
        case Success(item) => Success(items + [item])
  }

  /** Reading a list of files succeeds exactly when every file reads, and then gives one entry
      per file, in order. */
  lemma ContentAllSucceeds(disk: Disk, fs: seq<FrmbFile>, resolve: bool)
    ensures ContentAll(disk, fs, resolve).Success? <==>
      forall i :: 0 <= i < |fs| ==> Content(disk, fs[i], resolve).Success?
    ensures ContentAll(disk, fs, resolve).Success? ==>
      && |ContentAll(disk, fs, resolve).value| == |fs|
      && forall i :: 0 <= i < |fs| ==> ContentAll(disk, fs, resolve).value[i] == Content(disk, fs[i], resolve).value
  {
    ContentAllIsCollect(disk, fs, resolve);
    CollectSucceeds(Contents(disk, fs, resolve));
  }

  /** The result of reading each file on its own. */
  function Contents(disk: Disk, fs: seq<FrmbFile>, resolve: bool): (r: seq<Result<MenuItem, ReadError>>)
    ensures |r| == |fs| && forall i :: 0 <= i < |fs| ==> r[i] == Content(disk, fs[i], resolve)
  {
    seq(|fs|, i requires 0 <= i < |fs| => Content(disk, fs[i], resolve))
  }

  /** Results gathered in order; the first failure is the result. */
  function Collect(rs: seq<Result<MenuItem, ReadError>>): Result<seq<MenuItem>, ReadError>
  {
    if rs == [] then Success([])
    else
      match Collect(rs[..|rs| - 1])
      case Failure(e) => Failure(e)
      case Success(items) =>
        match rs[|rs| - 1]
        case Failure(e) => Failure(e)
        case Success(item) => Success(items + [item])
  }

  lemma {:induction false} ContentAllIsCollect(disk: Disk, fs: seq<FrmbFile>, resolve: bool)
    ensures ContentAll(disk, fs, resolve) == Collect(Contents(disk, fs, resolve))
    decreases |fs|
  {
    if fs != [] {
      var init := fs[..|fs| - 1];
      ContentAllIsCollect(disk, init, resolve);
      assert Contents(disk, fs, resolve)[..|fs| - 1] == Contents(disk, init, resolve);
    }
  }

  /** Gathering succeeds exactly when every result does, and then keeps them in order. */
  lemma {:induction false} CollectSucceeds(rs: seq<Result<MenuItem, ReadError>>)
    ensures Collect(rs).Success? <==> forall i :: 0 <= i < |rs| ==> rs[i].Success?
    ensures Collect(rs).Success? ==>
      |Collect(rs).value| == |rs| && forall i :: 0 <= i < |rs| ==> Collect(rs).value[i] == rs[i].value
    decreases |rs|
  {
    if rs != [] {
      var init := rs[..|rs| - 1];
      CollectSucceeds(init);
      assert forall k :: 0 <= k < |init| ==> rs[k] == init[k];
    }
  }

  /** A list of files that fails to read fails with the error of its first failing file. */
  lemma {:induction false} ContentAllFirstFailure(disk: Disk, fs: seq<FrmbFile>, resolve: bool)
    requires ContentAll(disk, fs, resolve).Failure?
    ensures exists i :: FirstFailure(disk, fs, resolve, i, ContentAll(disk, fs, resolve).error)
    decreases |fs|
  {
    var init, last := fs[..|fs| - 1], fs[|fs| - 1];
    var e := ContentAll(disk, fs, resolve).error;
    assert forall k :: 0 <= k < |init| ==> fs[k] == init[k];
    if ContentAll(disk, init, resolve).Failure? {
      ContentAllFirstFailure(disk, init, resolve);
      var i :| FirstFailure(disk, init, resolve, i, e);
      assert FirstFailure(disk, fs, resolve, i, e);
    } else {
      ContentAllSucceeds(disk, init, resolve);
      assert FirstFailure(disk, fs, resolve, |fs| - 1, e);
    }
  }

  /** File `i` is the first of `fs` that fails to read, and it fails with `e`. */
  predicate FirstFailure(disk: Disk, fs: seq<FrmbFile>, resolve: bool, i: int, e: ReadError)
  {
    && 0 <= i < |fs|
    && Content(disk, fs[i], resolve) == Failure(e)
    && forall j :: 0 <= j < i ==> Content(disk, fs[j], resolve).Success?
  }

  /** A file read successfully has one nested entry per nested file, each read from that file. */
  lemma ContentChildren(disk: Disk, f: FrmbFile, resolve: bool)
    requires Content(disk, f, resolve).Success?
    ensures |Content(disk, f, resolve).value.children| == |f.children|
    ensures forall i :: 0 <= i < |f.children| ==>
      Content(disk, f.children[i], resolve) == Success(Content(disk, f, resolve).value.children[i])
  {
    ContentAllSucceeds(disk, f.children, resolve);
  }

  /** The entries of the hierarchy under `rootDir`, each with its nested entries. */
  function ReadMenuHierarchy(disk: Disk, rootDir: Path, resolve: bool := true): (r: Result<seq<MenuItem>, ReadError>)
    ensures r.Success? ==>
      && |r.value| == |disk.Listing(rootDir)|
      && forall i :: 0 <= i < |r.value| ==> r.value[i].identifier == FileStem(disk.Listing(rootDir)[i])
    ensures (exists i :: 0 <= i < |disk.Listing(rootDir)| && RecordPath(rootDir, disk.Listing(rootDir)[i]) !in disk.records)
      ==> r.Failure?
  {
    var nodes := LoadTree(disk, rootDir, rootDir);
    ContentAllSucceeds(disk, nodes, resolve);
    ContentAll(disk, nodes, resolve)
  }

  /** `x` is the entry read with tokens resolved from the file `f` whose unresolved entry is
      `raw`: only the icon and the command arguments differ, at every depth. */
  predicate ResolvedFrom(x: MenuItem, raw: MenuItem, f: FrmbFile)
    decreases f
  {
    && |x.children| == |raw.children| == |f.children|
    && x == ResolveItem(raw.(children := x.children), ResolverFor(f))
    && forall i :: 0 <= i < |f.children| ==> ResolvedFrom(x.children[i], raw.children[i], f.children[i])
  }

  /** Resolving tokens neither makes reading fail nor succeed, and changes nothing but the
      icons and command arguments of the entries. */
  lemma {:induction false} ResolutionOnlyTouchesIconAndCommand(disk: Disk, f: FrmbFile)
    ensures Content(disk, f, true).Success? <==> Content(disk, f, false).Success?
    ensures Content(disk, f, true).Success? ==>
      ResolvedFrom(Content(disk, f, true).value, Content(disk, f, false).value, f)
    decreases f, 1
  {
    ResolutionOnlyTouchesAll(disk, f.children);
    ContentAllSucceeds(disk, f.children, true);
    ContentAllSucceeds(disk, f.children, false);
    var xs, raws := ContentAll(disk, f.children, true), ContentAll(disk, f.children, false);
    if xs.Success? {
      var x, raw := Content(disk, f, true), Content(disk, f, false);
      if x.Success? {
        forall i | 0 <= i < |f.children|
          ensures ResolvedFrom(x.value.children[i], raw.value.children[i], f.children[i])
        {
          ResolutionOnlyTouchesIconAndCommand(disk, f.children[i]);
        }
      }
    }
  }

  /** The same for a list of files: resolving neither makes reading fail nor succeed, and each
      entry differs from its unresolved reading only in icons and command arguments. */
  lemma {:induction false} ResolutionOnlyTouchesAll(disk: Disk, fs: seq<FrmbFile>)
    ensures ContentAll(disk, fs, true).Success? <==> ContentAll(disk, fs, false).Success?
    ensures ContentAll(disk, fs, true).Success? ==>
      && |ContentAll(disk, fs, true).value| == |ContentAll(disk, fs, false).value| == |fs|
      && forall i :: 0 <= i < |fs| ==>
        ResolvedFrom(ContentAll(disk, fs, true).value[i], ContentAll(disk, fs, false).value[i], fs[i])
    decreases fs, 0
  {
    ContentAllSucceeds(disk, fs, true);
    ContentAllSucceeds(disk, fs, false);
    forall i | 0 <= i < |fs|
      ensures Content(disk, fs[i], true).Success? <==> Content(disk, fs[i], false).Success?
      ensures Content(disk, fs[i], true).Success? ==>
        ResolvedFrom(Content(disk, fs[i], true).value, Content(disk, fs[i], false).value, fs[i])
    {
      ResolutionOnlyTouchesIconAndCommand(disk, fs[i]);
    }
  }

  /** A hierarchy read from a root directory has one entry per record file the directory
      lists, in listing order; each entry is named by its record and identified by the file's
      stem, whatever the record holds. */
  lemma ReadMenuHierarchyEntries(disk: Disk, rootDir: Path, resolve: bool)
    requires ReadMenuHierarchy(disk, rootDir, resolve).Success?
    ensures |ReadMenuHierarchy(disk, rootDir, resolve).value| == |disk.Listing(rootDir)|
    ensures forall i :: 0 <= i < |disk.Listing(rootDir)| ==>
      var item := ReadMenuHierarchy(disk, rootDir, resolve).value[i];
      var path := RecordPath(rootDir, disk.Listing(rootDir)[i]);
      && item.identifier == FileStem(disk.Listing(rootDir)[i])
      && path in disk.records
      && disk.records[path].name == Some(item.name)
  {
    var nodes := LoadTree(disk, rootDir, rootDir);
    ContentAllSucceeds(disk, nodes, resolve);
    forall i | 0 <= i < |disk.Listing(rootDir)|
      ensures var item := ReadMenuHierarchy(disk, rootDir, resolve).value[i];
        var path := RecordPath(rootDir, disk.Listing(rootDir)[i]);
        && item.identifier == FileStem(disk.Listing(rootDir)[i])
        && path in disk.records
        && disk.records[path].name == Some(item.name)
    {
      RecordPathParts(rootDir, disk.Listing(rootDir)[i]);
      var f := nodes[i];
      ContentAllSucceeds(disk, f.children, resolve);
    }
  }
}
