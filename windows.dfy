/** Turning a menu hierarchy into the lines of a Windows registry script (`.reg`): a header,
    then one block of keys per entry and registry path, nested entries under `shell`
    sub-keys. The same script with `-` before its top keys removes what the first adds. */
module Windows {

  import opened Wrappers
  import opened Strings
  import opened Menu

  /** The version of the tool written in the header. */
  const Version: string := "0.1.2"

  const FirstLine: string := "Windows Registry Editor Version 5.00"
  const GeneratedLine: string := "; File auto-generated from frmb v" + Version + "."
  const SubCommandsLine: string := "\"subCommands\"=\"\""

  /** A path as written in a registry value: every backslash doubled. */
  function EscapeWindowsPath(path: string): (r: string)
    ensures HalveBackslashes(r) == Some(path)
  {
    HalveUndoesDouble(path);
    DoubleBackslashes(path)
  }

  /** The key of an entry under the key `parent`. */
  function KeyPath(parent: string, identifier: string): string
  {
    parent + "\\shell\\" + identifier
  }

  function KeyLine(prefix: string, path: string): string
  {
    "[" + prefix + path + "]"
  }

  function VerbLine(name: string): string
  {
    "\"MUIVerb\"=\"" + name + "\""
  }

  function IconLine(icon: string): string
  {
    "\"icon\"=\"" + EscapeWindowsPath(icon) + "\""
  }

  /** The default value of the command key; `quote` joins the arguments into one command line
      with the quoting rules of the Windows C runtime. */
  function CommandLine(quote: seq<string> -> string, command: seq<string>): string
  {
    "@=\"" + quote(command) + "\""
  }

  function Prefix(addKeys: bool): string
  {
    if addKeys then "" else "-"
  }

  /** The block of an entry under the key `parent`: a comment naming it when it has children,
      its key, label and icon, then either its nested entries, each after a blank line and
      always in install form, or its command key. */
  function EntryLines(quote: seq<string> -> string, entry: MenuItem, parent: string, addKeys: bool): seq<string>
    decreases entry, 1
  {
    var full := KeyPath(parent, entry.identifier);
    HeadLines(entry, full, addKeys)
    + (if entry.children != [] then [SubCommandsLine] + ChildrenLines(quote, entry.children, full)
       else [KeyLine(Prefix(addKeys), full + "\\command"), CommandLine(quote, entry.command)])
  }

  /** The first lines of the block of an entry with key `full`: the comment naming it when it
      has children, its key, its label, and its icon when it has one. */
  function HeadLines(entry: MenuItem, full: string, addKeys: bool): seq<string>
  {
    (if entry.children != [] then ["; " + entry.name] else [])
    + [KeyLine(Prefix(addKeys), full), VerbLine(entry.name)]
    + (if entry.icon.Some? then [IconLine(entry.icon.value)] else [])
  }

  function ChildrenLines(quote: seq<string> -> string, children: seq<MenuItem>, parent: string): seq<string>
    decreases children, 0
  {
    if children == [] then []
    else
      ChildrenLines(quote, children[..|children| - 1], parent) + [""]
      + EntryLines(quote, children[|children| - 1], parent, true)
  }

  /** The block of `entry` as a list of lines. */
  method GenerateRegFromEntry(quote: seq<string> -> string, entry: MenuItem, parentPath: string, addKeys: bool := true)
    returns (output: seq<string>)
    ensures output == EntryLines(quote, entry, parentPath, addKeys)
    decreases entry
  {
    var pathPrefix := if addKeys then "" else "-";
    var fullPath := parentPath + "\\shell\\" + entry.identifier;
    assert fullPath == KeyPath(parentPath, entry.identifier);
    output := GenerateHead(entry, fullPath, addKeys);
    ghost var head := output;
    if entry.children != [] {
      output := output + [SubCommandsLine];
      for i := 0 to |entry.children|
        invariant output == head + [SubCommandsLine] + ChildrenLines(quote, entry.children[..i], fullPath)
      {
        assert entry.children[..i + 1][..i] == entry.children[..i];
        output := output + [""];
        var lines := GenerateRegFromEntry(quote, entry.children[i], fullPath);
        output := output + lines;
      }
      assert entry.children[..|entry.children|] == entry.children;
    } else {
      var keyLine := "[" + pathPrefix + fullPath + "\\command]";
      assert keyLine == KeyLine(Prefix(addKeys), fullPath + "\\command");
      output := output + [keyLine, "@=\"" + quote(entry.command) + "\""];
    }
  }

  /** The first lines of the block of an entry with key `fullPath`. */
  method GenerateHead(entry: MenuItem, fullPath: string, addKeys: bool) returns (output: seq<string>)
    ensures output == HeadLines(entry, fullPath, addKeys)
  {
    var pathPrefix := if addKeys then "" else "-";
    output := [];
    if entry.children != [] {
      output := output + ["; " + entry.name];
    }
    output := output + ["[" + pathPrefix + fullPath + "]", "\"MUIVerb\"=\"" + entry.name + "\""];
    if entry.icon.Some? {
      output := output + ["\"icon\"=\"" + EscapeWindowsPath(entry.icon.value) + "\""];
    }
  }

  /** A header comment line: kept as it is when it already starts with `;`, commented out
      otherwise. */
  function CommentLine(comment: string): string
  {
    if |comment| > 0 && comment[0] == ';' then comment else "; " + comment
  }

  function Header(comments: seq<string>): seq<string>
  {
    [FirstLine, "", GeneratedLine]
    + seq(|comments|, i requires 0 <= i < |comments| => CommentLine(comments[i]))
    + [""]
  }

  /** The blocks of a root entry: one per registry path, in order, each after a blank line. */
  function RootLines(quote: seq<string> -> string, root: MenuItem, paths: seq<string>, addKeys: bool): seq<string>
    decreases |paths|
  {
    if paths == [] then []
    else
      RootLines(quote, root, paths[..|paths| - 1], addKeys) + [""]
      + EntryLines(quote, root, paths[|paths| - 1], addKeys)
  }

  function Body(quote: seq<string> -> string, roots: seq<MenuItem>, addKeys: bool): seq<string>
    decreases |roots|
  {
    if roots == [] then []
    else Body(quote, roots[..|roots| - 1], addKeys) + RootLines(quote, roots[|roots| - 1], roots[|roots| - 1].paths, addKeys)
  }

  /** The whole script: the header, then the blocks of every root entry. */
  method GenerateRegFromHierarchy(quote: seq<string> -> string, hierarchy: seq<MenuItem>, headerComments: seq<string> := [], addKeys: bool := true)
    returns (output: seq<string>)
    ensures output == Header(headerComments) + Body(quote, hierarchy, addKeys)
  {
    output := GenerateHeader(headerComments);
    ghost var head := output;
    for r := 0 to |hierarchy|
      invariant output == head + Body(quote, hierarchy[..r], addKeys)
    {
      assert hierarchy[..r + 1][..r] == hierarchy[..r];
      var blocks := GenerateRootBlocks(quote, hierarchy[r], addKeys);
      output := output + blocks;
    }
    assert hierarchy[..|hierarchy|] == hierarchy;
  }

  /** The header lines, comments in the order given. */
  method GenerateHeader(headerComments: seq<string>) returns (output: seq<string>)
    ensures output == Header(headerComments)
  {
    output := [FirstLine, "", GeneratedLine];
    for i := 0 to |headerComments|
      invariant output == [FirstLine, "", GeneratedLine]
        + seq(i, j requires 0 <= j < i => CommentLine(headerComments[j]))
    {
      var comment := headerComments[i];
      output := output + [if |comment| > 0 && comment[0] == ';' then comment else "; " + comment];
    }
    output := output + [""];
  }

  /** The blocks of one root entry, one per registry path. */
  method GenerateRootBlocks(quote: seq<string> -> string, rootEntry: MenuItem, addKeys: bool) returns (output: seq<string>)
    ensures output == RootLines(quote, rootEntry, rootEntry.paths, addKeys)
  {
    output := [];
    for p := 0 to |rootEntry.paths|
      invariant output == RootLines(quote, rootEntry, rootEntry.paths[..p], addKeys)
    {
      assert rootEntry.paths[..p + 1][..p] == rootEntry.paths[..p];
      output := output + [""];
      var lines := GenerateRegFromEntry(quote, rootEntry, rootEntry.paths[p], addKeys);
      output := output + lines;
    }
    assert rootEntry.paths[..|rootEntry.paths|] == rootEntry.paths;
  }

  /** The header: the banner, a blank line, the generator line, one comment line per header
      comment in order, and a blank line. A comment starting with `;` is kept as it is, any
      other one is commented out, so every such line is a comment. */
  lemma HeaderLayout(comments: seq<string>)
    ensures |Header(comments)| == |comments| + 4
    ensures Header(comments)[..3] == [FirstLine, "", GeneratedLine]
    ensures Header(comments)[|comments| + 3] == ""
    ensures forall i :: 0 <= i < |comments| ==>
      && |Header(comments)[3 + i]| > 0 && Header(comments)[3 + i][0] == ';'
      && (Header(comments)[3 + i] == comments[i] <==> |comments[i]| > 0 && comments[i][0] == ';')
      && (Header(comments)[3 + i] == comments[i] || Header(comments)[3 + i] == "; " + comments[i])
  {
    var h := Header(comments);
    forall i | 0 <= i < |comments|
      ensures h[3 + i] == CommentLine(comments[i])
    {
    }
    forall i | 0 <= i < |comments|
      ensures CommentLine(comments[i]) == comments[i] ==> |comments[i]| > 0 && comments[i][0] == ';'
    {
      if !(|comments[i]| > 0 && comments[i][0] == ';') {
        assert |CommentLine(comments[i])| == |comments[i]| + 2;
      }
    }
  }

  /** The block of an entry: with `h` the comment line it has when it has children and `ic`
      the icon line it has when it has an icon, its key is at `h`, its label at `h + 1`, its
      icon at `h + 2`; then either the marker of nested entries followed by their blocks, or
      the command key and the command. */
  lemma EntryLayout(quote: seq<string> -> string, entry: MenuItem, parent: string, addKeys: bool)
    ensures var lines := EntryLines(quote, entry, parent, addKeys);
      var h := if entry.children != [] then 1 else 0;
      var ic := if entry.icon.Some? then 1 else 0;
      var full := KeyPath(parent, entry.identifier);
      && |lines| >= h + ic + 4
      && (entry.children != [] ==> lines[0] == "; " + entry.name)
      && lines[h] == KeyLine(Prefix(addKeys), full)
      && lines[h + 1] == VerbLine(entry.name)
      && (entry.icon.Some? ==> lines[h + 2] == IconLine(entry.icon.value))
      && (entry.children != [] ==>
            lines[h + ic + 2] == SubCommandsLine
            && lines[h + ic + 3..] == ChildrenLines(quote, entry.children, full))
      && (entry.children == [] ==>
            lines[h + ic + 2..] == [KeyLine(Prefix(addKeys), full + "\\command"), CommandLine(quote, entry.command)])
  {
    var h := if entry.children != [] then 1 else 0;
    var ic := if entry.icon.Some? then 1 else 0;
    var full := KeyPath(parent, entry.identifier);
    if entry.children != [] {
      ChildrenNonEmpty(quote, entry.children, full);
    }
  }

  /** Every nested entry adds at least its separator and its key. */
  lemma ChildrenNonEmpty(quote: seq<string> -> string, children: seq<MenuItem>, parent: string)
    requires children != []
    ensures |ChildrenLines(quote, children, parent)| >= 2
  {
  }

  /** The removal form of a block is its installation form with `-` before the entry's own key
      and, for an entry without children, before its command key; the blocks of nested
      entries are the same in both forms. */
  lemma UninstallMarksOnlyTopKeys(quote: seq<string> -> string, entry: MenuItem, parent: string)
    ensures var install := EntryLines(quote, entry, parent, true);
      var remove := EntryLines(quote, entry, parent, false);
      var h := if entry.children != [] then 1 else 0;
      var ic := if entry.icon.Some? then 1 else 0;
      var full := KeyPath(parent, entry.identifier);
      && |remove| == |install|
      && install[h] == KeyLine("", full)
      && (entry.children != [] ==> remove == install[h := KeyLine("-", full)])
      && (entry.children == [] ==>
            && install[h + ic + 2] == KeyLine("", full + "\\command")
            && remove == install[h := KeyLine("-", full)][h + ic + 2 := KeyLine("-", full + "\\command")])
  {
    EntryLayout(quote, entry, parent, true);
    EntryLayout(quote, entry, parent, false);
  }

  /** The keys the blocks of nested entries declare: each one's key, then its command key or
      the keys of its own nested entries. */
  function NestedKeys(children: seq<MenuItem>, parent: string): set<string>
    decreases children
  {
    if children == [] then {}
    else
      var last := children[|children| - 1];
      var full := KeyPath(parent, last.identifier);
      NestedKeys(children[..|children| - 1], parent) + {full}
      + (if last.children == [] then {full + "\\command"} else NestedKeys(last.children, full))
  }

  /** A block declares the entry's key, its command key when it has no children, and every key
      below it; the keys below are always in installation form, also in a removal script. */
  lemma {:induction false} BlockDeclaresKeys(quote: seq<string> -> string, entry: MenuItem, parent: string, addKeys: bool)
    ensures var lines := EntryLines(quote, entry, parent, addKeys);
      var full := KeyPath(parent, entry.identifier);
      && KeyLine(Prefix(addKeys), full) in lines
      && (entry.children == [] ==> KeyLine(Prefix(addKeys), full + "\\command") in lines)
      && forall k :: k in NestedKeys(entry.children, full) ==> KeyLine("", k) in lines
    decreases entry, 1
  {
    var lines := EntryLines(quote, entry, parent, addKeys);
    var full := KeyPath(parent, entry.identifier);
    EntryLayout(quote, entry, parent, addKeys);
    var h := if entry.children != [] then 1 else 0;
    var ic := if entry.icon.Some? then 1 else 0;
    assert lines[h] == KeyLine(Prefix(addKeys), full);
    if entry.children == [] {
      assert lines[h + ic + 2] == KeyLine(Prefix(addKeys), full + "\\command");
    } else {
      ChildrenDeclareKeys(quote, entry.children, full);
      forall k | k in NestedKeys(entry.children, full)
        ensures KeyLine("", k) in lines
      {
        var j :| 0 <= j < |ChildrenLines(quote, entry.children, full)|
          && ChildrenLines(quote, entry.children, full)[j] == KeyLine("", k);
        assert lines[h + ic + 3 + j] == KeyLine("", k);
      }
    }
  }

  lemma {:induction false} ChildrenDeclareKeys(quote: seq<string> -> string, children: seq<MenuItem>, parent: string)
    ensures forall k :: k in NestedKeys(children, parent) ==> KeyLine("", k) in ChildrenLines(quote, children, parent)
    decreases children, 0
  {
    if children != [] {
      var init := children[..|children| - 1];
      var last := children[|children| - 1];
      var full := KeyPath(parent, last.identifier);
      var before := ChildrenLines(quote, init, parent);
      var block := EntryLines(quote, last, parent, true);
      var lines := ChildrenLines(quote, children, parent);
      assert lines == before + [""] + block;
      ChildrenDeclareKeys(quote, init, parent);
      BlockDeclaresKeys(quote, last, parent, true);
      forall k | k in NestedKeys(children, parent)
        ensures KeyLine("", k) in lines
      {
        if k in NestedKeys(init, parent) {
          var j :| 0 <= j < |before| && before[j] == KeyLine("", k);
          assert lines[j] == KeyLine("", k);
        } else {
          var j :| 0 <= j < |block| && block[j] == KeyLine("", k);
          assert lines[|before| + 1 + j] == KeyLine("", k);
        }
      }
    }
  }

  /** How many lines a block has does not depend on where it is put nor on the form. */
  lemma {:induction false} EntryLengthIndependent(quote: seq<string> -> string, entry: MenuItem, p1: string, p2: string, a1: bool, a2: bool)
    ensures |EntryLines(quote, entry, p1, a1)| == |EntryLines(quote, entry, p2, a2)|
    decreases entry, 1
  {
    ChildrenLengthIndependent(quote, entry.children, KeyPath(p1, entry.identifier), KeyPath(p2, entry.identifier));
  }

  lemma {:induction false} ChildrenLengthIndependent(quote: seq<string> -> string, children: seq<MenuItem>, p1: string, p2: string)
    ensures |ChildrenLines(quote, children, p1)| == |ChildrenLines(quote, children, p2)|
    decreases children, 0
  {
    if children != [] {
      ChildrenLengthIndependent(quote, children[..|children| - 1], p1, p2);
      EntryLengthIndependent(quote, children[|children| - 1], p1, p2, true, true);
    }
  }

  /** A root entry gets one block per registry path, in the order of its paths: the `j`-th
      block is a blank line followed by the entry's block under the `j`-th path. */
  lemma RootBlocks(quote: seq<string> -> string, root: MenuItem, paths: seq<string>, addKeys: bool, j: nat)
    requires j < |paths|
    ensures var size := 1 + |EntryLines(quote, root, "", addKeys)|;
      var lines := RootLines(quote, root, paths, addKeys);
      && |lines| == |paths| * size
      && j * size <= (j + 1) * size <= |lines|
      && lines[j * size..(j + 1) * size] == [""] + EntryLines(quote, root, paths[j], addKeys)
  {
    var size := 1 + |EntryLines(quote, root, "", addKeys)|;
    var f := p => [""] + EntryLines(quote, root, p, addKeys);
    forall p ensures |f(p)| == size {
      EntryLengthIndependent(quote, root, p, "", addKeys, addKeys);
    }
    RootLinesIsStack(quote, root, paths, addKeys);
    assert (j + 1) * size == j * size + size;
    StackLength(f, paths, size);
    StackBlock(f, paths, size, j);
  }

  /** The blocks `f(p)` of the paths `p`, one after the other. */
  function Stack<T>(f: string -> seq<T>, paths: seq<string>): seq<T>
    decreases |paths|
  {
    if paths == [] then [] else Stack(f, paths[..|paths| - 1]) + f(paths[|paths| - 1])
  }

  lemma {:induction false} RootLinesIsStack(quote: seq<string> -> string, root: MenuItem, paths: seq<string>, addKeys: bool)
    ensures RootLines(quote, root, paths, addKeys) == Stack(p => [""] + EntryLines(quote, root, p, addKeys), paths)
    decreases |paths|
  {
    if paths != [] {
      RootLinesIsStack(quote, root, paths[..|paths| - 1], addKeys);
    }
  }

  lemma {:induction false} StackLength<T>(f: string -> seq<T>, paths: seq<string>, size: nat)
    requires forall p :: |f(p)| == size
    ensures |Stack(f, paths)| == |paths| * size
    decreases |paths|
  {
    if paths != [] {
      var n := |paths| - 1;
      StackLength(f, paths[..n], size);
      assert |paths| * size == n * size + size;
    }
  }

  lemma {:induction false} StackBlock<T>(f: string -> seq<T>, paths: seq<string>, size: nat, j: nat)
    requires forall p :: |f(p)| == size
    requires j < |paths|
    ensures (j + 1) * size <= |Stack(f, paths)|
    ensures Stack(f, paths)[j * size..(j + 1) * size] == f(paths[j])
    decreases |paths|
  {
    var n := |paths| - 1;
    var init := paths[..n];
    StackLength(f, init, size);
    if j < n {
      StackBlock(f, init, size, j);
      assert paths[j] == init[j];
    }
    SliceOfAppend(Stack(f, init), f(paths[n]), n, size, j);
  }

  /** Cutting `size`-line blocks out of `n` such blocks followed by one more. */
  lemma SliceOfAppend<T>(before: seq<T>, block: seq<T>, n: nat, size: nat, j: nat)
    requires |before| == n * size && |block| == size && j <= n
    ensures |before + block| == (n + 1) * size
    ensures (j + 1) * size <= |before + block|
    ensures j < n ==> (before + block)[j * size..(j + 1) * size] == before[j * size..(j + 1) * size]
    ensures j == n ==> (before + block)[j * size..(j + 1) * size] == block
  {
    assert (n + 1) * size == n * size + size;
    assert (j + 1) * size == j * size + size;
    if j < n {
      assert (j + 1) * size <= n * size by {
        assert j + 1 <= n;
        MultiplyMonotone(j + 1, n, size);
      }
    } else {
      assert j * size == |before|;
    }
  }

  lemma MultiplyMonotone(a: nat, b: nat, c: nat)
    requires a <= b
    ensures a * c <= b * c
  {
    assert b * c == a * c + (b - a) * c;
  }

  /** A root entry adds no line exactly when it has no registry path. */
  lemma RootLinesEmpty(quote: seq<string> -> string, root: MenuItem, paths: seq<string>, addKeys: bool)
    ensures RootLines(quote, root, paths, addKeys) == [] <==> paths == []
  {
    if paths != [] {
      var lines := RootLines(quote, root, paths, addKeys);
      var before := RootLines(quote, root, paths[..|paths| - 1], addKeys);
      assert lines[|before|] == "";
    }
  }

  /** The body of a script is empty exactly when no root entry has a registry path. */
  lemma {:induction false} BodyEmptyWithoutPaths(quote: seq<string> -> string, roots: seq<MenuItem>, addKeys: bool)
    ensures Body(quote, roots, addKeys) == [] <==> forall i :: 0 <= i < |roots| ==> roots[i].paths == []
    decreases |roots|
  {
    if roots != [] {
      var n := |roots| - 1;
      var init := roots[..n];
      BodyEmptyWithoutPaths(quote, init, addKeys);
      RootLinesEmpty(quote, roots[n], roots[n].paths, addKeys);
      assert Body(quote, roots, addKeys) == Body(quote, init, addKeys) + RootLines(quote, roots[n], roots[n].paths, addKeys);
      assert forall i :: 0 <= i < n ==> roots[i] == init[i];
    }
  }
}
