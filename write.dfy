/** Writing menu entries to disk: one record file per entry in the given directory, the
    entries nested under it written the same way into a directory named after it. */
module Write {

  import opened Wrappers
  import opened Strings
  import opened Tokens
  import opened Menu
  import opened Files
  import opened Read

  /** The record written for an entry: name, command, paths and `enabled` always, the icon
      only when the entry has one. Nested entries are not part of it. */
  function ItemRecord(item: MenuItem): Record
  {
    Record(Some(item.name), item.icon, Some(item.command), Some(item.paths), Some(item.enabled))
  }

  /** The disk with the record file of `stem` in `dir` created or overwritten; a new file is
      listed after the files already there. */
  function WithRecord(disk: Disk, dir: Path, stem: string, rec: Record): Disk
  {
    var listed := disk.Listing(dir);
    disk.(
      records := disk.records[RecordPath(dir, stem) := rec],
      listing := disk.listing[dir := if stem in listed then listed else listed + [stem]])
  }

  /** The disk with the directory `dir`, which may already exist. */
  function WithDir(disk: Disk, dir: Path): Disk
  {
    disk.(dirs := disk.dirs + {dir})
  }

  /** The directory `dir` joined with the name `id`. Joining the empty name adds nothing, so
      the nested entries of an entry with the empty identifier go beside it, into `dir`. */
  function ChildDir(dir: Path, id: string): Path
  {
    if id == "" then dir else dir + [id]
  }

  /** The disk after writing `item` into `dir`: its record, then, when children are written,
      each nested entry in order into the directory named after the entry. */
  function Written(disk: Disk, item: MenuItem, dir: Path, writeChildren: bool): Disk
    decreases item, 1
  {
    var put := WithRecord(disk, dir, item.identifier, ItemRecord(item));
    if writeChildren then WrittenAll(put, item.children, ChildDir(dir, item.identifier), true, true) else put
  }

  /** The disk after writing each of `items` in turn into `dir`, creating `dir` before each
      one when `makeDir` holds. */
  function WrittenAll(disk: Disk, items: seq<MenuItem>, dir: Path, writeChildren: bool, makeDir: bool): Disk
    decreases items, 0
  {
    if items == [] then disk
    else
      var before := WrittenAll(disk, items[..|items| - 1], dir, writeChildren, makeDir);
      Written(if makeDir then WithDir(before, dir) else before, items[|items| - 1], dir, writeChildren)
  }

  /** A filesystem whose record files, directories and listings change as entries are
      written. */
  class FileSystem {
    var records: map<Path, Record>
    var dirs: set<Path>
    var listing: map<Path, seq<string>>

    function Snapshot(): Disk
      reads this
    {
      Disk(records, dirs, listing)
    }

    constructor (disk: Disk)
      ensures Snapshot() == disk
    {
      records, dirs, listing := disk.records, disk.dirs, disk.listing;
    }

    /** Creates or overwrites the record file of `stem` in `dir`. */
    method PutRecord(dir: Path, stem: string, rec: Record)
      modifies this
      ensures Snapshot() == WithRecord(old(Snapshot()), dir, stem, rec)
    {
      var listed := if dir in listing then listing[dir] else [];
      records := records[RecordPath(dir, stem) := rec];
      if stem !in listed {
        listed := listed + [stem];
      }
      listing := listing[dir := listed];
    }

    /** Creates `dir` unless it exists. */
    method MakeDir(dir: Path)
      modifies this
      ensures Snapshot() == WithDir(old(Snapshot()), dir)
    {
      dirs := dirs + {dir};
    }

    /** Writes the record of `menuItem` into the existing `directory`, overwriting it, and,
        unless told not to, the records of its nested entries below; returns the path of the
        entry's own record file. */
    method WriteMenuItemToFile(menuItem: MenuItem, directory: Path, writeChildren: bool := true)
      returns (dstPath: Path)
      requires directory in dirs
      modifies this
      ensures dstPath == RecordPath(directory, menuItem.identifier)
      ensures Snapshot() == Written(old(Snapshot()), menuItem, directory, writeChildren)
      decreases menuItem
    {
      var content := Record(Some(menuItem.name), None, Some(menuItem.command), Some(menuItem.paths), Some(menuItem.enabled));
      if menuItem.icon.Some? {
        content := content.(icon := Some(menuItem.icon.value));
      }
      dstPath := directory + [menuItem.identifier + Suffix];
      PutRecord(directory, menuItem.identifier, content);
      if !writeChildren {
        return;
      }
      ghost var start := Snapshot();
      var childDir := if menuItem.identifier == "" then directory else directory + [menuItem.identifier];
      for i := 0 to |menuItem.children|
        invariant Snapshot() == WrittenAll(start, menuItem.children[..i], childDir, true, true)
      {
        WrittenAllStep(start, menuItem.children, i, childDir);
        MakeDir(childDir);
        var childPath := WriteMenuItemToFile(menuItem.children[i], childDir);
      }
      assert menuItem.children[..|menuItem.children|] == menuItem.children;
    }
  }

  /** Writing one more nested entry: the directory is created, then the entry is written. */
  lemma WrittenAllStep(disk: Disk, items: seq<MenuItem>, i: nat, dir: Path)
    requires i < |items|
    ensures WrittenAll(disk, items[..i + 1], dir, true, true)
         == Written(WithDir(WrittenAll(disk, items[..i], dir, true, true), dir), items[i], dir, true)
  {
    assert items[..i + 1][..i] == items[..i];
  }

  // Where writing changes the disk.

  predicate StrictlyBelow(q: Path, dir: Path)
  {
    |q| > |dir| && q[..|dir|] == dir
  }

  predicate AtOrBelow(q: Path, dir: Path)
  {
    |q| >= |dir| && q[..|dir|] == dir
  }

  /** Nothing is listed in `dir` nor in any directory below it. */
  ghost predicate Clean(disk: Disk, dir: Path)
  {
    forall q :: AtOrBelow(q, dir) ==> disk.Listing(q) == []
  }

  /** From `before` to `after`, directories were only added, and records and listings changed
      only below `dir` (the listing of `dir` included). */
  ghost predicate ChangedOnlyUnder(before: Disk, after: Disk, dir: Path)
  {
    && before.dirs <= after.dirs
    && (forall q :: !StrictlyBelow(q, dir) ==> before.RecordAt(q) == after.RecordAt(q))
    && (forall q :: !AtOrBelow(q, dir) ==> before.Listing(q) == after.Listing(q))
  }

  /** From `before` to `after`, directories were only added, and the only record and listings
      that changed are the record of `id` in `dir`, the listing of `dir`, and what lies in the
      directory of `id` and below. */
  ghost predicate ChangedOnlyFor(before: Disk, after: Disk, dir: Path, id: string)
  {
    && before.dirs <= after.dirs
    && (forall q :: q != RecordPath(dir, id) && !StrictlyBelow(q, dir + [id]) ==> before.RecordAt(q) == after.RecordAt(q))
    && (forall q :: q != dir && !AtOrBelow(q, dir + [id]) ==> before.Listing(q) == after.Listing(q))
  }

  /** `before` and `after` agree on the records and listings below `dir`, and `after` has every
      directory `before` has. */
  ghost predicate SameUnder(before: Disk, after: Disk, dir: Path)
  {
    && before.dirs <= after.dirs
    && (forall q :: StrictlyBelow(q, dir) ==> before.RecordAt(q) == after.RecordAt(q))
    && (forall q :: AtOrBelow(q, dir) ==> before.Listing(q) == after.Listing(q))
  }

  /** What lies in the directory of a sibling is apart from what lies in the directory of
      another: not its record, not the listing of their parent, nothing below it. */
  lemma SiblingsApart(q: Path, dir: Path, a: string, b: string)
    requires a != b && AtOrBelow(q, dir + [a])
    ensures !AtOrBelow(q, dir + [b]) && !StrictlyBelow(q, dir + [b])
    ensures q != dir && (StrictlyBelow(q, dir + [a]) ==> q != RecordPath(dir, b))
    ensures StrictlyBelow(q, dir)
  {
    assert q[..|dir| + 1][|dir|] == a;
    assert q[..|dir|] == q[..|dir| + 1][..|dir|];
  }

  lemma ChildBelow(q: Path, dir: Path, id: string)
    requires AtOrBelow(q, dir + [id])
    ensures StrictlyBelow(q, dir) && q != dir
  {
    assert q[..|dir|] == q[..|dir| + 1][..|dir|];
  }

  lemma RecordBelow(dir: Path, id: string)
    ensures StrictlyBelow(RecordPath(dir, id), dir)
    ensures !StrictlyBelow(RecordPath(dir, id), dir + [id]) && !AtOrBelow(dir, dir + [id])
  {
    assert RecordPath(dir, id)[..|dir|] == dir;
  }

  // What a written directory holds.

  function Ids(items: seq<MenuItem>): (r: seq<string>)
    ensures |r| == |items| && forall i :: 0 <= i < |items| ==> r[i] == items[i].identifier
  {
    seq(|items|, i requires 0 <= i < |items| => items[i].identifier)
  }

  /** `dir` lists exactly the records of `items`, in order, each record holds its entry, and
      the directory of each entry holds its nested entries in the same way. */
  predicate Holds(disk: Disk, dir: Path, items: seq<MenuItem>)
    decreases items
  {
    && disk.Listing(dir) == Ids(items)
    && forall i :: 0 <= i < |items| ==> NodeHolds(disk, dir, items[i])
  }

  predicate NodeHolds(disk: Disk, dir: Path, item: MenuItem)
    decreases item
  {
    && disk.RecordAt(RecordPath(dir, item.identifier)) == Some(ItemRecord(item))
    && (item.children != [] ==> dir + [item.identifier] in disk.dirs)
    && Holds(disk, dir + [item.identifier], item.children)
  }

  /** An identifier that names one new file and one new directory when joined to a directory:
      not empty, not `.` or `..`, which the path join resolves to the directory itself or its
      parent, and without a separator, which would name a file in a directory that does not
      exist. */
  predicate PlainName(id: string)
  {
    id != "" && id != "." && id != ".." && '\\' !in id && '/' !in id
  }

  /** Entries that can be written and read back: siblings have distinct identifiers, every
      identifier is a plain name and no icon is empty, at every depth. */
  predicate WellFormed(items: seq<MenuItem>)
    decreases items
  {
    && (forall i, j :: 0 <= i < j < |items| ==> items[i].identifier != items[j].identifier)
    && forall i :: 0 <= i < |items| ==>
      && PlainName(items[i].identifier)
      && items[i].icon != Some("")
      && WellFormed(items[i].children)
  }

  /** The entries without their nested entries. */
  function Shallow(items: seq<MenuItem>): (r: seq<MenuItem>)
    ensures |r| == |items|
    ensures forall i :: 0 <= i < |items| ==> r[i] == items[i].(children := [])
  {
    seq(|items|, i requires 0 <= i < |items| => items[i].(children := []))
  }

  lemma HoldsFrame(d1: Disk, d2: Disk, dir: Path, items: seq<MenuItem>)
    requires Holds(d1, dir, items) && SameUnder(d1, d2, dir)
    ensures Holds(d2, dir, items)
    decreases items
  {
    forall i | 0 <= i < |items| ensures NodeHolds(d2, dir, items[i]) {
      RecordBelow(dir, items[i].identifier);
      var sub := dir + [items[i].identifier];
      forall q | AtOrBelow(q, sub) ensures StrictlyBelow(q, dir) && AtOrBelow(q, dir) {
        ChildBelow(q, dir, items[i].identifier);
      }
      assert SameUnder(d1, d2, sub);
      NodeFrame(d1, d2, dir, items[i]);
    }
  }

  lemma NodeFrame(d1: Disk, d2: Disk, dir: Path, item: MenuItem)
    requires NodeHolds(d1, dir, item)
    requires d1.RecordAt(RecordPath(dir, item.identifier)) == d2.RecordAt(RecordPath(dir, item.identifier))
    requires SameUnder(d1, d2, dir + [item.identifier])
    ensures NodeHolds(d2, dir, item)
    decreases item
  {
    HoldsFrame(d1, d2, dir + [item.identifier], item.children);
  }

  // Writing.

  /** Writing an entry where nothing is listed for it leaves its record and, when written, its
      nested entries in place, lists it in `dir` unless it already was, and touches nothing
      but its own record, the listing of `dir` and its own directory. */
  lemma {:induction false} WriteNode(disk: Disk, dir: Path, item: MenuItem, writeChildren: bool)
    requires Clean(disk, dir + [item.identifier])
    requires item.identifier != "" && item.icon != Some("") && WellFormed(item.children)
    ensures var after := Written(disk, item, dir, writeChildren);
      && NodeHolds(after, dir, if writeChildren then item else item.(children := []))
      && ChangedOnlyFor(disk, after, dir, item.identifier)
      && after.Listing(dir) == disk.Listing(dir) + (if item.identifier in disk.Listing(dir) then [] else [item.identifier])
      && (!writeChildren ==> after.dirs == disk.dirs)
    decreases item, 2
  {
    if writeChildren {
      WriteNodeDeep(disk, dir, item);
    } else {
      WriteNodeShallow(disk, dir, item);
    }
  }

  lemma {:induction false} WriteNodeDeep(disk: Disk, dir: Path, item: MenuItem)
    requires Clean(disk, dir + [item.identifier])
    requires item.identifier != "" && WellFormed(item.children)
    ensures var after := Written(disk, item, dir, true);
      && NodeHolds(after, dir, item)
      && ChangedOnlyFor(disk, after, dir, item.identifier)
      && after.Listing(dir) == disk.Listing(dir) + (if item.identifier in disk.Listing(dir) then [] else [item.identifier])
    decreases item, 1
  {
    var id := item.identifier;
    var sub := dir + [id];
    var put := WithRecord(disk, dir, id, ItemRecord(item));
    RecordBelow(dir, id);
    forall q | AtOrBelow(q, sub) ensures q != dir {
      ChildBelow(q, dir, id);
    }
    assert Clean(put, sub);
    WriteAllHolds(put, item.children, sub, true, true);
    var after := WrittenAll(put, item.children, sub, true, true);
    assert after.RecordAt(RecordPath(dir, id)) == Some(ItemRecord(item));
    assert after.Listing(dir) == put.Listing(dir);
  }

  lemma WriteNodeShallow(disk: Disk, dir: Path, item: MenuItem)
    requires Clean(disk, dir + [item.identifier])
    ensures var after := Written(disk, item, dir, false);
      && NodeHolds(after, dir, item.(children := []))
      && ChangedOnlyFor(disk, after, dir, item.identifier)
      && after.Listing(dir) == disk.Listing(dir) + (if item.identifier in disk.Listing(dir) then [] else [item.identifier])
      && after.dirs == disk.dirs
  {
    var id := item.identifier;
    var sub := dir + [id];
    var put := WithRecord(disk, dir, id, ItemRecord(item));
    RecordBelow(dir, id);
    forall q | AtOrBelow(q, sub) ensures q != dir {
      ChildBelow(q, dir, id);
    }
    assert Clean(put, sub);
    assert ItemRecord(item.(children := [])) == ItemRecord(item);
  }


  /** Writing entries one after the other into `dir`, where nothing is listed yet, leaves `dir`
      holding them (without their nested entries when those are not written), changes
      nothing outside `dir`, and keeps the directory of any other identifier clean. */
  lemma {:induction false} WriteAllHolds(disk: Disk, items: seq<MenuItem>, dir: Path, writeChildren: bool, makeDir: bool)
    requires Clean(disk, dir) && WellFormed(items)
    ensures var after := WrittenAll(disk, items, dir, writeChildren, makeDir);
      && Holds(after, dir, if writeChildren then items else Shallow(items))
      && ChangedOnlyUnder(disk, after, dir)
      && (makeDir && items != [] ==> dir in after.dirs)
      && (!writeChildren && !makeDir ==> after.dirs == disk.dirs)
      && forall id :: id !in Ids(items) ==> Clean(after, dir + [id])
    decreases items, 1
  {
    if items == [] {
      forall id, q | AtOrBelow(q, dir + [id]) ensures AtOrBelow(q, dir) {
        ChildBelow(q, dir, id);
      }
    } else {
      var n := |items| - 1;
      var init := items[..n];
      assert items == init + [items[n]];
      WellFormedAppend(init, items[n]);
      WriteAllHolds(disk, init, dir, writeChildren, makeDir);
      WriteAllStep(disk, WrittenAll(disk, init, dir, writeChildren, makeDir), init, items[n], dir, writeChildren, makeDir);
    }
  }

  /** One more entry written after `done`, whose identifier is not among theirs. */
  lemma {:induction false} WriteAllStep(disk: Disk, before: Disk, done: seq<MenuItem>, item: MenuItem, dir: Path, writeChildren: bool, makeDir: bool)
    requires item.identifier !in Ids(done)
    requires PlainName(item.identifier) && item.icon != Some("") && WellFormed(item.children)
    requires Holds(before, dir, if writeChildren then done else Shallow(done))
    requires ChangedOnlyUnder(disk, before, dir)
    requires makeDir && done != [] ==> dir in before.dirs
    requires !writeChildren && !makeDir ==> before.dirs == disk.dirs
    requires forall id :: id !in Ids(done) ==> Clean(before, dir + [id])
    ensures var all := done + [item];
      var after := Written(if makeDir then WithDir(before, dir) else before, item, dir, writeChildren);
      && Holds(after, dir, if writeChildren then all else Shallow(all))
      && ChangedOnlyUnder(disk, after, dir)
      && (makeDir ==> dir in after.dirs)
      && (!writeChildren && !makeDir ==> after.dirs == disk.dirs)
      && forall id :: id !in Ids(all) ==> Clean(after, dir + [id])
    decreases item, 4
  {
    var all := done + [item];
    var id := item.identifier;
    var mid := if makeDir then WithDir(before, dir) else before;
    var old_ := if writeChildren then done else Shallow(done);
    HoldsFrame(before, mid, dir, old_);
    WriteNode(mid, dir, item, writeChildren);
    var after := Written(mid, item, dir, writeChildren);
    StepHolds(mid, done, item, dir, writeChildren);
    MakeDirUnder(disk, before, dir, makeDir);
    ComposeUnder(disk, mid, after, dir, id);
    IdsAppend(done, item);
    forall other | other !in Ids(all) ensures Clean(after, dir + [other]) {
      CleanKept(mid, after, dir, id, other);
    }
  }

  /** What well-formed entries say of their last one and of the ones before it. */
  lemma WellFormedAppend(done: seq<MenuItem>, item: MenuItem)
    requires WellFormed(done + [item])
    ensures WellFormed(done) && item.identifier !in Ids(done)
    ensures PlainName(item.identifier) && item.icon != Some("") && WellFormed(item.children)
  {
    var all := done + [item];
    assert forall j :: 0 <= j < |done| ==> all[j] == done[j];
    assert all[|done|] == item;
  }

  lemma IdsAppend(done: seq<MenuItem>, item: MenuItem)
    ensures Ids(done + [item]) == Ids(done) + [item.identifier]
  {
    var all := done + [item];
    assert forall j :: 0 <= j < |done| ==> all[j] == done[j];
    assert all[|done|] == item;
  }

  /** The directory holds the entries written so far and the one written after them. */
  lemma StepHolds(mid: Disk, done: seq<MenuItem>, item: MenuItem, dir: Path, writeChildren: bool)
    requires item.identifier !in Ids(done)
    requires PlainName(item.identifier) && item.icon != Some("") && WellFormed(item.children)
    requires Holds(mid, dir, if writeChildren then done else Shallow(done))
    requires Clean(mid, dir + [item.identifier])
    ensures Holds(Written(mid, item, dir, writeChildren), dir, if writeChildren then done + [item] else Shallow(done + [item]))
    decreases item, 3
  {
    var all := done + [item];
    var n := |done|;
    var id := item.identifier;
    assert forall j :: 0 <= j < n ==> all[j] == done[j];
    var old_ := if writeChildren then done else Shallow(done);
    WriteNode(mid, dir, item, writeChildren);
    var after := Written(mid, item, dir, writeChildren);
    forall j | 0 <= j < n ensures NodeHolds(after, dir, old_[j]) {
      SiblingKept(mid, after, dir, id, old_[j]);
    }
    var now := if writeChildren then all else Shallow(all);
    assert now == old_ + [if writeChildren then item else item.(children := [])];
    IdsAppend(old_, if writeChildren then item else item.(children := []));
  }

  /** Writing one entry keeps what a sibling with another identifier holds. */
  lemma SiblingKept(before: Disk, after: Disk, dir: Path, id: string, sibling: MenuItem)
    requires ChangedOnlyFor(before, after, dir, id) && NodeHolds(before, dir, sibling)
    requires sibling.identifier != id
    ensures NodeHolds(after, dir, sibling)
  {
    var other := sibling.identifier;
    forall q | AtOrBelow(q, dir + [other])
      ensures StrictlyBelow(q, dir + [other]) ==> before.RecordAt(q) == after.RecordAt(q)
      ensures before.Listing(q) == after.Listing(q)
    {
      SiblingsApart(q, dir, other, id);
    }
    RecordPathParts(dir, other);
    RecordPathParts(dir, id);
    RecordBelow(dir, id);
    RecordBelow(dir, other);
    assert SameUnder(before, after, dir + [other]);
    NodeFrame(before, after, dir, sibling);
  }

  /** Creating `dir` is no change below it. */
  lemma MakeDirUnder(d1: Disk, d2: Disk, dir: Path, makeDir: bool)
    requires ChangedOnlyUnder(d1, d2, dir)
    ensures ChangedOnlyUnder(d1, if makeDir then WithDir(d2, dir) else d2, dir)
  {
    var d3 := if makeDir then WithDir(d2, dir) else d2;
    assert d3.records == d2.records && d3.listing == d2.listing;
    forall q ensures d2.RecordAt(q) == d3.RecordAt(q) && d2.Listing(q) == d3.Listing(q) {
    }
  }

  /** A change confined to one entry of `dir` is a change below `dir`. */
  lemma ComposeUnder(d1: Disk, d2: Disk, d3: Disk, dir: Path, id: string)
    requires ChangedOnlyUnder(d1, d2, dir) && ChangedOnlyFor(d2, d3, dir, id)
    ensures ChangedOnlyUnder(d1, d3, dir)
  {
    RecordBelow(dir, id);
    forall q | !StrictlyBelow(q, dir) ensures d2.RecordAt(q) == d3.RecordAt(q) {
      if StrictlyBelow(q, dir + [id]) {
        ChildBelow(q, dir, id);
      }
    }
    forall q | !AtOrBelow(q, dir) ensures d2.Listing(q) == d3.Listing(q) {
      if AtOrBelow(q, dir + [id]) {
        ChildBelow(q, dir, id);
      }
    }
  }

  /** A change confined to one entry of `dir` leaves the directories of the others clean. */
  lemma CleanKept(before: Disk, after: Disk, dir: Path, id: string, other: string)
    requires ChangedOnlyFor(before, after, dir, id) && Clean(before, dir + [other]) && other != id
    ensures Clean(after, dir + [other])
  {
    forall q | AtOrBelow(q, dir + [other]) ensures after.Listing(q) == [] {
      SiblingsApart(q, dir, other, id);
    }
  }

  // Reading back what was written.

  /** A directory that holds entries reads back as those entries, whatever root the walk
      started from. */
  lemma {:induction false} ReadBack(disk: Disk, dir: Path, root: Path, items: seq<MenuItem>)
    requires Holds(disk, dir, items) && WellFormed(items)
    ensures ContentAll(disk, LoadTree(disk, dir, root), false) == Success(items)
    decreases items
  {
    var nodes := LoadTree(disk, dir, root);
    ContentAllSucceeds(disk, nodes, false);
    forall i | 0 <= i < |items| ensures Content(disk, nodes[i], false) == Success(items[i]) {
      ReadBackNode(disk, dir, root, items[i]);
    }
    var r := ContentAll(disk, nodes, false);
    assert r.Success?;
    assert r.value == items;
  }

  lemma {:induction false} ReadBackNode(disk: Disk, dir: Path, root: Path, item: MenuItem)
    requires NodeHolds(disk, dir, item) && item.identifier != "" && item.icon != Some("") && WellFormed(item.children)
    ensures Content(disk, LoadNode(disk, dir, root, item.identifier), false) == Success(item)
    decreases item
  {
    var sub := dir + [item.identifier];
    var f := LoadNode(disk, dir, root, item.identifier);
    if sub in disk.dirs {
      DeeperShrinks(disk, dir, item.identifier);
      assert f.children == LoadTree(disk, sub, root);
      ReadBack(disk, sub, root, item.children);
    } else {
      assert f.children == [];
    }
    assert ContentAll(disk, f.children, false) == Success(item.children);
    RecordPathParts(dir, item.identifier);
    var r := ReadMenuItemFromFile(disk, f.path, item.children);
    assert r.Success?;
    assert r.value == item;
  }

  lemma ShallowWellFormed(items: seq<MenuItem>)
    requires WellFormed(items)
    ensures WellFormed(Shallow(items))
  {
  }

  /** Writing entries one after the other into a directory where nothing is listed, and
      reading that directory back without resolving tokens, gives the same entries; when
      nested entries are not written, it gives the entries without them and creates no
      directory, so what is read back differs from the entries as soon as one of them has
      nested entries. */
  lemma WriteThenRead(disk: Disk, dir: Path, items: seq<MenuItem>, writeChildren: bool)
    requires Clean(disk, dir) && WellFormed(items)
    ensures ReadMenuHierarchy(WrittenAll(disk, items, dir, writeChildren, false), dir, false)
         == Success(if writeChildren then items else Shallow(items))
    ensures !writeChildren ==> WrittenAll(disk, items, dir, writeChildren, false).dirs == disk.dirs
    ensures !writeChildren && (exists i :: 0 <= i < |items| && items[i].children != []) ==>
      ReadMenuHierarchy(WrittenAll(disk, items, dir, writeChildren, false), dir, false) != Success(items)
  {
    WriteAllHolds(disk, items, dir, writeChildren, false);
    ShallowWellFormed(items);
    ReadBack(WrittenAll(disk, items, dir, writeChildren, false), dir, dir,
      if writeChildren then items else Shallow(items));
    if !writeChildren && exists i :: 0 <= i < |items| && items[i].children != [] {
      var i :| 0 <= i < |items| && items[i].children != [];
      assert Shallow(items)[i] != items[i];
    }
  }

  /** Writing without children puts exactly one record, the entry's, and creates no directory:
      every other record file and every listing but that of `dir` stays as it was. */
  lemma ShallowWriteOneRecord(disk: Disk, item: MenuItem, dir: Path)
    ensures var after := Written(disk, item, dir, false);
      && after.dirs == disk.dirs
      && after.records.Keys == disk.records.Keys + {RecordPath(dir, item.identifier)}
      && after.RecordAt(RecordPath(dir, item.identifier)) == Some(ItemRecord(item))
      && (forall p :: p in disk.records && p != RecordPath(dir, item.identifier) ==> after.records[p] == disk.records[p])
      && (forall d :: d != dir ==> after.Listing(d) == disk.Listing(d))
  {
  }

  /** An entry without nested entries creates no directory, whether or not children are
      written. */
  lemma ChildlessCreatesNoDir(disk: Disk, item: MenuItem, dir: Path, writeChildren: bool)
    requires item.children == []
    ensures Written(disk, item, dir, writeChildren) == Written(disk, item, dir, false)
    ensures Written(disk, item, dir, writeChildren).dirs == disk.dirs
  {
  }

  /** Entries whose icons and command arguments hold no `@` and no `%%`, at every depth. */
  predicate TokenFree(items: seq<MenuItem>)
    decreases items
  {
    forall i :: 0 <= i < |items| ==>
      && (items[i].icon.Some? ==> '@' !in items[i].icon.value && NoDoublePercent(items[i].icon.value))
      && (forall k :: 0 <= k < |items[i].command| ==>
            '@' !in items[i].command[k] && NoDoublePercent(items[i].command[k]))
      && TokenFree(items[i].children)
  }

  /** Resolving the tokens of entries that hold none changes nothing. */
  lemma {:induction false} ResolvedTokenFree(x: MenuItem, raw: MenuItem, f: FrmbFile)
    requires ResolvedFrom(x, raw, f) && TokenFree([raw]) && WellFormed([raw])
    ensures x == raw
    decreases f
  {
    assert [raw][0] == raw;
    var fields := ResolverFor(f).Fields();
    forall i | 0 <= i < |f.children| ensures x.children[i] == raw.children[i] {
      assert [raw.children[i]][0] == raw.children[i];
      ResolvedTokenFree(x.children[i], raw.children[i], f.children[i]);
    }
    if raw.icon.Some? {
      TokenFreeUnchanged(raw.icon.value, fields);
    }
    forall k | 0 <= k < |raw.command| ensures Resolution(raw.command[k], fields) == raw.command[k] {
      TokenFreeUnchanged(raw.command[k], fields);
    }
    assert x.children == raw.children;
  }

  /** Entries whose icons and command arguments hold no token read back unchanged also when
      tokens are resolved. */
  lemma WriteThenReadResolved(disk: Disk, dir: Path, items: seq<MenuItem>)
    requires Clean(disk, dir) && WellFormed(items) && TokenFree(items)
    ensures ReadMenuHierarchy(WrittenAll(disk, items, dir, true, false), dir, true) == Success(items)
  {
    var after := WrittenAll(disk, items, dir, true, false);
    WriteThenRead(disk, dir, items, true);
    ResolvedReadsRaw(after, LoadTree(after, dir, dir), items);
  }

  /** Files that read as token-free entries read the same with tokens resolved. */
  lemma ResolvedReadsRaw(disk: Disk, nodes: seq<FrmbFile>, items: seq<MenuItem>)
    requires ContentAll(disk, nodes, false) == Success(items)
    requires WellFormed(items) && TokenFree(items)
    ensures ContentAll(disk, nodes, true) == Success(items)
  {
    ResolutionOnlyTouchesAll(disk, nodes);
    ContentAllSucceeds(disk, nodes, true);
    ContentAllSucceeds(disk, nodes, false);
    forall i | 0 <= i < |nodes| ensures Content(disk, nodes[i], true).value == items[i] {
      ResolutionOnlyTouchesIconAndCommand(disk, nodes[i]);
      SingleFree(items, i);
      ResolvedTokenFree(Content(disk, nodes[i], true).value, items[i], nodes[i]);
    }
    var r := ContentAll(disk, nodes, true);
    assert r.Success? && |r.value| == |items|;
    assert forall i :: 0 <= i < |items| ==> r.value[i] == items[i];
    assert r.value == items;
  }

  lemma SingleFree(items: seq<MenuItem>, i: nat)
    requires i < |items| && WellFormed(items) && TokenFree(items)
    ensures TokenFree([items[i]]) && WellFormed([items[i]])
  {
  }
}
