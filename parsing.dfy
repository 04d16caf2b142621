/** Properties of the older single-file copy of the tool, where the entry record is named
    `FrmbFormat`: the same token resolution, loading and validation as the split modules, here
    checked against the hierarchies its test suite builds by hand. */
module Parsing {

  import opened Wrappers
  import opened Strings
  import opened Menu
  import opened Validation

  /** How entries of this copy are named in messages. */
  const ClassName: string := "FrmbFormat"

  /** The hierarchy built by nesting: `Chain(depth, 0)` is the innermost entry `lowest`, and
      `Chain(depth, k + 1)` is the entry named and identified `k` whose only child is
      `Chain(depth, k)`; only the outermost entry, `Chain(depth, depth)`, has a registry
      path. */
  function Chain(depth: nat, k: nat): (r: MenuItem)
    ensures |r.children| == if k == 0 then 0 else 1
    ensures r.command == [] && r.icon.None?
    decreases k
  {
    if k == 0 then MenuItem("lowest", "", None, [], [], [])
    else MenuItem(NatToString(k - 1), NatToString(k - 1), None, [], if k - 1 < depth - 1 then [] else ["p"],
      [Chain(depth, k - 1)])
  }

  /** The messages for a one-entry level entered with counter `n`: the entry's own, with its
      children's laid over them. */
  lemma SingleEntry(entry: MenuItem, n: nat, iconIsFile: string -> bool, className: string)
    ensures var c := NextCounter(n);
      var child := Validate(entry.children, ChildStart(c), iconIsFile, className);
      Validate([entry], n, iconIsFile, className)
        == Report(OwnErrors(map[], entry, c, className) + child.errors,
                  OwnWarnings(map[], entry, iconIsFile, className) + child.warnings)
  {
    assert [entry][..0] == [];
    assert Level([entry], n, iconIsFile, className) == Step(Level([], n, iconIsFile, className), entry, iconIsFile, className);
  }

  /** The report a chain of 16 nested entries produces: one error, the depth error of the
      innermost entry, and no warning. */
  function ChainReport(className: string): Report
  {
    Report(map[Chain(16, 0) := [DepthMessage(Chain(16, 0), className)]], map[])
  }

  /** The part of a 16-deep chain below its outermost entry, entered where the walk puts it:
      the counter of `Chain(16, k)` is `17 - k`, so only the innermost entry passes 16. */
  lemma {:induction false} ChainBelow(k: nat, iconIsFile: string -> bool, className: string)
    requires k <= 15
    ensures Validate([Chain(16, k)], 16 - k, iconIsFile, className) == ChainReport(className)
    decreases k
  {
    var entry := Chain(16, k);
    SingleEntry(entry, 16 - k, iconIsFile, className);
    if k == 0 {
      assert Validate([], 17, iconIsFile, className) == Report(map[], map[]);
      var own := OwnErrors(map[], entry, 17, className);
      assert own == Add(map[], entry, DepthMessage(entry, className));
      assert [] + [DepthMessage(entry, className)] == [DepthMessage(entry, className)];
      assert own == map[entry := [DepthMessage(entry, className)]];
      assert own + map[] == own;
      assert OwnWarnings(map[], entry, iconIsFile, className) == map[];
    } else {
      ChainBelow(k - 1, iconIsFile, className);
      assert entry.children == [Chain(16, k - 1)];
    }
  }

  /** A chain of 16 nested entries below a root with a path gets exactly one error, which
      names the nesting limit, and no warning. */
  lemma ChainOfSixteen(iconIsFile: string -> bool)
    ensures var r := Validate([Chain(16, 16)], 0, iconIsFile, ClassName);
      && r == ChainReport(ClassName)
      && |r.errors| == 1 && |r.warnings| == 0
      && DepthMessage(Chain(16, 0), ClassName)[18..33] == "16 nested entry"
  {
    DepthMessageNamesLimit(Chain(16, 0), ClassName);
    var root := Chain(16, 16);
    SingleEntry(root, 0, iconIsFile, ClassName);
    ChainBelow(15, iconIsFile, ClassName);
    assert root.paths == ["p"] && root.children == [Chain(16, 15)];
    var r := ChainReport(ClassName);
    assert r.errors.Keys == {Chain(16, 0)};
  }

  lemma DepthMessageNamesLimit(entry: MenuItem, className: string)
    ensures DepthMessage(entry, className)[18..33] == "16 nested entry"
  {
    var a := "maximum number of ";
    var b := "16 nested entry";
    var rest := " reached with " + Describe(entry, className);
    assert DepthMessage(entry, className) == a + b + rest;
    Middle(a, b, rest);
  }

  lemma Middle(a: string, b: string, rest: string)
    ensures (a + b + rest)[|a|..|a| + |b|] == b
  {
  }

  /** Chains of different depths are different hierarchies, and so are two chains of the same
      depth whose outermost entries are named differently; chains built the same way are
      equal. */
  lemma ChainsCompare(m: nat, n: nat, name: string)
    requires m >= 1 && n >= 1
    ensures Chain(m, m) == Chain(n, n) <==> m == n
    ensures Chain(n, n).(name := name) == Chain(n, n) <==> name == NatToString(n - 1)
  {
    if Chain(m, m) == Chain(n, n) {
      assert NatToString(m - 1) == NatToString(n - 1);
      NatToStringInjective(m - 1, n - 1);
    }
  }
}
