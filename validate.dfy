/** Checking a menu hierarchy: errors and warnings collected per entry while walking the tree,
    with the nesting counter the walk keeps. */
module Validation {

  import opened Wrappers
  import opened Strings
  import opened Menu
  import opened Files

  /** Messages by entry; an entry appears once however many times it occurs. */
  type Messages = map<MenuItem, seq<string>>

  datatype Report = Report(errors: Messages, warnings: Messages)

  /** The deepest nesting counter that is not reported. */
  const MaxNested: nat := 16

  function DepthMessage(entry: MenuItem, className: string): string
  {
    "maximum number of 16 nested entry reached with " + Describe(entry, className)
  }

  function NoPathsMessage(entry: MenuItem, className: string): string
  {
    "no paths specified for root entry " + Describe(entry, className)
  }

  function BothMessage(entry: MenuItem, className: string): string
  {
    "Entry " + Describe(entry, className) + " is specifying both a command and children."
  }

  function IconMessage(icon: string): string
  {
    "icon path doesn't exist on disk: got " + icon + ", expected to be an existing file."
  }

  /** `msg` appended to the messages of `key`, which start empty. */
  function Add(m: Messages, key: MenuItem, msg: string): (r: Messages)
    ensures r.Keys == m.Keys + {key}
    ensures r[key] == (if key in m then m[key] else []) + [msg]
    ensures forall k :: k in m && k != key ==> r[k] == m[k]
  {
    m[key := (if key in m then m[key] else []) + [msg]]
  }

  /** The counter of an entry given the counter before it: unchanged at the top level (zero),
      one more than its previous sibling's below. */
  function NextCounter(n: nat): nat
  {
    if n != 0 then n + 1 else 0
  }

  /** The counter the children of an entry start from. */
  function ChildStart(c: nat): nat
  {
    if c != 0 then c else 1
  }

  /** The icon names a path (it holds a separator) and no file is there. */
  predicate IconMissing(entry: MenuItem, iconIsFile: string -> bool)
  {
    entry.icon.Some? && Occurs(Sep, entry.icon.value) && !iconIsFile(entry.icon.value)
  }

  /** The walk over one level, after some of its entries: what was collected, and the counter. */
  datatype LevelState = LevelState(report: Report, counter: nat)

  /** The walk over one level: entries in order, each checked, then its children walked from
      the counter `ChildStart` gives and their messages laid over what was collected. */
  function Level(entries: seq<MenuItem>, n: nat, iconIsFile: string -> bool, className: string): LevelState
    decreases entries, 1
  {
    if entries == [] then LevelState(Report(map[], map[]), n)
    else Step(Level(entries[..|entries| - 1], n, iconIsFile, className), entries[|entries| - 1], iconIsFile, className)
  }

  /** One entry of a level. */
  function Step(s: LevelState, entry: MenuItem, iconIsFile: string -> bool, className: string): LevelState
    decreases entry, 0
  {
    var c := NextCounter(s.counter);
    var child := Validate(entry.children, ChildStart(c), iconIsFile, className);
    LevelState(
      Report(OwnErrors(s.report.errors, entry, c, className) + child.errors,
             OwnWarnings(s.report.warnings, entry, iconIsFile, className) + child.warnings),
      c)
  }

  /** The errors and warnings of a hierarchy whose entries are walked from counter `n`. */
  function Validate(entries: seq<MenuItem>, n: nat, iconIsFile: string -> bool, className: string): Report
    decreases entries, 2
  {
    Level(entries, n, iconIsFile, className).report
  }

  /** Walks the hierarchy and returns its errors and warnings by entry. `iconIsFile` tells
      whether a file exists at a path; `className` is how entries are named in messages. */
  method ValidateMenuHierarchy(hierarchy: seq<MenuItem>, iconIsFile: string -> bool, className: string, childNumber: nat := 0)
    returns (errors: Messages, warnings: Messages)
    ensures Report(errors, warnings) == Validate(hierarchy, childNumber, iconIsFile, className)
    decreases hierarchy
  {
    errors, warnings := map[], map[];
    var counter: nat := childNumber;
    for i := 0 to |hierarchy|
      invariant LevelState(Report(errors, warnings), counter) == Level(hierarchy[..i], childNumber, iconIsFile, className)
    {
      var entry := hierarchy[i];
      assert hierarchy[..i + 1][..i] == hierarchy[..i];
      if counter != 0 {
        counter := counter + 1;
      }
      errors := CheckErrors(errors, entry, counter, className);
      warnings := CheckWarnings(warnings, entry, iconIsFile, className);
      var childErrors, childWarnings := ValidateMenuHierarchy(entry.children, iconIsFile, className, if counter != 0 then counter else 1);
      errors := errors + childErrors;
      warnings := warnings + childWarnings;
    }
    assert hierarchy[..|hierarchy|] == hierarchy;
  }

  /** The errors one entry files on its own, given its counter. */
  method CheckErrors(errors0: Messages, entry: MenuItem, counter: nat, className: string) returns (errors: Messages)
    ensures errors == OwnErrors(errors0, entry, counter, className)
  {
    errors := errors0;
    if counter > MaxNested {
      errors := Add(errors, entry, DepthMessage(entry, className));
    }
    if counter == 0 && entry.paths == [] {
      errors := Add(errors, entry, NoPathsMessage(entry, className));
    }
  }

  /** The warnings one entry files on its own. */
  method CheckWarnings(warnings0: Messages, entry: MenuItem, iconIsFile: string -> bool, className: string) returns (warnings: Messages)
    ensures warnings == OwnWarnings(warnings0, entry, iconIsFile, className)
  {
    warnings := warnings0;
    if entry.children != [] && entry.command != [] {
      warnings := Add(warnings, entry, BothMessage(entry, className));
    }
    if entry.icon.Some? && Occurs(Sep, entry.icon.value) && !iconIsFile(entry.icon.value) {
      warnings := Add(warnings, entry, IconMessage(entry.icon.value));
    }
  }

  // What the walk reports.

  /** The walk keeps a counter of zero along the top level and counts siblings one by one
      below it: after `k` entries of a level entered with `n > 0`, it stands at `n + k`. */
  lemma {:induction false} LevelCounter(entries: seq<MenuItem>, n: nat, iconIsFile: string -> bool, className: string)
    ensures Level(entries, n, iconIsFile, className).counter == if n == 0 then 0 else n + |entries|
    decreases |entries|
  {
    if entries != [] {
      LevelCounter(entries[..|entries| - 1], n, iconIsFile, className);
    }
  }

  /** The counter of the entry at index `i` of a level entered with `n`. */
  function Counter(n: nat, i: nat): nat
  {
    if n == 0 then 0 else n + i + 1
  }

  /** Every entry of the hierarchy, at any depth. */
  function Forest(entries: seq<MenuItem>): set<MenuItem>
    decreases entries, 1
  {
    (set e | e in entries) + Inside(entries)
  }

  /** Every entry nested, at any depth, under one of `entries`. */
  function Inside(entries: seq<MenuItem>): set<MenuItem>
    decreases entries, 0
  {
    if entries == [] then {}
    else Inside(entries[..|entries| - 1]) + Forest(entries[|entries| - 1].children)
  }

  lemma ForestSplit(entries: seq<MenuItem>)
    requires entries != []
    ensures Forest(entries) == Forest(entries[..|entries| - 1]) + {entries[|entries| - 1]} + Forest(entries[|entries| - 1].children)
    ensures Inside(entries) == Inside(entries[..|entries| - 1]) + Forest(entries[|entries| - 1].children)
  {
    var init := entries[..|entries| - 1];
    assert (set e | e in entries) == (set e | e in init) + {entries[|entries| - 1]};
  }

  /** The errors one entry files on its own, before its children's are laid over them. */
  function OwnErrors(e0: Messages, entry: MenuItem, c: nat, className: string): Messages
  {
    var e1 := if c > MaxNested then Add(e0, entry, DepthMessage(entry, className)) else e0;
    if c == 0 && entry.paths == [] then Add(e1, entry, NoPathsMessage(entry, className)) else e1
  }

  /** The warnings one entry files on its own. */
  function OwnWarnings(w0: Messages, entry: MenuItem, iconIsFile: string -> bool, className: string): Messages
  {
    var w1 := if entry.children != [] && entry.command != [] then Add(w0, entry, BothMessage(entry, className)) else w0;
    if IconMissing(entry, iconIsFile) then Add(w1, entry, IconMessage(entry.icon.value)) else w1
  }

  lemma OwnErrorsShape(e0: Messages, entry: MenuItem, c: nat, className: string)
    ensures OwnErrors(e0, entry, c, className).Keys == e0.Keys + (if ErrorAt(entry, c) then {entry} else {})
    ensures forall k :: k in e0 && k != entry ==> OwnErrors(e0, entry, c, className)[k] == e0[k]
    ensures entry in OwnErrors(e0, entry, c, className) ==>
      OwnErrors(e0, entry, c, className)[entry] == (if entry in e0 then e0[entry] else [])
        + (if c > MaxNested then [DepthMessage(entry, className)] else [])
        + (if c == 0 && entry.paths == [] then [NoPathsMessage(entry, className)] else [])
  {
  }

  /** An entry's own errors leave those of every other entry as they were. */
  lemma OwnErrorsElsewhere(e0: Messages, entry: MenuItem, c: nat, className: string)
    ensures forall k :: k != entry ==>
      && (k in OwnErrors(e0, entry, c, className) <==> k in e0)
      && (k in e0 ==> OwnErrors(e0, entry, c, className)[k] == e0[k])
  {
  }

  lemma OwnWarningsShape(w0: Messages, entry: MenuItem, iconIsFile: string -> bool, className: string)
    ensures OwnWarnings(w0, entry, iconIsFile, className).Keys == w0.Keys + (if WarningFor(entry, iconIsFile) then {entry} else {})
  {
  }

  /** Messages are only ever filed under entries of the hierarchy. */
  lemma {:induction false} KeysWithin(entries: seq<MenuItem>, n: nat, iconIsFile: string -> bool, className: string)
    ensures Validate(entries, n, iconIsFile, className).errors.Keys <= Forest(entries)
    ensures Validate(entries, n, iconIsFile, className).warnings.Keys <= Forest(entries)
    decreases entries
  {
    if entries != [] {
      var init, last := entries[..|entries| - 1], entries[|entries| - 1];
      KeysWithin(init, n, iconIsFile, className);
      var s0 := Level(init, n, iconIsFile, className);
      assert Level(entries, n, iconIsFile, className) == Step(s0, last, iconIsFile, className);
      OwnErrorsShape(s0.report.errors, last, NextCounter(s0.counter), className);
      OwnWarningsShape(s0.report.warnings, last, iconIsFile, className);
      KeysWithin(last.children, ChildStart(NextCounter(s0.counter)), iconIsFile, className);
      ForestSplit(entries);
    }
  }

  /** Every entry of the hierarchy, at any depth, that triggers a warning has warnings in the
      report, and no other entry has: the walk always descends into the children, and the
      right-biased merge replaces an entry's messages but never drops the entry. */
  lemma {:induction false} WarningsExactly(entries: seq<MenuItem>, n: nat, iconIsFile: string -> bool, className: string)
    ensures forall k :: k in Validate(entries, n, iconIsFile, className).warnings <==>
      k in Forest(entries) && WarningFor(k, iconIsFile)
    decreases entries
  {
    if entries != [] {
      var init, last := entries[..|entries| - 1], entries[|entries| - 1];
      var s0 := Level(init, n, iconIsFile, className);
      var c := NextCounter(s0.counter);
      WarningsExactly(init, n, iconIsFile, className);
      WarningsExactly(last.children, ChildStart(c), iconIsFile, className);
      OwnWarningsShape(s0.report.warnings, last, iconIsFile, className);
      assert Level(entries, n, iconIsFile, className) == Step(s0, last, iconIsFile, className);
      ForestSplit(entries);
    }
  }

  /** Whether the walk files an error under an entry with counter `c`. */
  predicate ErrorAt(entry: MenuItem, c: nat)
  {
    c > MaxNested || (c == 0 && entry.paths == [])
  }

  /** Whether the walk files a warning under an entry. */
  predicate WarningFor(entry: MenuItem, iconIsFile: string -> bool)
  {
    (entry.children != [] && entry.command != []) || IconMissing(entry, iconIsFile)
  }

  /** For an entry of a level that does not also occur nested under one of them: it has errors
      exactly when one of its occurrences in the level has a counter over the maximum or, on
      the top level, has no paths; it has warnings exactly when it has both children and a
      command, or an icon path with no file. */
  lemma {:induction false} LevelMessages(entries: seq<MenuItem>, n: nat, iconIsFile: string -> bool, className: string)
    ensures forall k :: k in entries && k !in Inside(entries) ==>
      && (k in Validate(entries, n, iconIsFile, className).errors <==>
            exists i :: 0 <= i < |entries| && entries[i] == k && ErrorAt(k, Counter(n, i)))
      && (k in Validate(entries, n, iconIsFile, className).warnings <==> WarningFor(k, iconIsFile))
    decreases |entries|
  {
    if entries != [] {
      var init, last := entries[..|entries| - 1], entries[|entries| - 1];
      var s0 := Level(init, n, iconIsFile, className);
      var c := NextCounter(s0.counter);
      var child := Validate(last.children, ChildStart(c), iconIsFile, className);
      var errs := OwnErrors(s0.report.errors, last, c, className);
      var warns := OwnWarnings(s0.report.warnings, last, iconIsFile, className);
      assert Level(entries, n, iconIsFile, className) == Step(s0, last, iconIsFile, className);
      var r := Validate(entries, n, iconIsFile, className);
      assert r == Report(errs + child.errors, warns + child.warnings);
      LevelMessages(init, n, iconIsFile, className);
      KeysWithin(init, n, iconIsFile, className);
      LevelCounter(init, n, iconIsFile, className);
      KeysWithin(last.children, ChildStart(c), iconIsFile, className);
      OwnErrorsShape(s0.report.errors, last, c, className);
      OwnWarningsShape(s0.report.warnings, last, iconIsFile, className);
      ForestSplit(entries);
      assert c == Counter(n, |init|);
      forall k | k in entries && k !in Inside(entries)
        ensures k in r.errors <==> exists i :: 0 <= i < |entries| && entries[i] == k && ErrorAt(k, Counter(n, i))
        ensures k in r.warnings <==> WarningFor(k, iconIsFile)
      {
        assert k !in child.errors && k !in child.warnings;
        assert k in r.errors <==> k in errs;
        assert k in r.warnings <==> k in warns;
        OccurrenceSplit(entries, k, n);
        if k in init {
          assert k !in Inside(init);
        } else {
          assert k == last;
          assert k !in Forest(init);
          assert k !in s0.report.errors && k !in s0.report.warnings;
        }
      }
    }
  }

  /** An entry occurs in a level with some counter exactly when it occurs in all but the last
      entry with that counter, or is the last entry with its counter. */
  lemma OccurrenceSplit(entries: seq<MenuItem>, k: MenuItem, n: nat)
    requires entries != []
    ensures var init := entries[..|entries| - 1];
      (exists i :: 0 <= i < |entries| && entries[i] == k && ErrorAt(k, Counter(n, i))) <==>
      ((exists i :: 0 <= i < |init| && init[i] == k && ErrorAt(k, Counter(n, i)))
        || (entries[|entries| - 1] == k && ErrorAt(k, Counter(n, |init|))))
  {
    var init := entries[..|entries| - 1];
    if exists i :: 0 <= i < |entries| && entries[i] == k && ErrorAt(k, Counter(n, i)) {
      var i :| 0 <= i < |entries| && entries[i] == k && ErrorAt(k, Counter(n, i));
      if i < |init| {
        assert init[i] == k;
      }
    }
    if exists i :: 0 <= i < |init| && init[i] == k && ErrorAt(k, Counter(n, i)) {
      var i :| 0 <= i < |init| && init[i] == k && ErrorAt(k, Counter(n, i));
      assert entries[i] == k;
    }
  }

  /** Below the top level only the depth error is ever filed, so a nested entry never gets the
      error about missing paths. */
  lemma {:induction false} NestedOnlyDepthErrors(entries: seq<MenuItem>, n: nat, iconIsFile: string -> bool, className: string)
    requires n >= 1
    ensures forall k :: k in Validate(entries, n, iconIsFile, className).errors ==>
      forall j :: 0 <= j < |Validate(entries, n, iconIsFile, className).errors[k]| ==>
        Validate(entries, n, iconIsFile, className).errors[k][j] == DepthMessage(k, className)
    decreases entries
  {
    if entries != [] {
      var init, last := entries[..|entries| - 1], entries[|entries| - 1];
      var s0 := Level(init, n, iconIsFile, className);
      NestedOnlyDepthErrors(init, n, iconIsFile, className);
      LevelCounter(init, n, iconIsFile, className);
      var c := NextCounter(s0.counter);
      var child := Validate(last.children, ChildStart(c), iconIsFile, className);
      NestedOnlyDepthErrors(last.children, ChildStart(c), iconIsFile, className);
      var errs := OwnErrors(s0.report.errors, last, c, className);
      OwnErrorsShape(s0.report.errors, last, c, className);
      assert Level(entries, n, iconIsFile, className) == Step(s0, last, iconIsFile, className);
      var r := Validate(entries, n, iconIsFile, className);
      assert r.errors == errs + child.errors;
    }
  }

  /** In the report of a whole hierarchy, an entry that is not itself a root carries only
      depth errors: whatever a nested level reports is laid over the roots' own messages
      unchanged, and no nested entry is ever told it has no paths. */
  lemma {:induction false} NestedEntriesOnlyDepthErrors(roots: seq<MenuItem>, iconIsFile: string -> bool, className: string)
    ensures forall k :: k in Validate(roots, 0, iconIsFile, className).errors && k !in roots ==>
      forall j :: 0 <= j < |Validate(roots, 0, iconIsFile, className).errors[k]| ==>
        Validate(roots, 0, iconIsFile, className).errors[k][j] == DepthMessage(k, className)
    decreases |roots|
  {
    if roots != [] {
      var init, last := roots[..|roots| - 1], roots[|roots| - 1];
      var s0 := Level(init, 0, iconIsFile, className);
      NestedEntriesOnlyDepthErrors(init, iconIsFile, className);
      LevelCounter(init, 0, iconIsFile, className);
      var child := Validate(last.children, 1, iconIsFile, className);
      NestedOnlyDepthErrors(last.children, 1, iconIsFile, className);
      var errs := OwnErrors(s0.report.errors, last, 0, className);
      OwnErrorsElsewhere(s0.report.errors, last, 0, className);
      assert Level(roots, 0, iconIsFile, className) == Step(s0, last, iconIsFile, className);
      var r := Validate(roots, 0, iconIsFile, className);
      assert r.errors == errs + child.errors;
      forall k | k in r.errors && k !in roots && k !in child.errors
        ensures k in s0.report.errors && k !in init && r.errors[k] == s0.report.errors[k]
      {
        assert k != last;
        assert forall i :: 0 <= i < |init| ==> init[i] == roots[i];
      }
    }
  }

  /** On the top level the counter stays zero: a top-level entry (not also nested somewhere)
      gets errors exactly when it has no paths, never for its depth. */
  lemma RootErrors(roots: seq<MenuItem>, iconIsFile: string -> bool, className: string)
    ensures forall k :: k in roots && k !in Inside(roots) ==>
      (k in Validate(roots, 0, iconIsFile, className).errors <==> k.paths == [])
  {
    LevelMessages(roots, 0, iconIsFile, className);
    forall k | k in roots && k !in Inside(roots)
      ensures (exists i :: 0 <= i < |roots| && roots[i] == k && ErrorAt(k, Counter(0, i))) <==> k.paths == []
    {
      var i :| 0 <= i < |roots| && roots[i] == k;
      assert ErrorAt(k, Counter(0, i)) <==> k.paths == [];
    }
  }

  /** The errors of a top-level entry (not also nested somewhere) are only the missing-paths
      message. */
  lemma {:induction false} RootMessages(roots: seq<MenuItem>, iconIsFile: string -> bool, className: string)
    ensures forall k :: k in Validate(roots, 0, iconIsFile, className).errors && k !in Inside(roots) ==>
      forall j :: 0 <= j < |Validate(roots, 0, iconIsFile, className).errors[k]| ==>
        Validate(roots, 0, iconIsFile, className).errors[k][j] == NoPathsMessage(k, className)
    decreases |roots|
  {
    if roots != [] {
      var init, last := roots[..|roots| - 1], roots[|roots| - 1];
      var s0 := Level(init, 0, iconIsFile, className);
      RootMessages(init, iconIsFile, className);
      LevelCounter(init, 0, iconIsFile, className);
      var child := Validate(last.children, 1, iconIsFile, className);
      KeysWithin(last.children, 1, iconIsFile, className);
      var errs := OwnErrors(s0.report.errors, last, 0, className);
      OwnErrorsShape(s0.report.errors, last, 0, className);
      assert Level(roots, 0, iconIsFile, className) == Step(s0, last, iconIsFile, className);
      var r := Validate(roots, 0, iconIsFile, className);
      assert r.errors == errs + child.errors;
      ForestSplit(roots);
    }
  }
}
