/** The menu-item value: one entry of the context menu with its nested entries. It has no
    notion of the disk it was read from; two entries are equal exactly when all their
    fields are, children included. */
module Menu {

  import opened Wrappers
  import opened Strings

  /** A context-menu entry. Dafny datatype values are immutable and compared field by field,
      as the frozen record of the tool is; `enabled` is true unless given. A changed entry is a
      new value (`item.(icon := …)`). */
  datatype MenuItem = MenuItem(
    name: string,
    identifier: string,
    icon: Option<string>,
    command: seq<string>,
    paths: seq<string>,
    children: seq<MenuItem>,
    enabled: bool := true)

  /** Equality written out field by field, children compared in order with the same rule. */
  predicate SameItem(a: MenuItem, b: MenuItem)
    decreases a
  {
    && a.name == b.name
    && a.identifier == b.identifier
    && a.icon == b.icon
    && a.command == b.command
    && a.paths == b.paths
    && a.enabled == b.enabled
    && SameChildren(a.children, b.children)
  }

  predicate SameChildren(xs: seq<MenuItem>, ys: seq<MenuItem>)
    decreases xs
  {
    |xs| == |ys| && forall i :: 0 <= i < |xs| ==> SameItem(xs[i], ys[i])
  }

  /** Two entries are equal exactly when their fields are equal, children compared recursively
      and in order. */
  lemma {:induction false} SameItemIsEquality(a: MenuItem, b: MenuItem)
    ensures SameItem(a, b) <==> a == b
    decreases a
  {
    SameChildrenIsEquality(a.children, b.children);
  }

  lemma {:induction false} SameChildrenIsEquality(xs: seq<MenuItem>, ys: seq<MenuItem>)
    ensures SameChildren(xs, ys) <==> xs == ys
    decreases xs
  {
    if |xs| == |ys| {
      forall i | 0 <= i < |xs| ensures SameItem(xs[i], ys[i]) <==> xs[i] == ys[i] {
        SameItemIsEquality(xs[i], ys[i]);
      }
      if xs != ys {
        var i :| 0 <= i < |xs| && xs[i] != ys[i];
      }
    }
  }

  const ChildrenTail: string := " children>"

  /** The text an entry is shown as in messages: `<Class "name": N children>`, where `Class` is
      the name of the entry's class and `N` its number of direct children. */
  function Describe(item: MenuItem, className: string): (r: string)
    ensures ("<" + className + " \"" + item.name + "\": ") <= r
    ensures |r| > |ChildrenTail| && r[|r| - |ChildrenTail|..] == ChildrenTail
    ensures var head := "<" + className + " \"" + item.name + "\": ";
      && |head| < |r| - |ChildrenTail|
      && AllDigits(r[|head|..|r| - |ChildrenTail|])
      && ParseNat(r[|head|..|r| - |ChildrenTail|]) == |item.children|
  {
    var head := "<" + className + " \"" + item.name + "\": ";
    var count := NatToString(|item.children|);
    var r := head + count + ChildrenTail;
    NatToStringRoundTrip(|item.children|);
    assert r[..|head|] == head;
    assert r[|r| - |ChildrenTail|..] == ChildrenTail;
    assert r[|head|..|r| - |ChildrenTail|] == count;
    r
  }

  /** The description gives back the entry's name and its number of children: the count is the
      run of digits before the fixed tail, and the name is what precedes `": `. */
  lemma DescribeDetermines(a: MenuItem, b: MenuItem, className: string)
    requires Describe(a, className) == Describe(b, className)
    ensures a.name == b.name && |a.children| == |b.children|
  {
    var na, nb := NatToString(|a.children|), NatToString(|b.children|);
    NatToStringRoundTrip(|a.children|);
    NatToStringRoundTrip(|b.children|);
    var ha := "<" + className + " \"" + a.name + "\": ";
    var hb := "<" + className + " \"" + b.name + "\": ";
    var s := Describe(a, className);
    assert s == ha + na + ChildrenTail;
    assert s == hb + nb + ChildrenTail;
    var u := s[..|s| - |ChildrenTail|];
    assert u == ha + na;
    assert u == hb + nb;
    SpaceThenDigits(ha, na);
    SpaceThenDigits(hb, nb);
    assert u[|ha| - 1] == ' ' && u[|hb| - 1] == ' ';
    assert |ha| == |hb|;
    assert na == u[|u| - |na|..] == nb;
    NatToStringInjective(|a.children|, |b.children|);
    assert ha == hb;
    var k := |"<" + className + " \""|;
    assert a.name == ha[k..|ha| - 3] == hb[k..|hb| - 3] == b.name;
  }

  /** In a head ending with a space followed by digits, that space is the last one. */
  lemma SpaceThenDigits(h: string, d: string)
    requires |h| >= 1 && h[|h| - 1] == ' ' && AllDigits(d)
    ensures (h + d)[|h| - 1] == ' '
    ensures forall k :: |h| <= k < |h| + |d| ==> (h + d)[k] != ' '
  {
    forall k | |h| <= k < |h| + |d| ensures (h + d)[k] != ' ' {
      assert (h + d)[k] == d[k - |h|];
      assert IsDigit(d[k - |h|]);
    }
  }
}
