/** Text operations the menu tool relies on: Python's `str.replace`, splitting and joining
    on a separator, backslash doubling, and decimal rendering of counts. */
module Strings {

  import opened Wrappers

  /** Every occurrence of `pat` in `s`, scanned from the left without overlap, replaced by
      `rep`: Python's `str.replace`, and also `re.sub` on a pattern free of metacharacters. */
  function ReplaceAll(s: string, pat: string, rep: string): string
    requires pat != []
    decreases |s|
  {
    if s == [] then []
    else if pat <= s then rep + ReplaceAll(s[|pat|..], pat, rep)
    else [s[0]] + ReplaceAll(s[1..], pat, rep)
  }

  /** The pieces of `s` between the occurrences of `sep` that `ReplaceAll` finds. */
  function Split(s: string, sep: string): (parts: seq<string>)
    requires sep != []
    ensures |parts| >= 1
    decreases |s|
  {
    if s == [] then [[]]
    else if sep <= s then [[]] + Split(s[|sep|..], sep)
    else
      var rest := Split(s[1..], sep);
      [[s[0]] + rest[0]] + rest[1..]
  }

  /** The pieces concatenated with `sep` between consecutive ones. */
  function JoinWith(sep: string, parts: seq<string>): string
    requires |parts| >= 1
    decreases |parts|
  {
    if |parts| == 1 then parts[0] else parts[0] + sep + JoinWith(sep, parts[1..])
  }

  lemma JoinWithHead(sep: string, x: string, parts: seq<string>)
    requires |parts| >= 1
    ensures JoinWith(sep, [x + parts[0]] + parts[1..]) == x + JoinWith(sep, parts)
  {
    var ps := [x + parts[0]] + parts[1..];
    if |parts| > 1 {
      assert ps[1..] == parts[1..];
    }
  }

  /** Replacing every occurrence is splitting at the occurrences and joining with the replacement. */
  lemma {:induction false} ReplaceAllIsJoin(s: string, pat: string, rep: string)
    requires pat != []
    ensures ReplaceAll(s, pat, rep) == JoinWith(rep, Split(s, pat))
    decreases |s|
  {
    if s == [] {
    } else if pat <= s {
      ReplaceAllIsJoin(s[|pat|..], pat, rep);
      var rest := Split(s[|pat|..], pat);
      assert ([[]] + rest)[1..] == rest;
    } else {
      ReplaceAllIsJoin(s[1..], pat, rep);
      JoinWithHead(rep, [s[0]], Split(s[1..], pat));
    }
  }

  /** The first piece of a split is a prefix of the text. */
  lemma {:induction false} SplitHeadIsPrefix(s: string, sep: string)
    requires sep != []
    ensures Split(s, sep)[0] <= s
    decreases |s|
  {
    if s != [] && !(sep <= s) {
      SplitHeadIsPrefix(s[1..], sep);
      assert s == [s[0]] + s[1..];
    }
  }

  /** `pat` occurs somewhere in `s`. */
  predicate Occurs(pat: string, s: string)
    decreases |s|
  {
    pat <= s || (s != [] && Occurs(pat, s[1..]))
  }

  /** An occurrence inside a prefix is an occurrence in the whole text. */
  lemma {:induction false} OccursInPrefix(pat: string, x: string, s: string)
    requires x <= s && Occurs(pat, x)
    ensures Occurs(pat, s)
    decreases |x|
  {
    if !(pat <= x) {
      assert x[1..] <= s[1..];
      OccursInPrefix(pat, x[1..], s[1..]);
    }
  }

  /** Pieces of a split hold no occurrence that the whole text does not hold. */
  lemma {:induction false} SplitPiecesAvoid(s: string, sep: string, pat: string)
    requires sep != [] && pat != [] && !Occurs(pat, s)
    ensures forall i :: 0 <= i < |Split(s, sep)| ==> !Occurs(pat, Split(s, sep)[i])
    decreases |s|
  {
    if s == [] {
    } else if sep <= s {
      if Occurs(pat, s[|sep|..]) {
        OccursInSuffix(pat, s, |sep|);
      }
      SplitPiecesAvoid(s[|sep|..], sep, pat);
      var rest := Split(s[|sep|..], sep);
      assert Split(s, sep) == [[]] + rest;
    } else {
      SplitPiecesAvoid(s[1..], sep, pat);
      var rest := Split(s[1..], sep);
      SplitHeadIsPrefix(s[1..], sep);
      var head := [s[0]] + rest[0];
      assert head <= s;
      if Occurs(pat, head) {
        OccursInPrefix(pat, head, s);
      }
      assert Split(s, sep) == [head] + rest[1..];
    }
  }

  /** An occurrence inside a suffix is an occurrence in the whole text. */
  lemma {:induction false} OccursInSuffix(pat: string, s: string, k: nat)
    requires k <= |s| && Occurs(pat, s[k..])
    ensures Occurs(pat, s)
    decreases k
  {
    if k > 0 {
      assert s[1..][k - 1..] == s[k..];
      OccursInSuffix(pat, s[1..], k - 1);
    }
  }

  /** A character absent from the text and from the replacement is absent from the result. */
  lemma {:induction false} ReplaceAllAvoids(s: string, pat: string, rep: string, c: char)
    requires pat != [] && c !in s && c !in rep
    ensures c !in ReplaceAll(s, pat, rep)
    decreases |s|
  {
    if s != [] {
      if pat <= s {
        ReplaceAllAvoids(s[|pat|..], pat, rep, c);
      } else {
        ReplaceAllAvoids(s[1..], pat, rep, c);
      }
    }
  }

  /** A text without the character `c` holds no occurrence of a pattern starting with `c`. */
  lemma {:induction false} AbsentCharNoOccurrence(s: string, pat: string)
    requires pat != [] && pat[0] !in s
    ensures !Occurs(pat, s)
    decreases |s|
  {
    if s != [] {
      assert s[0] in s;
      AbsentCharNoOccurrence(s[1..], pat);
    }
  }

  /** Replacing a pattern the text does not hold leaves the text as it is. */
  lemma {:induction false} ReplaceAllAbsent(s: string, pat: string, rep: string)
    requires pat != [] && !Occurs(pat, s)
    ensures ReplaceAll(s, pat, rep) == s
    decreases |s|
  {
    if s != [] {
      ReplaceAllAbsent(s[1..], pat, rep);
      assert [s[0]] + s[1..] == s;
    }
  }

  /** A prefix agrees with the text at each of its positions. */
  lemma PrefixAgrees(pat: string, s: string, k: nat)
    requires pat <= s && k < |pat|
    ensures pat[k] == s[k]
  {
  }

  // Stepping lemmas for following `ReplaceAll` through a concrete text.

  /** A stretch without the first character of the pattern is copied unchanged. */
  lemma {:induction false} ReplaceAllSkip(x: string, t: string, pat: string, rep: string)
    requires pat != [] && pat[0] !in x
    ensures ReplaceAll(x + t, pat, rep) == x + ReplaceAll(t, pat, rep)
    decreases |x|
  {
    if x == [] {
      assert x + t == t;
    } else {
      var s := x + t;
      assert s[1..] == x[1..] + t;
      assert x[0] in x;
      assert s[0] == x[0];
      ReplaceAllSkip(x[1..], t, pat, rep);
      assert [x[0]] + x[1..] == x;
    }
  }

  /** An occurrence at the front is replaced. */
  lemma ReplaceAllHit(t: string, pat: string, rep: string)
    requires pat != []
    ensures ReplaceAll(pat + t, pat, rep) == rep + ReplaceAll(t, pat, rep)
  {
    assert pat <= pat + t;
    assert (pat + t)[|pat|..] == t;
  }

  /** A text shorter than the pattern holds no occurrence. */
  lemma {:induction false} ReplaceAllShort(s: string, pat: string, rep: string)
    requires pat != [] && |s| < |pat|
    ensures ReplaceAll(s, pat, rep) == s
    decreases |s|
  {
    if s != [] {
      ReplaceAllShort(s[1..], pat, rep);
    }
  }

  /** A character that does not start an occurrence is copied. */
  lemma ReplaceAllMiss(c: char, t: string, pat: string, rep: string)
    requires pat != [] && !(pat <= [c] + t)
    ensures ReplaceAll([c] + t, pat, rep) == [c] + ReplaceAll(t, pat, rep)
  {
    assert ([c] + t)[1..] == t;
  }

  /** A character followed by text that departs from the pattern at position `k` is copied. */
  lemma ReplaceAllMissAt(c: char, t: string, pat: string, rep: string, k: nat)
    requires 1 <= k < |pat| && k - 1 < |t| && pat[k] != t[k - 1]
    ensures ReplaceAll([c] + t, pat, rep) == [c] + ReplaceAll(t, pat, rep)
  {
    var s := [c] + t;
    if pat <= s {
      PrefixAgrees(pat, s, k);
    }
    ReplaceAllMiss(c, t, pat, rep);
  }

  /** Python's `s.replace("\\", "\\\\")`: every backslash doubled. */
  function DoubleBackslashes(s: string): string
  {
    ReplaceAll(s, "\\", "\\\\")
  }

  /** Reading back a text in which a backslash only occurs doubled: each pair becomes one
      backslash; a lone backslash is not a text of that form. */
  function HalveBackslashes(t: string): Option<string>
    decreases |t|
  {
    if t == [] then Some([])
    else if t[0] != '\\' then
      match HalveBackslashes(t[1..])
      case Some(r) => Some([t[0]] + r)
      case None => None
    else if |t| >= 2 && t[1] == '\\' then
      match HalveBackslashes(t[2..])
      case Some(r) => Some("\\" + r)
      case None => None
    else None
  }

  /** Doubling every backslash loses nothing: halving gives the text back. */
  lemma {:induction false} HalveUndoesDouble(s: string)
    ensures HalveBackslashes(DoubleBackslashes(s)) == Some(s)
    decreases |s|
  {
    if s != [] {
      HalveUndoesDouble(s[1..]);
      assert s == [s[0]] + s[1..];
      if s[0] == '\\' {
        assert "\\" <= s;
        assert s[|"\\"|..] == s[1..];
        var t := DoubleBackslashes(s);
        assert t == "\\\\" + DoubleBackslashes(s[1..]);
        assert t[2..] == DoubleBackslashes(s[1..]);
      } else {
        ReplaceAllMiss(s[0], s[1..], "\\", "\\\\");
        var t := DoubleBackslashes(s);
        assert t[1..] == DoubleBackslashes(s[1..]);
      }
    }
  }

  predicate IsDigit(c: char)
  {
    '0' <= c <= '9'
  }

  predicate AllDigits(s: string)
  {
    forall i :: 0 <= i < |s| ==> IsDigit(s[i])
  }

  function DigitChar(d: nat): (c: char)
    requires d < 10
    ensures IsDigit(c)
  {
    ('0' as int + d) as char
  }

  /** Python's `str(n)` for a natural number. */
  function NatToString(n: nat): string
    decreases n
  {
    if n < 10 then [DigitChar(n)] else NatToString(n / 10) + [DigitChar(n % 10)]
  }

  /** The number written in decimal digits, most significant first. */
  function ParseNat(s: string): nat
    requires AllDigits(s)
    decreases |s|
  {
    if s == [] then 0
    else ParseNat(s[..|s| - 1]) * 10 + (s[|s| - 1] as int - '0' as int)
  }

  /** Decimal rendering is made of digits and reads back as the same number. */
  lemma {:induction false} NatToStringRoundTrip(n: nat)
    ensures AllDigits(NatToString(n)) && ParseNat(NatToString(n)) == n
    decreases n
  {
    if n >= 10 {
      NatToStringRoundTrip(n / 10);
      var s := NatToString(n);
      assert s[..|s| - 1] == NatToString(n / 10);
    }
  }

  /** Different numbers are rendered differently. */
  lemma NatToStringInjective(m: nat, n: nat)
    requires NatToString(m) == NatToString(n)
    ensures m == n
  {
    NatToStringRoundTrip(m);
    NatToStringRoundTrip(n);
  }
}
