/** Token resolution: `@NAME` placeholders in a record's strings replaced by values, with
    `@@` standing for a literal `@`. */
module Tokens {

  import opened Wrappers
  import opened Strings

  /** What `@@` is parked as while the tokens are substituted. */
  const Sentinel: string := "%%TMP%%"

  /** `str.upper` on one character, for the ASCII letters. */
  function UpperChar(c: char): (u: char)
    ensures !('a' <= u <= 'z')
    ensures u == '%' <==> c == '%'
  {
    if 'a' <= c <= 'z' then (c as int - 32) as char else c
  }

  function Upper(s: string): (u: string)
    ensures |u| == |s|
  {
    seq(|s|, i requires 0 <= i < |s| => UpperChar(s[i]))
  }

  /** The text a token named `key` is written as in a record: `@` and the upper-cased key. */
  function Pattern(key: string): string
  {
    "@" + Upper(key)
  }

  /** A key is matched through its upper-cased form only: its pattern holds no lower-case
      letter, so lower-case `@f` never starts a match, and `foo` and `FOO` are the same token. */
  lemma PatternIsUpperCase(key: string, c: char, t: string)
    requires key != [] && 'a' <= c <= 'z'
    ensures |Pattern(key)| == |key| + 1 && Pattern(key)[0] == '@'
    ensures forall i :: 1 <= i < |Pattern(key)| ==> !('a' <= Pattern(key)[i] <= 'z')
    ensures !(Pattern(key) <= ['@', c] + t)
    ensures Pattern(key) == Pattern(Upper(key))
  {
    var p := Pattern(key);
    assert p[1] == UpperChar(key[0]);
    assert Upper(Upper(key)) == Upper(key);
  }

  /** `re.sub(pattern, template, s)` for a pattern without metacharacters and a template
      whose only escapes are doubled backslashes. */
  function ReSub(pattern: string, template: string, s: string): string
    requires pattern != [] && HalveBackslashes(template).Some?
  {
    ReplaceAll(s, pattern, HalveBackslashes(template).value)
  }

  /** One round of the substitution loop: the value's backslashes are doubled so that
      `re.sub` does not read them as escapes. */
  function SubstituteOne(s: string, token: (string, string)): string
  {
    HalveUndoesDouble(token.1);
    ReSub(Pattern(token.0), DoubleBackslashes(token.1), s)
  }

  /** A substituted value appears verbatim, backslashes included. */
  lemma SubstituteIsLiteral(s: string, token: (string, string))
    ensures SubstituteOne(s, token) == ReplaceAll(s, Pattern(token.0), token.1)
  {
    HalveUndoesDouble(token.1);
  }

  /** The tokens substituted one after the other, in the order given. */
  function SubstituteAll(s: string, tokens: seq<(string, string)>): string
    decreases |tokens|
  {
    if tokens == [] then s
    else SubstituteOne(SubstituteAll(s, tokens[..|tokens| - 1]), tokens[|tokens| - 1])
  }

  /** The whole resolution: park `@@`, substitute the tokens, restore a single `@`. */
  function Resolution(source: string, tokens: seq<(string, string)>): string
  {
    ReplaceAll(SubstituteAll(ReplaceAll(source, "@@", Sentinel), tokens), Sentinel, "@")
  }

  method ResolveTokens(source: string, tokens: seq<(string, string)>) returns (resolved: string)
    ensures resolved == Resolution(source, tokens)
  {
    resolved := ReplaceAll(source, "@@", Sentinel);
    for i := 0 to |tokens|
      invariant resolved == SubstituteAll(ReplaceAll(source, "@@", Sentinel), tokens[..i])
    {
      var (name, value) := tokens[i];
      HalveUndoesDouble(value);
      resolved := ReSub(Pattern(name), DoubleBackslashes(value), resolved);
      assert tokens[..i + 1][..i] == tokens[..i];
    }
    assert tokens[..|tokens|] == tokens;
    resolved := ReplaceAll(resolved, Sentinel, "@");
  }

  /** The tokens a record may use: its directory and the root of the hierarchy, both
      already escaped by the caller. */
  datatype TokenResolver = TokenResolver(cwd: string, root: string)
  {
    /** The resolver's fields as (token name, value) pairs, in declaration order. */
    function Fields(): seq<(string, string)>
    {
      [("CWD", cwd), ("ROOT", root)]
    }

    method Resolve(source: string) returns (r: string)
      ensures r == Resolution(source, Fields())
    {
      var fields := Fields();
      var kwargs: seq<(string, string)> := [];
      for i := 0 to |fields|
        invariant kwargs == fields[..i]
      {
        kwargs := kwargs + [fields[i]];
      }
      assert kwargs == fields;
      r := ResolveTokens(source, kwargs);
    }
  }

  // The structure of a resolution.

  predicate NoDoublePercent(s: string)
  {
    !Occurs("%%", s)
  }

  function SubstitutePieces(pieces: seq<string>, tokens: seq<(string, string)>): (r: seq<string>)
    ensures |r| == |pieces|
  {
    seq(|pieces|, i requires 0 <= i < |pieces| => SubstituteAll(pieces[i], tokens))
  }

  function ReplaceEach(pieces: seq<string>, pat: string, rep: string): (r: seq<string>)
    requires pat != []
    ensures |r| == |pieces|
  {
    seq(|pieces|, i requires 0 <= i < |pieces| => ReplaceAll(pieces[i], pat, rep))
  }

  /** The pieces between `@@` pairs, each substituted on its own, keep clear of the sentinel. */
  predicate SentinelSafe(source: string, tokens: seq<(string, string)>)
  {
    var pieces := Split(source, "@@");
    forall i :: 0 <= i < |pieces| ==> NoDoublePercent(SubstituteAll(pieces[i], tokens))
  }

  predicate KeysWithoutPercent(tokens: seq<(string, string)>)
  {
    forall j :: 0 <= j < |tokens| ==> '%' !in tokens[j].0
  }

  /** A token pattern cannot reach across a parked `@@`. */
  lemma {:induction false} ReplaceAcrossSentinel(q: string, t: string, pat: string, rep: string)
    requires pat != [] && pat[0] == '@' && '%' !in pat
    ensures ReplaceAll(q + Sentinel + t, pat, rep)
         == ReplaceAll(q, pat, rep) + Sentinel + ReplaceAll(t, pat, rep)
    decreases |q|
  {
    var s := q + Sentinel + t;
    if q == [] {
      assert s == Sentinel + t;
      ReplaceAllSkip(Sentinel, t, pat, rep);
    } else if pat <= s {
      var k: nat := |q|;
      if |pat| > k {
        PrefixAgrees(pat, s, k);
      }
      assert s[..|pat|] == q[..|pat|];
      assert pat <= q;
      assert s[|pat|..] == q[|pat|..] + Sentinel + t;
      ReplaceAcrossSentinel(q[|pat|..], t, pat, rep);
    } else {
      assert !(pat <= q);
      assert s[1..] == q[1..] + Sentinel + t;
      ReplaceAcrossSentinel(q[1..], t, pat, rep);
    }
  }

  lemma {:induction false} ReplaceDistributes(pieces: seq<string>, pat: string, rep: string)
    requires |pieces| >= 1 && pat != [] && pat[0] == '@' && '%' !in pat
    ensures ReplaceAll(JoinWith(Sentinel, pieces), pat, rep)
         == JoinWith(Sentinel, ReplaceEach(pieces, pat, rep))
    decreases |pieces|
  {
    if |pieces| > 1 {
      ReplaceAcrossSentinel(pieces[0], JoinWith(Sentinel, pieces[1..]), pat, rep);
      ReplaceDistributes(pieces[1..], pat, rep);
      assert ReplaceEach(pieces, pat, rep)[1..] == ReplaceEach(pieces[1..], pat, rep);
    }
  }

  /** Substituting the parked text is substituting each piece between parked `@@` pairs. */
  lemma {:induction false} SubstituteDistributes(pieces: seq<string>, tokens: seq<(string, string)>)
    requires |pieces| >= 1 && KeysWithoutPercent(tokens)
    ensures SubstituteAll(JoinWith(Sentinel, pieces), tokens)
         == JoinWith(Sentinel, SubstitutePieces(pieces, tokens))
    decreases |tokens|
  {
    if tokens == [] {
      assert SubstitutePieces(pieces, tokens) == pieces;
    } else {
      var init := tokens[..|tokens| - 1];
      var last := tokens[|tokens| - 1];
      assert KeysWithoutPercent(init) by {
        forall j | 0 <= j < |init| ensures '%' !in init[j].0 {
          assert init[j] == tokens[j];
        }
      }
      SubstituteDistributes(pieces, init);
      var mid := SubstitutePieces(pieces, init);
      SubstituteIsLiteral(JoinWith(Sentinel, mid), last);
      assert '%' !in Pattern(last.0);
      ReplaceDistributes(mid, Pattern(last.0), last.1);
      forall i | 0 <= i < |pieces|
        ensures ReplaceEach(mid, Pattern(last.0), last.1)[i] == SubstitutePieces(pieces, tokens)[i]
      {
        SubstituteIsLiteral(mid[i], last);
      }
      assert ReplaceEach(mid, Pattern(last.0), last.1) == SubstitutePieces(pieces, tokens);
    }
  }

  /** Restoring the sentinel after a piece free of `%%`. */
  lemma {:induction false} RestoreAfter(q: string, t: string, rep: string)
    requires NoDoublePercent(q)
    ensures ReplaceAll(q + Sentinel + t, Sentinel, rep) == q + rep + ReplaceAll(t, Sentinel, rep)
    decreases |q|
  {
    var s := q + Sentinel + t;
    if q == [] {
      assert s == Sentinel + t;
      ReplaceAllHit(t, Sentinel, rep);
    } else {
      if Sentinel <= s {
        if |q| >= 2 {
          SentinelFollowsPercents(q, t);
        } else {
          PrefixAgrees(Sentinel, s, 2);
        }
      }
      assert s[1..] == q[1..] + Sentinel + t;
      RestoreAfter(q[1..], t, rep);
    }
  }

  lemma SentinelFollowsPercents(q: string, t: string)
    requires |q| >= 2 && Sentinel <= q + Sentinel + t
    ensures "%%" <= q
  {
    var s := q + Sentinel + t;
    PrefixAgrees(Sentinel, s, 0);
    PrefixAgrees(Sentinel, s, 1);
    assert q[..2] == "%%";
  }

  /** A piece free of `%%` holds no sentinel. */
  lemma {:induction false} RestoreNothing(q: string, rep: string)
    requires NoDoublePercent(q)
    ensures ReplaceAll(q, Sentinel, rep) == q
    decreases |q|
  {
    if q != [] {
      RestoreNothing(q[1..], rep);
    }
  }

  lemma {:induction false} RestoreJoin(pieces: seq<string>, rep: string)
    requires |pieces| >= 1
    requires forall i :: 0 <= i < |pieces| ==> NoDoublePercent(pieces[i])
    ensures ReplaceAll(JoinWith(Sentinel, pieces), Sentinel, rep) == JoinWith(rep, pieces)
    decreases |pieces|
  {
    if |pieces| == 1 {
      RestoreNothing(pieces[0], rep);
    } else {
      RestoreAfter(pieces[0], JoinWith(Sentinel, pieces[1..]), rep);
      RestoreJoin(pieces[1..], rep);
    }
  }

  /** Each `@@` comes out as one literal `@` and never takes part in a token: the text
      between consecutive `@@` pairs is substituted on its own, and the pieces are joined
      with `@`. */
  lemma ResolutionStructure(source: string, tokens: seq<(string, string)>)
    requires KeysWithoutPercent(tokens) && SentinelSafe(source, tokens)
    ensures Resolution(source, tokens)
         == JoinWith("@", SubstitutePieces(Split(source, "@@"), tokens))
  {
    var pieces := Split(source, "@@");
    ReplaceAllIsJoin(source, "@@", Sentinel);
    SubstituteDistributes(pieces, tokens);
    RestoreJoin(SubstitutePieces(pieces, tokens), "@");
  }

  /** A token substitution brings in no `%` that the value does not hold. */
  lemma {:induction false} SubstituteAvoidsPercent(s: string, tokens: seq<(string, string)>)
    requires '%' !in s
    requires forall j :: 0 <= j < |tokens| ==> '%' !in tokens[j].1
    ensures '%' !in SubstituteAll(s, tokens)
    decreases |tokens|
  {
    if tokens != [] {
      var init := tokens[..|tokens| - 1];
      var last := tokens[|tokens| - 1];
      SubstituteAvoidsPercent(s, init);
      SubstituteIsLiteral(SubstituteAll(s, init), last);
      ReplaceAllAvoids(SubstituteAll(s, init), Pattern(last.0), last.1, '%');
    }
  }

  /** Texts, keys and values without `%` are always safe from the sentinel. */
  lemma PercentFreeIsSafe(source: string, tokens: seq<(string, string)>)
    requires '%' !in source
    requires forall j :: 0 <= j < |tokens| ==> '%' !in tokens[j].1
    ensures SentinelSafe(source, tokens)
  {
    var pieces := Split(source, "@@");
    AbsentCharNoOccurrence(source, "%");
    SplitPiecesAvoid(source, "@@", "%");
    forall i | 0 <= i < |pieces|
      ensures NoDoublePercent(SubstituteAll(pieces[i], tokens))
    {
      assert !Occurs("%", pieces[i]);
      if '%' in pieces[i] {
        PercentOccurs(pieces[i]);
      }
      SubstituteAvoidsPercent(pieces[i], tokens);
      AbsentCharNoOccurrence(SubstituteAll(pieces[i], tokens), "%%");
    }
  }

  lemma {:induction false} PercentOccurs(s: string)
    requires '%' in s
    ensures Occurs("%", s)
    decreases |s|
  {
    if s[0] != '%' {
      assert '%' in s[1..];
      PercentOccurs(s[1..]);
    }
  }

  /** With no tokens, resolution only collapses each `@@` into `@`, provided the text
      holds no `%%`. */
  lemma NoTokensCollapsesEscapes(source: string)
    requires NoDoublePercent(source)
    ensures Resolution(source, []) == ReplaceAll(source, "@@", "@")
  {
    var pieces := Split(source, "@@");
    SplitPiecesAvoid(source, "@@", "%%");
    assert SubstitutePieces(pieces, []) == pieces;
    ResolutionStructure(source, []);
    ReplaceAllIsJoin(source, "@@", "@");
  }

  /** A text that spells none of the tokens, holds no `@@` and no `%%` comes out of the
      resolution unchanged: an unknown token such as `@FOO:ex` stays as it is. */
  lemma UnknownTokensKept(source: string, tokens: seq<(string, string)>)
    requires !Occurs("@@", source) && NoDoublePercent(source)
    requires forall j :: 0 <= j < |tokens| ==> !Occurs(Pattern(tokens[j].0), source)
    ensures Resolution(source, tokens) == source
  {
    ReplaceAllAbsent(source, "@@", Sentinel);
    SubstituteAllAbsent(source, tokens);
    RestoreNothing(source, "@");
  }

  /** In particular a text without `@` and without `%%` resolves to itself. */
  lemma TokenFreeUnchanged(source: string, tokens: seq<(string, string)>)
    requires '@' !in source && NoDoublePercent(source)
    ensures Resolution(source, tokens) == source
  {
    AbsentCharNoOccurrence(source, "@@");
    forall j | 0 <= j < |tokens| ensures !Occurs(Pattern(tokens[j].0), source) {
      AbsentCharNoOccurrence(source, Pattern(tokens[j].0));
    }
    UnknownTokensKept(source, tokens);
  }

  lemma {:induction false} SubstituteAllAbsent(s: string, tokens: seq<(string, string)>)
    requires forall j :: 0 <= j < |tokens| ==> !Occurs(Pattern(tokens[j].0), s)
    ensures SubstituteAll(s, tokens) == s
    decreases |tokens|
  {
    if tokens != [] {
      var last := tokens[|tokens| - 1];
      SubstituteAllAbsent(s, tokens[..|tokens| - 1]);
      SubstituteIsLiteral(s, last);
      ReplaceAllAbsent(s, Pattern(last.0), last.1);
    }
  }

  /** The sentinel is not escaped: a text that already spells part of it next to `@@`
      comes out changed beyond the collapse of `@@`. */
  lemma SentinelCollision(source: string)
    requires source == "%%TMP%@@"
    ensures ReplaceAll(source, "@@", "@") == "%%TMP%@"
    ensures Resolution(source, []) == "@%TMP%%"
  {
    var at2, at, park := "@@", "@", Sentinel;
    var head := "%%TMP%";
    var rest := "%TMP%%";
    assert source == head + (at2 + []);
    assert ReplaceAll(source, at2, at) == head + at by {
      ReplaceAllSkip(head, at2 + [], at2, at);
      ReplaceAllHit([], at2, at);
    }
    assert ReplaceAll(source, at2, park) == park + rest by {
      ReplaceAllSkip(head, at2 + [], at2, park);
      ReplaceAllHit([], at2, park);
    }
    assert SubstituteAll(park + rest, []) == park + rest;
    assert ReplaceAll(park + rest, park, at) == at + rest by {
      ReplaceAllHit(rest, park, at);
      ReplaceAllShort(rest, park, at);
    }
  }
}
