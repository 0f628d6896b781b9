/**
 * The string primitives the matching engine is built from: ECMAScript
 * white space, ASCII case folding, `trim()`, `includes()`, `split(/\s+/)`
 * and `replace(/\s+/g, ' ')`. Strings are sequences of code points.
 */
module Text {
  import opened Seqs

  /**
   * ECMAScript WhiteSpace and LineTerminator code points: the set that both
   * the regular-expression class `\s` and `String.prototype.trim` use.
   */
  const WsCodePoints: set<int> := {
    0x09, 0x0A, 0x0B, 0x0C, 0x0D, 0x20, 0xA0, 0x1680,
    0x2000, 0x2001, 0x2002, 0x2003, 0x2004, 0x2005, 0x2006, 0x2007, 0x2008, 0x2009, 0x200A,
    0x2028, 0x2029, 0x202F, 0x205F, 0x3000, 0xFEFF }

  predicate IsWs(c: char) {
    c as int in WsCodePoints
  }

  predicate NotWs(c: char) {
    !IsWs(c)
  }

  predicate AllWs(s: string) {
    forall i :: 0 <= i < |s| ==> IsWs(s[i])
  }

  /** The regular-expression class `\w`: ASCII letters, digits and the underscore. */
  predicate IsWordChar(c: char) {
    ('a' <= c <= 'z') || ('A' <= c <= 'Z') || ('0' <= c <= '9') || c == '_'
  }

  /** ASCII lower-casing of one character; every other character is left alone. */
  function LowerChar(c: char): (r: char)
    ensures IsWs(r) == IsWs(c)
    ensures r == ' ' <==> c == ' '
    ensures 'A' <= c <= 'Z' ==> 'a' <= r <= 'z' && r as int == c as int + 32
    ensures !('A' <= c <= 'Z') ==> r == c
  {
    if 'A' <= c <= 'Z' then (c as int + 32) as char else c
  }

  /** `toLowerCase()`, restricted to ASCII letters. */
  function Lower(s: string): string {
    seq(|s|, i requires 0 <= i < |s| => LowerChar(s[i]))
  }

  /**
   * Lower-casing gives one character for each one in, turns each upper-case
   * ASCII letter into its lower-case letter 32 code points on, keeps every
   * other character, and is idempotent.
   */
  lemma LowerSpec(s: string)
    ensures |Lower(s)| == |s|
    ensures forall i :: 0 <= i < |s| && 'A' <= s[i] <= 'Z' ==> Lower(s)[i] as int == s[i] as int + 32
    ensures forall i :: 0 <= i < |s| ==> !('A' <= Lower(s)[i] <= 'Z')
    ensures forall i :: 0 <= i < |s| && !('A' <= s[i] <= 'Z') ==> Lower(s)[i] == s[i]
    ensures Lower(Lower(s)) == Lower(s)
  {
  }

  lemma LowerConcat(a: string, b: string)
    ensures Lower(a + b) == Lower(a) + Lower(b)
  {
  }

  lemma AllWsLower(s: string)
    ensures AllWs(Lower(s)) <==> AllWs(s)
  {
    assert forall i :: 0 <= i < |s| ==> IsWs(Lower(s)[i]) == IsWs(s[i]);
  }

  /** `trimStart()`: `r` is the suffix of `s` left once its leading white space is dropped. */
  function TrimStart(s: string): (r: string)
    ensures |r| <= |s| && r == s[|s| - |r|..]
    ensures AllWs(s[..|s| - |r|])
    ensures r != [] ==> !IsWs(r[0])
    ensures r == [] <==> AllWs(s)
    decreases |s|
  {
    if s != [] && IsWs(s[0]) then
      var r := TrimStart(s[1..]);
      assert s[1..][..|s| - 1 - |r|] == s[1..|s| - |r|];
      r
    else s
  }

  /** `trimEnd()`: `r` is the prefix of `s` left once its trailing white space is dropped. */
  function TrimEnd(s: string): (r: string)
    ensures |r| <= |s| && r == s[..|r|]
    ensures AllWs(s[|r|..])
    ensures r != [] ==> !IsWs(r[|r| - 1])
    decreases |s|
  {
    if s != [] && IsWs(s[|s| - 1]) then
      var r := TrimEnd(s[..|s| - 1]);
      assert s[|r|..] == s[..|s| - 1][|r|..] + [s[|s| - 1]];
      r
    else s
  }

  /** `trim()`: empty exactly for all-white-space input, and otherwise bounded by non-white-space. */
  function Trim(s: string): (r: string)
    ensures r == [] <==> AllWs(s)
    ensures r != [] ==> !IsWs(r[0]) && !IsWs(r[|r| - 1])
  {
    var t := TrimStart(s);
    var r := TrimEnd(t);
    assert r == [] ==> t[|r|..] == t;
    assert t != [] ==> t[0] == s[|s| - |t|];
    r
  }

  /** Dropping white space never changes what a filter that rejects white space keeps. */
  lemma FilterWsPrefix(w: string, rest: string, keep: char -> bool)
    requires AllWs(w)
    requires forall c :: IsWs(c) ==> !keep(c)
    ensures Filter(w + rest, keep) == Filter(rest, keep)
  {
    FilterConcat(w, rest, keep);
    FilterEmptyIff(w, keep);
  }

  lemma FilterWsSuffix(rest: string, w: string, keep: char -> bool)
    requires AllWs(w)
    requires forall c :: IsWs(c) ==> !keep(c)
    ensures Filter(rest + w, keep) == Filter(rest, keep)
  {
    FilterConcat(rest, w, keep);
    FilterEmptyIff(w, keep);
  }

  lemma FilterTrimStart(s: string, keep: char -> bool)
    requires forall c :: IsWs(c) ==> !keep(c)
    ensures Filter(TrimStart(s), keep) == Filter(s, keep)
  {
    var k := |s| - |TrimStart(s)|;
    SplitAt(s, k);
    FilterWsPrefix(s[..k], s[k..], keep);
  }

  lemma FilterTrimEnd(s: string, keep: char -> bool)
    requires forall c :: IsWs(c) ==> !keep(c)
    ensures Filter(TrimEnd(s), keep) == Filter(s, keep)
  {
    var k := |TrimEnd(s)|;
    SplitAt(s, k);
    FilterWsSuffix(s[..k], s[k..], keep);
  }

  lemma FilterTrim(s: string, keep: char -> bool)
    requires forall c :: IsWs(c) ==> !keep(c)
    ensures Filter(Trim(s), keep) == Filter(s, keep)
  {
    FilterTrimStart(s, keep);
    FilterTrimEnd(TrimStart(s), keep);
  }

  /** `s` starts with `p`. */
  predicate IsPrefix(p: string, s: string) {
    |p| <= |s| && p == s[..|p|]
  }

  /**
   * `hay.includes(needle)`: `needle` occurs in `hay` at some offset. The
   * empty needle occurs everywhere, and no needle occurs in a shorter hay.
   */
  function Contains(hay: string, needle: string): (r: bool)
    ensures needle == [] ==> r
    ensures r ==> |needle| <= |hay|
    decreases |hay|
  {
    IsPrefix(needle, hay) || (hay != [] && Contains(hay[1..], needle))
  }

  /** `needle` occurs in `hay` starting at offset `i`. */
  predicate OccursAt(hay: string, needle: string, i: int) {
    0 <= i && i + |needle| <= |hay| && hay[i..i + |needle|] == needle
  }

  /** The recursive search agrees with the definition by offset. */
  lemma {:induction false} ContainsAt(hay: string, needle: string)
    ensures Contains(hay, needle) <==> exists i :: OccursAt(hay, needle, i)
    decreases |hay|
  {
    if hay != [] {
      ContainsAt(hay[1..], needle);
      if IsPrefix(needle, hay) {
        assert OccursAt(hay, needle, 0);
      } else if Contains(hay[1..], needle) {
        var i :| OccursAt(hay[1..], needle, i);
        assert hay[i + 1..i + 1 + |needle|] == hay[1..][i..i + |needle|];
        assert OccursAt(hay, needle, i + 1);
      }
      if exists i :: OccursAt(hay, needle, i) {
        var i :| OccursAt(hay, needle, i);
        if i > 0 {
          assert hay[1..][i - 1..i - 1 + |needle|] == hay[i..i + |needle|];
          assert OccursAt(hay[1..], needle, i - 1);
        }
      }
    } else {
      assert needle == [] ==> OccursAt(hay, needle, 0);
    }
  }

  /** A needle as long as the haystack occurs in it only when the two are equal. */
  lemma NotContainsSameLength(hay: string, needle: string)
    requires |hay| == |needle| && hay != needle
    ensures !Contains(hay, needle)
  {
    ContainsAt(hay, needle);
    assert hay[0..|needle|] == hay;
  }

  lemma ContainsSelf(s: string)
    ensures Contains(s, s)
  {
  }

  /** A needle with a character that `hay` lacks does not occur in `hay`. */
  lemma NotContainsMissingChar(hay: string, needle: string, k: nat)
    requires k < |needle|
    requires forall i :: 0 <= i < |hay| ==> hay[i] != needle[k]
    ensures !Contains(hay, needle)
  {
    ContainsAt(hay, needle);
    forall i | 0 <= i && i + |needle| <= |hay|
      ensures !OccursAt(hay, needle, i)
    {
      assert hay[i..i + |needle|][k] == hay[i + k];
    }
  }

  /** Index of the first white-space character of `s`, or `|s|` if there is none. */
  function WsIndex(s: string): (k: nat)
    ensures k <= |s|
    ensures forall i :: 0 <= i < k ==> !IsWs(s[i])
    ensures k < |s| ==> IsWs(s[k])
  {
    if s == [] || IsWs(s[0]) then 0 else WsIndex(s[1..]) + 1
  }

  /** No character of `s` is white space. */
  predicate NoWs(s: string) {
    forall i :: 0 <= i < |s| ==> !IsWs(s[i])
  }

  /**
   * `s.split(/\s+/)`: the pieces between maximal runs of white space, empty
   * pieces included (a leading or trailing run yields an empty first or
   * last piece, and the empty string yields one empty piece).
   */
  function SplitWs(s: string): (tokens: seq<string>)
    ensures |tokens| >= 1
    ensures NoWsPieces(tokens)
    decreases |s|
  {
    var k := WsIndex(s);
    if k == |s| then
      WsIndexPiece(s);
      [s]
    else
      var rest := TrimStart(s[k + 1..]);
      WsIndexSplits(s);
      NoWsPiecesCons(s[..k], SplitWs(rest));
      [s[..k]] + SplitWs(rest)
  }

  /** No piece contains white space. */
  predicate NoWsPieces(tokens: seq<string>) {
    forall i :: 0 <= i < |tokens| ==> NoWs(tokens[i])
  }

  lemma NoWsPiecesCons(t: string, tokens: seq<string>)
    requires NoWs(t) && NoWsPieces(tokens)
    ensures NoWsPieces([t] + tokens)
  {
  }

  /** Text without white space is a piece of its own. */
  lemma WsIndexPiece(s: string)
    requires WsIndex(s) == |s|
    ensures NoWsPieces([s])
  {
    assert [s][0] == s;
  }

  /** The text before the first white space is a piece, and what follows the run is shorter than the text. */
  lemma WsIndexSplits(s: string)
    requires WsIndex(s) < |s|
    ensures NoWs(s[..WsIndex(s)])
    ensures |TrimStart(s[WsIndex(s) + 1..])| < |s|
  {
    var k := WsIndex(s);
    assert forall i :: 0 <= i < k ==> s[..k][i] == s[i];
  }

  /** Dropping leading white space keeps a last character that is not white space. */
  lemma TrimStartKeepsLast(u: string)
    requires u != [] && !IsWs(u[|u| - 1])
    ensures var r := TrimStart(u); r != [] && !IsWs(r[0]) && !IsWs(r[|r| - 1])
  {
    var r := TrimStart(u);
    assert r[|r| - 1] == u[|u| - |r|..][|r| - 1];
  }

  /** Text without white space is a single piece. */
  lemma SplitWsWhole(s: string)
    requires WsIndex(s) == |s|
    ensures SplitWs(s) == [s]
  {
  }

  /** One step of the split: the piece before the first white space, then the split of what follows the run. */
  lemma SplitWsStep(s: string)
    requires WsIndex(s) < |s|
    ensures SplitWs(s) == [s[..WsIndex(s)]] + SplitWs(TrimStart(s[WsIndex(s) + 1..]))
  {
  }

  /** What follows the first white-space run of unpadded text is again unpadded and non-empty. */
  lemma SplitRestUnpadded(s: string)
    requires s != [] && !IsWs(s[0]) && !IsWs(s[|s| - 1])
    requires WsIndex(s) < |s|
    ensures var r := TrimStart(s[WsIndex(s) + 1..]); r != [] && !IsWs(r[0]) && !IsWs(r[|r| - 1])
  {
    assert WsIndex(s) < |s| - 1;
    assert s[WsIndex(s) + 1..][|s| - WsIndex(s) - 2] == s[|s| - 1];
    TrimStartKeepsLast(s[WsIndex(s) + 1..]);
  }

  /** No piece of `tokens` is the empty string. */
  predicate NoEmptyPiece(tokens: seq<string>) {
    forall i :: 0 <= i < |tokens| ==> tokens[i] != []
  }

  lemma NoEmptyPieceCons(t: string, tokens: seq<string>)
    requires t != [] && NoEmptyPiece(tokens)
    ensures NoEmptyPiece([t] + tokens)
  {
  }

  /** Text with no white space at either end splits into non-empty tokens only. */
  lemma {:induction false} SplitTrimmedTokens(s: string)
    requires s != [] && !IsWs(s[0]) && !IsWs(s[|s| - 1])
    ensures NoEmptyPiece(SplitWs(s))
    decreases |s|
  {
    var k := WsIndex(s);
    if k < |s| {
      SplitRestUnpadded(s);
      var r := TrimStart(s[k + 1..]);
      SplitTrimmedTokens(r);
      SplitWsStep(s);
      assert k != 0;
      NoEmptyPieceCons(s[..k], SplitWs(r));
    } else {
      SplitWsWhole(s);
    }
  }

  /** In a word followed by white space, the first white space is where the word ends. */
  lemma {:induction false} WsIndexAfterWord(w: string, tail: string)
    requires NoWs(w) && tail != [] && IsWs(tail[0])
    ensures WsIndex(w + tail) == |w|
    decreases |w|
  {
    if w == [] {
      assert w + tail == tail;
    } else {
      assert (w + tail)[1..] == w[1..] + tail;
      WsIndexAfterWord(w[1..], tail);
    }
  }

  /**
   * A word, then a white-space run, then text that does not start with white
   * space: the word is the first piece and the rest splits on its own.
   */
  lemma SplitWsWordRun(w: string, gap: string, rest: string)
    requires NoWs(w) && gap != [] && AllWs(gap)
    requires rest == [] || !IsWs(rest[0])
    ensures SplitWs(w + gap + rest) == [w] + SplitWs(rest)
  {
    var s := w + gap + rest;
    ThreeParts(w, gap, rest);
    WsIndexAfterWord(w, gap + rest);
    assert AllWs(gap[1..]) by { SuffixAllWs(gap); }
    TrimStartWsPrefix(gap[1..], rest);
    SplitWsStep(s);
  }

  lemma SuffixAllWs(gap: string)
    requires gap != [] && AllWs(gap)
    ensures AllWs(gap[1..])
  {
    assert forall i :: 0 <= i < |gap| - 1 ==> gap[1..][i] == gap[i + 1];
  }

  /** The pieces laid end to end. */
  function Flatten(pieces: seq<string>): string {
    if pieces == [] then [] else pieces[0] + Flatten(pieces[1..])
  }

  /**
   * The pieces of a split, laid end to end, are exactly the text's characters
   * other than white space, in order: the split loses and adds nothing else.
   */
  lemma {:induction false} SplitWsContent(s: string)
    ensures Flatten(SplitWs(s)) == Filter(s, NotWs)
    decreases |s|
  {
    if WsIndex(s) == |s| {
      SplitWsWhole(s);
      FilterKeepsAll(s, NotWs);
      FlattenCons(s, []);
    } else {
      var rest := ContentStep(s);
      SplitWsContent(rest);
      FlattenCons(s[..WsIndex(s)], SplitWs(rest));
    }
  }

  lemma FlattenCons(piece: string, pieces: seq<string>)
    ensures Flatten([piece] + pieces) == piece + Flatten(pieces)
  {
    assert ([piece] + pieces)[1..] == pieces;
  }

  /**
   * One step of the split, in terms of the text that follows the first
   * white-space run: the first piece comes first both in the split and among
   * the characters kept.
   */
  lemma ContentStep(s: string) returns (rest: string)
    requires WsIndex(s) < |s|
    ensures |rest| < |s|
    ensures SplitWs(s) == [s[..WsIndex(s)]] + SplitWs(rest)
    ensures Filter(s, NotWs) == s[..WsIndex(s)] + Filter(rest, NotWs)
  {
    var k := WsIndex(s);
    rest := TrimStart(s[k + 1..]);
    WsIndexSplits(s);
    SplitWsStep(s);
    SplitAround(s, k);
    FilterWordWsRest(s[..k], s[k], s[k + 1..]);
  }

  lemma FilterWordWsRest(a: string, c: char, t: string)
    requires NoWs(a) && IsWs(c)
    ensures Filter(a + ([c] + t), NotWs) == a + Filter(TrimStart(t), NotWs)
  {
    FilterConcat(a, [c] + t, NotWs);
    FilterKeepsAll(a, NotWs);
    FilterWsPrefix([c], t, NotWs);
    FilterTrimStart(t, NotWs);
  }

  /**
   * `s.replace(/\s+/g, ' ')`: every maximal run of white space becomes one
   * space. A white-space character that is followed by another one is
   * dropped; the last of a run becomes the space.
   */
  function CollapseWs(s: string): (r: string)
    ensures s == [] <==> r == []
    ensures s != [] && IsWs(s[0]) ==> r[0] == ' '
    ensures s != [] && !IsWs(s[0]) ==> r[0] == s[0]
    ensures forall i :: 0 <= i < |r| ==> r[i] == ' ' || (!IsWs(r[i]) && r[i] in s)
    ensures forall i :: 0 <= i < |r| - 1 ==> r[i] == ' ' ==> r[i + 1] != ' '
    decreases |s|
  {
    if s == [] then []
    else
      assert forall c :: c in s[1..] ==> c in s;
      if IsWs(s[0]) && |s| > 1 && IsWs(s[1]) then CollapseWs(s[1..])
    else [if IsWs(s[0]) then ' ' else s[0]] + CollapseWs(s[1..])
  }

  /** Collapsing white space leaves the non-white-space characters exactly as they were. */
  lemma {:induction false} CollapseWsContent(s: string)
    ensures Filter(CollapseWs(s), NotWs) == Filter(s, NotWs)
    decreases |s|
  {
    if s != [] {
      CollapseWsContent(s[1..]);
      if !(IsWs(s[0]) && |s| > 1 && IsWs(s[1])) {
        var h := if IsWs(s[0]) then ' ' else s[0];
        FilterConcat([h], CollapseWs(s[1..]), NotWs);
      }
    }
  }

  /** Lower-casing commutes with dropping white space. */
  lemma {:induction false} LowerContent(s: string)
    ensures Filter(Lower(s), NotWs) == Lower(Filter(s, NotWs))
    decreases |s|
  {
    if s != [] {
      LowerContent(s[1..]);
      assert Lower(s) == [LowerChar(s[0])] + Lower(s[1..]);
      FilterConcat([LowerChar(s[0])], Lower(s[1..]), NotWs);
      LowerConcat(if NotWs(s[0]) then [s[0]] else [], Filter(s[1..], NotWs));
    }
  }

  /** Text that neither starts nor ends with white space is its own trim. */
  lemma TrimUnpadded(s: string)
    requires s == [] || (!IsWs(s[0]) && !IsWs(s[|s| - 1]))
    ensures Trim(s) == s
  {
  }

  /** The trimmed text is a contiguous slice of the original, starting at `k`. */
  lemma TrimSlice(s: string) returns (k: nat)
    ensures k + |Trim(s)| <= |s| && Trim(s) == s[k..k + |Trim(s)|]
  {
    var t := TrimStart(s);
    k := |s| - |t|;
    var r := TrimEnd(t);
    assert Trim(s) == r;
    SliceOfSuffix(s, k, |r|);
  }

  /** Text whose only white space is single spaces is already collapsed. */
  lemma {:induction false} CollapseWsFixed(s: string)
    requires forall i :: 0 <= i < |s| && IsWs(s[i]) ==> s[i] == ' '
    requires forall i :: 0 <= i < |s| - 1 ==> !(s[i] == ' ' && s[i + 1] == ' ')
    ensures CollapseWs(s) == s
    decreases |s|
  {
    if s != [] {
      var t := s[1..];
      assert forall i :: 0 <= i < |t| ==> t[i] == s[i + 1];
      CollapseWsFixed(t);
      assert s == [s[0]] + t;
    }
  }

  /** Lower-casing text without upper-case ASCII letters changes nothing. */
  lemma LowerFixed(s: string)
    requires forall i :: 0 <= i < |s| ==> !('A' <= s[i] <= 'Z')
    ensures Lower(s) == s
  {
  }

  /** Collapsing passes a white-space-free prefix through unchanged. */
  lemma {:induction false} CollapseWsNoWsPrefix(a: string, rest: string)
    requires NoWs(a)
    ensures CollapseWs(a + rest) == a + CollapseWs(rest)
    decreases |a|
  {
    if a != [] {
      assert (a + rest)[1..] == a[1..] + rest;
      CollapseWsNoWsPrefix(a[1..], rest);
    } else {
      assert a + rest == rest;
    }
  }

  /** A non-empty white-space run followed by text that does not start with white space becomes one space. */
  lemma {:induction false} CollapseWsRun(w: string, rest: string)
    requires w != [] && AllWs(w)
    requires rest == [] || !IsWs(rest[0])
    ensures CollapseWs(w + rest) == [' '] + CollapseWs(rest)
    decreases |w|
  {
    assert (w + rest)[1..] == w[1..] + rest;
    if |w| > 1 {
      CollapseWsRun(w[1..], rest);
    } else {
      assert w[1..] + rest == rest;
    }
  }

  /** Visible ASCII characters (`!` to `~`) are not white space. */
  lemma NotWsVisible(c: char)
    requires 0x21 <= c as int <= 0x7E
    ensures !IsWs(c)
  {
  }

  /** Text made only of visible ASCII characters holds no white space. */
  lemma NoWsVisible(s: string)
    requires forall i :: 0 <= i < |s| ==> 0x21 <= s[i] as int <= 0x7E
    ensures NoWs(s)
  {
    forall i | 0 <= i < |s|
      ensures !IsWs(s[i])
    {
      NotWsVisible(s[i]);
    }
  }

  /** Dropping leading white space skips a white-space run and stops at the first other character. */
  lemma {:induction false} TrimStartWsPrefix(w: string, rest: string)
    requires AllWs(w)
    requires rest == [] || !IsWs(rest[0])
    ensures TrimStart(w + rest) == rest
    decreases |w|
  {
    if w != [] {
      assert (w + rest)[1..] == w[1..] + rest;
      TrimStartWsPrefix(w[1..], rest);
    } else {
      assert w + rest == rest;
    }
  }

  /** Dropping trailing white space skips a white-space run and stops at the last other character. */
  lemma {:induction false} TrimEndWsSuffix(rest: string, w: string)
    requires AllWs(w)
    requires rest == [] || !IsWs(rest[|rest| - 1])
    ensures TrimEnd(rest + w) == rest
    decreases |w|
  {
    if w != [] {
      var u := rest + w;
      assert u[..|u| - 1] == rest + w[..|w| - 1];
      TrimEndWsSuffix(rest, w[..|w| - 1]);
    } else {
      assert rest + w == rest;
    }
  }

  /** Trimming removes white-space padding around text whose ends are not white space. */
  lemma TrimPadded(pad1: string, core: string, pad2: string)
    requires AllWs(pad1) && AllWs(pad2)
    requires core != [] && !IsWs(core[0]) && !IsWs(core[|core| - 1])
    ensures Trim(pad1 + core + pad2) == core
  {
    assert pad1 + core + pad2 == pad1 + (core + pad2);
    TrimStartWsPrefix(pad1, core + pad2);
    TrimEndWsSuffix(core, pad2);
  }
}
