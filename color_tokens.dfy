/**
 * `replaceRgbInString`: the global, case-insensitive replacement of every
 * `rgb(...)`/`rgba(...)` token in a composite style text (a gradient, a
 * shadow list), and the list of those tokens that `String.prototype.match`
 * with the same global pattern returns.
 *
 * The pattern is `rgba?\([^)]+\)` with the flags `g` and `i`: a token is
 * `rgb` or `rgba` in any case, an opening parenthesis, at least one
 * character that is not `)`, and the first `)` after it. The text is split
 * into the tokens found leftmost-first and the characters between them.
 */
module ColorTokens {
  import opened Wrappers
  import opened Text
  import opened Colors

  // ---------------------------------------------------------------------------
  // What a token is, and the match at the front of a text
  // ---------------------------------------------------------------------------

  /** `t` is a token whose opening parenthesis is at position `k`. */
  predicate TokenWith(t: string, k: nat) {
    k + 2 < |t| && IsRgbPrefix(t[..k]) && t[k] == '(' && t[|t| - 1] == ')' && ')' !in t[k + 1..|t| - 1]
  }

  /** A whole match of `rgba?\([^)]+\)` (case-insensitive). */
  predicate IsToken(t: string) {
    TokenWith(t, 3) || TokenWith(t, 4)
  }

  /** Position of the `(` that follows `rgb`/`rgba` at the front of `s`, or 0 when there is none. */
  function OpenAt(s: string): (k: nat)
    ensures k == 0 || k == 3 || k == 4
    ensures k != 0 ==> k < |s| && IsRgbPrefix(s[..k]) && s[k] == '('
  {
    if |s| >= 4 && s[0] in "rR" && s[1] in "gG" && s[2] in "bB" then
      if s[3] == '(' then 3
      else if |s| >= 5 && s[3] in "aA" && s[4] == '(' then 4
      else 0
    else 0
  }

  /** Length of the token at the front of `s`, if one starts there. */
  function TokenLen(s: string): (r: Option<nat>)
    ensures r.Some? ==> 5 <= r.value <= |s| && IsToken(s[..r.value])
  {
    var k := OpenAt(s);
    if k == 0 then None
    else match IndexOf(s[k + 1..], ')')
      case None => None
      case Some(j) =>
        if j == 0 then None
        else
          var n := k + 1 + j + 1;
          assert s[..n][k + 1..n - 1] == s[k + 1..][..j];
          assert TokenWith(s[..n], k);
          Some(n)
  }

  /** The match at the front of a text is exactly the token there: there is at most one, and it is found. */
  lemma TokenLenExact(s: string, n: nat)
    requires n <= |s|
    ensures TokenLen(s) == Some(n) <==> IsToken(s[..n])
  {
    if IsToken(s[..n]) {
      var t := s[..n];
      var k := if TokenWith(t, 3) then 3 else 4;
      assert t[..k] == s[..k];
      assert OpenAt(s) == k by {
        if k == 4 {
          assert s[3] != '(' by {
            assert s[3] == t[3];
            if TokenWith(t, 3) { }
          }
        }
      }
      assert TokenWith(t, k);
      var u := s[k + 1..];
      assert t[k + 1..n - 1] == s[k + 1..n - 1];
      assert u[..n - k - 2] == s[k + 1..n - 1];
      assert u[n - k - 2] == ')';
      var j := IndexOf(u, ')');
      assert ')' in u;
      assert j == Some(n - k - 2);
    }
  }

  // ---------------------------------------------------------------------------
  // The split of a text into tokens and kept characters
  // ---------------------------------------------------------------------------

  datatype Segment = Plain(c: char) | Token(t: string)

  function SegmentText(g: Segment): string {
    match g
    case Plain(c) => [c]
    case Token(t) => t
  }

  /** The texts of the segments, one after another. */
  function Joined(segs: seq<Segment>): string {
    if segs == [] then [] else SegmentText(segs[0]) + Joined(segs[1..])
  }

  /** The leftmost-first split that a global regular-expression scan makes. */
  function Segments(s: string): seq<Segment>
    decreases |s|
  {
    if s == [] then []
    else match TokenLen(s)
      case Some(n) => [Token(s[..n])] + Segments(s[n..])
      case None => [Plain(s[0])] + Segments(s[1..])
  }

  /** The length of the first segment of a non-empty text. */
  function HeadLen(s: string): (n: nat)
    requires s != []
    ensures 1 <= n <= |s|
  {
    match TokenLen(s)
    case Some(n) => n
    case None => 1
  }

  lemma SegmentsCons(s: string)
    requires s != []
    ensures |Segments(s)| == 1 + |Segments(s[HeadLen(s)..])|
    ensures Segments(s)[0] == if TokenLen(s).Some? then Token(s[..HeadLen(s)]) else Plain(s[0])
    ensures SegmentText(Segments(s)[0]) == s[..HeadLen(s)]
    ensures Segments(s)[1..] == Segments(s[HeadLen(s)..])
  {
    var n := HeadLen(s);
    var head := if TokenLen(s).Some? then Token(s[..n]) else Plain(s[0]);
    var tail := Segments(s[n..]);
    assert Segments(s) == [head] + tail;
    assert SegmentText(head) == s[..n];
  }

  lemma SegmentsSuffixes(s: string)
    requires s != []
    ensures forall i :: 1 <= i <= |Segments(s)| ==> Segments(s)[i..] == Segments(s[HeadLen(s)..])[i - 1..]
  {
    SegmentsCons(s);
  }

  /** The segments put back together give the text. */
  lemma {:induction false} SegmentsJoined(s: string)
    ensures Joined(Segments(s)) == s
    decreases |s|
  {
    if s != [] {
      SegmentsCons(s);
      SegmentsJoined(s[HeadLen(s)..]);
      JoinedStep(Segments(s), s, HeadLen(s));
    }
  }

  /** A first segment that gives the first `n` characters, followed by segments that give the rest, give the text. */
  lemma JoinedStep(segs: seq<Segment>, s: string, n: nat)
    requires segs != [] && n <= |s|
    requires SegmentText(segs[0]) == s[..n] && Joined(segs[1..]) == s[n..]
    ensures Joined(segs) == s
  {
    assert s[..n] + s[n..] == s;
  }

  /** Every token segment is a token. */
  lemma {:induction false} SegmentsTokens(s: string)
    ensures forall i :: 0 <= i < |Segments(s)| && Segments(s)[i].Token? ==> IsToken(Segments(s)[i].t)
    decreases |s|
  {
    if s != [] {
      SegmentsCons(s);
      SegmentsSuffixes(s);
      SegmentsTokens(s[HeadLen(s)..]);
      forall i | 1 <= i < |Segments(s)|
        ensures Segments(s)[i] == Segments(s[HeadLen(s)..])[i - 1]
      {
        assert Segments(s)[i..][0] == Segments(s)[i];
      }
    }
  }

  /** No token starts at a character that is kept: the scan takes every token it meets. */
  lemma {:induction false} SegmentsPlain(s: string)
    ensures forall i :: 0 <= i < |Segments(s)| && Segments(s)[i].Plain? ==> TokenLen(Joined(Segments(s)[i..])).None?
    decreases |s|
  {
    if s != [] {
      SegmentsCons(s);
      SegmentsSuffixes(s);
      SegmentsPlain(s[HeadLen(s)..]);
      SegmentsJoined(s);
      assert Segments(s)[0..] == Segments(s);
    }
  }

  /** The segments with every token segment rewritten by `f` and every kept character unchanged. */
  function Rewrite(segs: seq<Segment>, f: string -> string): string {
    if segs == [] then []
    else
      (match segs[0]
       case Plain(c) => [c]
       case Token(t) => f(t))
      + Rewrite(segs[1..], f)
  }

  /** A rewrite that leaves every token as it is leaves the whole text as it is. */
  lemma {:induction false} RewriteUnchanged(segs: seq<Segment>, f: string -> string)
    requires forall i :: 0 <= i < |segs| && segs[i].Token? ==> f(segs[i].t) == segs[i].t
    ensures Rewrite(segs, f) == Joined(segs)
  {
    if segs != [] {
      RewriteUnchanged(segs[1..], f);
    }
  }

  /** The tokens alone, in order: `s.match(/rgba?\([^)]+\)/gi) || []`. */
  function TokensOf(segs: seq<Segment>): (toks: seq<string>)
    ensures forall i :: 0 <= i < |toks| ==> exists j :: 0 <= j < |segs| && segs[j] == Token(toks[i])
    ensures |toks| <= |segs|
  {
    if segs == [] then []
    else
      var rest := TokensOf(segs[1..]);
      var toks := if segs[0].Token? then [segs[0].t] + rest else rest;
      assert forall i :: 0 <= i < |rest| ==> exists j :: 0 <= j < |segs| && segs[j] == Token(rest[i]) by {
        forall i | 0 <= i < |rest|
          ensures exists j :: 0 <= j < |segs| && segs[j] == Token(rest[i])
        {
          var j :| 0 <= j < |segs[1..]| && segs[1..][j] == Token(rest[i]);
          assert segs[j + 1] == Token(rest[i]);
        }
      }
      toks
  }

  /** Every text `match` returns is a token. */
  function Matches(s: string): (toks: seq<string>)
    ensures forall i :: 0 <= i < |toks| ==> IsToken(toks[i])
  {
    var segs := Segments(s);
    SegmentsTokens(s);
    var toks := TokensOf(segs);
    assert forall i :: 0 <= i < |toks| ==> IsToken(toks[i]) by {
      forall i | 0 <= i < |toks| ensures IsToken(toks[i]) {
        var j :| 0 <= j < |segs| && segs[j] == Token(toks[i]);
      }
    }
    toks
  }

  // ---------------------------------------------------------------------------
  // replaceRgbInString
  // ---------------------------------------------------------------------------

  /** What one token becomes: the serialised replacement colour, or the token itself when the replacer gives `null`. */
  function Substitute(tok: string, replacer: Option<Rgba> -> Option<Rgba>, formatAlpha: real -> string): string {
    match replacer(ParseRgb(tok))
    case Some(c) => RgbaToString(c, formatAlpha)
    case None => tok
  }

  /**
   * `replaceRgbInString(str, replacer)`: an empty text and `none` come back
   * as they are; otherwise every token is replaced by what `Substitute`
   * makes of it and every other character is kept.
   */
  function ReplaceRgbInString(s: string, replacer: Option<Rgba> -> Option<Rgba>, formatAlpha: real -> string): (r: string)
    ensures s == [] || s == "none" ==> r == s
    ensures (forall i :: 0 <= i < |Matches(s)| ==> replacer(ParseRgb(Matches(s)[i])).None?) ==> r == s
  {
    if s == [] || s == "none" then s
    else
      UnreplacedKept(s, replacer, formatAlpha);
      Rewrite(Segments(s), t => Substitute(t, replacer, formatAlpha))
  }

  /** Even for `''` and `none`, the replacement is the rewrite of the scan's segments: neither holds a token. */
  lemma ReplaceIsRewrite(s: string, replacer: Option<Rgba> -> Option<Rgba>, formatAlpha: real -> string)
    ensures ReplaceRgbInString(s, replacer, formatAlpha) == Rewrite(Segments(s), t => Substitute(t, replacer, formatAlpha))
  {
    if s == "none" {
      RewriteNone(t => Substitute(t, replacer, formatAlpha));
    }
  }

  /** `none` holds no token, so any rewrite gives it back. */
  lemma RewriteNone(f: string -> string)
    ensures Rewrite(Segments("none"), f) == "none"
  {
    var s := "none";
    forall i | 0 <= i <= |s| ensures TokenLen(s[i..]).None? {
      assert i < |s| ==> s[i..][0] == s[i] && s[i] !in "rR";
    }
    NoTokenSegments(s);
    SegmentsJoined(s);
    RewriteUnchanged(Segments(s), f);
  }

  /** A token at the front of a text is replaced by what `Substitute` makes of it, and the rest is replaced on its own. */
  lemma ReplaceTokenThenRest(t: string, rest: string, replacer: Option<Rgba> -> Option<Rgba>, formatAlpha: real -> string)
    requires IsToken(t)
    ensures ReplaceRgbInString(t + rest, replacer, formatAlpha)
         == Substitute(t, replacer, formatAlpha) + ReplaceRgbInString(rest, replacer, formatAlpha)
  {
    var s := t + rest;
    assert s[..|t|] == t && s[|t|..] == rest;
    TokenLenExact(s, |t|);
    assert Segments(s) == [Token(t)] + Segments(rest);
    ReplaceIsRewrite(s, replacer, formatAlpha);
    ReplaceIsRewrite(rest, replacer, formatAlpha);
  }

  /** A character at which no token starts is kept, and the rest is replaced on its own. */
  lemma ReplacePlainThenRest(c: char, rest: string, replacer: Option<Rgba> -> Option<Rgba>, formatAlpha: real -> string)
    requires TokenLen([c] + rest).None?
    ensures ReplaceRgbInString([c] + rest, replacer, formatAlpha) == [c] + ReplaceRgbInString(rest, replacer, formatAlpha)
  {
    var s := [c] + rest;
    assert s[0] == c && s[1..] == rest;
    assert Segments(s) == [Plain(c)] + Segments(rest);
    ReplaceIsRewrite(s, replacer, formatAlpha);
    ReplaceIsRewrite(rest, replacer, formatAlpha);
  }

  /** Every token segment is among the tokens `match` returns. */
  lemma {:induction false} TokensOfComplete(segs: seq<Segment>)
    ensures forall j :: 0 <= j < |segs| && segs[j].Token? ==> segs[j].t in TokensOf(segs)
  {
    if segs != [] {
      TokensOfComplete(segs[1..]);
      forall j | 1 <= j < |segs| && segs[j].Token? ensures segs[j].t in TokensOf(segs) {
        assert segs[1..][j - 1] == segs[j];
      }
    }
  }

  /** When the replacer gives `null` for every token of the text, the rewrite gives the text back. */
  lemma UnreplacedKept(s: string, replacer: Option<Rgba> -> Option<Rgba>, formatAlpha: real -> string)
    ensures (forall i :: 0 <= i < |Matches(s)| ==> replacer(ParseRgb(Matches(s)[i])).None?) ==>
      Rewrite(Segments(s), t => Substitute(t, replacer, formatAlpha)) == s
  {
    if forall i :: 0 <= i < |Matches(s)| ==> replacer(ParseRgb(Matches(s)[i])).None? {
      var segs := Segments(s);
      var f := t => Substitute(t, replacer, formatAlpha);
      TokensOfComplete(segs);
      assert Matches(s) == TokensOf(segs);
      forall j | 0 <= j < |segs| && segs[j].Token? ensures f(segs[j].t) == segs[j].t {
        var i :| 0 <= i < |Matches(s)| && Matches(s)[i] == segs[j].t;
      }
      RewriteUnchanged(segs, f);
      SegmentsJoined(s);
    }
  }

  /** A replacer that always gives `null` leaves every text unchanged. */
  lemma ReplaceWithNullIsIdentity(s: string, replacer: Option<Rgba> -> Option<Rgba>, formatAlpha: real -> string)
    requires forall p :: replacer(p).None?
    ensures ReplaceRgbInString(s, replacer, formatAlpha) == s
  {
    if s != [] && s != "none" {
      SegmentsJoined(s);
      RewriteUnchanged(Segments(s), t => Substitute(t, replacer, formatAlpha));
    }
  }

  /** A text in which no token starts anywhere is left unchanged, whatever the replacer. */
  lemma ReplaceWithoutTokens(s: string, replacer: Option<Rgba> -> Option<Rgba>, formatAlpha: real -> string)
    requires forall i :: 0 <= i <= |s| ==> TokenLen(s[i..]).None?
    ensures ReplaceRgbInString(s, replacer, formatAlpha) == s
  {
    if s != [] && s != "none" {
      NoTokenSegments(s);
      SegmentsJoined(s);
      RewriteUnchanged(Segments(s), t => Substitute(t, replacer, formatAlpha));
    }
  }

  lemma {:induction false} NoTokenSegments(s: string)
    requires forall i :: 0 <= i <= |s| ==> TokenLen(s[i..]).None?
    ensures forall i :: 0 <= i < |Segments(s)| ==> Segments(s)[i].Plain?
    decreases |s|
  {
    if s != [] {
      assert TokenLen(s[0..]).None?;
      assert s[0..] == s;
      forall i | 0 <= i <= |s[1..]| ensures TokenLen(s[1..][i..]).None? {
        assert s[1..][i..] == s[i + 1..];
      }
      NoTokenSegments(s[1..]);
      assert Segments(s) == [Plain(s[0])] + Segments(s[1..]);
    }
  }
}
