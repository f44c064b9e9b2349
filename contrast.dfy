/**
 * The two searches the inversion engine makes before it fixes a text colour:
 * `findEffectiveBackgroundColor`, the walk up the ancestors to the first
 * background that is not (nearly) transparent, and `adjustTextForContrast`,
 * the bounded search over lightness steps for a text colour that contrasts
 * enough with that background.
 */
module Contrast {
  import opened Wrappers
  import opened Text
  import opened Colors
  import opened Dom

  /** The background assumed when no ancestor has one: opaque white. */
  const White := Rgba(255, 255, 255, 1.0)

  /** The background a computed `background-color` gives, when it counts: parsable, with alpha above 0.05. */
  function VisibleBackground(bg: string): (r: Option<Rgba>)
    ensures r.Some? ==> r.value.a > 0.05
  {
    var parsed := ParseRgb(bg);
    if parsed.Some? && parsed.value.a > 0.05 then parsed else None
  }

  /** The computed backgrounds of `chain`, in order. */
  function Backgrounds(page: Page, chain: seq<Node>): (bgs: seq<string>)
    ensures |bgs| == |chain|
    ensures forall i :: 0 <= i < |chain| ==> bgs[i] == page.computed(chain[i], BackgroundColor)
  {
    seq(|chain|, i requires 0 <= i < |chain| => page.computed(chain[i], BackgroundColor))
  }

  /** The first visible background of a list, or white. */
  function FirstVisible(bgs: seq<string>): (bg: Rgba)
    ensures bg.a > 0.05
  {
    if bgs == [] then White
    else match VisibleBackground(bgs[0])
      case Some(c) => c
      case None => FirstVisible(bgs[1..])
  }

  /** `FirstVisible` is white exactly when no background is visible, and else the first visible one. */
  lemma {:induction false} FirstVisibleSpec(bgs: seq<string>, k: nat)
    requires k <= |bgs|
    requires forall j :: 0 <= j < k ==> VisibleBackground(bgs[j]).None?
    ensures k < |bgs| && VisibleBackground(bgs[k]).Some? ==> FirstVisible(bgs) == VisibleBackground(bgs[k]).value
    ensures k == |bgs| ==> FirstVisible(bgs) == White
  {
    if k > 0 {
      var rest := bgs[1..];
      assert VisibleBackground(bgs[0]).None?;
      assert FirstVisible(bgs) == FirstVisible(rest);
      forall j | 0 <= j < k - 1 ensures VisibleBackground(rest[j]).None? {
        assert rest[j] == bgs[j + 1];
      }
      FirstVisibleSpec(rest, k - 1);
      assert k < |bgs| ==> rest[k - 1] == bgs[k];
    }
  }

  /**
   * `findEffectiveBackgroundColor(el)`: the parsed computed background of
   * the first node of `chain` (the element, then its parent elements) whose
   * background is visible; opaque white when there is none.
   */
  method FindEffectiveBackgroundColor(page: Page, chain: seq<Node>) returns (bg: Rgba)
    ensures bg == FirstVisible(Backgrounds(page, chain))
  {
    ghost var bgs := Backgrounds(page, chain);
    var i := 0;
    while i < |chain|
      invariant 0 <= i <= |chain|
      invariant FirstVisible(bgs[i..]) == FirstVisible(bgs)
    {
      var parsed := ParseRgb(page.computed(chain[i], BackgroundColor));
      assert bgs[i..][1..] == bgs[i + 1..];
      if parsed.Some? && parsed.value.a > 0.05 {
        return parsed.value;
      }
      i := i + 1;
    }
    return White;
  }

  /** `-1` (darker) on a background whose luminance is above one half, else `+1` (lighter). */
  function Direction(num: Numerics, bg: Rgba): (d: real)
    ensures d == 1.0 || d == -1.0
    ensures d == -1.0 <==> Luminance(num, bg) > 0.5
  {
    if Luminance(num, bg) > 0.5 then -1.0 else 1.0
  }

  /**
   * The `i`-th candidate of the search: the text's lightness moved `i`
   * steps of 0.03 towards `Direction`, clamped into [0,1], hue and
   * saturation kept, alpha carried over.
   */
  function Candidate(num: Numerics, text: Rgba, bg: Rgba, i: nat): (c: Rgba)
    ensures c.a == text.a
  {
    Lightened(num, RgbToHsl(num, text), Direction(num, bg), i, text.a)
  }

  /** The colour of hue and saturation `hsl` at its lightness moved `i` steps of 0.03 in direction `dir`, with alpha `a`. */
  function Lightened(num: Numerics, hsl: Hsl, dir: real, i: nat, a: real): (c: Rgba)
    ensures c.a == a
  {
    var rgb := HslToRgb(num, Hsl(hsl.h, hsl.s, Clamp01(hsl.l + (i as real) * 0.03 * dir)));
    Rgba(rgb.0, rgb.1, rgb.2, a)
  }

  /** Number of lightness steps tried. */
  const Steps := 20

  /**
   * The search from step `i` on, `best` being the best colour so far: a
   * candidate that reaches `minRatio` ends it, a candidate with strictly
   * more contrast than `best` replaces it, and after the last step `best`
   * is the answer.
   */
  function SearchFrom(num: Numerics, text: Rgba, bg: Rgba, minRatio: real, i: nat, best: Rgba): Rgba
    decreases Steps + 1 - i
  {
    if i > Steps then best
    else
      var next := Candidate(num, text, bg, i);
      var nextRatio := ContrastRatio(num, next, bg);
      if nextRatio >= minRatio then next
      else SearchFrom(num, text, bg, minRatio, i + 1, if nextRatio > ContrastRatio(num, best, bg) then next else best)
  }

  /** What `adjustTextForContrast` returns. */
  function AdjustedText(num: Numerics, text: Rgba, bg: Rgba, minRatio: real): Rgba {
    if ContrastRatio(num, text, bg) >= minRatio then text else SearchFrom(num, text, bg, minRatio, 1, text)
  }

  lemma SearchFromStep(num: Numerics, text: Rgba, bg: Rgba, minRatio: real, i: nat, best: Rgba)
    requires 1 <= i <= Steps
    ensures var next := Candidate(num, text, bg, i);
      SearchFrom(num, text, bg, minRatio, i, best)
      == if ContrastRatio(num, next, bg) >= minRatio then next
         else SearchFrom(num, text, bg, minRatio, i + 1, if ContrastRatio(num, next, bg) > ContrastRatio(num, best, bg) then next else best)
  {
  }

  /** The search keeps the alpha and never ends with less contrast than its best so far. */
  lemma {:induction false} SearchFromKeeps(num: Numerics, text: Rgba, bg: Rgba, minRatio: real, i: nat, best: Rgba)
    requires best.a == text.a && ContrastRatio(num, best, bg) < minRatio
    ensures SearchFrom(num, text, bg, minRatio, i, best).a == text.a
    ensures ContrastRatio(num, SearchFrom(num, text, bg, minRatio, i, best), bg) >= ContrastRatio(num, best, bg)
    decreases Steps + 1 - i
  {
    if i <= Steps {
      var next := Candidate(num, text, bg, i);
      if ContrastRatio(num, next, bg) < minRatio {
        SearchFromKeeps(num, text, bg, minRatio, i + 1,
          if ContrastRatio(num, next, bg) > ContrastRatio(num, best, bg) then next else best);
      }
    }
  }

  /** The search ends at the first candidate from step `i` on that reaches `minRatio`. */
  lemma {:induction false} SearchFromFirst(num: Numerics, text: Rgba, bg: Rgba, minRatio: real, i: nat, best: Rgba, k: nat)
    requires i <= k <= Steps
    requires ContrastRatio(num, Candidate(num, text, bg, k), bg) >= minRatio
    requires forall j :: i <= j < k ==> ContrastRatio(num, Candidate(num, text, bg, j), bg) < minRatio
    ensures SearchFrom(num, text, bg, minRatio, i, best) == Candidate(num, text, bg, k)
    decreases k - i
  {
    if i < k {
      var next := Candidate(num, text, bg, i);
      SearchFromFirst(num, text, bg, minRatio, i + 1,
        if ContrastRatio(num, next, bg) > ContrastRatio(num, best, bg) then next else best, k);
    }
  }

  /**
   * When no candidate from step `i` on reaches `minRatio`, the search ends
   * with `best` or one of those candidates, and nothing it passed has more
   * contrast.
   */
  lemma {:induction false} SearchFromBest(num: Numerics, text: Rgba, bg: Rgba, minRatio: real, i: nat, best: Rgba)
    requires 1 <= i
    requires forall j :: i <= j <= Steps ==> ContrastRatio(num, Candidate(num, text, bg, j), bg) < minRatio
    ensures var res := SearchFrom(num, text, bg, minRatio, i, best);
      (res == best || exists j :: i <= j <= Steps && res == Candidate(num, text, bg, j))
      && ContrastRatio(num, best, bg) <= ContrastRatio(num, res, bg)
      && forall j :: i <= j <= Steps ==> ContrastRatio(num, Candidate(num, text, bg, j), bg) <= ContrastRatio(num, res, bg)
    decreases Steps + 1 - i
  {
    if i <= Steps {
      var next := Candidate(num, text, bg, i);
      var best' := if ContrastRatio(num, next, bg) > ContrastRatio(num, best, bg) then next else best;
      SearchFromBest(num, text, bg, minRatio, i + 1, best');
    }
  }

  /** The text comes back unchanged when it already has the contrast `minRatio`. */
  lemma AdjustedUnchangedWhenEnough(num: Numerics, text: Rgba, bg: Rgba, minRatio: real)
    requires ContrastRatio(num, text, bg) >= minRatio
    ensures AdjustedText(num, text, bg, minRatio) == text
  {
  }

  /** The result keeps the text's alpha and has at least the text's contrast. */
  lemma AdjustedKeepsAlphaAndContrast(num: Numerics, text: Rgba, bg: Rgba, minRatio: real)
    ensures AdjustedText(num, text, bg, minRatio).a == text.a
    ensures ContrastRatio(num, AdjustedText(num, text, bg, minRatio), bg) >= ContrastRatio(num, text, bg)
  {
    if ContrastRatio(num, text, bg) < minRatio {
      SearchFromKeeps(num, text, bg, minRatio, 1, text);
    }
  }

  /** Otherwise the result is the first of the 20 candidates that reaches `minRatio`, if one does. */
  lemma AdjustedFirstReaching(num: Numerics, text: Rgba, bg: Rgba, minRatio: real, k: nat)
    requires ContrastRatio(num, text, bg) < minRatio
    requires 1 <= k <= Steps && ContrastRatio(num, Candidate(num, text, bg, k), bg) >= minRatio
    requires forall j :: 1 <= j < k ==> ContrastRatio(num, Candidate(num, text, bg, j), bg) < minRatio
    ensures AdjustedText(num, text, bg, minRatio) == Candidate(num, text, bg, k)
  {
    SearchFromFirst(num, text, bg, minRatio, 1, text, k);
  }

  /** And when none does, it is the text or a candidate, with the best contrast of all of them. */
  lemma AdjustedBestSeen(num: Numerics, text: Rgba, bg: Rgba, minRatio: real)
    requires ContrastRatio(num, text, bg) < minRatio
    requires forall j :: 1 <= j <= Steps ==> ContrastRatio(num, Candidate(num, text, bg, j), bg) < minRatio
    ensures var res := AdjustedText(num, text, bg, minRatio);
      (res == text || exists j :: 1 <= j <= Steps && res == Candidate(num, text, bg, j))
      && forall j :: 1 <= j <= Steps ==> ContrastRatio(num, Candidate(num, text, bg, j), bg) <= ContrastRatio(num, res, bg)
  {
    SearchFromBest(num, text, bg, minRatio, 1, text);
  }

  /** One step of the loop: the text's hue and saturation at the lightness `i` steps towards the contrast side. */
  method CandidateAt(num: Numerics, text: Rgba, bg: Rgba, hsl: Hsl, targetDir: real, i: nat) returns (next: Rgba)
    requires hsl == RgbToHsl(num, text) && targetDir == Direction(num, bg)
    ensures next == Candidate(num, text, bg, i)
  {
    var step := (i as real) * 0.03 * targetDir;
    var nextL := Clamp01(hsl.l + step);
    var nextRgb := HslToRgb(num, Hsl(hsl.h, hsl.s, nextL));
    next := Rgba(nextRgb.0, nextRgb.1, nextRgb.2, text.a);
  }

  /**
   * `adjustTextForContrast(text, bg, minRatio)`: the 20-step search loop,
   * tracking the best candidate and returning early at the first one that
   * reaches `minRatio`.
   */
  method AdjustTextForContrast(num: Numerics, text: Rgba, bg: Rgba, minRatio: real) returns (res: Rgba)
    ensures res == AdjustedText(num, text, bg, minRatio)
  {
    var ratio := ContrastRatio(num, text, bg);
    if ratio >= minRatio {
      return text;
    }
    var hsl := RgbToHsl(num, text);
    var targetDir := if Luminance(num, bg) > 0.5 then -1.0 else 1.0;
    assert targetDir == Direction(num, bg);
    var best := text;
    var bestRatio := ratio;
    for i := 1 to Steps + 1
      invariant bestRatio == ContrastRatio(num, best, bg)
      invariant SearchFrom(num, text, bg, minRatio, i, best) == AdjustedText(num, text, bg, minRatio)
    {
      var next := CandidateAt(num, text, bg, hsl, targetDir, i);
      var nextRatio := ContrastRatio(num, next, bg);
      SearchFromStep(num, text, bg, minRatio, i, best);
      if nextRatio > bestRatio {
        bestRatio := nextRatio;
        best := next;
      }
      if nextRatio >= minRatio {
        return next;
      }
    }
    return best;
  }
}
