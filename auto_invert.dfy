/**
 * `useAutoInvertTheme`: the older theme engine. It inverts the lightness of
 * low-saturation ("neutral") colours only, in place, one HTML element at a
 * time, remembering each overwritten inline value in `originals` (first
 * write wins) so that `restoreAll` can put it back. Saturated brand and
 * accent colours are left alone, and so is the text colour on a saturated
 * background.
 */
module AutoInvert {
  import opened Wrappers
  import opened Colors
  import opened ColorTokens
  import opened Dom
  import opened Originals
  import InvertEngine
  import StyleEntries

  /** `COLOR_PROPS`. */
  const AutoColorProps: seq<Prop> :=
    [Color, BackgroundColor, BorderTopColor, BorderRightColor, BorderBottomColor, BorderLeftColor, OutlineColor, CaretColor]

  /** `STRING_COLOR_PROPS`. */
  const AutoStringProps: seq<Prop> := [BackgroundImage, BoxShadow, TextShadow]

  /** The default `saturationThreshold` of `shouldInvertNeutral`, also the bound of `isNeutralBackground`. */
  const SaturationThreshold: real := 0.45

  /** The default `alphaThreshold` of `shouldInvertNeutral`. */
  const AlphaThreshold: real := 0.02

  /** The alpha above which `isNeutralBackground` judges the background colour rather than the background image. */
  const VisibleBackgroundAlpha: real := 0.05

  /** No property is listed twice, and no property is in both lists. */
  lemma AutoPropsDistinct()
    ensures forall i :: 0 <= i < |AutoColorProps| ==> AutoColorProps[i] !in AutoColorProps[..i]
    ensures forall i :: 0 <= i < |AutoStringProps| ==> AutoStringProps[i] !in AutoStringProps[..i]
    ensures forall p :: p in AutoStringProps ==> p !in AutoColorProps
  {
  }

  // ---------------------------------------------------------------------------
  // Which colours are neutral
  // ---------------------------------------------------------------------------

  /**
   * `shouldInvertNeutral(rgba)` with its default thresholds: a colour that
   * parsed, is visible (alpha above 0.02) and has a saturation of at most 0.45.
   */
  function ShouldInvertNeutral(num: Numerics, c: Option<Rgba>): (r: bool)
    ensures r <==> c.Some? && c.value.a > AlphaThreshold && RgbToHsl(num, c.value).s <= SaturationThreshold
  {
    if c.None? then false
    else if c.value.a <= AlphaThreshold then false
    else RgbToHsl(num, c.value).s <= SaturationThreshold
  }

  /** The replacer `applyToElement` hands to `replaceRgbInString`: a neutral colour becomes its inversion, anything else stays. */
  function NeutralReplacer(num: Numerics): Option<Rgba> -> Option<Rgba> {
    parsed => if ShouldInvertNeutral(num, parsed) then Some(InvertByLightness(num, parsed.value)) else None
  }

  /** The saturation of a token that parses as a colour. */
  function TokenSaturation(num: Numerics, tok: string): Option<real> {
    match ParseRgb(tok)
    case None => None
    case Some(c) => Some(RgbToHsl(num, c).s)
  }

  /** The saturations of the tokens, `None` for a token that does not parse. */
  function Saturations(num: Numerics, toks: seq<string>): (r: seq<Option<real>>)
    ensures |r| == |toks| && forall i :: 0 <= i < |toks| ==> r[i] == TokenSaturation(num, toks[i])
  {
    seq(|toks|, i requires 0 <= i < |toks| => TokenSaturation(num, toks[i]))
  }

  /** The largest of the present values, and 0 when there is none (`maxS` after the loop). */
  function MaxPresent(xs: seq<Option<real>>): (m: real)
    ensures m >= 0.0
  {
    if xs == [] then 0.0
    else
      var rest := MaxPresent(xs[..|xs| - 1]);
      match xs[|xs| - 1]
      case None => rest
      case Some(s) => if s > rest then s else rest
  }

  /** The maximum is at most `t` exactly when every present value is. */
  lemma {:induction false} MaxPresentAtMost(xs: seq<Option<real>>, t: real)
    requires t >= 0.0
    ensures MaxPresent(xs) <= t <==> forall i :: 0 <= i < |xs| && xs[i].Some? ==> xs[i].value <= t
  {
    if xs != [] {
      var n := |xs| - 1;
      var init := xs[..n];
      MaxPresentAtMost(init, t);
      assert forall i :: 0 <= i < n ==> init[i] == xs[i];
    }
  }

  /** Every token that parses has a saturation of at most `t`. */
  ghost predicate AllSaturationsAtMost(num: Numerics, toks: seq<string>, t: real) {
    forall i :: 0 <= i < |toks| && TokenSaturation(num, toks[i]).Some? ==> TokenSaturation(num, toks[i]).value <= t
  }

  /** The largest saturation among the tokens is at most `t` exactly when every parsed saturation is. */
  lemma MaxSaturationAtMost(num: Numerics, toks: seq<string>, t: real)
    requires t >= 0.0
    ensures MaxPresent(Saturations(num, toks)) <= t <==> AllSaturationsAtMost(num, toks, t)
  {
    MaxPresentAtMost(Saturations(num, toks), t);
  }

  /**
   * `isNeutralBackground(cs)` for the computed background colour and image
   * of an element: a visible background colour decides by itself; otherwise
   * no image (empty or `none`) is neutral, and an image is neutral when none
   * of its colours is saturated above 0.45.
   */
  function NeutralBackground(num: Numerics, bgColor: string, bgImage: string): bool {
    var bg := ParseRgb(bgColor);
    if bg.Some? && bg.value.a > VisibleBackgroundAlpha then ShouldInvertNeutral(num, bg)
    else if bgImage == [] || bgImage == "none" then true
    else MaxPresent(Saturations(num, Matches(bgImage))) <= SaturationThreshold
  }

  /** What `isNeutralBackground` decides, stated without the running maximum. */
  lemma NeutralBackgroundMeaning(num: Numerics, bgColor: string, bgImage: string)
    ensures var bg := ParseRgb(bgColor);
      NeutralBackground(num, bgColor, bgImage) <==>
        if bg.Some? && bg.value.a > VisibleBackgroundAlpha then RgbToHsl(num, bg.value).s <= SaturationThreshold
        else bgImage == [] || bgImage == "none" || AllSaturationsAtMost(num, Matches(bgImage), SaturationThreshold)
  {
    MaxSaturationAtMost(num, Matches(bgImage), SaturationThreshold);
  }

  /** `isNeutralBackground(cs)`. */
  method IsNeutralBackground(num: Numerics, bgColor: string, bgImage: string) returns (neutral: bool)
    ensures neutral == NeutralBackground(num, bgColor, bgImage)
  {
    var bg := ParseRgb(bgColor);
    if bg.Some? && bg.value.a > VisibleBackgroundAlpha {
      return ShouldInvertNeutral(num, bg);
    }
    if bgImage == [] || bgImage == "none" {
      return true;
    }
    var maxS := MaxSaturationOf(num, Matches(bgImage));
    return maxS <= SaturationThreshold;
  }

  /** The loop of `isNeutralBackground` over the colour tokens of the background image. */
  method MaxSaturationOf(num: Numerics, matches: seq<string>) returns (maxS: real)
    ensures maxS == MaxPresent(Saturations(num, matches))
  {
    ghost var sats := Saturations(num, matches);
    maxS := 0.0;
    for i := 0 to |matches|
      invariant maxS == MaxPresent(sats[..i])
    {
      assert sats[..i + 1][..i] == sats[..i];
      var parsed := ParseRgb(matches[i]);
      if parsed.None? {
        continue;
      }
      var s := RgbToHsl(num, parsed.value).s;
      if s > maxS {
        maxS := s;
      }
    }
    assert sats[..|matches|] == sats;
  }

  // ---------------------------------------------------------------------------
  // What applyToElement writes
  // ---------------------------------------------------------------------------

  /** The neutrality of the background of `el` on the page. */
  function NeutralBgOf(num: Numerics, page: Page, el: Node): bool {
    NeutralBackground(num, page.computed(el, BackgroundColor), page.computed(el, BackgroundImage))
  }

  /** A colour property the first loop rewrites: a neutral computed colour, and not the text or caret colour on a saturated background. */
  predicate ColorRewritten(num: Numerics, page: Page, el: Node, neutralBg: bool, p: Prop) {
    ShouldInvertNeutral(num, ParseRgb(page.computed(el, p))) && !((p == Color || p == CaretColor) && !neutralBg)
  }

  /** The assignments of the first loop of `applyToElement` over the colour properties `ps`. */
  function NeutralColorWrites(num: Numerics, page: Page, el: Node, neutralBg: bool, ps: seq<Prop>): (w: Style)
    ensures forall p :: p in w ==> p in ps
  {
    if ps == [] then map[]
    else
      var w := NeutralColorWrites(num, page, el, neutralBg, ps[..|ps| - 1]);
      var p := ps[|ps| - 1];
      if !ColorRewritten(num, page, el, neutralBg, p) then w
      else w[p := RgbaToString(InvertByLightness(num, ParseRgb(page.computed(el, p)).value), num.formatAlpha)]
  }

  /** The writes for one more colour property. */
  lemma ColorWritesStep(num: Numerics, page: Page, el: Node, neutralBg: bool, ps: seq<Prop>, i: nat)
    requires i < |ps|
    ensures NeutralColorWrites(num, page, el, neutralBg, ps[..i + 1])
         == if !ColorRewritten(num, page, el, neutralBg, ps[i]) then NeutralColorWrites(num, page, el, neutralBg, ps[..i])
            else NeutralColorWrites(num, page, el, neutralBg, ps[..i])[ps[i] :=
                   RgbaToString(InvertByLightness(num, ParseRgb(page.computed(el, ps[i])).value), num.formatAlpha)]
  {
    assert ps[..i + 1][..i] == ps[..i];
  }

  /**
   * The first loop writes exactly the rewritten properties, each as the
   * serialised lightness inversion of its computed colour.
   */
  lemma PreReadColorWritesMeaning(num: Numerics, page: Page, el: Node, neutralBg: bool, ps: seq<Prop>)
    ensures forall p :: p in NeutralColorWrites(num, page, el, neutralBg, ps) <==> p in ps && ColorRewritten(num, page, el, neutralBg, p)
    ensures forall p :: p in NeutralColorWrites(num, page, el, neutralBg, ps) ==>
      ColorRewritten(num, page, el, neutralBg, p)
      && NeutralColorWrites(num, page, el, neutralBg, ps)[p]
        == RgbaToString(InvertByLightness(num, ParseRgb(page.computed(el, p)).value), num.formatAlpha)
  {
    SnapshotColorWrites(num, page, el, neutralBg, ps);
    SnapshotWritesMeaning((p: Prop) => NeutralColorOf(num, page, el, neutralBg, p), ps);
  }

  /** What the second loop makes of a computed composite value. */
  function NeutralText(num: Numerics, current: string): string {
    ReplaceRgbInString(current, NeutralReplacer(num), num.formatAlpha)
  }

  /** A composite property the second loop rewrites: a non-empty value other than `none` that the replacement changes. */
  predicate StringRewritten(num: Numerics, page: Page, el: Node, p: Prop) {
    var current := page.computed(el, p);
    current != [] && current != "none" && NeutralText(num, current) != current
  }

  /** The assignments of the second loop of `applyToElement` over the composite properties `ps`. */
  function NeutralStringWrites(num: Numerics, page: Page, el: Node, ps: seq<Prop>): (w: Style)
    ensures forall p :: p in w ==> p in ps
  {
    if ps == [] then map[]
    else
      var w := NeutralStringWrites(num, page, el, ps[..|ps| - 1]);
      var p := ps[|ps| - 1];
      if StringRewritten(num, page, el, p) then w[p := NeutralText(num, page.computed(el, p))] else w
  }

  /** The writes for one more composite property. */
  lemma StringWritesStep(num: Numerics, page: Page, el: Node, ps: seq<Prop>, i: nat)
    requires i < |ps|
    ensures NeutralStringWrites(num, page, el, ps[..i + 1])
         == if StringRewritten(num, page, el, ps[i]) then NeutralStringWrites(num, page, el, ps[..i])[ps[i] := NeutralText(num, page.computed(el, ps[i]))]
            else NeutralStringWrites(num, page, el, ps[..i])
  {
    assert ps[..i + 1][..i] == ps[..i];
  }

  /**
   * The second loop writes exactly the composite properties whose value the
   * replacement changes, each as the replaced text.
   */
  lemma PreReadStringWritesMeaning(num: Numerics, page: Page, el: Node, ps: seq<Prop>)
    ensures forall p :: p in NeutralStringWrites(num, page, el, ps) <==> p in ps && StringRewritten(num, page, el, p)
    ensures forall p :: p in NeutralStringWrites(num, page, el, ps) ==>
      NeutralStringWrites(num, page, el, ps)[p] == NeutralText(num, page.computed(el, p))
      && NeutralStringWrites(num, page, el, ps)[p] != page.computed(el, p)
  {
    SnapshotStringWrites(num, page, el, ps);
    SnapshotWritesMeaning((p: Prop) => NeutralStringOf(num, page, el, p), ps);
  }

  /** A composite value none of whose colour tokens is a neutral colour is never rewritten. */
  lemma StringKeptWithoutNeutral(num: Numerics, page: Page, el: Node, p: Prop)
    requires var toks := Matches(page.computed(el, p));
      forall i :: 0 <= i < |toks| ==> !ShouldInvertNeutral(num, ParseRgb(toks[i]))
    ensures !StringRewritten(num, page, el, p)
  {
  }

  /** Everything `applyToElement(el)` writes to an HTML element: both loops. */
  function AutoWrites(num: Numerics, page: Page, el: Node): Style {
    NeutralColorWrites(num, page, el, NeutralBgOf(num, page, el), AutoColorProps) + NeutralStringWrites(num, page, el, AutoStringProps)
  }

  /** The two loops write disjoint sets of properties. */
  lemma AutoWritesDisjoint(num: Numerics, page: Page, el: Node)
    ensures NeutralColorWrites(num, page, el, NeutralBgOf(num, page, el), AutoColorProps).Keys
         !! NeutralStringWrites(num, page, el, AutoStringProps).Keys
  {
    AutoPropsDistinct();
  }

  /** The inline values of the properties `ps` of `el`: what `record` stores before they are overwritten. */
  function Found(inline: Styles, el: Node, ps: set<Prop>): (w: Style)
    ensures w.Keys == ps && forall p :: p in w ==> w[p] == StyleIn(inline, el, p)
  {
    map p | p in ps :: StyleIn(inline, el, p)
  }

  /** Every inline value that differs from `base` is recorded in `originals`. */
  ghost predicate DriftRecorded(inline: Styles, base: Styles, originals: map<Node, Style>) {
    forall el, p :: StyleIn(inline, el, p) != StyleIn(base, el, p) ==> el in originals && p in originals[el]
  }

  /** `record(el, p, el.style[p])` followed by `el.style[p] = v` keeps every record at `base` and every change recorded. */
  lemma RecordWriteOk(inline: Styles, base: Styles, originals: map<Node, Style>, el: Node, p: Prop, v: string)
    requires OriginalsOk(base, originals) && DriftRecorded(inline, base, originals)
    ensures var o' := Kept(originals, el, map[p := StyleIn(inline, el, p)]);
      OriginalsOk(base, o') && DriftRecorded(Put(inline, el, map[p := v]), base, o')
  {
    var w := map[p := StyleIn(inline, el, p)];
    var r := RecordOf(originals, el);
    if p in r {
      assert w + r == r;
      assert originals[el := r] == originals;
    } else {
      assert AtBase(base, el, w);
      KeptOk(base, originals, el, w);
    }
    KeptCovers(originals, el, w);
    DriftAfterWrite(inline, base, originals, Kept(originals, el, w), el, p, v);
  }

  /** Recording never forgets a record, and the recorded property is then recorded. */
  lemma KeptCovers(originals: map<Node, Style>, el: Node, w: Style)
    ensures forall e, q :: e in originals && q in originals[e] ==> e in Kept(originals, el, w) && q in Kept(originals, el, w)[e]
    ensures forall q :: q in w ==> el in Kept(originals, el, w) && q in Kept(originals, el, w)[el]
  {
  }

  /** A write to a recorded property keeps every change recorded. */
  lemma DriftAfterWrite(inline: Styles, base: Styles, originals: map<Node, Style>, originals': map<Node, Style>,
                        el: Node, p: Prop, v: string)
    requires DriftRecorded(inline, base, originals)
    requires forall e, q :: e in originals && q in originals[e] ==> e in originals' && q in originals'[e]
    requires el in originals' && p in originals'[el]
    ensures DriftRecorded(Put(inline, el, map[p := v]), base, originals')
  {
    var inline' := Put(inline, el, map[p := v]);
    forall e, q | StyleIn(inline', e, q) != StyleIn(base, e, q) ensures e in originals' && q in originals'[e] {
      if e != el || q != p {
        assert StyleIn(inline, e, q) != StyleIn(base, e, q);
      }
    }
  }

  /** The values `record` collects for a batch, one property after another, are the batch of pre-write values. */
  lemma RecordStep(inline0: Styles, originals0: map<Node, Style>, el: Node, done: Style, p: Prop, v: string)
    requires p !in done
    ensures StyleIn(Put(inline0, el, done), el, p) == StyleIn(inline0, el, p)
    ensures Kept(Kept(originals0, el, Found(inline0, el, done.Keys)), el, map[p := StyleIn(inline0, el, p)])
         == Kept(originals0, el, Found(inline0, el, done[p := v].Keys))
    ensures Put(Put(inline0, el, done), el, map[p := v]) == Put(inline0, el, done[p := v])
  {
    KeptOne(originals0, el, Found(inline0, el, done.Keys), p, StyleIn(inline0, el, p));
    assert Found(inline0, el, done.Keys)[p := StyleIn(inline0, el, p)] == Found(inline0, el, done[p := v].Keys);
    PutOne(inline0, el, done, p, v);
  }

  /** The two loops of one call, in sequence, are one batch of writes and one batch of records. */
  lemma ComposeLoops(inline0: Styles, originals0: map<Node, Style>, el: Node, wc: Style, ws: Style)
    requires wc.Keys !! ws.Keys
    ensures Put(Put(inline0, el, wc), el, ws) == Put(inline0, el, wc + ws)
    ensures Kept(Kept(originals0, el, Found(inline0, el, wc.Keys)), el, Found(Put(inline0, el, wc), el, ws.Keys))
         == Kept(originals0, el, Found(inline0, el, (wc + ws).Keys))
  {
    PutPut(inline0, el, wc, ws);
    assert Found(Put(inline0, el, wc), el, ws.Keys) == Found(inline0, el, ws.Keys);
    KeptTwice(originals0, el, Found(inline0, el, wc.Keys), Found(inline0, el, ws.Keys));
    assert Found(inline0, el, wc.Keys) + Found(inline0, el, ws.Keys) == Found(inline0, el, (wc + ws).Keys);
  }

  /** What `applyToElement(el)` leaves in the inline styles: the writes for an HTML element, nothing for anything else. */
  function InlineAfterAuto(kinds: NodeKinds, writes: Node -> Style, inline: Styles, el: Node): Styles {
    if kinds.isHtml(el) then Put(inline, el, writes(el)) else inline
  }

  /** What `applyToElement` writes, element by element, on one page. */
  function WritesOn(num: Numerics, page: Page): Node -> Style {
    (el: Node) => AutoWrites(num, page, el)
  }

  /** `el` shows what `applyToElement` writes to it (nothing to show unless it is an HTML element). */
  ghost predicate ShownNeutral(kinds: NodeKinds, writes: Node -> Style, inline: Styles, el: Node) {
    kinds.isHtml(el) ==> Shows(inline, el, writes(el))
  }

  /** The inline styles of `el` hold every assignment of `w`. */
  ghost predicate Shows(inline: Styles, el: Node, w: Style) {
    forall p :: p in w ==> StyleIn(inline, el, p) == w[p]
  }

  /** Writes to one element do not change what another shows, and the element shows what was written. */
  lemma ShowsAfterPut(inline: Styles, el: Node, w: Style, e: Node, we: Style)
    ensures Shows(Put(inline, el, w), el, w)
    ensures e != el ==> (Shows(Put(inline, el, w), e, we) <==> Shows(inline, e, we))
  {
  }

  /** Every element of `s` shows what `applyToElement` writes to it. */
  ghost predicate SettledAuto(kinds: NodeKinds, writes: Node -> Style, inline: Styles, s: seq<Node>) {
    forall el :: el in s ==> ShownNeutral(kinds, writes, inline, el)
  }

  /** Nothing outside `s` has changed its inline styles. */
  ghost predicate StylesOutside(s: seq<Node>, inline: Styles, inline': Styles) {
    forall el, p :: el !in s ==> StyleIn(inline', el, p) == StyleIn(inline, el, p)
  }

  /** Applying to one element of `all` touches nothing outside `all`. */
  lemma AutoStepOutside(kinds: NodeKinds, writes: Node -> Style, inline0: Styles, inline: Styles, all: seq<Node>, i: nat)
    requires i < |all| && StylesOutside(all, inline0, inline)
    ensures StylesOutside(all, inline0, InlineAfterAuto(kinds, writes, inline, all[i]))
  {
    var inline' := InlineAfterAuto(kinds, writes, inline, all[i]);
    forall e, p | e !in all ensures StyleIn(inline', e, p) == StyleIn(inline0, e, p) {
      assert e != all[i];
    }
  }

  /**
   * Applying to `all[i]` after `all[..i]` shows `all[..i + 1]`: the writes of
   * an element depend only on the page, so applying twice shows the same.
   */
  lemma AutoStepShown(kinds: NodeKinds, writes: Node -> Style, inline: Styles, all: seq<Node>, i: nat)
    requires i < |all|
    requires forall j :: 0 <= j < i ==> ShownNeutral(kinds, writes, inline, all[j])
    ensures var inline' := InlineAfterAuto(kinds, writes, inline, all[i]);
      forall j :: 0 <= j < i + 1 ==> ShownNeutral(kinds, writes, inline', all[j])
  {
    var el := all[i];
    var inline' := InlineAfterAuto(kinds, writes, inline, el);
    forall j | 0 <= j < i + 1 ensures ShownNeutral(kinds, writes, inline', all[j]) {
      var e := all[j];
      if kinds.isHtml(e) && kinds.isHtml(el) {
        ShowsAfterPut(inline, el, writes(el), e, writes(e));
        if e != el {
          assert ShownNeutral(kinds, writes, inline, e);
        }
      } else if kinds.isHtml(e) {
        assert ShownNeutral(kinds, writes, inline, e);
      }
    }
  }

  /** The loop over `s` settles all of `s` once it has gone through it. */
  lemma SettledOfLoop(kinds: NodeKinds, writes: Node -> Style, inline: Styles, s: seq<Node>)
    requires forall j :: 0 <= j < |s| ==> ShownNeutral(kinds, writes, inline, s[j])
    ensures SettledAuto(kinds, writes, inline, s)
  {
    forall el | el in s ensures ShownNeutral(kinds, writes, inline, el) {
      var j :| 0 <= j < |s| && s[j] == el;
    }
  }

  /** Settling `s` without touching anything outside it keeps what was settled before settled. */
  lemma SettledAutoGrow(kinds: NodeKinds, writes: Node -> Style, done: seq<Node>, s: seq<Node>, inline: Styles, inline': Styles)
    requires SettledAuto(kinds, writes, inline, done) && SettledAuto(kinds, writes, inline', s)
    requires StylesOutside(s, inline, inline')
    ensures SettledAuto(kinds, writes, inline', done + s)
  {
    forall el | el in done + s ensures ShownNeutral(kinds, writes, inline', el) {
      if el !in s {
        assert ShownNeutral(kinds, writes, inline, el);
      }
    }
  }

  // ---------------------------------------------------------------------------
  // applyToElement as it runs: the computed style is live
  // ---------------------------------------------------------------------------

  /** What the first loop writes for `p` when the page is `page`, if anything. */
  function NeutralColorOf(num: Numerics, page: Page, el: Node, neutralBg: bool, p: Prop): Option<string> {
    if ColorRewritten(num, page, el, neutralBg, p)
    then Some(RgbaToString(InvertByLightness(num, ParseRgb(page.computed(el, p)).value), num.formatAlpha))
    else None
  }

  /** What the second loop writes for `p` when the page is `page`, if anything. */
  function NeutralStringOf(num: Numerics, page: Page, el: Node, p: Prop): Option<string> {
    if StringRewritten(num, page, el, p) then Some(NeutralText(num, page.computed(el, p))) else None
  }

  /** What a loop assigns to a property, if anything, once the assignments `w` before it have been made. */
  type Reader = (Style, Prop) -> Option<string>

  /**
   * The assignments of a loop over `ps` that reads each property from the
   * live computed style: `p` is read once the assignments for the
   * properties before it have been made, and gets what `read` gives.
   */
  function LiveWrites(read: Reader, ps: seq<Prop>): (w: Style)
    ensures forall p :: p in w ==> p in ps
  {
    if ps == [] then map[]
    else
      var p := ps[|ps| - 1];
      var w := LiveWrites(read, ps[..|ps| - 1]);
      assert forall q :: q in ps <==> q in ps[..|ps| - 1] || q == p;
      match read(w, p)
      case Some(v) => w[p := v]
      case None => w
  }

  /**
   * How the first loop of `applyToElement` reads: `cs` is the live computed
   * style, so a property is read on the page the writes before it left (a
   * border drawn in `currentColor` is read after `color` was rewritten).
   */
  function ColorReader(num: Numerics, b: Browser, inline: Styles, el: Node, neutralBg: bool): Reader {
    (w: Style, p: Prop) => NeutralColorOf(num, PageAt(b, Put(inline, el, w)), el, neutralBg, p)
  }

  /** How the second loop reads. */
  function StringReader(num: Numerics, b: Browser, inline: Styles, el: Node): Reader {
    (w: Style, p: Prop) => NeutralStringOf(num, PageAt(b, Put(inline, el, w)), el, p)
  }

  /** The first loop of `applyToElement` over `ps` as it runs. */
  function LiveColorWrites(num: Numerics, b: Browser, inline: Styles, el: Node, neutralBg: bool, ps: seq<Prop>): Style {
    LiveWrites(ColorReader(num, b, inline, el, neutralBg), ps)
  }

  /** The second loop of `applyToElement` over `ps` as it runs. */
  function LiveStringWrites(num: Numerics, b: Browser, inline: Styles, el: Node, ps: seq<Prop>): Style {
    LiveWrites(StringReader(num, b, inline, el), ps)
  }

  /** One more property, read after the assignments for the ones before it. */
  lemma LiveWritesSnoc(read: Reader, ps: seq<Prop>, i: nat)
    requires i < |ps|
    ensures var w := LiveWrites(read, ps[..i]);
      LiveWrites(read, ps[..i + 1]) ==
        match read(w, ps[i])
        case Some(v) => w[ps[i] := v]
        case None => w
  {
    assert ps[..i + 1][..i] == ps[..i];
  }

  /** One more property, once what it reads is known. */
  lemma LiveWritesNext(read: Reader, ps: seq<Prop>, k: nat, w: Style, v: Option<string>)
    requires 0 < k <= |ps|
    requires LiveWrites(read, ps[..k - 1]) == w && read(w, ps[k - 1]) == v
    ensures LiveWrites(read, ps[..k]) == match v case Some(x) => w[ps[k - 1] := x] case None => w
  {
    var i := k - 1;
    LiveWritesSnoc(read, ps, i);
    assert ps[..i + 1] == ps[..k];
  }

  /** Properties that nothing written before them makes the loop assign add nothing. */
  lemma {:induction false} LiveWritesQuiet(read: Reader, ps: seq<Prop>, j: nat, k: nat)
    requires j <= k <= |ps|
    requires forall i, w :: j <= i < k ==> read(w, ps[i]).None?
    ensures LiveWrites(read, ps[..k]) == LiveWrites(read, ps[..j])
  {
    if k > j {
      LiveWritesQuiet(read, ps, j, k - 1);
      var w := LiveWrites(read, ps[..k - 1]);
      assert read(w, ps[k - 1]).None?;
      LiveWritesNext(read, ps, k, w, None);
      assert LiveWrites(read, ps[..k]) == w;
    } else {
      assert k == j;
    }
  }

  /** The later properties of a list without repeats leave the assignment to `ps[i]` as it was. */
  lemma {:induction false} LiveWritesLater(read: Reader, ps: seq<Prop>, i: nat)
    requires StyleEntries.Distinct(ps) && i < |ps|
    ensures var w, w' := LiveWrites(read, ps), LiveWrites(read, ps[..i + 1]);
      (ps[i] in w <==> ps[i] in w') && (ps[i] in w ==> w[ps[i]] == w'[ps[i]])
  {
    var n := |ps| - 1;
    if i < n {
      var init := ps[..n];
      StyleEntries.DistinctPrefix(ps, n);
      LiveWritesLater(read, init, i);
      assert init[..i + 1] == ps[..i + 1];
      assert ps[n] != ps[i] by {
        assert ps[i] in ps[..n];
      }
      LiveWritesSnoc(read, ps, n);
      assert ps[..n + 1] == ps;
    } else {
      assert ps[..i + 1] == ps;
    }
  }

  /**
   * Over a list without repeats, the loop assigns exactly the properties
   * `read` gives a value for at their turn, each that value.
   */
  lemma LiveWritesMeaning(read: Reader, ps: seq<Prop>)
    requires StyleEntries.Distinct(ps)
    ensures var w := LiveWrites(read, ps);
      forall i :: 0 <= i < |ps| ==>
        var v := read(LiveWrites(read, ps[..i]), ps[i]);
        (ps[i] in w <==> v.Some?) && (ps[i] in w ==> w[ps[i]] == v.value)
  {
    forall i | 0 <= i < |ps|
      ensures var w := LiveWrites(read, ps);
        var v := read(LiveWrites(read, ps[..i]), ps[i]);
        (ps[i] in w <==> v.Some?) && (ps[i] in w ==> w[ps[i]] == v.value)
    {
      LiveWritesLater(read, ps, i);
      LiveWritesSnoc(read, ps, i);
      assert ps[i] !in LiveWrites(read, ps[..i]);
    }
  }

  /** Two readers that agree on every property not yet assigned give the same assignments over a list without repeats. */
  lemma {:induction false} LiveWritesAgree(read1: Reader, read2: Reader, ps: seq<Prop>)
    requires StyleEntries.Distinct(ps)
    requires forall w, q :: q in ps && q !in w ==> read1(w, q) == read2(w, q)
    ensures LiveWrites(read1, ps) == LiveWrites(read2, ps)
  {
    if ps != [] {
      var n := |ps| - 1;
      StyleEntries.DistinctPrefix(ps, n);
      LiveWritesAgree(read1, read2, ps[..n]);
      var w := LiveWrites(read1, ps[..n]);
      assert ps[n] !in w by {
        assert ps[n] !in ps[..n];
      }
      assert read1(w, ps[n]) == read2(w, ps[n]);
      LiveWritesSnoc(read1, ps, n);
      LiveWritesSnoc(read2, ps, n);
      assert ps[..n + 1] == ps;
    }
  }

  /**
   * Over a list without repeats, the first loop writes exactly the
   * properties that are rewritten at their turn, each as the serialised
   * lightness inversion of the colour it has at that turn: its computed
   * value on the page after the writes for the properties before it.
   */
  lemma NeutralColorWritesMeaning(num: Numerics, b: Browser, inline: Styles, el: Node, neutralBg: bool, ps: seq<Prop>)
    requires StyleEntries.Distinct(ps)
    ensures var w := LiveColorWrites(num, b, inline, el, neutralBg, ps);
      forall i :: 0 <= i < |ps| ==>
        var at := PageAt(b, Put(inline, el, LiveColorWrites(num, b, inline, el, neutralBg, ps[..i])));
        (ps[i] in w <==> ColorRewritten(num, at, el, neutralBg, ps[i]))
        && (ps[i] in w ==> w[ps[i]] == RgbaToString(InvertByLightness(num, ParseRgb(at.computed(el, ps[i])).value), num.formatAlpha))
  {
    LiveWritesMeaning(ColorReader(num, b, inline, el, neutralBg), ps);
  }

  /**
   * Over a list without repeats, the second loop writes exactly the
   * composite properties whose value at their turn the replacement changes,
   * each as the replaced text.
   */
  lemma NeutralStringWritesMeaning(num: Numerics, b: Browser, inline: Styles, el: Node, ps: seq<Prop>)
    requires StyleEntries.Distinct(ps)
    ensures var w := LiveStringWrites(num, b, inline, el, ps);
      forall i :: 0 <= i < |ps| ==>
        var at := PageAt(b, Put(inline, el, LiveStringWrites(num, b, inline, el, ps[..i])));
        (ps[i] in w <==> StringRewritten(num, at, el, ps[i]))
        && (ps[i] in w ==> w[ps[i]] == NeutralText(num, at.computed(el, ps[i])) && w[ps[i]] != at.computed(el, ps[i]))
  {
    LiveWritesMeaning(StringReader(num, b, inline, el), ps);
  }

  /** On a saturated background the text and caret colours are never rewritten, whatever the loop reads. */
  lemma {:induction false} TextKeptOnAccentBackground(num: Numerics, b: Browser, inline: Styles, el: Node, ps: seq<Prop>)
    ensures Color !in LiveColorWrites(num, b, inline, el, false, ps)
    ensures CaretColor !in LiveColorWrites(num, b, inline, el, false, ps)
  {
    if ps != [] {
      var n := |ps| - 1;
      TextKeptOnAccentBackground(num, b, inline, el, ps[..n]);
      LiveWritesSnoc(ColorReader(num, b, inline, el, false), ps, n);
      assert ps[..n + 1] == ps;
    }
  }

  /**
   * Everything `applyToElement(el)` writes to an HTML element: the
   * background judged once, before any write, then both loops, each
   * reading the live computed style.
   */
  function LiveAutoWrites(num: Numerics, b: Browser, inline: Styles, el: Node): Style {
    var neutralBg := NeutralBgOf(num, PageAt(b, inline), el);
    var wc := LiveColorWrites(num, b, inline, el, neutralBg, AutoColorProps);
    wc + LiveStringWrites(num, b, Put(inline, el, wc), el, AutoStringProps)
  }

  /** The inline styles after `applyToElement(el)`. */
  function InlineAfterLive(kinds: NodeKinds, num: Numerics, b: Browser, inline: Styles, el: Node): Styles {
    if kinds.isHtml(el) then Put(inline, el, LiveAutoWrites(num, b, inline, el)) else inline
  }

  /** What a pass writes to an HTML element, given the inline styles the elements before it left. */
  type PassWriter = (Styles, Node) -> Style

  /** A pass over `s` in order: each HTML element gets what `write` gives on the inline styles the elements before it left. */
  function PassFold(kinds: NodeKinds, write: PassWriter, inline: Styles, s: seq<Node>): Styles {
    if s == [] then inline
    else
      var before, el := PassFold(kinds, write, inline, s[..|s| - 1]), s[|s| - 1];
      if kinds.isHtml(el) then Put(before, el, write(before, el)) else before
  }

  /** `applyToElement` as a pass writer: each element reads the page the elements before it left. */
  function LiveWriter(num: Numerics, b: Browser): PassWriter {
    (inline: Styles, el: Node) => LiveAutoWrites(num, b, inline, el)
  }

  /** `applyToElement` on each element of `s` in order, each reading the page the ones before it left. */
  function AutoFold(kinds: NodeKinds, num: Numerics, b: Browser, inline: Styles, s: seq<Node>): Styles {
    PassFold(kinds, LiveWriter(num, b), inline, s)
  }

  lemma PassFoldStep(kinds: NodeKinds, write: PassWriter, inline: Styles, s: seq<Node>, i: nat)
    requires i < |s|
    ensures var before := PassFold(kinds, write, inline, s[..i]);
      PassFold(kinds, write, inline, s[..i + 1]) == if kinds.isHtml(s[i]) then Put(before, s[i], write(before, s[i])) else before
  {
    assert s[..i + 1][..i] == s[..i];
  }

  /** One more element of `applyAll`'s loop. */
  lemma AutoFoldStep(kinds: NodeKinds, num: Numerics, b: Browser, inline: Styles, s: seq<Node>, i: nat)
    requires i < |s|
    ensures AutoFold(kinds, num, b, inline, s[..i + 1]) == InlineAfterLive(kinds, num, b, AutoFold(kinds, num, b, inline, s[..i]), s[i])
  {
    PassFoldStep(kinds, LiveWriter(num, b), inline, s, i);
  }

  /** Going through `s1` and then through `s2` is going through `s1 + s2`. */
  lemma {:induction false} PassFoldAppend(kinds: NodeKinds, write: PassWriter, inline: Styles, s1: seq<Node>, s2: seq<Node>)
    ensures PassFold(kinds, write, PassFold(kinds, write, inline, s1), s2) == PassFold(kinds, write, inline, s1 + s2)
  {
    if s2 == [] {
      assert s1 + s2 == s1;
    } else {
      var n := |s2| - 1;
      PassFoldAppend(kinds, write, inline, s1, s2[..n]);
      assert (s1 + s2)[..|s1 + s2| - 1] == s1 + s2[..n];
      assert (s1 + s2)[|s1 + s2| - 1] == s2[n];
    }
  }

  /** Going through `s` touches nothing outside `s`. */
  lemma {:induction false} PassFoldOutside(kinds: NodeKinds, write: PassWriter, inline: Styles, s: seq<Node>)
    ensures StylesOutside(s, inline, PassFold(kinds, write, inline, s))
  {
    if s != [] {
      var n := |s| - 1;
      PassFoldOutside(kinds, write, inline, s[..n]);
      forall e, p | e !in s ensures StyleIn(PassFold(kinds, write, inline, s), e, p) == StyleIn(inline, e, p) {
        assert e !in s[..n] && e != s[n];
      }
    }
  }

  /**
   * After going through `s`, an HTML element that `s` does not visit again
   * shows what it was written at its turn, computed from the inline styles
   * the elements before it left.
   */
  lemma PassFoldShows(kinds: NodeKinds, write: PassWriter, inline: Styles, s: seq<Node>, j: nat)
    requires j < |s| && kinds.isHtml(s[j]) && s[j] !in s[j + 1..]
    ensures Shows(PassFold(kinds, write, inline, s), s[j], write(PassFold(kinds, write, inline, s[..j]), s[j]))
  {
    var before := PassFold(kinds, write, inline, s[..j]);
    var w := write(before, s[j]);
    var mid := PassFold(kinds, write, inline, s[..j + 1]);
    PassFoldStep(kinds, write, inline, s, j);
    assert mid == Put(before, s[j], w);
    ShowsAfterPut(before, s[j], w, s[j], w);
    PassFoldAppend(kinds, write, inline, s[..j + 1], s[j + 1..]);
    assert s[..j + 1] + s[j + 1..] == s;
    PassFoldOutside(kinds, write, mid, s[j + 1..]);
  }

  /**
   * No computed value follows another property or another element: the
   * computed value of `p` on `n` depends only on the inline declaration of
   * `p` on `n` (no `currentColor`, no inherited colour).
   */
  ghost predicate LocalCascade(b: Browser) {
    forall inline1: Styles, inline2: Styles, n: Node, p: Prop ::
      StyleIn(inline1, n, p) == StyleIn(inline2, n, p) ==> b.cascade(inline1, n, p) == b.cascade(inline2, n, p)
  }

  /** A list of nodes without repeats. */
  predicate NoRepeats(s: seq<Node>) {
    forall i, j :: 0 <= i < j < |s| ==> s[i] != s[j]
  }

  /** In a list without repeats, an element occurs neither before nor after its own place. */
  lemma NoRepeatsAt(s: seq<Node>, j: nat)
    requires NoRepeats(s) && j < |s|
    ensures s[j] !in s[..j] && s[j] !in s[j + 1..]
  {
    var before, after := s[..j], s[j + 1..];
    forall k | 0 <= k < |before| ensures before[k] != s[j] {
      assert before[k] == s[k];
    }
    forall k | 0 <= k < |after| ensures after[k] != s[j] {
      assert after[k] == s[j + 1 + k];
    }
  }

  /**
   * Reading a property of `el` after writes to other properties of `el`
   * gives what the page `inline0` shows.
   */
  ghost predicate SameReads(b: Browser, inline: Styles, inline0: Styles, el: Node, ps: seq<Prop>) {
    forall w: Style, q :: q in ps && q !in w ==> b.cascade(Put(inline, el, w), el, q) == b.cascade(inline0, el, q)
  }

  /** What one property gives depends on its computed value only. */
  lemma ColorOfSameRead(num: Numerics, page1: Page, page2: Page, el: Node, neutralBg: bool, p: Prop)
    requires page1.computed(el, p) == page2.computed(el, p)
    ensures NeutralColorOf(num, page1, el, neutralBg, p) == NeutralColorOf(num, page2, el, neutralBg, p)
  {
  }

  lemma StringOfSameRead(num: Numerics, page1: Page, page2: Page, el: Node, p: Prop)
    requires page1.computed(el, p) == page2.computed(el, p)
    ensures NeutralStringOf(num, page1, el, p) == NeutralStringOf(num, page2, el, p)
  {
  }

  /** The read-first writes for one more property. */
  lemma NeutralColorWritesLast(num: Numerics, page: Page, el: Node, neutralBg: bool, ps: seq<Prop>)
    requires ps != []
    ensures var w := NeutralColorWrites(num, page, el, neutralBg, ps[..|ps| - 1]);
      NeutralColorWrites(num, page, el, neutralBg, ps) ==
        match NeutralColorOf(num, page, el, neutralBg, ps[|ps| - 1])
        case Some(v) => w[ps[|ps| - 1] := v]
        case None => w
  {
  }

  lemma NeutralStringWritesLast(num: Numerics, page: Page, el: Node, ps: seq<Prop>)
    requires ps != []
    ensures var w := NeutralStringWrites(num, page, el, ps[..|ps| - 1]);
      NeutralStringWrites(num, page, el, ps) ==
        match NeutralStringOf(num, page, el, ps[|ps| - 1])
        case Some(v) => w[ps[|ps| - 1] := v]
        case None => w
  {
  }

  /** The readers of the two loops if every computed value were read from `page` before anything is written. */
  function ColorSnapshot(num: Numerics, page: Page, el: Node, neutralBg: bool): Reader {
    Snapshot((p: Prop) => NeutralColorOf(num, page, el, neutralBg, p))
  }

  function StringSnapshot(num: Numerics, page: Page, el: Node): Reader {
    Snapshot((p: Prop) => NeutralStringOf(num, page, el, p))
  }

  /** A reader that ignores the assignments made before. */
  function Snapshot(value: Prop -> Option<string>): Reader {
    (w: Style, p: Prop) => value(p)
  }

  /** Reading before writing, the loop assigns exactly the properties of `ps` that have a value, each that value. */
  lemma {:induction false} SnapshotWritesMeaning(value: Prop -> Option<string>, ps: seq<Prop>)
    ensures var w := LiveWrites(Snapshot(value), ps);
      forall p :: (p in w <==> p in ps && value(p).Some?) && (p in w ==> w[p] == value(p).value)
  {
    if ps != [] {
      var n := |ps| - 1;
      SnapshotWritesMeaning(value, ps[..n]);
      LiveWritesSnoc(Snapshot(value), ps, n);
      assert ps[..n + 1] == ps;
      assert forall q :: q in ps <==> q in ps[..n] || q == ps[n];
    }
  }

  /** Reading before writing is the loop whose reader ignores the writes. */
  lemma {:induction false} SnapshotColorWrites(num: Numerics, page: Page, el: Node, neutralBg: bool, ps: seq<Prop>)
    ensures LiveWrites(ColorSnapshot(num, page, el, neutralBg), ps) == NeutralColorWrites(num, page, el, neutralBg, ps)
  {
    if ps != [] {
      var n := |ps| - 1;
      SnapshotColorWrites(num, page, el, neutralBg, ps[..n]);
      LiveWritesSnoc(ColorSnapshot(num, page, el, neutralBg), ps, n);
      NeutralColorWritesLast(num, page, el, neutralBg, ps);
      assert ps[..n + 1] == ps;
    }
  }

  lemma {:induction false} SnapshotStringWrites(num: Numerics, page: Page, el: Node, ps: seq<Prop>)
    ensures LiveWrites(StringSnapshot(num, page, el), ps) == NeutralStringWrites(num, page, el, ps)
  {
    if ps != [] {
      var n := |ps| - 1;
      SnapshotStringWrites(num, page, el, ps[..n]);
      LiveWritesSnoc(StringSnapshot(num, page, el), ps, n);
      NeutralStringWritesLast(num, page, el, ps);
      assert ps[..n + 1] == ps;
    }
  }

  /**
   * When every property of `ps` reads, after writes to the others, what
   * the page `inline0` shows, the first loop writes what it would write
   * reading everything from `inline0` first.
   */
  lemma LiveColorWritesLocal(num: Numerics, b: Browser, inline: Styles, inline0: Styles, el: Node, neutralBg: bool, ps: seq<Prop>)
    requires StyleEntries.Distinct(ps) && SameReads(b, inline, inline0, el, ps)
    ensures LiveColorWrites(num, b, inline, el, neutralBg, ps) == NeutralColorWrites(num, PageAt(b, inline0), el, neutralBg, ps)
  {
    var live, snap := ColorReader(num, b, inline, el, neutralBg), ColorSnapshot(num, PageAt(b, inline0), el, neutralBg);
    forall w, q | q in ps && q !in w ensures live(w, q) == snap(w, q) {
      ColorOfSameRead(num, PageAt(b, Put(inline, el, w)), PageAt(b, inline0), el, neutralBg, q);
    }
    LiveWritesAgree(live, snap, ps);
    SnapshotColorWrites(num, PageAt(b, inline0), el, neutralBg, ps);
  }

  lemma LiveStringWritesLocal(num: Numerics, b: Browser, inline: Styles, inline0: Styles, el: Node, ps: seq<Prop>)
    requires StyleEntries.Distinct(ps) && SameReads(b, inline, inline0, el, ps)
    ensures LiveStringWrites(num, b, inline, el, ps) == NeutralStringWrites(num, PageAt(b, inline0), el, ps)
  {
    var live, snap := StringReader(num, b, inline, el), StringSnapshot(num, PageAt(b, inline0), el);
    forall w, q | q in ps && q !in w ensures live(w, q) == snap(w, q) {
      StringOfSameRead(num, PageAt(b, Put(inline, el, w)), PageAt(b, inline0), el, q);
    }
    LiveWritesAgree(live, snap, ps);
    SnapshotStringWrites(num, PageAt(b, inline0), el, ps);
  }

  /** A local cascade gives the same reads to an element whose inline style is as `inline0` has it. */
  lemma LocalSameReads(b: Browser, inline: Styles, inline0: Styles, el: Node, ps: seq<Prop>)
    requires LocalCascade(b)
    requires forall q :: q in ps ==> StyleIn(inline, el, q) == StyleIn(inline0, el, q)
    ensures SameReads(b, inline, inline0, el, ps)
  {
    forall w: Style, q | q in ps && q !in w ensures b.cascade(Put(inline, el, w), el, q) == b.cascade(inline0, el, q) {
      assert StyleIn(Put(inline, el, w), el, q) == StyleIn(inline0, el, q);
    }
  }

  /** With a local cascade, `applyToElement` on an element as `inline0` had it writes what it would on the page `inline0`. */
  lemma LiveAutoWritesLocal(num: Numerics, b: Browser, inline: Styles, inline0: Styles, el: Node)
    requires LocalCascade(b)
    requires forall q :: StyleIn(inline, el, q) == StyleIn(inline0, el, q)
    ensures LiveAutoWrites(num, b, inline, el) == AutoWrites(num, PageAt(b, inline0), el)
  {
    var page0 := PageAt(b, inline0);
    ReadLocal(b, inline, inline0, el, BackgroundColor);
    ReadLocal(b, inline, inline0, el, BackgroundImage);
    var wc := LiveColorWrites(num, b, inline, el, NeutralBgOf(num, page0, el), AutoColorProps);
    LocalSameReads(b, inline, inline0, el, AutoColorProps);
    StringsAfterColorsLocal(b, inline, inline0, el, wc);
    LiveAutoWritesFromReads(num, b, inline, inline0, el);
  }

  /** A local cascade reads a property of an element from that element's own declaration of it. */
  lemma ReadLocal(b: Browser, inline1: Styles, inline2: Styles, el: Node, p: Prop)
    requires LocalCascade(b) && StyleIn(inline1, el, p) == StyleIn(inline2, el, p)
    ensures PageAt(b, inline1).computed(el, p) == PageAt(b, inline2).computed(el, p)
  {
  }

  /** With a local cascade, after writes to colour properties the composite properties read as `inline0` has them. */
  lemma StringsAfterColorsLocal(b: Browser, inline: Styles, inline0: Styles, el: Node, wc: Style)
    requires LocalCascade(b)
    requires forall q :: StyleIn(inline, el, q) == StyleIn(inline0, el, q)
    requires forall q :: q in wc ==> q in AutoColorProps
    ensures SameReads(b, Put(inline, el, wc), inline0, el, AutoStringProps)
  {
    AutoPropsDistinct();
    forall q | q in AutoStringProps ensures StyleIn(Put(inline, el, wc), el, q) == StyleIn(inline0, el, q) {
      assert q !in wc;
    }
    LocalSameReads(b, Put(inline, el, wc), inline0, el, AutoStringProps);
  }

  /** `applyToElement` writes what it would on the page `inline0` when every property it reads reads as there. */
  lemma LiveAutoWritesFromReads(num: Numerics, b: Browser, inline: Styles, inline0: Styles, el: Node)
    requires PageAt(b, inline).computed(el, BackgroundColor) == PageAt(b, inline0).computed(el, BackgroundColor)
    requires PageAt(b, inline).computed(el, BackgroundImage) == PageAt(b, inline0).computed(el, BackgroundImage)
    requires SameReads(b, inline, inline0, el, AutoColorProps)
    requires SameReads(b, Put(inline, el, LiveColorWrites(num, b, inline, el, NeutralBgOf(num, PageAt(b, inline0), el), AutoColorProps)),
                       inline0, el, AutoStringProps)
    ensures LiveAutoWrites(num, b, inline, el) == AutoWrites(num, PageAt(b, inline0), el)
  {
    var page0 := PageAt(b, inline0);
    var neutralBg := NeutralBgOf(num, page0, el);
    assert NeutralBgOf(num, PageAt(b, inline), el) == neutralBg;
    AutoPropsDistinct();
    LiveColorWritesLocal(num, b, inline, inline0, el, neutralBg, AutoColorProps);
    var wc := LiveColorWrites(num, b, inline, el, neutralBg, AutoColorProps);
    LiveStringWritesLocal(num, b, Put(inline, el, wc), inline0, el, AutoStringProps);
  }

  /**
   * When no computed colour follows another property or another element,
   * going through a list without repeats leaves every HTML element of it
   * showing its neutral colours inverted from the page as it was before.
   */
  lemma AutoFoldLocal(kinds: NodeKinds, num: Numerics, b: Browser, inline: Styles, s: seq<Node>)
    requires LocalCascade(b) && NoRepeats(s)
    ensures SettledAuto(kinds, WritesOn(num, PageAt(b, inline)), AutoFold(kinds, num, b, inline, s), s)
  {
    forall el | el in s ensures ShownNeutral(kinds, WritesOn(num, PageAt(b, inline)), AutoFold(kinds, num, b, inline, s), el) {
      var j :| 0 <= j < |s| && s[j] == el;
      if kinds.isHtml(el) {
        NoRepeatsAt(s, j);
        PassFoldShows(kinds, LiveWriter(num, b), inline, s, j);
        PassFoldOutside(kinds, LiveWriter(num, b), inline, s[..j]);
        LiveAutoWritesLocal(num, b, AutoFold(kinds, num, b, inline, s[..j]), inline, el);
      }
    }
  }

  // ---------------------------------------------------------------------------
  // Reading before writing
  // ---------------------------------------------------------------------------

  /**
   * The pass as it would run if every computed value were read before
   * anything is written: each element gets the writes computed from the
   * page as it was before the pass.
   */
  function PreReadFold(kinds: NodeKinds, num: Numerics, b: Browser, inline0: Styles, s: seq<Node>): Styles {
    if s == [] then inline0
    else InlineAfterAuto(kinds, WritesOn(num, PageAt(b, inline0)), PreReadFold(kinds, num, b, inline0, s[..|s| - 1]), s[|s| - 1])
  }

  /**
   * Reading before writing leaves every HTML element of `s` showing its
   * neutral colours inverted from the page as it was before the pass, on
   * any page and even when `s` visits an element twice, and touches
   * nothing outside `s`.
   */
  lemma {:induction false} PreReadSettles(kinds: NodeKinds, num: Numerics, b: Browser, inline0: Styles, s: seq<Node>)
    ensures SettledAuto(kinds, WritesOn(num, PageAt(b, inline0)), PreReadFold(kinds, num, b, inline0, s), s)
    ensures StylesOutside(s, inline0, PreReadFold(kinds, num, b, inline0, s))
  {
    if s != [] {
      var n := |s| - 1;
      var writes := WritesOn(num, PageAt(b, inline0));
      PreReadSettles(kinds, num, b, inline0, s[..n]);
      var inline := PreReadFold(kinds, num, b, inline0, s[..n]);
      assert forall j :: 0 <= j < n ==> s[j] in s[..n] by {
        forall j | 0 <= j < n ensures s[j] in s[..n] {
          assert s[..n][j] == s[j];
        }
      }
      AutoStepShown(kinds, writes, inline, s, n);
      SettledOfLoop(kinds, writes, PreReadFold(kinds, num, b, inline0, s), s);
      assert StylesOutside(s, inline0, inline) by {
        forall e, p | e !in s ensures StyleIn(inline, e, p) == StyleIn(inline0, e, p) {
          assert e !in s[..n];
        }
      }
      AutoStepOutside(kinds, writes, inline0, inline, s, n);
    }
  }

  // ---------------------------------------------------------------------------
  // A page on which the live reads re-invert
  // ---------------------------------------------------------------------------

  /** A grey-scale stand-in for the arithmetic: saturation 0, lightness the red channel over 255, and back. */
  function GreyNumerics(): Numerics {
    Numerics(
      (r: nat, g: nat, bl: nat) => Hsl(0.0, 0.0, r as real / 255.0),
      (h: Hsl) => var v := (h.l * 255.0).Floor; (v, v, v),
      (r: nat, g: nat, bl: nat) => 0.0,
      (a: real) => "1")
  }

  /**
   * A page of one element, `0`, whose text is `black` unless its inline
   * style says otherwise and whose top border is drawn in `currentColor`;
   * every other property computes to the empty text.
   */
  function CurrentColorBrowser(black: string): Browser {
    Browser(Some(0), (n: Node) => [], (n: Node) => [], (n: Node) => false,
      (inline: Styles, n: Node, p: Prop) =>
        var text := if StyleIn(inline, n, Color) != "" then StyleIn(inline, n, Color) else black;
        if p == Color then text
        else if p == BorderTopColor then (if StyleIn(inline, n, BorderTopColor) != "" then StyleIn(inline, n, BorderTopColor) else text)
        else "")
  }

  /** Opaque black and white as `rgbToString` writes them for the grey-scale stand-in. */
  function GreyBlack(): string {
    RgbaToString(Rgba(0, 0, 0, 1.0), GreyNumerics().formatAlpha)
  }

  function GreyWhite(): string {
    RgbaToString(Rgba(255, 255, 255, 1.0), GreyNumerics().formatAlpha)
  }

  /**
   * What the example needs of the arithmetic: `black` and `white` are how
   * `rgbToString` writes opaque black and white, both are neutral, each
   * inverts to the other, and an element without a background colour or
   * image has a neutral background.
   */
  predicate GreyPair(num: Numerics, black: string, white: string) {
    var dark, light := Rgba(0, 0, 0, 1.0), Rgba(255, 255, 255, 1.0);
    black != white && black != "" && white != ""
    && ParseRgb(black) == Some(dark) && ParseRgb(white) == Some(light) && ParseRgb("").None?
    && ShouldInvertNeutral(num, Some(dark)) && ShouldInvertNeutral(num, Some(light))
    && RgbaToString(InvertByLightness(num, dark), num.formatAlpha) == white
    && RgbaToString(InvertByLightness(num, light), num.formatAlpha) == black
    && NeutralBackground(num, "", "")
  }

  /** The grey-scale stand-in meets it. */
  lemma GreyPairHolds()
    ensures GreyPair(GreyNumerics(), GreyBlack(), GreyWhite())
  {
    var num, dark, light := GreyNumerics(), Rgba(0, 0, 0, 1.0), Rgba(255, 255, 255, 1.0);
    GreyParses();
    GreyInverts();
    assert RgbaToString(InvertByLightness(num, dark), num.formatAlpha) == GreyWhite();
    assert RgbaToString(InvertByLightness(num, light), num.formatAlpha) == GreyBlack();
  }

  /** The two texts are distinct and read back as the colours they print. */
  lemma GreyParses()
    ensures GreyBlack() != GreyWhite() && GreyBlack() != "" && GreyWhite() != ""
    ensures ParseRgb(GreyBlack()) == Some(Rgba(0, 0, 0, 1.0)) && ParseRgb(GreyWhite()) == Some(Rgba(255, 255, 255, 1.0))
    ensures ParseRgb("").None?
  {
    var num := GreyNumerics();
    RoundTripOpaque(Rgba(0, 0, 0, 1.0), num.formatAlpha);
    RoundTripOpaque(Rgba(255, 255, 255, 1.0), num.formatAlpha);
  }

  /** The grey-scale stand-in inverts opaque black and white into each other, and treats both and the empty background as neutral. */
  lemma GreyInverts()
    ensures var num, dark, light := GreyNumerics(), Rgba(0, 0, 0, 1.0), Rgba(255, 255, 255, 1.0);
      InvertByLightness(num, dark) == light && InvertByLightness(num, light) == dark
      && ShouldInvertNeutral(num, Some(dark)) && ShouldInvertNeutral(num, Some(light))
      && NeutralBackground(num, "", "")
  {
    var num := GreyNumerics();
    assert InvertByLightness(num, Rgba(0, 0, 0, 1.0)) == Rgba(255, 255, 255, 1.0);
    assert InvertByLightness(num, Rgba(255, 255, 255, 1.0)) == Rgba(0, 0, 0, 1.0);
    assert ParseRgb("").None?;
  }

  /** Where the text colour and the top border stand in `COLOR_PROPS`. */
  lemma AutoColorPropAt(i: nat)
    requires i < |AutoColorProps|
    ensures AutoColorProps[i] == Color <==> i == 0
    ensures AutoColorProps[i] == BorderTopColor <==> i == 2
  {
    if i == 0 {
    } else if i == 1 {
    } else if i == 2 {
    } else if i == 3 {
    } else if i == 4 {
    } else if i == 5 {
    } else if i == 6 {
    } else {
    }
  }

  /** What that page computes for the element once its inline style holds the assignments `w`. */
  lemma CurrentColorAt(black: string, w: Style, p: Prop)
    ensures var text := if Color in w && w[Color] != "" then w[Color] else black;
      PageAt(CurrentColorBrowser(black), Put(map[], 0, w)).computed(0, p)
        == if p == Color then text
           else if p == BorderTopColor then (if BorderTopColor in w && w[BorderTopColor] != "" then w[BorderTopColor] else text)
           else ""
  {
  }

  /** A neutral colour property inverts black to white and white to black, and ignores the empty text. */
  lemma GreyColorOf(num: Numerics, black: string, white: string, page: Page, el: Node, p: Prop)
    requires GreyPair(num, black, white)
    requires page.computed(el, p) == black || page.computed(el, p) == white || page.computed(el, p) == ""
    ensures var c := page.computed(el, p);
      NeutralColorOf(num, page, el, true, p) == if c == black then Some(white) else if c == white then Some(black) else None
  {
  }

  /** The element of that page has no background colour or image, a neutral background. */
  lemma GreyBackground(num: Numerics, black: string, white: string)
    requires GreyPair(num, black, white)
    ensures NeutralBgOf(num, PageAt(CurrentColorBrowser(black), map[]), 0)
  {
    CurrentColorAt(black, map[], BackgroundColor);
    CurrentColorAt(black, map[], BackgroundImage);
    assert Put(map[], 0, map[]) == map[];
  }

  /** The first three properties as the first loop runs on that page: the text turns white, then the border, now white, turns black. */
  lemma LiveGreyHead(num: Numerics, black: string, white: string)
    requires GreyPair(num, black, white)
    ensures LiveColorWrites(num, CurrentColorBrowser(black), map[], 0, true, AutoColorProps[..3])
         == map[Color := white, BorderTopColor := black]
  {
    var ps := AutoColorProps;
    assert ps[..0] == [];
    LiveGreyStep(num, black, white, 1, map[]);
    LiveGreyStep(num, black, white, 2, map[Color := white]);
    LiveGreyStep(num, black, white, 3, map[Color := white]);
  }

  /** One of the first three properties, read after the writes `w` of the ones before it. */
  lemma LiveGreyStep(num: Numerics, black: string, white: string, k: nat, w: Style)
    requires GreyPair(num, black, white) && 0 < k <= 3
    requires w == if k == 1 then map[] else map[Color := white]
    requires LiveColorWrites(num, CurrentColorBrowser(black), map[], 0, true, AutoColorProps[..k - 1]) == w
    ensures LiveColorWrites(num, CurrentColorBrowser(black), map[], 0, true, AutoColorProps[..k])
         == if k == 1 then map[Color := white] else if k == 2 then w else w[BorderTopColor := black]
  {
    var read, ps := ColorReader(num, CurrentColorBrowser(black), map[], 0, true), AutoColorProps;
    AutoColorPropAt(k - 1);
    var page := PageAt(CurrentColorBrowser(black), Put(map[], 0, w));
    CurrentColorAt(black, w, ps[k - 1]);
    GreyColorOf(num, black, white, page, 0, ps[k - 1]);
    LiveWritesNext(read, ps, k, w, NeutralColorOf(num, page, 0, true, ps[k - 1]));
  }

  /** On that page the properties after the third compute to the empty text, whatever was written, and are left alone. */
  lemma GreyQuiet(num: Numerics, black: string, w: Style, i: nat)
    requires 3 <= i < |AutoColorProps|
    ensures NeutralColorOf(num, PageAt(CurrentColorBrowser(black), Put(map[], 0, w)), 0, true, AutoColorProps[i]).None?
  {
    AutoColorPropAt(i);
    CurrentColorAt(black, w, AutoColorProps[i]);
  }

  /** The first loop as it runs on that page. */
  lemma LiveGreyColors(num: Numerics, black: string, white: string)
    requires GreyPair(num, black, white)
    ensures LiveColorWrites(num, CurrentColorBrowser(black), map[], 0, true, AutoColorProps)
         == map[Color := white, BorderTopColor := black]
  {
    var read, ps := ColorReader(num, CurrentColorBrowser(black), map[], 0, true), AutoColorProps;
    LiveGreyHead(num, black, white);
    forall i, w | 3 <= i < |ps| ensures read(w, ps[i]).None? {
      GreyQuiet(num, black, w, i);
    }
    LiveWritesQuiet(read, ps, 3, |ps|);
    assert ps[..|ps|] == ps;
  }

  /** The composite properties are neither the text colour nor the top border. */
  lemma AutoStringPropAt(i: nat)
    requires i < |AutoStringProps|
    ensures AutoStringProps[i] != Color && AutoStringProps[i] != BorderTopColor
  {
    if i == 0 {
    } else if i == 1 {
    } else {
    }
  }

  /** The second loop as it runs on that page writes nothing: every composite property computes to the empty text. */
  lemma LiveGreyStrings(num: Numerics, black: string, inline: Styles)
    ensures LiveStringWrites(num, CurrentColorBrowser(black), inline, 0, AutoStringProps) == map[]
  {
    var read, ps := StringReader(num, CurrentColorBrowser(black), inline, 0), AutoStringProps;
    forall i, w | 0 <= i < |ps| ensures read(w, ps[i]).None? {
      AutoStringPropAt(i);
      assert PageAt(CurrentColorBrowser(black), Put(inline, 0, w)).computed(0, ps[i]) == "";
    }
    LiveWritesQuiet(read, ps, 0, |ps|);
    assert ps[..|ps|] == ps && ps[..0] == [];
  }

  /** Reading before writing on that page: both the text and the border are read black and turn white. */
  lemma {:induction false} PreReadGreyHead(num: Numerics, black: string, white: string, k: nat)
    requires GreyPair(num, black, white) && k <= 3
    ensures LiveWrites(ColorSnapshot(num, PageAt(CurrentColorBrowser(black), map[]), 0, true), AutoColorProps[..k])
         == if k == 0 then map[] else if k <= 2 then map[Color := white] else map[Color := white, BorderTopColor := white]
  {
    var page, ps := PageAt(CurrentColorBrowser(black), map[]), AutoColorProps;
    var read := ColorSnapshot(num, page, 0, true);
    if k > 0 {
      PreReadGreyHead(num, black, white, k - 1);
      var w: Style := if k == 1 then map[] else map[Color := white];
      AutoColorPropAt(k - 1);
      assert Put(map[], 0, map[]) == map[];
      CurrentColorAt(black, map[], ps[k - 1]);
      GreyColorOf(num, black, white, page, 0, ps[k - 1]);
      LiveWritesNext(read, ps, k, w, NeutralColorOf(num, page, 0, true, ps[k - 1]));
    } else {
      assert ps[..k] == [];
    }
  }

  lemma PreReadGreyColors(num: Numerics, black: string, white: string)
    requires GreyPair(num, black, white)
    ensures NeutralColorWrites(num, PageAt(CurrentColorBrowser(black), map[]), 0, true, AutoColorProps)
         == map[Color := white, BorderTopColor := white]
  {
    var page, ps := PageAt(CurrentColorBrowser(black), map[]), AutoColorProps;
    var read := ColorSnapshot(num, page, 0, true);
    PreReadGreyHead(num, black, white, 3);
    assert Put(map[], 0, map[]) == map[];
    forall i, w | 3 <= i < |ps| ensures read(w, ps[i]).None? {
      GreyQuiet(num, black, map[], i);
    }
    LiveWritesQuiet(read, ps, 3, |ps|);
    assert ps[..|ps|] == ps;
    SnapshotColorWrites(num, page, 0, true, ps);
  }

  /** Reading before writing on that page: the second loop writes nothing. */
  lemma PreReadGreyStrings(num: Numerics, black: string)
    ensures NeutralStringWrites(num, PageAt(CurrentColorBrowser(black), map[]), 0, AutoStringProps) == map[]
  {
    var page, ps := PageAt(CurrentColorBrowser(black), map[]), AutoStringProps;
    var read := StringSnapshot(num, page, 0);
    forall i, w | 0 <= i < |ps| ensures read(w, ps[i]).None? {
      AutoStringPropAt(i);
      assert page.computed(0, ps[i]) == "";
    }
    LiveWritesQuiet(read, ps, 0, |ps|);
    assert ps[..|ps|] == ps && ps[..0] == [];
    SnapshotStringWrites(num, page, 0, ps);
  }

  /** On that page `applyToElement` turns the black text white and then reads the border, which follows the text, as white and turns it black. */
  lemma LiveGreyWrites(num: Numerics, black: string, white: string)
    requires GreyPair(num, black, white)
    ensures LiveAutoWrites(num, CurrentColorBrowser(black), map[], 0) == map[Color := white, BorderTopColor := black]
  {
    var b := CurrentColorBrowser(black);
    var live := map[Color := white, BorderTopColor := black];
    assert NeutralBgOf(num, PageAt(b, map[]), 0) by {
      GreyBackground(num, black, white);
    }
    assert LiveColorWrites(num, b, map[], 0, true, AutoColorProps) == live by {
      LiveGreyColors(num, black, white);
    }
    assert LiveStringWrites(num, b, Put(map[], 0, live), 0, AutoStringProps) == map[] by {
      LiveGreyStrings(num, black, Put(map[], 0, live));
    }
    LiveAutoWritesOf(num, b, map[], 0, true, live, map[]);
    assert live + map[] == live;
  }

  /** The two loops of `applyToElement` in turn, the second reading after the first has written. */
  lemma LiveAutoWritesOf(num: Numerics, b: Browser, inline: Styles, el: Node, neutralBg: bool, wc: Style, ws: Style)
    requires NeutralBgOf(num, PageAt(b, inline), el) == neutralBg
    requires LiveColorWrites(num, b, inline, el, neutralBg, AutoColorProps) == wc
    requires LiveStringWrites(num, b, Put(inline, el, wc), el, AutoStringProps) == ws
    ensures LiveAutoWrites(num, b, inline, el) == wc + ws
  {
  }

  /** Reading before writing, both the text and the border turn white. */
  lemma PreReadGreyWrites(num: Numerics, black: string, white: string)
    requires GreyPair(num, black, white)
    ensures AutoWrites(num, PageAt(CurrentColorBrowser(black), map[]), 0) == map[Color := white, BorderTopColor := white]
  {
    var page := PageAt(CurrentColorBrowser(black), map[]);
    GreyBackground(num, black, white);
    var pre := map[Color := white, BorderTopColor := white];
    PreReadGreyColors(num, black, white);
    assert NeutralColorWrites(num, page, 0, NeutralBgOf(num, page, 0), AutoColorProps) == pre;
    PreReadGreyStrings(num, black);
    assert pre + map[] == pre;
  }

  /**
   * The border shows black on the inverted page, where reading before
   * writing turns it white with the text. `GreyPairHolds` gives arithmetic
   * that meets the requirement.
   */
  lemma LiveBorderReinverted(num: Numerics, black: string, white: string)
    requires GreyPair(num, black, white)
    ensures var b := CurrentColorBrowser(black);
      LiveAutoWrites(num, b, map[], 0) == map[Color := white, BorderTopColor := black]
      && AutoWrites(num, PageAt(b, map[]), 0) == map[Color := white, BorderTopColor := white]
  {
    LiveGreyWrites(num, black, white);
    PreReadGreyWrites(num, black, white);
  }

  /** The elements the observer goes through for the added nodes `nodes`: the subtree of each HTML element among them. */
  function AddedHtml(kinds: NodeKinds, b: Browser, nodes: seq<Node>): seq<Node> {
    if nodes == [] then []
    else
      var last := nodes[|nodes| - 1];
      AddedHtml(kinds, b, nodes[..|nodes| - 1]) + (if kinds.isHtml(last) then Subtree(b, last) else [])
  }

  /** The elements the observer goes through for a batch of records, given by their `addedNodes`. */
  function AllAddedHtml(kinds: NodeKinds, b: Browser, batches: seq<seq<Node>>): seq<Node> {
    if batches == [] then []
    else AllAddedHtml(kinds, b, batches[..|batches| - 1]) + AddedHtml(kinds, b, batches[|batches| - 1])
  }

  lemma AddedHtmlStep(kinds: NodeKinds, b: Browser, nodes: seq<Node>, k: nat)
    requires k < |nodes|
    ensures AddedHtml(kinds, b, nodes[..k + 1])
         == AddedHtml(kinds, b, nodes[..k]) + (if kinds.isHtml(nodes[k]) then Subtree(b, nodes[k]) else [])
  {
    assert nodes[..k + 1][..k] == nodes[..k];
  }

  lemma AllAddedHtmlStep(kinds: NodeKinds, b: Browser, batches: seq<seq<Node>>, k: nat)
    requires k < |batches|
    ensures AllAddedHtml(kinds, b, batches[..k + 1]) == AllAddedHtml(kinds, b, batches[..k]) + AddedHtml(kinds, b, batches[k])
  {
    assert batches[..k + 1][..k] == batches[..k];
  }

  // ---------------------------------------------------------------------------
  // The persisted flag
  // ---------------------------------------------------------------------------

  /** `readPersisted()`: true only for the stored texts `1` and `true`; false when absent or when storage throws. */
  function PersistedFlag(stored: Result<Option<string>>): (r: bool)
    ensures r ==> stored.Success? && stored.value.Some?
    ensures stored.Success? && stored.value.Some? ==> (r <==> stored.value.value in {"1", "true"})
  {
    match stored
    case Success(Some(v)) => v == "1" || v == "true"
    case _ => false
  }

  /** The text `writePersisted(next)` stores reads back as `next`. */
  lemma PersistedRoundTrip(next: bool)
    ensures PersistedFlag(Success(Some(InvertEngine.StoredText(next)))) == next
  {
  }

  /**
   * Unlike the newer engine's `readStoredInverted`, which compares
   * case-insensitively and distinguishes "absent" from "false", this reading
   * refuses `TRUE`; the two agree on what either engine stores.
   */
  lemma PersistedStricterThanStored(next: bool)
    ensures !PersistedFlag(Success(Some("TRUE")))
    ensures InvertEngine.StoredInverted(Success(Some("TRUE"))) == Some(true)
    ensures InvertEngine.StoredInverted(Success(Some(InvertEngine.StoredText(next)))) == Some(PersistedFlag(Success(Some(InvertEngine.StoredText(next)))))
  {
    InvertEngine.StoredUpperTrue();
    InvertEngine.StoredRoundTrip(next);
  }

  // ---------------------------------------------------------------------------
  // The engine
  // ---------------------------------------------------------------------------

  class AutoEngine {
    const kinds: NodeKinds
    const num: Numerics
    const doc: Document
    const store: Storage
    const persistKey: string
    /** The inline styles before the engine wrote anything; every restore returns to them. */
    ghost const base: Styles
    var isDark: bool
    var observing: bool
    var originals: map<Node, Style>

    /** Every record holds a `base` value, and every inline value the engine changed is recorded. */
    ghost predicate Valid()
      reads this, doc
    {
      OriginalsOk(base, originals) && DriftRecorded(doc.inline, base, originals)
    }

    /** `useAutoInvertTheme(options)`: not dark, nothing recorded, not observing. */
    constructor(kinds: NodeKinds, num: Numerics, doc: Document, store: Storage, persistKeyOption: Option<string>)
      ensures Valid()
      ensures this.kinds == kinds && this.num == num && this.doc == doc && this.store == store
      ensures persistKey == InvertEngine.StorageKey(persistKeyOption)
      ensures !isDark && !observing && originals == map[] && base == doc.inline
    {
      this.kinds := kinds;
      this.num := num;
      this.doc := doc;
      this.store := store;
      this.persistKey := InvertEngine.StorageKey(persistKeyOption);
      this.base := doc.inline;
      isDark := false;
      observing := false;
      originals := map[];
    }

    /** `readPersisted()`. */
    function ReadPersisted(): (r: bool)
      reads this, store
      ensures r ==> store.available && persistKey in store.items
    {
      PersistedFlag(store.GetItem(persistKey))
    }

    /** `writePersisted(next)`: stores `1` or `0`, ignoring a storage failure. */
    method WritePersisted(next: bool)
      modifies store
      ensures store.available == old(store.available)
      ensures store.items == if store.available then old(store.items)[persistKey := InvertEngine.StoredText(next)] else old(store.items)
      ensures store.available ==> ReadPersisted() == next
    {
      store.SetItemIgnoringErrors(persistKey, InvertEngine.StoredText(next));
      PersistedRoundTrip(next);
    }

    /** `record(el, prop, el.style[prop])` then `el.style[prop] = value`. */
    method RecordAndWrite(el: Node, prop: Prop, value: string)
      requires Valid()
      modifies this`originals, doc
      ensures Valid()
      ensures originals == Kept(old(originals), el, map[prop := old(doc.Read(el, prop))])
      ensures doc.inline == Put(old(doc.inline), el, map[prop := value])
    {
      RecordWriteOk(doc.inline, base, originals, el, prop, value);
      var v := doc.Read(el, prop);
      originals := Kept(originals, el, map[prop := v]);
      doc.Write(el, prop, value);
    }

    /**
     * The first loop of `applyToElement`: the neutral colour properties, each
     * read from the live computed style.
     */
    method ApplyColors(b: Browser, el: Node, neutralBg: bool)
      requires Valid()
      modifies this`originals, doc
      ensures Valid()
      ensures var w := LiveColorWrites(num, b, old(doc.inline), el, neutralBg, AutoColorProps);
        doc.inline == Put(old(doc.inline), el, w)
        && originals == Kept(old(originals), el, Found(old(doc.inline), el, w.Keys))
    {
      ghost var done: Style := map[];
      for i := 0 to |AutoColorProps|
        invariant Valid()
        invariant done == LiveColorWrites(num, b, old(doc.inline), el, neutralBg, AutoColorProps[..i])
        invariant doc.inline == Put(old(doc.inline), el, done)
        invariant originals == Kept(old(originals), el, Found(old(doc.inline), el, done.Keys))
      {
        done := ApplyColor(b, el, neutralBg, i, old(doc.inline), old(originals), done);
      }
      assert AutoColorProps[..|AutoColorProps|] == AutoColorProps;
    }

    /** One turn of the first loop: the colour property `COLOR_PROPS[i]`, read from the live computed style. */
    method ApplyColor(b: Browser, el: Node, neutralBg: bool, i: nat, ghost inline0: Styles, ghost originals0: map<Node, Style>, ghost done: Style)
      returns (ghost done': Style)
      requires Valid() && i < |AutoColorProps|
      requires done == LiveColorWrites(num, b, inline0, el, neutralBg, AutoColorProps[..i])
      requires doc.inline == Put(inline0, el, done)
      requires originals == Kept(originals0, el, Found(inline0, el, done.Keys))
      modifies this`originals, doc
      ensures Valid()
      ensures done' == LiveColorWrites(num, b, inline0, el, neutralBg, AutoColorProps[..i + 1])
      ensures doc.inline == Put(inline0, el, done')
      ensures originals == Kept(originals0, el, Found(inline0, el, done'.Keys))
    {
      AutoPropsDistinct();
      var prop := AutoColorProps[i];
      LiveWritesSnoc(ColorReader(num, b, inline0, el, neutralBg), AutoColorProps, i);
      var cs := PageAt(b, doc.inline);
      done' := done;
      var parsed := ParseRgb(cs.computed(el, prop));
      if !ShouldInvertNeutral(num, parsed) {
        return;
      }
      if (prop == Color || prop == CaretColor) && !neutralBg {
        return;
      }
      var value := RgbaToString(InvertByLightness(num, parsed.value), num.formatAlpha);
      RecordStep(inline0, originals0, el, done, prop, value);
      RecordAndWrite(el, prop, value);
      done' := done[prop := value];
    }

    /**
     * The second loop of `applyToElement`: the composite properties whose
     * neutral colours change, each read from the live computed style.
     */
    method ApplyStrings(b: Browser, el: Node)
      requires Valid()
      modifies this`originals, doc
      ensures Valid()
      ensures var w := LiveStringWrites(num, b, old(doc.inline), el, AutoStringProps);
        doc.inline == Put(old(doc.inline), el, w)
        && originals == Kept(old(originals), el, Found(old(doc.inline), el, w.Keys))
    {
      ghost var done: Style := map[];
      for i := 0 to |AutoStringProps|
        invariant Valid()
        invariant done == LiveStringWrites(num, b, old(doc.inline), el, AutoStringProps[..i])
        invariant doc.inline == Put(old(doc.inline), el, done)
        invariant originals == Kept(old(originals), el, Found(old(doc.inline), el, done.Keys))
      {
        done := ApplyString(b, el, i, old(doc.inline), old(originals), done);
      }
      assert AutoStringProps[..|AutoStringProps|] == AutoStringProps;
    }

    /** One turn of the second loop: the composite property `STRING_COLOR_PROPS[i]`, read from the live computed style. */
    method ApplyString(b: Browser, el: Node, i: nat, ghost inline0: Styles, ghost originals0: map<Node, Style>, ghost done: Style)
      returns (ghost done': Style)
      requires Valid() && i < |AutoStringProps|
      requires done == LiveStringWrites(num, b, inline0, el, AutoStringProps[..i])
      requires doc.inline == Put(inline0, el, done)
      requires originals == Kept(originals0, el, Found(inline0, el, done.Keys))
      modifies this`originals, doc
      ensures Valid()
      ensures done' == LiveStringWrites(num, b, inline0, el, AutoStringProps[..i + 1])
      ensures doc.inline == Put(inline0, el, done')
      ensures originals == Kept(originals0, el, Found(inline0, el, done'.Keys))
    {
      AutoPropsDistinct();
      var prop := AutoStringProps[i];
      LiveWritesSnoc(StringReader(num, b, inline0, el), AutoStringProps, i);
      var cs := PageAt(b, doc.inline);
      done' := done;
      var current := cs.computed(el, prop);
      if current == [] || current == "none" {
        return;
      }
      var next := ReplaceRgbInString(current, NeutralReplacer(num), num.formatAlpha);
      if next != current {
        RecordStep(inline0, originals0, el, done, prop, next);
        RecordAndWrite(el, prop, next);
        done' := done[prop := next];
      }
    }

    /**
     * `applyToElement(el)`: nothing unless `el` is an HTML element; otherwise
     * the background is judged, then both loops write, each overwritten
     * inline value recorded first.
     */
    method ApplyToElement(b: Browser, el: Node)
      requires Valid()
      modifies this`originals, doc
      ensures Valid()
      ensures doc.inline == InlineAfterLive(kinds, num, b, old(doc.inline), el)
      ensures originals == if kinds.isHtml(el) then Kept(old(originals), el, Found(old(doc.inline), el, LiveAutoWrites(num, b, old(doc.inline), el).Keys))
                           else old(originals)
    {
      if !kinds.isHtml(el) {
        return;
      }
      var cs := PageAt(b, doc.inline);
      var neutralBg := IsNeutralBackground(num, cs.computed(el, BackgroundColor), cs.computed(el, BackgroundImage));
      ApplyColors(b, el, neutralBg);
      ghost var wc := LiveColorWrites(num, b, old(doc.inline), el, neutralBg, AutoColorProps);
      ApplyStrings(b, el);
      ghost var ws := LiveStringWrites(num, b, Put(old(doc.inline), el, wc), el, AutoStringProps);
      AutoPropsDistinct();
      assert wc.Keys !! ws.Keys;
      ComposeLoops(old(doc.inline), old(originals), el, wc, ws);
    }

    /** `applyToElement` over `all` in order. */
    method ApplyEach(b: Browser, all: seq<Node>)
      requires Valid()
      modifies this`originals, doc
      ensures Valid()
      ensures doc.inline == AutoFold(kinds, num, b, old(doc.inline), all)
      ensures StylesOutside(all, old(doc.inline), doc.inline)
    {
      for i := 0 to |all|
        invariant Valid()
        invariant doc.inline == AutoFold(kinds, num, b, old(doc.inline), all[..i])
      {
        AutoFoldStep(kinds, num, b, old(doc.inline), all, i);
        ApplyToElement(b, all[i]);
      }
      assert all[..|all|] == all;
      PassFoldOutside(kinds, LiveWriter(num, b), old(doc.inline), all);
    }

    /**
     * `applyAll()`: `applyToElement` on the root and then on everything
     * below it, each element reading the page the ones before it left;
     * nothing outside the scope changes.
     */
    method ApplyAll(b: Browser)
      requires Valid()
      modifies this`originals, doc
      ensures Valid()
      ensures doc.inline == AutoFold(kinds, num, b, old(doc.inline), Scope(b))
      ensures StylesOutside(Scope(b), old(doc.inline), doc.inline)
      ensures b.root.None? ==> originals == old(originals)
    {
      if b.root.None? {
        return;
      }
      ApplyEach(b, Scope(b));
    }

    /** One element of `restoreAll`: its recorded values written back, then its record deleted. */
    method RestoreElement(el: Node)
      requires Valid()
      modifies this`originals, doc
      ensures Valid()
      ensures ElementAtBase(doc.inline, base, el) && el !in originals
      ensures originals == old(originals) - {el}
      ensures forall e2, p :: e2 != el ==> StyleIn(doc.inline, e2, p) == StyleIn(old(doc.inline), e2, p)
    {
      if el !in originals {
        return;
      }
      RestoreRecordOk(doc.inline, base, originals, el);
      doc.WriteAll(el, originals[el]);
      originals := originals - {el};
    }

    /**
     * The elements `all[..i]` are at `base` and have no record left, nothing
     * outside `all` has changed since `inline0` and no record was added.
     */
    ghost predicate RestoredUpTo(all: seq<Node>, i: nat, inline0: Styles, originals0: map<Node, Style>)
      reads this, doc
    {
      i <= |all|
      && AtBaseUpTo(doc.inline, base, all, i)
      && StylesOutside(all, inline0, doc.inline)
      && originals.Keys <= originals0.Keys
      && (forall j :: 0 <= j < i ==> all[j] !in originals)
    }

    /** One element of the loop of `restoreAll`. */
    method RestoreStep(all: seq<Node>, i: nat, ghost inline0: Styles, ghost originals0: map<Node, Style>)
      requires Valid() && i < |all| && RestoredUpTo(all, i, inline0, originals0)
      modifies this`originals, doc
      ensures Valid() && RestoredUpTo(all, i + 1, inline0, originals0)
    {
      ghost var before := doc.inline;
      RestoreElement(all[i]);
      RestoreStepOk(before, doc.inline, base, all, i);
    }

    /**
     * `restoreAll()`: every element of the scope gets its recorded inline
     * values back and loses its record, which brings it back to `base`;
     * nothing outside the scope changes.
     */
    method RestoreAll(b: Browser)
      requires Valid()
      modifies this`originals, doc
      ensures Valid()
      ensures forall el :: el in Scope(b) ==> ElementAtBase(doc.inline, base, el) && el !in originals
      ensures StylesOutside(Scope(b), old(doc.inline), doc.inline)
      ensures originals.Keys <= old(originals).Keys
    {
      if b.root.None? {
        return;
      }
      var all := Scope(b);
      for i := 0 to |all|
        invariant Valid()
        invariant RestoredUpTo(all, i, old(doc.inline), old(originals))
      {
        RestoreStep(all, i, old(doc.inline), old(originals));
      }
      forall el | el in all ensures ElementAtBase(doc.inline, base, el) && el !in originals {
        var j :| 0 <= j < |all| && all[j] == el;
      }
    }

    /** `startObserver()`: observes from now on, unless there is no root. */
    method StartObserver(b: Browser)
      modifies this`observing
      ensures observing == (old(observing) || b.root.Some?)
    {
      if b.root.None? || observing {
        return;
      }
      observing := true;
    }

    /** `stopObserver()`. */
    method StopObserver()
      modifies this`observing
      ensures !observing
    {
      observing := false;
    }

    /** The observer's handling of one added node: its subtree when it is an HTML element. */
    method OnAddedNode(b: Browser, node: Node)
      requires Valid()
      modifies this`originals, doc
      ensures Valid()
      ensures var s := if kinds.isHtml(node) then Subtree(b, node) else [];
        doc.inline == AutoFold(kinds, num, b, old(doc.inline), s) && StylesOutside(s, old(doc.inline), doc.inline)
    {
      if !kinds.isHtml(node) {
        return;
      }
      ApplyEach(b, Subtree(b, node));
    }

    /** The observer's handling of the `addedNodes` of one record. */
    method OnAddedNodes(b: Browser, nodes: seq<Node>)
      requires Valid()
      modifies this`originals, doc
      ensures Valid()
      ensures doc.inline == AutoFold(kinds, num, b, old(doc.inline), AddedHtml(kinds, b, nodes))
    {
      for k := 0 to |nodes|
        invariant Valid()
        invariant doc.inline == AutoFold(kinds, num, b, old(doc.inline), AddedHtml(kinds, b, nodes[..k]))
      {
        ghost var s := if kinds.isHtml(nodes[k]) then Subtree(b, nodes[k]) else [];
        OnAddedNode(b, nodes[k]);
        AddedHtmlStep(kinds, b, nodes, k);
        PassFoldAppend(kinds, LiveWriter(num, b), old(doc.inline), AddedHtml(kinds, b, nodes[..k]), s);
      }
      assert nodes[..|nodes|] == nodes;
    }

    /**
     * The observer callback for a batch of records, given by their
     * `addedNodes`: nothing when not dark; otherwise `applyToElement` on every
     * added HTML subtree in order, and nothing outside them changes.
     */
    method OnMutations(b: Browser, batches: seq<seq<Node>>)
      requires Valid()
      modifies this`originals, doc
      ensures Valid()
      ensures !isDark ==> originals == old(originals) && doc.inline == old(doc.inline)
      ensures isDark ==> doc.inline == AutoFold(kinds, num, b, old(doc.inline), AllAddedHtml(kinds, b, batches))
                         && StylesOutside(AllAddedHtml(kinds, b, batches), old(doc.inline), doc.inline)
    {
      if !isDark {
        return;
      }
      for k := 0 to |batches|
        invariant Valid()
        invariant doc.inline == AutoFold(kinds, num, b, old(doc.inline), AllAddedHtml(kinds, b, batches[..k]))
      {
        OnAddedNodes(b, batches[k]);
        AllAddedHtmlStep(kinds, b, batches, k);
        PassFoldAppend(kinds, LiveWriter(num, b), old(doc.inline), AllAddedHtml(kinds, b, batches[..k]), AddedHtml(kinds, b, batches[k]));
      }
      assert batches[..|batches|] == batches;
      PassFoldOutside(kinds, LiveWriter(num, b), old(doc.inline), AllAddedHtml(kinds, b, batches));
    }

    /** `enable()`: applied to the whole scope, observed, dark, persisted. */
    method Enable(b: Browser)
      requires Valid()
      modifies this`isDark, this`observing, this`originals, doc, store
      ensures Valid()
      ensures isDark && observing == (old(observing) || b.root.Some?)
      ensures store.available ==> ReadPersisted()
      ensures doc.inline == AutoFold(kinds, num, b, old(doc.inline), Scope(b))
      ensures StylesOutside(Scope(b), old(doc.inline), doc.inline)
    {
      ApplyAll(b);
      StartObserver(b);
      isDark := true;
      WritePersisted(true);
    }

    /**
     * `disable()`: no longer observed, every element of the scope back to
     * its inline styles from before the engine wrote anything, not dark,
     * persisted; nothing outside the scope changes.
     */
    method Disable(b: Browser)
      requires Valid()
      modifies this`isDark, this`observing, this`originals, doc, store
      ensures Valid()
      ensures !isDark && !observing
      ensures store.available ==> !ReadPersisted()
      ensures forall el :: el in Scope(b) ==> ElementAtBase(doc.inline, base, el) && el !in originals
      ensures StylesOutside(Scope(b), old(doc.inline), doc.inline)
    {
      StopObserver();
      RestoreAll(b);
      isDark := false;
      WritePersisted(false);
    }

    /** `toggleDark()`: `disable()` when dark, else `enable()`. */
    method ToggleDark(b: Browser)
      requires Valid()
      modifies this`isDark, this`observing, this`originals, doc, store
      ensures Valid()
      ensures isDark == !old(isDark)
      ensures store.available ==> ReadPersisted() == isDark
      ensures isDark ==> doc.inline == AutoFold(kinds, num, b, old(doc.inline), Scope(b))
      ensures !isDark ==> forall el :: el in Scope(b) ==> ElementAtBase(doc.inline, base, el)
    {
      if isDark {
        Disable(b);
      } else {
        Enable(b);
      }
    }

    /** The `onMounted` hook: `enable()` when the persisted flag reads true. */
    method OnMounted(b: Browser)
      requires Valid()
      modifies this`isDark, this`observing, this`originals, doc, store
      ensures Valid()
      ensures old(ReadPersisted()) ==> isDark && doc.inline == AutoFold(kinds, num, b, old(doc.inline), Scope(b))
      ensures !old(ReadPersisted()) ==> isDark == old(isDark) && originals == old(originals) && doc.inline == old(doc.inline)
    {
      if ReadPersisted() {
        Enable(b);
      }
    }

    /** The `onUnmounted` hook. */
    method OnUnmounted()
      modifies this`observing
      ensures !observing
    {
      StopObserver();
    }
  }

  /**
   * Writing back the record of `el` brings `el` to `base`, and the other
   * records still account for every remaining change.
   */
  lemma RestoreRecordOk(inline: Styles, base: Styles, originals: map<Node, Style>, el: Node)
    requires OriginalsOk(base, originals) && DriftRecorded(inline, base, originals) && el in originals
    ensures var inline' := Put(inline, el, originals[el]);
      ElementAtBase(inline', base, el)
      && OriginalsOk(base, originals - {el}) && DriftRecorded(inline', base, originals - {el})
  {
    var inline' := Put(inline, el, originals[el]);
    assert AtBase(base, el, originals[el]);
    forall e, p | StyleIn(inline', e, p) != StyleIn(base, e, p)
      ensures e in originals - {el} && p in (originals - {el})[e]
    {
      assert e != el;
    }
  }
}
