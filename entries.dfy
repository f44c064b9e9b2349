/**
 * The cache of the inversion engine: one entry per element, holding for
 * every colour property it will change the inline value it found
 * (`origInline`) and the inverted value it computed (`inv`), and what the
 * engine computes to fill it (`buildEntry`, and for entries in a dynamic
 * context the live computation of `applyDynamicToElement`).
 */
module StyleEntries {
  import opened Wrappers
  import opened Text
  import opened Colors
  import opened ColorTokens
  import opened Dom
  import opened Contrast

  /** Properties holding one colour. */
  const ColorProps: seq<Prop> := [
    Color, BackgroundColor, BorderTopColor, BorderRightColor, BorderBottomColor,
    BorderLeftColor, OutlineColor, CaretColor, Fill, Stroke, StopColor]

  /** Properties whose text may hold several colours (gradients, shadows). */
  const StringColorProps: seq<Prop> := [BackgroundImage, BoxShadow, TextShadow]

  const FilterProp := Filter

  /** The filter appended to image-like elements. */
  const InvertFilter := "invert(1) hue-rotate(180deg)"

  /** The contrast every inverted text colour is pushed towards. */
  const MinTextContrast := 4.5

  /** A tracked property: the inline value found before the first write, and the value to write when inverted. */
  datatype Rec = Rec(origInline: string, inv: Option<string>)

  /**
   * An element's entry. A static entry (`dynamic` false) has every `inv`
   * computed when it is built; a dynamic one gets its records while it is
   * applied, without `inv`.
   */
  datatype Entry = Entry(dynamic: bool, props: map<Prop, Rec>, stringProps: map<Prop, Rec>, filter: Option<Rec>)

  predicate IsColorProp(p: Prop) {
    !(p.BackgroundImage? || p.BoxShadow? || p.TextShadow? || p.Filter?)
  }

  predicate IsStringColorProp(p: Prop) {
    p.BackgroundImage? || p.BoxShadow? || p.TextShadow?
  }

  /** The lists hold exactly the properties of their group. */
  lemma PropListsComplete()
    ensures forall p :: p in ColorProps <==> IsColorProp(p)
    ensures forall p :: p in StringColorProps <==> IsStringColorProp(p)
  {
  }

  predicate WellFormedEntry(e: Entry) {
    (forall p :: p in e.props ==> IsColorProp(p))
    && (forall p :: p in e.stringProps ==> IsStringColorProp(p))
    && (!e.dynamic ==>
          (forall p :: p in e.props ==> e.props[p].inv.Some?)
          && (forall p :: p in e.stringProps ==> e.stringProps[p].inv.Some?)
          && (e.filter.Some? ==> e.filter.value.inv.Some?))
  }

  /** The properties an entry tracks. */
  function Tracked(e: Entry): (ps: set<Prop>)
    ensures forall p :: p in ps <==> p in e.props || p in e.stringProps || (e.filter.Some? && p == FilterProp)
  {
    e.props.Keys + e.stringProps.Keys + (if e.filter.Some? then {FilterProp} else {})
  }

  /** The restoring writes: every tracked property to its `origInline`. */
  function Origs(e: Entry): (w: Style)
    requires WellFormedEntry(e)
    ensures w.Keys == Tracked(e)
    ensures forall p :: p in e.props ==> w[p] == e.props[p].origInline
    ensures forall p :: p in e.stringProps ==> w[p] == e.stringProps[p].origInline
    ensures e.filter.Some? ==> w[FilterProp] == e.filter.value.origInline
  {
    map p | p in Tracked(e) ::
      if p in e.props then e.props[p].origInline
      else if p in e.stringProps then e.stringProps[p].origInline
      else e.filter.value.origInline
  }

  /** The inverting writes of a static entry: every tracked property to its `inv`. */
  function Invs(e: Entry): (w: Style)
    requires WellFormedEntry(e) && !e.dynamic
    ensures w.Keys == Tracked(e)
    ensures forall p :: p in e.props ==> w[p] == e.props[p].inv.value
    ensures forall p :: p in e.stringProps ==> w[p] == e.stringProps[p].inv.value
    ensures e.filter.Some? ==> w[FilterProp] == e.filter.value.inv.value
  {
    map p | p in Tracked(e) ::
      if p in e.props then e.props[p].inv.value
      else if p in e.stringProps then e.stringProps[p].inv.value
      else e.filter.value.inv.value
  }

  /**
   * Restoring after inverting: an inline style that got the inverting
   * writes and then the restoring ones holds every tracked property at its
   * `origInline` and every other property as it was before both.
   */
  lemma RestoreAfterInvert(style: Style, e: Entry)
    requires WellFormedEntry(e) && !e.dynamic
    ensures style + Invs(e) + Origs(e) == style + Origs(e)
    ensures forall p :: p in Tracked(e) ==> (style + Invs(e) + Origs(e))[p] == Origs(e)[p]
    ensures forall p :: p !in Tracked(e) ==>
      (p in style + Invs(e) + Origs(e) <==> p in style)
      && (p in style ==> (style + Invs(e) + Origs(e))[p] == style[p])
  {
    assert style + Invs(e) + Origs(e) == style + Origs(e);
  }

  // ---------------------------------------------------------------------------
  // What is computed for one property
  // ---------------------------------------------------------------------------

  /** `invertRgbaByLightness(effectiveBg)`: the background the inverted text will sit on. */
  function InvertedBackground(num: Numerics, page: Page, el: Node): Rgba {
    InvertByLightness(num, FirstVisible(Backgrounds(page, page.ancestry(el))))
  }

  /**
   * The inverted value of a colour property: none when the computed value
   * does not parse or is (nearly) transparent (alpha at most 0.01); text and
   * caret colours are then pushed to contrast 4.5 with the inverted background.
   */
  function ColorInv(num: Numerics, page: Page, el: Node, invertedBg: Rgba, p: Prop): Option<string> {
    var parsed := ParseRgb(page.computed(el, p));
    if parsed.None? || parsed.value.a <= 0.01 then None
    else
      var inverted := InvertByLightness(num, parsed.value);
      var adjusted := if p == Color || p == CaretColor then AdjustedText(num, inverted, invertedBg, MinTextContrast) else inverted;
      Some(RgbaToString(adjusted, num.formatAlpha))
  }

  /** The loop body shared by `buildEntry` and `applyDynamicToElement` for one colour property. */
  method InvertColor(num: Numerics, page: Page, el: Node, invertedBg: Rgba, prop: Prop) returns (v: Option<string>)
    ensures v == ColorInv(num, page, el, invertedBg, prop)
  {
    var current := page.computed(el, prop);
    var parsed := ParseRgb(current);
    if parsed.None? || parsed.value.a <= 0.01 {
      return None;
    }
    var inverted := InvertByLightness(num, parsed.value);
    if prop == Color || prop == CaretColor {
      inverted := AdjustTextForContrast(num, inverted, invertedBg, MinTextContrast);
    }
    return Some(RgbaToString(inverted, num.formatAlpha));
  }

  /** The replacer for colour lists: visible colours (alpha above 0.01) are inverted, the rest left alone. */
  function InvertVisible(num: Numerics): Option<Rgba> -> Option<Rgba> {
    (parsed: Option<Rgba>) => if parsed.Some? && parsed.value.a > 0.01 then Some(InvertByLightness(num, parsed.value)) else None
  }

  /** The new value of a colour-list property: none when it is empty, `none` or unchanged by the replacement. */
  function StringInv(num: Numerics, page: Page, el: Node, p: Prop): (r: Option<string>)
    ensures r.Some? ==> r.value != page.computed(el, p) && page.computed(el, p) != [] && page.computed(el, p) != "none"
  {
    var current := page.computed(el, p);
    if current == [] || current == "none" then None
    else
      var next := ReplaceRgbInString(current, InvertVisible(num), num.formatAlpha);
      if next != current then Some(next) else None
  }

  /** The loop body shared by `buildEntry` and `applyDynamicToElement` for one colour-list property. */
  method InvertColorList(num: Numerics, page: Page, el: Node, prop: Prop) returns (v: Option<string>)
    ensures v == StringInv(num, page, el, prop)
  {
    var current := page.computed(el, prop);
    if current == [] || current == "none" {
      return None;
    }
    var next := ReplaceRgbInString(current, InvertVisible(num), num.formatAlpha);
    if next != current {
      return Some(next);
    }
    return None;
  }

  /** A colour list without any `rgb(...)` token needs no record. */
  lemma StringInvWithoutTokens(num: Numerics, page: Page, el: Node, p: Prop)
    requires forall i :: 0 <= i <= |page.computed(el, p)| ==> TokenLen(page.computed(el, p)[i..]).None?
    ensures StringInv(num, page, el, p).None?
  {
    ReplaceWithoutTokens(page.computed(el, p), InvertVisible(num), num.formatAlpha);
  }

  /** The filter of an image-like element: the existing inline filter, then the inverting one. */
  function FilterInv(existing: string): string {
    (if existing != [] then existing + " " else "") + InvertFilter
  }

  /** The filter written holds `invert(`, so a later dynamic application leaves it alone. */
  lemma FilterInvMarked(existing: string)
    ensures Includes(FilterInv(existing), "invert(")
  {
    var r := FilterInv(existing);
    var k := |r| - |InvertFilter|;
    assert r[k..] == InvertFilter;
    assert StartsWith(r[k..], "invert(");
    IncludesSuffix(r, k, "invert(");
  }

  // ---------------------------------------------------------------------------
  // The values computed for a list of properties
  // ---------------------------------------------------------------------------

  /** The colour properties of `ps` with an inverted value, and that value. */
  function ColorValues(num: Numerics, page: Page, el: Node, invertedBg: Rgba, ps: seq<Prop>): (w: Style)
    ensures forall p :: p in w ==> p in ps
  {
    if ps == [] then map[]
    else
      var p := ps[|ps| - 1];
      var w := ColorValues(num, page, el, invertedBg, ps[..|ps| - 1]);
      assert forall q :: q in ps <==> q in ps[..|ps| - 1] || q == p;
      match ColorInv(num, page, el, invertedBg, p)
      case Some(v) => w[p := v]
      case None => w
  }

  /** The colour-list properties of `ps` that the replacement changes, and their new text. */
  function StringValues(num: Numerics, page: Page, el: Node, ps: seq<Prop>): (w: Style)
    ensures forall p :: p in w ==> p in ps
  {
    if ps == [] then map[]
    else
      var p := ps[|ps| - 1];
      var w := StringValues(num, page, el, ps[..|ps| - 1]);
      assert forall q :: q in ps <==> q in ps[..|ps| - 1] || q == p;
      match StringInv(num, page, el, p)
      case Some(v) => w[p := v]
      case None => w
  }

  /** One more property of the list: its value is added when it has one. */
  lemma ColorValuesSnoc(num: Numerics, page: Page, el: Node, invertedBg: Rgba, ps: seq<Prop>, i: nat)
    requires i < |ps|
    ensures ColorValues(num, page, el, invertedBg, ps[..i + 1]) ==
      match ColorInv(num, page, el, invertedBg, ps[i])
      case Some(v) => ColorValues(num, page, el, invertedBg, ps[..i])[ps[i] := v]
      case None => ColorValues(num, page, el, invertedBg, ps[..i])
  {
    assert ps[..i + 1][..i] == ps[..i];
  }

  lemma StringValuesSnoc(num: Numerics, page: Page, el: Node, ps: seq<Prop>, i: nat)
    requires i < |ps|
    ensures StringValues(num, page, el, ps[..i + 1]) ==
      match StringInv(num, page, el, ps[i])
      case Some(v) => StringValues(num, page, el, ps[..i])[ps[i] := v]
      case None => StringValues(num, page, el, ps[..i])
  {
    assert ps[..i + 1][..i] == ps[..i];
  }

  /** `ColorValues` holds exactly the properties of the list with an inverted value, and that value. */
  lemma {:induction false} ColorValuesSpec(num: Numerics, page: Page, el: Node, invertedBg: Rgba, ps: seq<Prop>)
    ensures var w := ColorValues(num, page, el, invertedBg, ps);
      (forall p :: p in w <==> p in ps && ColorInv(num, page, el, invertedBg, p).Some?)
      && forall p :: p in w ==> w[p] == ColorInv(num, page, el, invertedBg, p).value
  {
    if ps != [] {
      var init := ps[..|ps| - 1];
      ColorValuesSpec(num, page, el, invertedBg, init);
      assert forall q :: q in ps <==> q in init || q == ps[|ps| - 1];
    }
  }

  /** `StringValues` holds exactly the properties of the list that the replacement changes, and their new text. */
  lemma {:induction false} StringValuesSpec(num: Numerics, page: Page, el: Node, ps: seq<Prop>)
    ensures var w := StringValues(num, page, el, ps);
      (forall p :: p in w <==> p in ps && StringInv(num, page, el, p).Some?)
      && forall p :: p in w ==> w[p] == StringInv(num, page, el, p).value
  {
    if ps != [] {
      var init := ps[..|ps| - 1];
      StringValuesSpec(num, page, el, init);
      assert forall q :: q in ps <==> q in init || q == ps[|ps| - 1];
    }
  }

  /** Static records for the values `w`: the inline value found, and the value to write. */
  function StaticRecs(w: Style, inline: Styles, el: Node): (recs: map<Prop, Rec>)
    ensures recs.Keys == w.Keys
    ensures forall p :: p in recs ==> recs[p] == Rec(StyleIn(inline, el, p), Some(w[p]))
  {
    map p | p in w :: Rec(StyleIn(inline, el, p), Some(w[p]))
  }

  /** Dynamic records for the properties `ps`: the inline value found, no value to write. */
  function FreshRecs(ps: set<Prop>, inline: Styles, el: Node): (recs: map<Prop, Rec>)
    ensures recs.Keys == ps
    ensures forall p :: p in recs ==> recs[p] == Rec(StyleIn(inline, el, p), None)
  {
    map p | p in ps :: Rec(StyleIn(inline, el, p), None)
  }

  lemma StaticRecsPut(w: Style, inline: Styles, el: Node, p: Prop, v: string)
    ensures StaticRecs(w[p := v], inline, el) == StaticRecs(w, inline, el)[p := Rec(StyleIn(inline, el, p), Some(v))]
  {
    assert StaticRecs(w[p := v], inline, el).Keys == StaticRecs(w, inline, el)[p := Rec(StyleIn(inline, el, p), Some(v))].Keys;
  }

  // ---------------------------------------------------------------------------
  // The values applyDynamicToElement computes, reading as it writes
  // ---------------------------------------------------------------------------

  /**
   * The colour writes of `applyDynamicToElement` over `ps`. Its computed
   * style is live, so each property is read from the page as the writes to
   * the properties before it in the list left it.
   */
  function LiveColorValues(num: Numerics, b: Browser, inline: Styles, el: Node, invertedBg: Rgba, ps: seq<Prop>): (w: Style)
    ensures forall p :: p in w ==> p in ps
  {
    if ps == [] then map[]
    else
      var p := ps[|ps| - 1];
      var w := LiveColorValues(num, b, inline, el, invertedBg, ps[..|ps| - 1]);
      assert forall q :: q in ps <==> q in ps[..|ps| - 1] || q == p;
      match ColorInv(num, PageAt(b, Put(inline, el, w)), el, invertedBg, p)
      case Some(v) => w[p := v]
      case None => w
  }

  /** The colour-list writes of `applyDynamicToElement` over `ps`, each read after the writes before it. */
  function LiveStringValues(num: Numerics, b: Browser, inline: Styles, el: Node, ps: seq<Prop>): (w: Style)
    ensures forall p :: p in w ==> p in ps
  {
    if ps == [] then map[]
    else
      var p := ps[|ps| - 1];
      var w := LiveStringValues(num, b, inline, el, ps[..|ps| - 1]);
      assert forall q :: q in ps <==> q in ps[..|ps| - 1] || q == p;
      match StringInv(num, PageAt(b, Put(inline, el, w)), el, p)
      case Some(v) => w[p := v]
      case None => w
  }

  /** One more property of the list, read after the writes for the ones before it. */
  lemma LiveColorValuesSnoc(num: Numerics, b: Browser, inline: Styles, el: Node, invertedBg: Rgba, ps: seq<Prop>, i: nat)
    requires i < |ps|
    ensures var w := LiveColorValues(num, b, inline, el, invertedBg, ps[..i]);
      LiveColorValues(num, b, inline, el, invertedBg, ps[..i + 1]) ==
        match ColorInv(num, PageAt(b, Put(inline, el, w)), el, invertedBg, ps[i])
        case Some(v) => w[ps[i] := v]
        case None => w
  {
    assert ps[..i + 1][..i] == ps[..i];
  }

  lemma LiveStringValuesSnoc(num: Numerics, b: Browser, inline: Styles, el: Node, ps: seq<Prop>, i: nat)
    requires i < |ps|
    ensures var w := LiveStringValues(num, b, inline, el, ps[..i]);
      LiveStringValues(num, b, inline, el, ps[..i + 1]) ==
        match StringInv(num, PageAt(b, Put(inline, el, w)), el, ps[i])
        case Some(v) => w[ps[i] := v]
        case None => w
  {
    assert ps[..i + 1][..i] == ps[..i];
  }

  /** A prefix of a list without repeats has none. */
  lemma DistinctPrefix(ps: seq<Prop>, k: nat)
    requires Distinct(ps) && k <= |ps|
    ensures Distinct(ps[..k])
  {
    forall i | 0 <= i < k ensures ps[..k][i] !in ps[..k][..i] {
      assert ps[..k][..i] == ps[..i];
    }
  }

  /** The later properties of a list without repeats leave the write for `ps[i]` as it was. */
  lemma {:induction false} LiveColorValuesLater(num: Numerics, b: Browser, inline: Styles, el: Node, invertedBg: Rgba, ps: seq<Prop>, i: nat)
    requires Distinct(ps) && i < |ps|
    ensures var w := LiveColorValues(num, b, inline, el, invertedBg, ps);
      var w' := LiveColorValues(num, b, inline, el, invertedBg, ps[..i + 1]);
      (ps[i] in w <==> ps[i] in w') && (ps[i] in w ==> w[ps[i]] == w'[ps[i]])
  {
    var n := |ps| - 1;
    if i < n {
      var init := ps[..n];
      DistinctPrefix(ps, n);
      LiveColorValuesLater(num, b, inline, el, invertedBg, init, i);
      assert init[..i + 1] == ps[..i + 1];
      assert ps[n] != ps[i] by {
        assert ps[i] in ps[..n];
      }
      LiveColorValuesSnoc(num, b, inline, el, invertedBg, ps, n);
      assert ps[..n + 1] == ps;
    } else {
      assert ps[..i + 1] == ps;
    }
  }

  lemma {:induction false} LiveStringValuesLater(num: Numerics, b: Browser, inline: Styles, el: Node, ps: seq<Prop>, i: nat)
    requires Distinct(ps) && i < |ps|
    ensures var w := LiveStringValues(num, b, inline, el, ps);
      var w' := LiveStringValues(num, b, inline, el, ps[..i + 1]);
      (ps[i] in w <==> ps[i] in w') && (ps[i] in w ==> w[ps[i]] == w'[ps[i]])
  {
    var n := |ps| - 1;
    if i < n {
      var init := ps[..n];
      DistinctPrefix(ps, n);
      LiveStringValuesLater(num, b, inline, el, init, i);
      assert init[..i + 1] == ps[..i + 1];
      assert ps[n] != ps[i] by {
        assert ps[i] in ps[..n];
      }
      LiveStringValuesSnoc(num, b, inline, el, ps, n);
      assert ps[..n + 1] == ps;
    } else {
      assert ps[..i + 1] == ps;
    }
  }

  /**
   * Over a list without repeats, `LiveColorValues` holds exactly the
   * properties that have an inverted value at their turn, with that value:
   * the one computed from the page after the writes for the properties
   * before it.
   */
  lemma LiveColorValuesSpec(num: Numerics, b: Browser, inline: Styles, el: Node, invertedBg: Rgba, ps: seq<Prop>)
    requires Distinct(ps)
    ensures var w := LiveColorValues(num, b, inline, el, invertedBg, ps);
      forall i :: 0 <= i < |ps| ==>
        var at := PageAt(b, Put(inline, el, LiveColorValues(num, b, inline, el, invertedBg, ps[..i])));
        (ps[i] in w <==> ColorInv(num, at, el, invertedBg, ps[i]).Some?)
        && (ps[i] in w ==> w[ps[i]] == ColorInv(num, at, el, invertedBg, ps[i]).value)
  {
    forall i | 0 <= i < |ps|
      ensures var w := LiveColorValues(num, b, inline, el, invertedBg, ps);
        var at := PageAt(b, Put(inline, el, LiveColorValues(num, b, inline, el, invertedBg, ps[..i])));
        (ps[i] in w <==> ColorInv(num, at, el, invertedBg, ps[i]).Some?)
        && (ps[i] in w ==> w[ps[i]] == ColorInv(num, at, el, invertedBg, ps[i]).value)
    {
      LiveColorValuesLater(num, b, inline, el, invertedBg, ps, i);
      LiveColorValuesSnoc(num, b, inline, el, invertedBg, ps, i);
      assert ps[i] !in LiveColorValues(num, b, inline, el, invertedBg, ps[..i]);
    }
  }

  /** Over a list without repeats, `LiveStringValues` holds exactly the properties changed at their turn, with the new text. */
  lemma LiveStringValuesSpec(num: Numerics, b: Browser, inline: Styles, el: Node, ps: seq<Prop>)
    requires Distinct(ps)
    ensures var w := LiveStringValues(num, b, inline, el, ps);
      forall i :: 0 <= i < |ps| ==>
        var at := PageAt(b, Put(inline, el, LiveStringValues(num, b, inline, el, ps[..i])));
        (ps[i] in w <==> StringInv(num, at, el, ps[i]).Some?)
        && (ps[i] in w ==> w[ps[i]] == StringInv(num, at, el, ps[i]).value)
  {
    forall i | 0 <= i < |ps|
      ensures var w := LiveStringValues(num, b, inline, el, ps);
        var at := PageAt(b, Put(inline, el, LiveStringValues(num, b, inline, el, ps[..i])));
        (ps[i] in w <==> StringInv(num, at, el, ps[i]).Some?)
        && (ps[i] in w ==> w[ps[i]] == StringInv(num, at, el, ps[i]).value)
    {
      LiveStringValuesLater(num, b, inline, el, ps, i);
      LiveStringValuesSnoc(num, b, inline, el, ps, i);
      assert ps[i] !in LiveStringValues(num, b, inline, el, ps[..i]);
    }
  }

  /**
   * When no computed value of `el` follows its own inline styles, reading as
   * the loop writes gives what `buildEntry` reads before writing anything.
   */
  lemma {:induction false} LiveColorValuesUnaffected(num: Numerics, b: Browser, inline: Styles, el: Node, invertedBg: Rgba, ps: seq<Prop>)
    requires forall w: Style, p :: b.cascade(Put(inline, el, w), el, p) == b.cascade(inline, el, p)
    ensures LiveColorValues(num, b, inline, el, invertedBg, ps) == ColorValues(num, PageAt(b, inline), el, invertedBg, ps)
  {
    if ps != [] {
      var n := |ps| - 1;
      LiveColorValuesUnaffected(num, b, inline, el, invertedBg, ps[..n]);
      var w := LiveColorValues(num, b, inline, el, invertedBg, ps[..n]);
      ColorInvSameRead(num, PageAt(b, Put(inline, el, w)), PageAt(b, inline), el, invertedBg, ps[n]);
    }
  }

  /** The inverted value of a property depends on its computed value only. */
  lemma ColorInvSameRead(num: Numerics, page1: Page, page2: Page, el: Node, invertedBg: Rgba, p: Prop)
    requires page1.computed(el, p) == page2.computed(el, p)
    ensures ColorInv(num, page1, el, invertedBg, p) == ColorInv(num, page2, el, invertedBg, p)
  {
  }

  lemma StringInvSameRead(num: Numerics, page1: Page, page2: Page, el: Node, p: Prop)
    requires page1.computed(el, p) == page2.computed(el, p)
    ensures StringInv(num, page1, el, p) == StringInv(num, page2, el, p)
  {
  }

  lemma {:induction false} LiveStringValuesUnaffected(num: Numerics, b: Browser, inline: Styles, el: Node, ps: seq<Prop>)
    requires forall w: Style, p :: b.cascade(Put(inline, el, w), el, p) == b.cascade(inline, el, p)
    ensures LiveStringValues(num, b, inline, el, ps) == StringValues(num, PageAt(b, inline), el, ps)
  {
    if ps != [] {
      var n := |ps| - 1;
      LiveStringValuesUnaffected(num, b, inline, el, ps[..n]);
      var w := LiveStringValues(num, b, inline, el, ps[..n]);
      StringInvSameRead(num, PageAt(b, Put(inline, el, w)), PageAt(b, inline), el, ps[n]);
    }
  }


  // ---------------------------------------------------------------------------
  // buildEntry
  // ---------------------------------------------------------------------------

  /** The colour records of a static entry. */
  function StaticProps(num: Numerics, page: Page, inline: Styles, el: Node): map<Prop, Rec> {
    StaticRecs(ColorValues(num, page, el, InvertedBackground(num, page, el), ColorProps), inline, el)
  }

  /** The colour-list records of a static entry. */
  function StaticStringProps(num: Numerics, page: Page, inline: Styles, el: Node): map<Prop, Rec> {
    StaticRecs(StringValues(num, page, el, StringColorProps), inline, el)
  }

  /**
   * `buildEntry(el)`: no entry for a node that is not an HTML or SVG element;
   * an empty dynamic entry inside a dynamic context; otherwise a record for
   * every colour property with a visible computed colour, every colour-list
   * property the replacement changes, and the filter of an image-like element,
   * each holding the element's inline value of the moment.
   */
  function EntryFor(kinds: NodeKinds, num: Numerics, page: Page, inline: Styles, el: Node): Option<Entry> {
    if !kinds.isElement(el) || !kinds.isStyled(el) then None
    else if page.inDynamicContext(el) then Some(Entry(true, map[], map[], None))
    else
      var filter := if kinds.isImageLike(el) then
        Some(Rec(StyleIn(inline, el, FilterProp), Some(FilterInv(StyleIn(inline, el, FilterProp)))))
        else None;
      Some(Entry(false, StaticProps(num, page, inline, el), StaticStringProps(num, page, inline, el), filter))
  }

  /**
   * Every entry built is well formed, exists exactly for HTML and SVG
   * elements, is dynamic exactly inside a dynamic context, and records the
   * element's inline values of the moment.
   */
  lemma EntryForWellFormed(kinds: NodeKinds, num: Numerics, page: Page, inline: Styles, el: Node)
    ensures EntryFor(kinds, num, page, inline, el).Some? <==> kinds.isElement(el) && kinds.isStyled(el)
    ensures EntryFor(kinds, num, page, inline, el).Some? ==>
      var e := EntryFor(kinds, num, page, inline, el).value;
      WellFormedEntry(e) && (e.dynamic <==> page.inDynamicContext(el))
      && forall p :: p in Origs(e) ==> Origs(e)[p] == StyleIn(inline, el, p)
  {
    PropListsComplete();
  }

  /** A static entry records every visible colour and every changed colour list, and nothing else. */
  lemma StaticEntryCovers(kinds: NodeKinds, num: Numerics, page: Page, inline: Styles, el: Node, p: Prop)
    requires kinds.isElement(el) && kinds.isStyled(el) && !page.inDynamicContext(el)
    ensures var e := EntryFor(kinds, num, page, inline, el).value;
      (p in e.props <==> IsColorProp(p) && ColorInv(num, page, el, InvertedBackground(num, page, el), p).Some?)
      && (p in e.stringProps <==> IsStringColorProp(p) && StringInv(num, page, el, p).Some?)
      && (e.filter.Some? <==> kinds.isImageLike(el))
  {
    PropListsComplete();
    ColorValuesSpec(num, page, el, InvertedBackground(num, page, el), ColorProps);
    StringValuesSpec(num, page, el, StringColorProps);
  }

  /** The colour records for the properties `ps`, built one property after another. */
  method BuildColorRecs(num: Numerics, page: Page, inline: Styles, el: Node, invertedBg: Rgba, ps: seq<Prop>)
    returns (props: map<Prop, Rec>)
    ensures props == StaticRecs(ColorValues(num, page, el, invertedBg, ps), inline, el)
  {
    props := map[];
    ghost var w: Style := map[];
    for i := 0 to |ps|
      invariant w == ColorValues(num, page, el, invertedBg, ps[..i])
      invariant props == StaticRecs(w, inline, el)
    {
      var prop := ps[i];
      ColorValuesSnoc(num, page, el, invertedBg, ps, i);
      var inv := InvertColor(num, page, el, invertedBg, prop);
      if inv.Some? {
        StaticRecsPut(w, inline, el, prop, inv.value);
        props := props[prop := Rec(StyleIn(inline, el, prop), inv)];
        w := w[prop := inv.value];
      }
    }
    assert ps[..|ps|] == ps;
  }

  /** The colour-list records for the properties `ps`, built one property after another. */
  method BuildStringRecs(num: Numerics, page: Page, inline: Styles, el: Node, ps: seq<Prop>)
    returns (stringProps: map<Prop, Rec>)
    ensures stringProps == StaticRecs(StringValues(num, page, el, ps), inline, el)
  {
    stringProps := map[];
    ghost var w: Style := map[];
    for i := 0 to |ps|
      invariant w == StringValues(num, page, el, ps[..i])
      invariant stringProps == StaticRecs(w, inline, el)
    {
      var prop := ps[i];
      StringValuesSnoc(num, page, el, ps, i);
      var inv := InvertColorList(num, page, el, prop);
      if inv.Some? {
        StaticRecsPut(w, inline, el, prop, inv.value);
        stringProps := stringProps[prop := Rec(StyleIn(inline, el, prop), inv)];
        w := w[prop := inv.value];
      }
    }
    assert ps[..|ps|] == ps;
  }

  /** `buildEntry(el)`, reading the inline styles `inline` of the moment. */
  method BuildEntry(kinds: NodeKinds, num: Numerics, page: Page, inline: Styles, el: Node)
    returns (entry: Option<Entry>)
    ensures entry == EntryFor(kinds, num, page, inline, el)
  {
    if !kinds.isElement(el) || !kinds.isStyled(el) {
      return None;
    }
    if page.inDynamicContext(el) {
      return Some(Entry(true, map[], map[], None));
    }
    var effectiveBg := FindEffectiveBackgroundColor(page, page.ancestry(el));
    var invertedBg := InvertByLightness(num, effectiveBg);
    var props := BuildColorRecs(num, page, inline, el, invertedBg, ColorProps);
    var stringProps := BuildStringRecs(num, page, inline, el, StringColorProps);
    var filter := None;
    if kinds.isImageLike(el) {
      var existing := StyleIn(inline, el, FilterProp);
      filter := Some(Rec(StyleIn(inline, el, FilterProp), Some(FilterInv(existing))));
    }
    return Some(Entry(false, props, stringProps, filter));
  }

  // ---------------------------------------------------------------------------
  // applyDynamicToElement
  // ---------------------------------------------------------------------------

  /** The filter write of a dynamic application: only on an image-like element whose filter has no `invert(` yet. */
  function FilterWrite(kinds: NodeKinds, el: Node, existing: string): (w: Style)
    ensures w.Keys <= {FilterProp}
  {
    if kinds.isImageLike(el) && !Includes(existing, "invert(") then map[FilterProp := FilterInv(existing)] else map[]
  }

  /** The colour writes of `applyDynamicToElement`, against the background as the page showed it before them. */
  function DynamicColorWrites(num: Numerics, b: Browser, inline: Styles, el: Node): Style {
    LiveColorValues(num, b, inline, el, InvertedBackground(num, PageAt(b, inline), el), ColorProps)
  }

  /**
   * The writes of `applyDynamicToElement` when the inline styles are
   * `inline`: every colour property with an inverted value, then every
   * colour list the replacement changes, each read after the writes before
   * it, then the filter.
   */
  function DynamicWrites(kinds: NodeKinds, num: Numerics, b: Browser, inline: Styles, el: Node): Style {
    var wc := DynamicColorWrites(num, b, inline, el);
    wc + LiveStringValues(num, b, Put(inline, el, wc), el, StringColorProps)
    + FilterWrite(kinds, el, StyleIn(inline, el, FilterProp))
  }

  /** The properties of `w` in each group. */
  function ColorKeys(w: Style): set<Prop> {
    set p | p in w && IsColorProp(p)
  }

  function StringKeys(w: Style): set<Prop> {
    set p | p in w && IsStringColorProp(p)
  }

  /**
   * The entry after the writes `w`: a record (without `inv`) is added for
   * every property written that the entry did not track yet, holding the
   * inline value found; records the entry already has are kept.
   */
  function Extend(e: Entry, inline: Styles, el: Node, w: Style): Entry {
    Entry(e.dynamic,
      FreshRecs(ColorKeys(w), inline, el) + e.props,
      FreshRecs(StringKeys(w), inline, el) + e.stringProps,
      if FilterProp in w && e.filter.None? then Some(Rec(StyleIn(inline, el, FilterProp), None)) else e.filter)
  }

  /** Extending keeps the entry well formed and dynamic. */
  lemma ExtendWellFormed(e: Entry, inline: Styles, el: Node, w: Style)
    requires WellFormedEntry(e) && e.dynamic
    ensures WellFormedEntry(Extend(e, inline, el, w)) && Extend(e, inline, el, w).dynamic
  {
  }

  /** The extended entry tracks what it tracked and what was written. */
  lemma ExtendTracked(e: Entry, inline: Styles, el: Node, w: Style)
    requires WellFormedEntry(e) && e.dynamic
    ensures Tracked(Extend(e, inline, el, w)) == Tracked(e) + w.Keys
  {
    var e' := Extend(e, inline, el, w);
    forall p | p in w ensures p in Tracked(e') {
      if IsColorProp(p) {
        assert p in ColorKeys(w);
      } else if IsStringColorProp(p) {
        assert p in StringKeys(w);
      }
    }
  }

  /** The records an extended entry had are unchanged, and every record it adds holds the inline value found. */
  lemma ExtendOrigs(e: Entry, inline: Styles, el: Node, w: Style)
    requires WellFormedEntry(e) && e.dynamic
    ensures var e' := Extend(e, inline, el, w);
      WellFormedEntry(e')
      && (forall p :: p in Tracked(e) ==> p in Tracked(e') && Origs(e')[p] == Origs(e)[p])
      && (forall p :: p in Tracked(e') && p !in Tracked(e) ==> Origs(e')[p] == StyleIn(inline, el, p))
  {
    var e' := Extend(e, inline, el, w);
    ExtendWellFormed(e, inline, el, w);
    forall p | p in Tracked(e) ensures p in Tracked(e') && Origs(e')[p] == Origs(e)[p] {
      if p in e.props {
        assert e'.props[p] == e.props[p];
      } else if p in e.stringProps {
        assert e'.stringProps[p] == e.stringProps[p];
      }
    }
    forall p | p in Tracked(e') && p !in Tracked(e) ensures Origs(e')[p] == StyleIn(inline, el, p) {
      if p in e'.props {
        assert e'.props[p] == FreshRecs(ColorKeys(w), inline, el)[p];
      } else if p in e'.stringProps {
        assert e'.stringProps[p] == FreshRecs(StringKeys(w), inline, el)[p];
      }
    }
  }

  /** The entry after `applyDynamicToElement`. */
  function DynamicEntry(kinds: NodeKinds, num: Numerics, b: Browser, inline: Styles, el: Node, e: Entry): Entry {
    Extend(e, inline, el, DynamicWrites(kinds, num, b, inline, el))
  }

  /** The values computed for the two lists lie in their groups. */
  lemma ValuesInGroups(num: Numerics, b: Browser, inline1: Styles, inline2: Styles, el: Node, invertedBg: Rgba)
    ensures forall p :: p in LiveColorValues(num, b, inline1, el, invertedBg, ColorProps) ==> IsColorProp(p)
    ensures forall p :: p in LiveStringValues(num, b, inline2, el, StringColorProps) ==> IsStringColorProp(p)
    ensures FilterProp !in LiveColorValues(num, b, inline1, el, invertedBg, ColorProps) + LiveStringValues(num, b, inline2, el, StringColorProps)
  {
    PropListsComplete();
  }

  /**
   * A second dynamic application does not stack a second filter: once the
   * inverting filter is written, the next application leaves the filter alone.
   */
  lemma FilterWriteOnce(kinds: NodeKinds, el: Node, existing: string)
    ensures FilterWrite(kinds, el, existing) != map[] ==>
      var written := FilterWrite(kinds, el, existing)[FilterProp];
      written == FilterInv(existing) && FilterWrite(kinds, el, written) == map[]
  {
    if FilterWrite(kinds, el, existing) != map[] {
      FilterInvMarked(existing);
    }
  }

  /** Adding a property to the fresh records adds its record unless the entry already had one. */
  lemma FreshRecsInsert(keys: set<Prop>, inline: Styles, el: Node, p: Prop, props: map<Prop, Rec>)
    requires p !in keys
    ensures FreshRecs(keys + {p}, inline, el) + props ==
      if p in props then FreshRecs(keys, inline, el) + props
      else (FreshRecs(keys, inline, el) + props)[p := Rec(StyleIn(inline, el, p), None)]
  {
    assert (FreshRecs(keys + {p}, inline, el) + props).Keys == (FreshRecs(keys, inline, el) + props).Keys + {p};
  }

  /** No property occurs twice in the list. */
  predicate Distinct(ps: seq<Prop>) {
    forall i :: 0 <= i < |ps| ==> ps[i] !in ps[..i]
  }

  /** Each property occurs once in each list, so a loop over one never reads back its own write. */
  lemma PropListsDistinct()
    ensures Distinct(ColorProps) && Distinct(StringColorProps)
  {
    forall i | 0 <= i < |ColorProps| ensures ColorProps[i] !in ColorProps[..i] {
    }
  }

  /**
   * One write of a dynamic application: a record of the inline value is
   * added first unless the entry already tracks the property.
   */
  method RecordAndWrite(doc: Document, el: Node, prop: Prop, value: string, recs: map<Prop, Rec>)
    returns (recs': map<Prop, Rec>)
    modifies doc
    ensures doc.inline == Put(old(doc.inline), el, map[prop := value])
    ensures recs' == if prop in recs then recs else recs[prop := Rec(old(doc.Read(el, prop)), None)]
  {
    recs' := recs;
    if prop !in recs {
      recs' := recs[prop := Rec(doc.Read(el, prop), None)];
    }
    doc.Write(el, prop, value);
  }

  /** After writes `w`, recording and writing one more property `p` extends both the writes and the records. */
  lemma RecordStep(inline0: Styles, el: Node, w: Style, p: Prop, v: string, recs0: map<Prop, Rec>)
    requires p !in w
    ensures var recs := FreshRecs(w.Keys, inline0, el) + recs0;
      var inline := Put(inline0, el, w);
      (if p in recs then recs else recs[p := Rec(StyleIn(inline, el, p), None)])
        == FreshRecs(w[p := v].Keys, inline0, el) + recs0
      && Put(inline, el, map[p := v]) == Put(inline0, el, w[p := v])
  {
    FreshRecsInsert(w.Keys, inline0, el, p, recs0);
    assert w[p := v].Keys == w.Keys + {p};
    PutOne(inline0, el, w, p, v);
  }

  /**
   * The colour part of `applyDynamicToElement`, over the properties `ps`:
   * each property is read from the live computed style, after the writes to
   * the properties before it.
   */
  method ApplyDynamicColors(num: Numerics, b: Browser, doc: Document, el: Node, invertedBg: Rgba, ps: seq<Prop>, props: map<Prop, Rec>)
    returns (props': map<Prop, Rec>)
    requires Distinct(ps)
    modifies doc
    ensures var w := LiveColorValues(num, b, old(doc.inline), el, invertedBg, ps);
      doc.inline == Put(old(doc.inline), el, w)
      && props' == FreshRecs(w.Keys, old(doc.inline), el) + props
  {
    props' := props;
    ghost var inline0 := doc.inline;
    ghost var w: Style := map[];
    for i := 0 to |ps|
      invariant w == LiveColorValues(num, b, inline0, el, invertedBg, ps[..i])
      invariant doc.inline == Put(inline0, el, w)
      invariant props' == FreshRecs(w.Keys, inline0, el) + props
    {
      var prop := ps[i];
      var page := PageAt(b, doc.inline);
      assert page == PageAt(b, Put(inline0, el, w));
      LiveColorValuesSnoc(num, b, inline0, el, invertedBg, ps, i);
      var inv := InvertColor(num, page, el, invertedBg, prop);
      if inv.None? {
        continue;
      }
      assert prop !in w;
      RecordStep(inline0, el, w, prop, inv.value, props);
      props' := RecordAndWrite(doc, el, prop, inv.value, props');
      w := w[prop := inv.value];
    }
    assert ps[..|ps|] == ps;
  }

  /** The colour-list part of `applyDynamicToElement`, over the properties `ps`, reading as it writes. */
  method ApplyDynamicStrings(num: Numerics, b: Browser, doc: Document, el: Node, ps: seq<Prop>, stringProps: map<Prop, Rec>)
    returns (stringProps': map<Prop, Rec>)
    requires Distinct(ps)
    modifies doc
    ensures var w := LiveStringValues(num, b, old(doc.inline), el, ps);
      doc.inline == Put(old(doc.inline), el, w)
      && stringProps' == FreshRecs(w.Keys, old(doc.inline), el) + stringProps
  {
    stringProps' := stringProps;
    ghost var inline0 := doc.inline;
    ghost var w: Style := map[];
    for i := 0 to |ps|
      invariant w == LiveStringValues(num, b, inline0, el, ps[..i])
      invariant doc.inline == Put(inline0, el, w)
      invariant stringProps' == FreshRecs(w.Keys, inline0, el) + stringProps
    {
      var prop := ps[i];
      var page := PageAt(b, doc.inline);
      assert page == PageAt(b, Put(inline0, el, w));
      LiveStringValuesSnoc(num, b, inline0, el, ps, i);
      var inv := InvertColorList(num, page, el, prop);
      if inv.None? {
        continue;
      }
      var next := inv.value;
      assert prop !in w;
      RecordStep(inline0, el, w, prop, next, stringProps);
      stringProps' := RecordAndWrite(doc, el, prop, next, stringProps');
      w := w[prop := next];
    }
    assert ps[..|ps|] == ps;
  }

  /** The filter part of `applyDynamicToElement`. */
  method ApplyDynamicFilter(kinds: NodeKinds, doc: Document, el: Node, filter: Option<Rec>)
    returns (filter': Option<Rec>)
    modifies doc
    ensures var w := FilterWrite(kinds, el, old(doc.Read(el, FilterProp)));
      doc.inline == Put(old(doc.inline), el, w)
      && filter' == if w != map[] && filter.None? then Some(Rec(old(doc.Read(el, FilterProp)), None)) else filter
  {
    filter' := filter;
    if kinds.isImageLike(el) {
      var existing := doc.Read(el, FilterProp);
      if !Includes(existing, "invert(") {
        if filter.None? {
          filter' := Some(Rec(doc.Read(el, FilterProp), None));
        }
        doc.Write(el, FilterProp, FilterInv(existing));
      }
    }
  }

  /**
   * `applyDynamicToElement(el, entry)`: writes the inverted value of every
   * property, each read from the live computed style, and adds a record for
   * every property written that the entry did not track yet.
   */
  method ApplyDynamic(kinds: NodeKinds, num: Numerics, b: Browser, doc: Document, el: Node, e: Entry)
    returns (e': Entry)
    modifies doc
    ensures doc.inline == Put(old(doc.inline), el, DynamicWrites(kinds, num, b, old(doc.inline), el))
    ensures e' == DynamicEntry(kinds, num, b, old(doc.inline), el, e)
  {
    ghost var inline0 := doc.inline;
    var page := PageAt(b, doc.inline);
    var effectiveBg := FindEffectiveBackgroundColor(page, page.ancestry(el));
    var invertedBg := InvertByLightness(num, effectiveBg);
    PropListsDistinct();
    var props := ApplyDynamicColors(num, b, doc, el, invertedBg, ColorProps, e.props);
    ghost var inline1 := doc.inline;
    var stringProps := ApplyDynamicStrings(num, b, doc, el, StringColorProps, e.stringProps);
    ghost var inline2 := doc.inline;
    var filter := ApplyDynamicFilter(kinds, doc, el, e.filter);
    DynamicParts(kinds, num, b, inline0, el, e);
    e' := Entry(e.dynamic, props, stringProps, filter);
  }

  /**
   * The three parts of `applyDynamicToElement` in sequence: together they
   * write `DynamicWrites` and leave the entry `DynamicEntry`.
   */
  lemma DynamicParts(kinds: NodeKinds, num: Numerics, b: Browser, inline0: Styles, el: Node, e: Entry)
    ensures var w1 := DynamicColorWrites(num, b, inline0, el);
      var inline1 := Put(inline0, el, w1);
      var w2 := LiveStringValues(num, b, inline1, el, StringColorProps);
      var inline2 := Put(inline1, el, w2);
      var w3 := FilterWrite(kinds, el, StyleIn(inline2, el, FilterProp));
      Put(inline2, el, w3) == Put(inline0, el, DynamicWrites(kinds, num, b, inline0, el))
      && Entry(e.dynamic, FreshRecs(w1.Keys, inline0, el) + e.props, FreshRecs(w2.Keys, inline1, el) + e.stringProps,
               if w3 != map[] && e.filter.None? then Some(Rec(StyleIn(inline2, el, FilterProp), None)) else e.filter)
         == DynamicEntry(kinds, num, b, inline0, el, e)
  {
    var w1 := DynamicColorWrites(num, b, inline0, el);
    var inline1 := Put(inline0, el, w1);
    var w2 := LiveStringValues(num, b, inline1, el, StringColorProps);
    var inline2 := Put(inline1, el, w2);
    DynamicInlineParts(kinds, num, b, inline0, el);
    var w3 := FilterWrite(kinds, el, StyleIn(inline0, el, FilterProp));
    assert w1 + w2 + w3 == DynamicWrites(kinds, num, b, inline0, el);
    ValuesInGroups(num, b, inline0, inline1, el, InvertedBackground(num, PageAt(b, inline0), el));
    ExtendParts(e, inline0, el, w1, w2, w3);
  }

  /** Extending by three writes in turn, each group recorded against the inline values it found. */
  lemma ExtendParts(e: Entry, inline0: Styles, el: Node, w1: Style, w2: Style, w3: Style)
    requires forall p :: p in w1 ==> IsColorProp(p)
    requires forall p :: p in w2 ==> IsStringColorProp(p)
    requires w3.Keys <= {FilterProp}
    ensures Entry(e.dynamic, FreshRecs(w1.Keys, inline0, el) + e.props,
                  FreshRecs(w2.Keys, Put(inline0, el, w1), el) + e.stringProps,
                  if w3 != map[] && e.filter.None? then Some(Rec(StyleIn(inline0, el, FilterProp), None)) else e.filter)
         == Extend(e, inline0, el, w1 + w2 + w3)
  {
    GroupKeys(w1, w2, w3);
    FreshRecsUnaffected(w2.Keys, inline0, el, w1);
  }

  /** The color writes leave `filter` alone and the three writes land on the inline map as one. */
  lemma DynamicInlineParts(kinds: NodeKinds, num: Numerics, b: Browser, inline0: Styles, el: Node)
    ensures var w1 := DynamicColorWrites(num, b, inline0, el);
      var inline1 := Put(inline0, el, w1);
      var w2 := LiveStringValues(num, b, inline1, el, StringColorProps);
      var inline2 := Put(inline1, el, w2);
      var w3 := FilterWrite(kinds, el, StyleIn(inline0, el, FilterProp));
      && StyleIn(inline2, el, FilterProp) == StyleIn(inline0, el, FilterProp)
      && Put(inline2, el, w3) == Put(inline0, el, w1 + w2 + w3)
  {
    var w1 := DynamicColorWrites(num, b, inline0, el);
    var inline1 := Put(inline0, el, w1);
    var w2 := LiveStringValues(num, b, inline1, el, StringColorProps);
    ValuesInGroups(num, b, inline0, inline1, el, InvertedBackground(num, PageAt(b, inline0), el));
    PutPut(inline0, el, w1, w2);
    var w3 := FilterWrite(kinds, el, StyleIn(inline0, el, FilterProp));
    PutPut(inline0, el, w1 + w2, w3);
  }

  /** The writes split back into their groups. */
  lemma GroupKeys(w1: Style, w2: Style, w3: Style)
    requires forall p :: p in w1 ==> IsColorProp(p)
    requires forall p :: p in w2 ==> IsStringColorProp(p)
    requires w3.Keys <= {FilterProp}
    ensures ColorKeys(w1 + w2 + w3) == w1.Keys
    ensures StringKeys(w1 + w2 + w3) == w2.Keys
    ensures FilterProp in w1 + w2 + w3 <==> FilterProp in w3
  {
  }

  /** Records taken after writes to other properties hold the same inline values. */
  lemma FreshRecsUnaffected(keys: set<Prop>, inline: Styles, el: Node, w: Style)
    requires keys !! w.Keys
    ensures FreshRecs(keys, Put(inline, el, w), el) == FreshRecs(keys, inline, el)
  {
  }
}
