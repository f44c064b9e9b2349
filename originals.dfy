/**
 * The fallback record both theme engines keep of the inline values they
 * overwrite (`originals`: element → property → value), and the state every
 * restore aims for: `base`, the inline styles as they were before an engine
 * wrote anything.
 */
module Originals {
  import opened Dom

  /** Every value of `w` is the `base` value of its property on `el`. */
  predicate AtBase(base: Styles, el: Node, w: Style) {
    forall p :: p in w ==> w[p] == StyleIn(base, el, p)
  }

  /** Every record holds `base` values. */
  predicate OriginalsOk(base: Styles, originals: map<Node, Style>) {
    forall el :: el in originals ==> AtBase(base, el, originals[el])
  }

  /** The inline styles hold `base` on every property of `el`. */
  ghost predicate ElementAtBase(inline: Styles, base: Styles, el: Node) {
    forall p :: StyleIn(inline, el, p) == StyleIn(base, el, p)
  }

  /** Every element of `all[..i]` is at `base`. */
  ghost predicate AtBaseUpTo(inline: Styles, base: Styles, all: seq<Node>, i: nat)
    requires i <= |all|
  {
    forall j :: 0 <= j < i ==> ElementAtBase(inline, base, all[j])
  }

  /** Bringing `all[i]` to `base` without moving any other element away from it extends the prefix at `base`. */
  lemma RestoreStepOk(before: Styles, after: Styles, base: Styles, all: seq<Node>, i: nat)
    requires i < |all| && AtBaseUpTo(before, base, all, i)
    requires ElementAtBase(after, base, all[i])
    requires forall e2 :: ElementAtBase(before, base, e2) ==> ElementAtBase(after, base, e2)
    ensures AtBaseUpTo(after, base, all, i + 1)
  {
    forall j | 0 <= j < i + 1 ensures ElementAtBase(after, base, all[j]) {
      if j < i {
        assert ElementAtBase(before, base, all[j]);
      }
    }
  }

  // ---------------------------------------------------------------------------
  // originals: first write wins
  // ---------------------------------------------------------------------------

  /** The record of `el` in `originals` (empty when it has none). */
  function RecordOf(originals: map<Node, Style>, el: Node): Style {
    if el in originals then originals[el] else map[]
  }

  /** `originals` after recording the values `w` for `el`: values already recorded are kept. */
  function Kept(originals: map<Node, Style>, el: Node, w: Style): map<Node, Style> {
    if w == map[] then originals else originals[el := w + RecordOf(originals, el)]
  }

  /** First write wins: a second record of a property does not replace the first. */
  lemma RecordFirstWins(originals: map<Node, Style>, el: Node, p: Prop, v1: string, v2: string)
    ensures Kept(Kept(originals, el, map[p := v1]), el, map[p := v2]) == Kept(originals, el, map[p := v1])
    ensures Kept(originals, el, map[p := v1])[el][p] == if p in RecordOf(originals, el) then RecordOf(originals, el)[p] else v1
  {
    assert p in map[p := v1];
    assert map[p := v2] + (map[p := v1] + RecordOf(originals, el)) == map[p := v1] + RecordOf(originals, el);
  }

  /** One more record after a batch extends the batch. */
  lemma KeptOne(originals: map<Node, Style>, el: Node, done: Style, p: Prop, v: string)
    requires p !in done
    ensures Kept(Kept(originals, el, done), el, map[p := v]) == Kept(originals, el, done[p := v])
  {
    if done == map[] {
      assert done[p := v] == map[p := v];
    } else {
      assert map[p := v] + (done + RecordOf(originals, el)) == done[p := v] + RecordOf(originals, el);
    }
  }

  /** Records of `base` values keep every record at `base`. */
  lemma KeptOk(base: Styles, originals: map<Node, Style>, el: Node, w: Style)
    requires OriginalsOk(base, originals) && AtBase(base, el, w)
    ensures OriginalsOk(base, Kept(originals, el, w))
  {
    assert AtBase(base, el, RecordOf(originals, el));
  }

  /** Two batches of records for one element, on different properties, are one batch. */
  lemma KeptTwice(originals: map<Node, Style>, el: Node, w1: Style, w2: Style)
    requires w1.Keys !! w2.Keys
    ensures Kept(Kept(originals, el, w1), el, w2) == Kept(originals, el, w1 + w2)
  {
    var r := RecordOf(originals, el);
    if w1 == map[] {
      assert w1 + w2 == w2;
    } else if w2 == map[] {
      assert w1 + w2 == w1;
    } else {
      assert w2 + (w1 + r) == (w1 + w2) + r;
    }
  }
}
