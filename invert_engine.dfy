/**
 * The inversion engine of `useInvertTheme`: the table of entries
 * (`colorTable`), the fallback record of original inline values
 * (`originals`), the inverted flag and its persisted copy, and the
 * operations that fill the table, apply it, restore the page and react to
 * page changes.
 *
 * The state is a class whose methods update it in place. Its invariant
 * `Valid` ties everything to `base`, the inline styles as they were before
 * the engine wrote anything: every property whose inline value differs from
 * `base` is tracked by its element's entry, and every recorded original
 * value is the `base` value. `RestoreAll` relies on it to bring the page
 * back to `base`.
 */
module InvertEngine {
  import opened Wrappers
  import opened Text
  import opened Colors
  import opened Dom
  import opened StyleEntries
  import opened Originals

  // ---------------------------------------------------------------------------
  // Options and the persisted flag
  // ---------------------------------------------------------------------------

  const DefaultStorageKey := "aiTutorThemeInverted"

  /**
   * `storageKey`: the option when it is a string (`Some`) that is not blank,
   * trimmed; otherwise the default key. The key is never blank.
   */
  function StorageKey(option: Option<string>): (key: string)
    ensures key != [] && !IsSpace(key[0]) && !IsSpace(key[|key| - 1])
    ensures option.Some? && Trim(option.value) != [] ==> key == Trim(option.value)
  {
    if option.Some? && Trim(option.value) != [] then Trim(option.value)
    else
      assert DefaultStorageKey[0] == 'a' && DefaultStorageKey[|DefaultStorageKey| - 1] == 'd';
      DefaultStorageKey
  }

  /** The text `writeStoredInverted` stores. */
  function StoredText(inverted: bool): string {
    if inverted then "1" else "0"
  }

  /**
   * `readStoredInverted`, given what `getItem` did: `'1'`/`'true'` in any
   * case give true, `'0'`/`'false'` false; a missing item, any other text or
   * an exception give `None` (`null`).
   */
  function StoredInverted(stored: Result<Option<string>>): (r: Option<bool>)
    ensures stored.Failure? ==> r.None?
    ensures stored.Success? && stored.value.None? ==> r.None?
  {
    match stored
    case Failure(_) => None
    case Success(None) => None
    case Success(Some(v)) =>
      var s := LowerAscii(v);
      if s == "1" || s == "true" then Some(true)
      else if s == "0" || s == "false" then Some(false)
      else None
  }

  /** What is stored is read back. */
  lemma StoredRoundTrip(inverted: bool)
    ensures StoredInverted(Success(Some(StoredText(inverted)))) == Some(inverted)
  {
    assert LowerAscii("1") == "1" by {
      assert LowerAscii("1") == ['1'] + LowerAscii([]);
    }
    assert LowerAscii("0") == "0" by {
      assert LowerAscii("0") == ['0'] + LowerAscii([]);
    }
  }

  /** The flag is read without regard to case: a text reads like its lower-case form. */
  lemma StoredCaseInsensitive(v: string)
    ensures StoredInverted(Success(Some(v))) == StoredInverted(Success(Some(LowerAscii(v))))
  {
    LowerAsciiIdempotent(v);
  }

  /** `'TRUE'` is read as true. */
  lemma StoredUpperTrue()
    ensures StoredInverted(Success(Some("TRUE"))) == Some(true)
  {
    assert LowerAscii("TRUE") == "true" by {
      assert "TRUE"[1..] == "RUE" && "RUE"[1..] == "UE" && "UE"[1..] == "E" && "E"[1..] == [];
    }
  }

  // ---------------------------------------------------------------------------
  // What one application writes
  // ---------------------------------------------------------------------------

  /**
   * The writes of `applyEntry`: the `inv` values of a static entry, the
   * live inverted values of a dynamic one, or, when not inverted, the
   * `origInline` values.
   */
  function AppliedWrites(kinds: NodeKinds, num: Numerics, b: Browser, inline: Styles, el: Node, e: Entry, inverted: bool): Style
    requires WellFormedEntry(e)
  {
    if !inverted then Origs(e)
    else if e.dynamic then DynamicWrites(kinds, num, b, inline, el)
    else Invs(e)
  }

  /** The entry after `applyEntry`: a dynamic entry applied inverted gains records for what it wrote. */
  function AppliedEntry(kinds: NodeKinds, num: Numerics, b: Browser, inline: Styles, el: Node, e: Entry, inverted: bool): Entry {
    if inverted && e.dynamic then DynamicEntry(kinds, num, b, inline, el, e) else e
  }

  /**
   * Applying an entry inverted and then restoring from the entry it leaves
   * puts exactly the tracked properties back to their `origInline` and
   * leaves every other property as it was before the application; the
   * records it had keep their `origInline`.
   */
  lemma ApplyThenRestore(kinds: NodeKinds, num: Numerics, b: Browser, inline: Styles, el: Node, e: Entry)
    requires WellFormedEntry(e)
    ensures var e' := AppliedEntry(kinds, num, b, inline, el, e, true);
      WellFormedEntry(e')
      && Put(Put(inline, el, AppliedWrites(kinds, num, b, inline, el, e, true)), el, Origs(e')) == Put(inline, el, Origs(e'))
      && forall p :: p in Origs(e) ==> p in Origs(e') && Origs(e')[p] == Origs(e)[p]
  {
    var w := AppliedWrites(kinds, num, b, inline, el, e, true);
    var e' := AppliedEntry(kinds, num, b, inline, el, e, true);
    if e.dynamic {
      ExtendOrigs(e, inline, el, w);
      ExtendTracked(e, inline, el, w);
    }
    PutCovered(inline, el, w, Origs(e'));
  }

  /** Writes that a later batch overwrites entirely leave no trace. */
  lemma PutCovered(inline: Styles, el: Node, w: Style, r: Style)
    requires w.Keys <= r.Keys
    ensures Put(Put(inline, el, w), el, r) == Put(inline, el, r)
  {
    PutPut(inline, el, w, r);
    assert w + r == r;
  }

  // ---------------------------------------------------------------------------
  // The invariant, on plain values
  // ---------------------------------------------------------------------------

  /** A table entry: for an HTML or SVG element, well formed, every `origInline` the `base` value. */
  predicate EntryOk(kinds: NodeKinds, base: Styles, el: Node, e: Entry) {
    kinds.isElement(el) && kinds.isStyled(el) && WellFormedEntry(e) && AtBase(base, el, Origs(e))
  }

  predicate TableOk(kinds: NodeKinds, base: Styles, table: map<Node, Entry>) {
    forall el :: el in table ==> EntryOk(kinds, base, el, table[el])
  }

  /** Every property whose inline value is not the `base` value is tracked by its element's entry. */
  ghost predicate DriftTracked(inline: Styles, base: Styles, table: map<Node, Entry>) {
    forall el, p :: StyleIn(inline, el, p) != StyleIn(base, el, p) ==> el in table && p in Tracked(table[el])
  }

  /** Writing tracked properties keeps every change tracked. */
  lemma DriftAfterTrackedWrites(inline: Styles, base: Styles, table: map<Node, Entry>, el: Node, w: Style, e': Entry)
    requires DriftTracked(inline, base, table) && el in table
    requires Tracked(table[el]) <= Tracked(e') && w.Keys <= Tracked(e')
    ensures DriftTracked(Put(inline, el, w), base, table[el := e'])
  {
  }

  /** Writing `base` values changes nothing that is not tracked. */
  lemma DriftAfterBaseWrites(inline: Styles, base: Styles, table: map<Node, Entry>, el: Node, w: Style)
    requires DriftTracked(inline, base, table) && AtBase(base, el, w)
    ensures DriftTracked(Put(inline, el, w), base, table)
  {
  }

  /** Restoring an element from its entry and then dropping the entry leaves nothing of it changed. */
  lemma DriftAfterRestoreDelete(inline: Styles, base: Styles, table: map<Node, Entry>, el: Node)
    requires DriftTracked(inline, base, table) && el in table
    requires WellFormedEntry(table[el]) && AtBase(base, el, Origs(table[el]))
    ensures DriftTracked(Put(inline, el, Origs(table[el])), base, table - {el})
    ensures forall p :: StyleIn(Put(inline, el, Origs(table[el])), el, p) == StyleIn(base, el, p)
  {
    var inline' := Put(inline, el, Origs(table[el]));
    forall e2, p | StyleIn(inline', e2, p) != StyleIn(base, e2, p)
      ensures e2 in table - {el} && p in Tracked((table - {el})[e2])
    {
    }
  }

  /** A new entry leaves every change tracked. */
  lemma DriftAfterInsert(inline: Styles, base: Styles, table: map<Node, Entry>, el: Node, e: Entry)
    requires DriftTracked(inline, base, table) && el !in table
    ensures DriftTracked(inline, base, table[el := e])
  {
  }

  /** An entry built for an element the table does not hold records `base` values. */
  lemma BuiltEntryOk(kinds: NodeKinds, num: Numerics, b: Browser, inline: Styles, base: Styles, table: map<Node, Entry>, el: Node)
    requires DriftTracked(inline, base, table) && el !in table
    requires EntryFor(kinds, num, PageAt(b, inline), inline, el).Some?
    ensures EntryOk(kinds, base, el, EntryFor(kinds, num, PageAt(b, inline), inline, el).value)
  {
    EntryForWellFormed(kinds, num, PageAt(b, inline), inline, el);
    var e := EntryFor(kinds, num, PageAt(b, inline), inline, el).value;
    forall p | p in Origs(e) ensures Origs(e)[p] == StyleIn(base, el, p) {
      assert StyleIn(inline, el, p) == StyleIn(base, el, p);
    }
  }

  /** Storing a newly built entry keeps the table well formed and every change tracked. */
  lemma InsertBuiltOk(kinds: NodeKinds, num: Numerics, b: Browser, inline: Styles, base: Styles, table: map<Node, Entry>, el: Node)
    requires TableOk(kinds, base, table) && DriftTracked(inline, base, table) && el !in table
    requires EntryFor(kinds, num, PageAt(b, inline), inline, el).Some?
    ensures var table' := table[el := EntryFor(kinds, num, PageAt(b, inline), inline, el).value];
      TableOk(kinds, base, table') && DriftTracked(inline, base, table')
  {
    BuiltEntryOk(kinds, num, b, inline, base, table, el);
    DriftAfterInsert(inline, base, table, el, EntryFor(kinds, num, PageAt(b, inline), inline, el).value);
  }

  /** A dynamic application records `base` values for what it starts tracking, and tracks everything it writes. */
  lemma DynamicEntryOk(kinds: NodeKinds, base: Styles, inline: Styles, table: map<Node, Entry>, el: Node, w: Style)
    requires DriftTracked(inline, base, table) && el in table
    requires EntryOk(kinds, base, el, table[el]) && table[el].dynamic
    ensures var e' := Extend(table[el], inline, el, w);
      EntryOk(kinds, base, el, e') && e'.dynamic && Tracked(e') == Tracked(table[el]) + w.Keys
  {
    var e := table[el];
    var e' := Extend(e, inline, el, w);
    ExtendWellFormed(e, inline, el, w);
    ExtendTracked(e, inline, el, w);
    ExtendOrigs(e, inline, el, w);
    forall p | p in Origs(e') ensures Origs(e')[p] == StyleIn(base, el, p) {
      if p !in Tracked(e) {
        assert StyleIn(inline, el, p) == StyleIn(base, el, p);
      }
    }
  }

  /** A dynamic application keeps the table well formed and every change tracked. */
  lemma LiveStepOk(kinds: NodeKinds, base: Styles, inline: Styles, table: map<Node, Entry>, el: Node, w: Style, e': Entry)
    requires TableOk(kinds, base, table) && DriftTracked(inline, base, table)
    requires el in table && table[el].dynamic && e' == Extend(table[el], inline, el, w)
    ensures TableOk(kinds, base, table[el := e']) && DriftTracked(Put(inline, el, w), base, table[el := e'])
  {
    DynamicEntryOk(kinds, base, inline, table, el, w);
    DriftAfterTrackedWrites(inline, base, table, el, w, e');
  }

  /** With every change tracked, an element without an entry is at `base`. */
  lemma UntrackedAtBase(inline: Styles, base: Styles, table: map<Node, Entry>, el: Node)
    requires DriftTracked(inline, base, table) && el !in table
    ensures ElementAtBase(inline, base, el)
  {
  }

  /** Restoring an element from its entry brings all of it to `base`. */
  lemma RestoredAtBase(inline: Styles, base: Styles, table: map<Node, Entry>, el: Node)
    requires DriftTracked(inline, base, table) && el in table
    requires WellFormedEntry(table[el]) && AtBase(base, el, Origs(table[el]))
    ensures ElementAtBase(Put(inline, el, Origs(table[el])), base, el)
  {
    DriftAfterRestoreDelete(inline, base, table, el);
  }

  // ---------------------------------------------------------------------------
  // ensureEntry on values
  // ---------------------------------------------------------------------------

  /** The table after `ensureEntry(el)`: unchanged when `el` has an entry, else with the entry built, if any. */
  function Ensured(table: map<Node, Entry>, kinds: NodeKinds, num: Numerics, b: Browser, inline: Styles, el: Node): map<Node, Entry> {
    if el in table then table
    else match EntryFor(kinds, num, PageAt(b, inline), inline, el)
      case None => table
      case Some(e) => table[el := e]
  }

  /** `ensureEntry` twice is `ensureEntry` once: an existing entry is never rebuilt. */
  lemma EnsuredIdempotent(table: map<Node, Entry>, kinds: NodeKinds, num: Numerics, b: Browser, inline: Styles, el: Node)
    ensures Ensured(Ensured(table, kinds, num, b, inline, el), kinds, num, b, inline, el)
         == Ensured(table, kinds, num, b, inline, el)
    ensures el in table ==> Ensured(table, kinds, num, b, inline, el) == table
    ensures (el in Ensured(table, kinds, num, b, inline, el)) <==> el in table || (kinds.isElement(el) && kinds.isStyled(el))
  {
    EntryForWellFormed(kinds, num, PageAt(b, inline), inline, el);
  }

  /** A static entry is shown inverted: every tracked property holds its `inv`. */
  predicate InvertedShown(inline: Styles, el: Node, e: Entry) {
    WellFormedEntry(e) && !e.dynamic ==> forall p :: p in Invs(e) ==> StyleIn(inline, el, p) == Invs(e)[p]
  }

  /** Whether an element is shown inverted depends on its own inline style only. */
  lemma ShownUnchanged(inline1: Styles, inline2: Styles, el: Node, e: Entry)
    requires InvertedShown(inline1, el, e)
    requires forall p :: StyleIn(inline1, el, p) == StyleIn(inline2, el, p)
    ensures InvertedShown(inline2, el, e)
  {
  }

  // ---------------------------------------------------------------------------
  // applyToElement on values
  // ---------------------------------------------------------------------------

  /** `applyToElement` acts on HTML and SVG elements only. */
  predicate Applicable(kinds: NodeKinds, el: Node) {
    kinds.isElement(el) && kinds.isStyled(el)
  }

  /** The table after `applyToElement(el)`: `ensureEntry`, then the entry as `applyEntry` leaves it. */
  function TableAfterApply(table: map<Node, Entry>, kinds: NodeKinds, num: Numerics, b: Browser, inline: Styles, el: Node, inverted: bool): map<Node, Entry> {
    if !Applicable(kinds, el) then table
    else
      var t := Ensured(table, kinds, num, b, inline, el);
      if el in t then t[el := AppliedEntry(kinds, num, b, inline, el, t[el], inverted)] else t
  }

  /** The inline styles after `applyToElement(el)`: the writes of `applyEntry` for the entry `ensureEntry` gives. */
  function InlineAfterApply(table: map<Node, Entry>, kinds: NodeKinds, num: Numerics, b: Browser, inline: Styles, el: Node, inverted: bool): Styles {
    if !Applicable(kinds, el) then inline
    else
      var t := Ensured(table, kinds, num, b, inline, el);
      if el in t && WellFormedEntry(t[el]) then Put(inline, el, AppliedWrites(kinds, num, b, inline, el, t[el], inverted)) else inline
  }

  /** Between two states, only the entry and the inline styles of `el` may differ. */
  ghost predicate OnlyAt(el: Node, table: map<Node, Entry>, table': map<Node, Entry>, inline: Styles, inline': Styles) {
    (forall e2 :: e2 != el ==> (e2 in table' <==> e2 in table))
    && (forall e2 :: e2 != el && e2 in table && e2 in table' ==> table'[e2] == table[e2])
    && (forall e2, p :: e2 != el ==> StyleIn(inline', e2, p) == StyleIn(inline, e2, p))
  }

  /**
   * `applyToElement(el)` touches `el` only: the other entries and the other
   * elements' inline styles are unchanged, an HTML or SVG element ends up
   * with an entry, and when inverted a static entry is shown inverted.
   */
  lemma ApplyFrame(table: map<Node, Entry>, kinds: NodeKinds, num: Numerics, b: Browser, inline: Styles, el: Node, inverted: bool)
    requires el in table ==> Applicable(kinds, el)
    ensures var t' := TableAfterApply(table, kinds, num, b, inline, el, inverted);
      var i' := InlineAfterApply(table, kinds, num, b, inline, el, inverted);
      && table.Keys <= t'.Keys && OnlyAt(el, table, t', inline, i')
      && (Applicable(kinds, el) ==> el in t')
      && (inverted && el in t' ==> InvertedShown(i', el, t'[el]))
  {
    EnsuredIdempotent(table, kinds, num, b, inline, el);
    var t := Ensured(table, kinds, num, b, inline, el);
    var i' := InlineAfterApply(table, kinds, num, b, inline, el, inverted);
    if Applicable(kinds, el) && inverted && el in t {
      var t' := TableAfterApply(table, kinds, num, b, inline, el, inverted);
      if t[el].dynamic {
        assert t'[el].dynamic;
      } else {
        assert t'[el] == t[el];
        if WellFormedEntry(t[el]) {
          var w := Invs(t[el]);
          assert i' == Put(inline, el, w);
          forall p | p in w ensures StyleIn(i', el, p) == w[p] { }
        }
      }
    }
  }

  /** Two entries for one element agree on the `origInline` of every property both track. */
  predicate OrigsAgree(e1: Entry, e2: Entry)
    requires WellFormedEntry(e1) && WellFormedEntry(e2)
  {
    forall p :: p in Origs(e1) && p in Origs(e2) ==> Origs(e1)[p] == Origs(e2)[p]
  }

  // ---------------------------------------------------------------------------
  // The loops of applyAll and restoreAll on values
  // ---------------------------------------------------------------------------

  /** Every HTML or SVG element of `all[..i]` has an entry. */
  predicate CoveredUpTo(kinds: NodeKinds, table: map<Node, Entry>, all: seq<Node>, i: nat)
    requires i <= |all|
  {
    forall j :: 0 <= j < i && Applicable(kinds, all[j]) ==> all[j] in table
  }

  /** Every element of `all[..i]` with a static entry is shown inverted. */
  predicate ShownUpTo(inline: Styles, table: map<Node, Entry>, all: seq<Node>, i: nat)
    requires i <= |all|
  {
    forall j :: 0 <= j < i && all[j] in table ==> InvertedShown(inline, all[j], table[all[j]])
  }

  /** A step that gives `all[i]` an entry if it needs one, and keeps every entry, extends the covered prefix. */
  lemma CoveredStep(kinds: NodeKinds, table: map<Node, Entry>, table': map<Node, Entry>, all: seq<Node>, i: nat)
    requires i < |all| && CoveredUpTo(kinds, table, all, i)
    requires table.Keys <= table'.Keys && (Applicable(kinds, all[i]) ==> all[i] in table')
    ensures CoveredUpTo(kinds, table', all, i + 1)
  {
    forall j | 0 <= j < i + 1 && Applicable(kinds, all[j]) ensures all[j] in table' {
      if j < i {
        assert all[j] in table;
      }
    }
  }

  /** `table` keeps every entry of `table0`. */
  predicate Extends(table0: map<Node, Entry>, table: map<Node, Entry>) {
    table0.Keys <= table.Keys && forall el :: el in table0 ==> table[el] == table0[el]
  }

  /** Every entry of `table` that `table0` does not have is the one `buildEntry` gives on the page with the inline styles `inline`. */
  predicate BuiltAt(kinds: NodeKinds, num: Numerics, b: Browser, inline: Styles, table0: map<Node, Entry>, table: map<Node, Entry>) {
    forall el :: el in table && el !in table0 ==> EntryFor(kinds, num, PageAt(b, inline), inline, el) == Some(table[el])
  }

  /** `ensureEntry` only adds entries built on the page as it is. */
  lemma BuiltAtStep(kinds: NodeKinds, num: Numerics, b: Browser, inline: Styles, table0: map<Node, Entry>, table: map<Node, Entry>, el: Node)
    requires BuiltAt(kinds, num, b, inline, table0, table)
    ensures BuiltAt(kinds, num, b, inline, table0, Ensured(table, kinds, num, b, inline, el))
  {
  }

  /**
   * The entries of `table1` are all in `table`, each as dynamic as it was,
   * and every static one unchanged.
   */
  predicate KeepsBuilt(table1: map<Node, Entry>, table: map<Node, Entry>) {
    forall el :: el in table1 ==> el in table && table[el].dynamic == table1[el].dynamic && (!table1[el].dynamic ==> table[el] == table1[el])
  }

  /** `applyToElement` keeps every entry it finds, and changes a dynamic one only into a dynamic one. */
  lemma KeepsBuiltStep(table1: map<Node, Entry>, table: map<Node, Entry>, kinds: NodeKinds, num: Numerics, b: Browser, inline: Styles, el: Node, inverted: bool)
    requires KeepsBuilt(table1, table)
    ensures KeepsBuilt(table1, TableAfterApply(table, kinds, num, b, inline, el, inverted))
  {
    EnsuredIdempotent(table, kinds, num, b, inline, el);
  }

  /**
   * After the first `applyAll`, every static entry of the scope is the one
   * `buildEntry` gave before anything was written: the first pass reads the
   * whole page before the second pass inverts any of it.
   */
  lemma PrebuiltStatic(kinds: NodeKinds, num: Numerics, b: Browser, inline0: Styles, table0: map<Node, Entry>,
                       built: map<Node, Entry>, table: map<Node, Entry>, all: seq<Node>)
    requires |table0| == 0 ==> BuiltAt(kinds, num, b, inline0, table0, built) && CoveredUpTo(kinds, built, all, |all|)
    requires KeepsBuilt(built, table)
    ensures |table0| == 0 ==> forall el :: el in all && Applicable(kinds, el) && el in table && !table[el].dynamic ==>
      EntryFor(kinds, num, PageAt(b, inline0), inline0, el) == Some(table[el])
  {
    if |table0| == 0 {
      forall el | el in all && Applicable(kinds, el) && el in table && !table[el].dynamic
        ensures EntryFor(kinds, num, PageAt(b, inline0), inline0, el) == Some(table[el])
      {
        var j :| 0 <= j < |all| && all[j] == el;
        assert el in built;
      }
    }
  }

  /** `ensureEntry(all[i])` keeps every entry and extends the covered prefix. */
  lemma EnsuredStep(kinds: NodeKinds, num: Numerics, b: Browser, inline: Styles, table0: map<Node, Entry>, table: map<Node, Entry>, all: seq<Node>, i: nat)
    requires i < |all| && Extends(table0, table) && CoveredUpTo(kinds, table, all, i)
    ensures var t' := Ensured(table, kinds, num, b, inline, all[i]);
      Extends(table0, t') && CoveredUpTo(kinds, t', all, i + 1)
  {
    EnsuredIdempotent(table, kinds, num, b, inline, all[i]);
    CoveredStep(kinds, table, Ensured(table, kinds, num, b, inline, all[i]), all, i);
  }

  /**
   * A step that touches only `all[i]`, and leaves it shown inverted, keeps
   * the elements before it shown inverted.
   */
  lemma ShownStep(table: map<Node, Entry>, table': map<Node, Entry>, inline: Styles, inline': Styles, all: seq<Node>, i: nat)
    requires i < |all| && ShownUpTo(inline, table, all, i)
    requires OnlyAt(all[i], table, table', inline, inline')
    requires all[i] in table' ==> InvertedShown(inline', all[i], table'[all[i]])
    ensures ShownUpTo(inline', table', all, i + 1)
  {
    forall j | 0 <= j < i + 1 && all[j] in table' ensures InvertedShown(inline', all[j], table'[all[j]]) {
      if all[j] != all[i] {
        assert InvertedShown(inline, all[j], table[all[j]]);
        ShownUnchanged(inline, inline', all[j], table'[all[j]]);
      }
    }
  }

  /** `applyToElement(all[i])` extends the covered and shown prefix of `all` by one, touching `all[i]` only. */
  lemma ApplyStepOk(table: map<Node, Entry>, kinds: NodeKinds, num: Numerics, b: Browser, inline: Styles, all: seq<Node>, i: nat, inverted: bool)
    requires i < |all| && (all[i] in table ==> Applicable(kinds, all[i]))
    requires CoveredUpTo(kinds, table, all, i) && (inverted ==> ShownUpTo(inline, table, all, i))
    ensures var t' := TableAfterApply(table, kinds, num, b, inline, all[i], inverted);
      var i' := InlineAfterApply(table, kinds, num, b, inline, all[i], inverted);
      CoveredUpTo(kinds, t', all, i + 1) && (inverted ==> ShownUpTo(i', t', all, i + 1))
      && OnlyAt(all[i], table, t', inline, i')
  {
    var t' := TableAfterApply(table, kinds, num, b, inline, all[i], inverted);
    var i' := InlineAfterApply(table, kinds, num, b, inline, all[i], inverted);
    ApplyFrame(table, kinds, num, b, inline, all[i], inverted);
    CoveredStep(kinds, table, t', all, i);
    if inverted {
      ShownStep(table, t', inline, i', all, i);
    }
  }

  // ---------------------------------------------------------------------------
  // The mutation observer on values
  // ---------------------------------------------------------------------------

  /** Outside the elements `s`, the table and the inline styles are as they were. */
  ghost predicate SameOutside(s: seq<Node>, table: map<Node, Entry>, table': map<Node, Entry>, inline: Styles, inline': Styles) {
    (forall el :: el !in s ==> (el in table' <==> el in table))
    && (forall el :: el !in s && el in table && el in table' ==> table'[el] == table[el])
    && (forall el, p :: el !in s ==> StyleIn(inline', el, p) == StyleIn(inline, el, p))
  }

  /** Every HTML or SVG element of `s` has an entry, and every static entry among them is shown inverted. */
  ghost predicate Settled(kinds: NodeKinds, inline: Styles, table: map<Node, Entry>, s: seq<Node>) {
    (forall el :: el in s && Applicable(kinds, el) ==> el in table)
    && (forall el :: el in s && el in table ==> InvertedShown(inline, el, table[el]))
  }

  /** A step that touches one element of `s` keeps everything outside `s` as it was. */
  lemma SameOutsideStep(s: seq<Node>, i: nat, table0: map<Node, Entry>, table: map<Node, Entry>, table': map<Node, Entry>,
                        inline0: Styles, inline: Styles, inline': Styles)
    requires i < |s| && SameOutside(s, table0, table, inline0, inline)
    requires OnlyAt(s[i], table, table', inline, inline')
    ensures SameOutside(s, table0, table', inline0, inline')
  {
  }

  /** Two changes, each confined to its own elements, together change only their union. */
  lemma SameOutsideTrans(s1: seq<Node>, s2: seq<Node>, t0: map<Node, Entry>, t1: map<Node, Entry>, t2: map<Node, Entry>,
                         i0: Styles, i1: Styles, i2: Styles)
    requires SameOutside(s1, t0, t1, i0, i1) && SameOutside(s2, t1, t2, i1, i2)
    ensures SameOutside(s1 + s2, t0, t2, i0, i2)
  {
  }

  /** The loop over `s` settles all of `s` once it has gone through it. */
  lemma SettledOfPrefix(kinds: NodeKinds, inline: Styles, table: map<Node, Entry>, s: seq<Node>)
    requires CoveredUpTo(kinds, table, s, |s|) && ShownUpTo(inline, table, s, |s|)
    ensures Settled(kinds, inline, table, s)
  {
    forall el | el in s
      ensures (Applicable(kinds, el) ==> el in table) && (el in table ==> InvertedShown(inline, el, table[el]))
    {
      var j :| 0 <= j < |s| && s[j] == el;
    }
  }

  /** Settling `s` without touching anything outside it keeps the elements settled before settled. */
  lemma SettledGrow(kinds: NodeKinds, done: seq<Node>, s: seq<Node>, table: map<Node, Entry>, table': map<Node, Entry>,
                    inline: Styles, inline': Styles)
    requires Settled(kinds, inline, table, done) && Settled(kinds, inline', table', s)
    requires SameOutside(s, table, table', inline, inline')
    ensures Settled(kinds, inline', table', done + s)
  {
    forall el | el in done + s && el in table' ensures InvertedShown(inline', el, table'[el]) {
      if el !in s {
        assert InvertedShown(inline, el, table[el]);
        ShownUnchanged(inline, inline', el, table'[el]);
      }
    }
  }

  /**
   * The observer builds a missing entry right before `applyToElement`, on the
   * page as it is at that moment; `ensureEntry` inside `applyToElement` would
   * build the same one, so the pair is `applyToElement` alone.
   */
  lemma BuildThenApply(table: map<Node, Entry>, kinds: NodeKinds, num: Numerics, b: Browser, inline: Styles, el: Node, inverted: bool)
    ensures var t := Ensured(table, kinds, num, b, inline, el);
      TableAfterApply(t, kinds, num, b, inline, el, inverted) == TableAfterApply(table, kinds, num, b, inline, el, inverted)
      && InlineAfterApply(t, kinds, num, b, inline, el, inverted) == InlineAfterApply(table, kinds, num, b, inline, el, inverted)
  {
    EnsuredIdempotent(table, kinds, num, b, inline, el);
  }

  /** The elements the observer goes through for the added nodes `nodes`: the subtree of each element among them. */
  function AddedTargets(kinds: NodeKinds, b: Browser, nodes: seq<Node>): seq<Node> {
    if nodes == [] then []
    else
      var last := nodes[|nodes| - 1];
      AddedTargets(kinds, b, nodes[..|nodes| - 1]) + (if kinds.isElement(last) then Subtree(b, last) else [])
  }

  /** The elements the observer goes through for one mutation record. */
  function MutationTargets(kinds: NodeKinds, b: Browser, m: Mutation): seq<Node> {
    match m
    case ChildList(nodes) => AddedTargets(kinds, b, nodes)
    case Attributes(name, target) => if name == "class" && kinds.isElement(target) then Subtree(b, target) else []
  }

  /** The elements the observer goes through for a batch of mutation records. */
  function AllTargets(kinds: NodeKinds, b: Browser, ms: seq<Mutation>): seq<Node> {
    if ms == [] then []
    else AllTargets(kinds, b, ms[..|ms| - 1]) + MutationTargets(kinds, b, ms[|ms| - 1])
  }

  /** Every element of the added subtrees is an element: the subtree of an element holds only elements. */
  lemma AddedNodesAreTargets(kinds: NodeKinds, b: Browser, nodes: seq<Node>, k: nat)
    requires k < |nodes|
    ensures AddedTargets(kinds, b, nodes[..k + 1])
         == AddedTargets(kinds, b, nodes[..k]) + (if kinds.isElement(nodes[k]) then Subtree(b, nodes[k]) else [])
  {
    assert nodes[..k + 1][..k] == nodes[..k];
  }

  lemma AllTargetsStep(kinds: NodeKinds, b: Browser, ms: seq<Mutation>, k: nat)
    requires k < |ms|
    ensures AllTargets(kinds, b, ms[..k + 1]) == AllTargets(kinds, b, ms[..k]) + MutationTargets(kinds, b, ms[k])
  {
    assert ms[..k + 1][..k] == ms[..k];
  }

  /** Every element of `all[..i]` has no entry. */
  predicate DroppedUpTo(table: map<Node, Entry>, all: seq<Node>, i: nat)
    requires i <= |all|
  {
    forall j :: 0 <= j < i ==> all[j] !in table
  }

  // ---------------------------------------------------------------------------
  // The passes as folds
  // ---------------------------------------------------------------------------

  /** What a pass changes: the table and the inline styles. */
  datatype PassState = PassState(table: map<Node, Entry>, inline: Styles)

  /** `applyToElement(el)` on values. */
  function ApplyOne(kinds: NodeKinds, num: Numerics, b: Browser, st: PassState, el: Node, inverted: bool): PassState {
    PassState(TableAfterApply(st.table, kinds, num, b, st.inline, el, inverted),
              InlineAfterApply(st.table, kinds, num, b, st.inline, el, inverted))
  }

  /**
   * `applyToElement` on every element of `s` in order. The computed style is
   * live, so each element reads the page the elements before it left.
   */
  function ApplyFold(kinds: NodeKinds, num: Numerics, b: Browser, st: PassState, s: seq<Node>, inverted: bool): PassState
    decreases |s|
  {
    if s == [] then st
    else ApplyOne(kinds, num, b, ApplyFold(kinds, num, b, st, s[..|s| - 1], inverted), s[|s| - 1], inverted)
  }

  lemma ApplyFoldStep(kinds: NodeKinds, num: Numerics, b: Browser, st: PassState, s: seq<Node>, i: nat, inverted: bool)
    requires i < |s|
    ensures ApplyFold(kinds, num, b, st, s[..i + 1], inverted)
         == ApplyOne(kinds, num, b, ApplyFold(kinds, num, b, st, s[..i], inverted), s[i], inverted)
  {
    assert s[..i + 1][..i] == s[..i];
  }

  /** A pass over `s1 + s2` is the pass over `s1`, then the pass over `s2`. */
  lemma {:induction false} ApplyFoldAppend(kinds: NodeKinds, num: Numerics, b: Browser, st: PassState, s1: seq<Node>, s2: seq<Node>, inverted: bool)
    ensures ApplyFold(kinds, num, b, st, s1 + s2, inverted)
         == ApplyFold(kinds, num, b, ApplyFold(kinds, num, b, st, s1, inverted), s2, inverted)
    decreases |s2|
  {
    if s2 == [] {
      assert s1 + s2 == s1;
    } else {
      var n := |s2| - 1;
      ApplyFoldAppend(kinds, num, b, st, s1, s2[..n], inverted);
      assert (s1 + s2)[..|s1 + s2| - 1] == s1 + s2[..n];
      assert (s1 + s2)[|s1 + s2| - 1] == s2[n];
    }
  }

  /** `applyToElement(el)` keeps every entry and touches `el` only. */
  lemma ApplyOneOnlyAt(kinds: NodeKinds, num: Numerics, b: Browser, st: PassState, el: Node, inverted: bool)
    ensures var st' := ApplyOne(kinds, num, b, st, el, inverted);
      st.table.Keys <= st'.table.Keys && OnlyAt(el, st.table, st'.table, st.inline, st'.inline)
  {
    EnsuredIdempotent(st.table, kinds, num, b, st.inline, el);
  }

  /** A pass over `s` keeps every entry and changes nothing outside `s`. */
  lemma {:induction false} ApplyFoldOutside(kinds: NodeKinds, num: Numerics, b: Browser, st: PassState, s: seq<Node>, inverted: bool)
    ensures var st' := ApplyFold(kinds, num, b, st, s, inverted);
      st.table.Keys <= st'.table.Keys && SameOutside(s, st.table, st'.table, st.inline, st'.inline)
    decreases |s|
  {
    if s != [] {
      var n := |s| - 1;
      var mid := ApplyFold(kinds, num, b, st, s[..n], inverted);
      ApplyFoldOutside(kinds, num, b, st, s[..n], inverted);
      assert forall el :: el in s[..n] ==> el in s;
      ApplyOneOnlyAt(kinds, num, b, mid, s[n], inverted);
      SameOutsideStep(s, n, st.table, mid.table, ApplyOne(kinds, num, b, mid, s[n], inverted).table,
                      st.inline, mid.inline, ApplyOne(kinds, num, b, mid, s[n], inverted).inline);
    }
  }

  /** Every entry of the table is well formed. */
  predicate WellFormedTable(table: map<Node, Entry>) {
    forall el :: el in table ==> WellFormedEntry(table[el])
  }

  /** `ensureEntry` adds only well-formed entries. */
  lemma EnsuredWellFormed(table: map<Node, Entry>, kinds: NodeKinds, num: Numerics, b: Browser, inline: Styles, el: Node)
    requires WellFormedTable(table)
    ensures WellFormedTable(Ensured(table, kinds, num, b, inline, el))
  {
    EntryForWellFormed(kinds, num, PageAt(b, inline), inline, el);
  }

  /** `applyEntry` keeps an entry well formed and as dynamic as it was. */
  lemma AppliedEntryWellFormed(kinds: NodeKinds, num: Numerics, b: Browser, inline: Styles, el: Node, e: Entry, inverted: bool)
    requires WellFormedEntry(e)
    ensures WellFormedEntry(AppliedEntry(kinds, num, b, inline, el, e, inverted))
    ensures AppliedEntry(kinds, num, b, inline, el, e, inverted).dynamic == e.dynamic
  {
    if inverted && e.dynamic {
      ExtendWellFormed(e, inline, el, DynamicWrites(kinds, num, b, inline, el));
    }
  }

  /** What `applyToElement` does to an HTML or SVG element: its entry as `applyEntry` leaves it, and the writes of `applyEntry`. */
  lemma ApplyOneAt(kinds: NodeKinds, num: Numerics, b: Browser, st: PassState, el: Node, inverted: bool)
    requires WellFormedTable(st.table) && Applicable(kinds, el)
    ensures var t := Ensured(st.table, kinds, num, b, st.inline, el);
      var after := ApplyOne(kinds, num, b, st, el, inverted);
      el in t && WellFormedEntry(t[el])
      && after.table == t[el := AppliedEntry(kinds, num, b, st.inline, el, t[el], inverted)]
      && after.inline == Put(st.inline, el, AppliedWrites(kinds, num, b, st.inline, el, t[el], inverted))
  {
    EnsuredIdempotent(st.table, kinds, num, b, st.inline, el);
    EnsuredWellFormed(st.table, kinds, num, b, st.inline, el);
  }

  lemma ApplyOneWellFormed(kinds: NodeKinds, num: Numerics, b: Browser, st: PassState, el: Node, inverted: bool)
    requires WellFormedTable(st.table)
    ensures WellFormedTable(ApplyOne(kinds, num, b, st, el, inverted).table)
  {
    if Applicable(kinds, el) {
      ApplyOneAt(kinds, num, b, st, el, inverted);
      var t := Ensured(st.table, kinds, num, b, st.inline, el);
      EnsuredWellFormed(st.table, kinds, num, b, st.inline, el);
      AppliedEntryWellFormed(kinds, num, b, st.inline, el, t[el], inverted);
    }
  }

  lemma {:induction false} ApplyFoldWellFormed(kinds: NodeKinds, num: Numerics, b: Browser, st: PassState, s: seq<Node>, inverted: bool)
    requires WellFormedTable(st.table)
    ensures WellFormedTable(ApplyFold(kinds, num, b, st, s, inverted).table)
    decreases |s|
  {
    if s != [] {
      ApplyFoldWellFormed(kinds, num, b, st, s[..|s| - 1], inverted);
      ApplyOneWellFormed(kinds, num, b, ApplyFold(kinds, num, b, st, s[..|s| - 1], inverted), s[|s| - 1], inverted);
    }
  }

  /**
   * After a pass, an HTML or SVG element that does not come again later in
   * `s` keeps what its own `applyToElement` left: the entry `ensureEntry`
   * gave on the page the elements before it left, as `applyEntry` leaves
   * it, and on every property the value `applyEntry` wrote there (the `inv`
   * of a static entry, the live value of a dynamic one, the `origInline`
   * when not inverted), every other property as it was before.
   */
  lemma ApplyFoldLast(kinds: NodeKinds, num: Numerics, b: Browser, st: PassState, s: seq<Node>, i: nat, inverted: bool)
    requires WellFormedTable(st.table)
    requires i < |s| && Applicable(kinds, s[i]) && s[i] !in s[i + 1..]
    ensures var el, mid := s[i], ApplyFold(kinds, num, b, st, s[..i], inverted);
      var t := Ensured(mid.table, kinds, num, b, mid.inline, el);
      var fin := ApplyFold(kinds, num, b, st, s, inverted);
      el in t && WellFormedEntry(t[el]) && el in fin.table
      && fin.table[el] == AppliedEntry(kinds, num, b, mid.inline, el, t[el], inverted)
      && var w := AppliedWrites(kinds, num, b, mid.inline, el, t[el], inverted);
         forall p :: StyleIn(fin.inline, el, p) == if p in w then w[p] else StyleIn(mid.inline, el, p)
  {
    var el, mid := s[i], ApplyFold(kinds, num, b, st, s[..i], inverted);
    ApplyFoldWellFormed(kinds, num, b, st, s[..i], inverted);
    ApplyOneAt(kinds, num, b, mid, el, inverted);
    var after := ApplyOne(kinds, num, b, mid, el, inverted);
    ApplyFoldStep(kinds, num, b, st, s, i, inverted);
    assert s == s[..i + 1] + s[i + 1..];
    ApplyFoldAppend(kinds, num, b, st, s[..i + 1], s[i + 1..], inverted);
    ApplyFoldOutside(kinds, num, b, after, s[i + 1..], inverted);
    assert ApplyFold(kinds, num, b, st, s, inverted) == ApplyFold(kinds, num, b, after, s[i + 1..], inverted);
  }

  /**
   * Inverted, an element with a dynamic entry ends the pass with the values
   * `applyDynamicToElement` computes on the page the elements before it
   * left.
   */
  lemma ApplyFoldDynamic(kinds: NodeKinds, num: Numerics, b: Browser, st: PassState, s: seq<Node>, i: nat)
    requires WellFormedTable(st.table)
    requires i < |s| && Applicable(kinds, s[i]) && s[i] !in s[i + 1..]
    ensures var el, mid := s[i], ApplyFold(kinds, num, b, st, s[..i], true);
      var fin := ApplyFold(kinds, num, b, st, s, true);
      var w := DynamicWrites(kinds, num, b, mid.inline, el);
      el in fin.table
      && (fin.table[el].dynamic ==> forall p :: p in w ==> StyleIn(fin.inline, el, p) == w[p])
  {
    var el, mid := s[i], ApplyFold(kinds, num, b, st, s[..i], true);
    var fin := ApplyFold(kinds, num, b, st, s, true);
    var t := Ensured(mid.table, kinds, num, b, mid.inline, el);
    assert el in t && WellFormedEntry(t[el]) && el in fin.table
        && fin.table[el] == AppliedEntry(kinds, num, b, mid.inline, el, t[el], true) by {
      ApplyFoldLast(kinds, num, b, st, s, i, true);
    }
    var e := t[el];
    AppliedEntryWellFormed(kinds, num, b, mid.inline, el, e, true);
    if e.dynamic {
      AppliedDynamic(kinds, num, b, mid.inline, el, e);
      var w := DynamicWrites(kinds, num, b, mid.inline, el);
      forall p | p in w ensures StyleIn(fin.inline, el, p) == w[p] {
        ApplyFoldLast(kinds, num, b, st, s, i, true);
      }
    }
  }

  /**
   * The entry a dynamic element of an inverted pass ends with is the one
   * `applyDynamicToElement` leaves on the page the elements before it left.
   */
  lemma ApplyFoldDynamicEntry(kinds: NodeKinds, num: Numerics, b: Browser, st: PassState, s: seq<Node>, i: nat)
    requires WellFormedTable(st.table)
    requires i < |s| && Applicable(kinds, s[i]) && s[i] !in s[i + 1..]
    ensures var el, mid := s[i], ApplyFold(kinds, num, b, st, s[..i], true);
      var fin := ApplyFold(kinds, num, b, st, s, true);
      var t := Ensured(mid.table, kinds, num, b, mid.inline, el);
      el in t && el in fin.table
      && (t[el].dynamic ==> fin.table[el] == DynamicEntry(kinds, num, b, mid.inline, el, t[el]))
  {
    var el, mid := s[i], ApplyFold(kinds, num, b, st, s[..i], true);
    var t := Ensured(mid.table, kinds, num, b, mid.inline, el);
    ApplyFoldLast(kinds, num, b, st, s, i, true);
    if t[el].dynamic {
      AppliedDynamic(kinds, num, b, mid.inline, el, t[el]);
    }
  }

  /** Inverted, `applyEntry` on a dynamic entry is `applyDynamicToElement`. */
  lemma AppliedDynamic(kinds: NodeKinds, num: Numerics, b: Browser, inline: Styles, el: Node, e: Entry)
    requires WellFormedEntry(e) && e.dynamic
    ensures AppliedWrites(kinds, num, b, inline, el, e, true) == DynamicWrites(kinds, num, b, inline, el)
    ensures AppliedEntry(kinds, num, b, inline, el, e, true) == DynamicEntry(kinds, num, b, inline, el, e)
  {
  }

  /** The first pass of `applyAll` on values: `ensureEntry` on every element of `s`, all on the page `inline`. */
  function BuildFold(kinds: NodeKinds, num: Numerics, b: Browser, inline: Styles, table: map<Node, Entry>, s: seq<Node>): map<Node, Entry>
    decreases |s|
  {
    if s == [] then table
    else Ensured(BuildFold(kinds, num, b, inline, table, s[..|s| - 1]), kinds, num, b, inline, s[|s| - 1])
  }

  lemma BuildFoldStep(kinds: NodeKinds, num: Numerics, b: Browser, inline: Styles, table: map<Node, Entry>, s: seq<Node>, i: nat)
    requires i < |s|
    ensures BuildFold(kinds, num, b, inline, table, s[..i + 1])
         == Ensured(BuildFold(kinds, num, b, inline, table, s[..i]), kinds, num, b, inline, s[i])
  {
    assert s[..i + 1][..i] == s[..i];
  }

  /** The first pass keeps every entry and adds entries for elements of `s` only. */
  lemma {:induction false} BuildFoldOutside(kinds: NodeKinds, num: Numerics, b: Browser, inline: Styles, table: map<Node, Entry>, s: seq<Node>)
    ensures var t := BuildFold(kinds, num, b, inline, table, s);
      Extends(table, t) && forall el :: el in t && el !in table ==> el in s
    decreases |s|
  {
    if s != [] {
      var n := |s| - 1;
      BuildFoldOutside(kinds, num, b, inline, table, s[..n]);
      assert forall el :: el in s[..n] ==> el in s;
      EnsuredIdempotent(BuildFold(kinds, num, b, inline, table, s[..n]), kinds, num, b, inline, s[n]);
    }
  }

  /** The first loop of a class change on values: `el` restored from its entry, which is dropped. */
  function DropOne(st: PassState, el: Node): PassState {
    if el in st.table && WellFormedEntry(st.table[el]) then PassState(st.table - {el}, Put(st.inline, el, Origs(st.table[el])))
    else PassState(st.table - {el}, st.inline)
  }

  function DropFold(st: PassState, s: seq<Node>): PassState
    decreases |s|
  {
    if s == [] then st else DropOne(DropFold(st, s[..|s| - 1]), s[|s| - 1])
  }

  lemma DropFoldStep(st: PassState, s: seq<Node>, i: nat)
    requires i < |s|
    ensures DropFold(st, s[..i + 1]) == DropOne(DropFold(st, s[..i]), s[i])
  {
    assert s[..i + 1][..i] == s[..i];
  }

  /** After the first loop of a class change no element of `s` has an entry, and the other entries are kept. */
  lemma {:induction false} DropFoldKeys(st: PassState, s: seq<Node>)
    ensures DropFold(st, s).table.Keys == st.table.Keys - set el | el in s
    decreases |s|
  {
    if s != [] {
      var n := |s| - 1;
      DropFoldKeys(st, s[..n]);
      assert (set el | el in s) == (set el | el in s[..n]) + {s[n]} by {
        assert s == s[..n] + [s[n]];
      }
    }
  }

  /**
   * A class change rebuilds the entries of the subtree: an HTML or SVG
   * element that comes once in `s` has no entry when its turn comes, so
   * `ensureEntry` builds it on the page the elements before it left,
   * dynamic exactly when the element now sits in a dynamic context;
   * `ApplyFoldLast` then says what it shows.
   */
  lemma ClassChangeRebuilt(kinds: NodeKinds, num: Numerics, b: Browser, st: PassState, s: seq<Node>, i: nat, inverted: bool)
    requires i < |s| && Applicable(kinds, s[i]) && s[i] !in s[..i]
    ensures var el, mid := s[i], ApplyFold(kinds, num, b, DropFold(st, s), s[..i], inverted);
      var e := EntryFor(kinds, num, PageAt(b, mid.inline), mid.inline, el);
      el !in mid.table && e.Some?
      && Ensured(mid.table, kinds, num, b, mid.inline, el) == mid.table[el := e.value]
      && (e.value.dynamic <==> b.inDynamicContext(el))
  {
    var el, d := s[i], DropFold(st, s);
    var mid := ApplyFold(kinds, num, b, d, s[..i], inverted);
    DropFoldKeys(st, s);
    ApplyFoldOutside(kinds, num, b, d, s[..i], inverted);
    assert el !in d.table;
    EntryForWellFormed(kinds, num, PageAt(b, mid.inline), mid.inline, el);
  }

  /** One record of the observer on values. */
  function MutationAfter(kinds: NodeKinds, num: Numerics, b: Browser, st: PassState, m: Mutation, inverted: bool): PassState {
    match m
    case ChildList(nodes) => ApplyFold(kinds, num, b, st, AddedTargets(kinds, b, nodes), inverted)
    case Attributes(name, target) =>
      if name == "class" && kinds.isElement(target) then
        var s := Subtree(b, target);
        ApplyFold(kinds, num, b, DropFold(st, s), s, inverted)
      else st
  }

  /** A batch of records of the observer on values, in order. */
  function MutationsAfter(kinds: NodeKinds, num: Numerics, b: Browser, st: PassState, ms: seq<Mutation>, inverted: bool): PassState
    decreases |ms|
  {
    if ms == [] then st
    else MutationAfter(kinds, num, b, MutationsAfter(kinds, num, b, st, ms[..|ms| - 1], inverted), ms[|ms| - 1], inverted)
  }

  lemma MutationsAfterStep(kinds: NodeKinds, num: Numerics, b: Browser, st: PassState, ms: seq<Mutation>, k: nat, inverted: bool)
    requires k < |ms|
    ensures MutationsAfter(kinds, num, b, st, ms[..k + 1], inverted)
         == MutationAfter(kinds, num, b, MutationsAfter(kinds, num, b, st, ms[..k], inverted), ms[k], inverted)
  {
    assert ms[..k + 1][..k] == ms[..k];
  }

  /** The table `applyAll` goes into its second pass with: on the first call (empty table) the first pass has built it. */
  function FirstPass(kinds: NodeKinds, num: Numerics, b: Browser, inline: Styles, table: map<Node, Entry>): map<Node, Entry> {
    if |table| == 0 then BuildFold(kinds, num, b, inline, table, Scope(b)) else table
  }

  /** `applyAll()` on values: the first pass when the table is empty, then `applyToElement` on the scope. */
  function ApplyAllAfter(kinds: NodeKinds, num: Numerics, b: Browser, st: PassState, inverted: bool): PassState {
    ApplyFold(kinds, num, b, PassState(FirstPass(kinds, num, b, st.inline, st.table), st.inline), Scope(b), inverted)
  }

  /** `applyAll()` keeps every entry and changes nothing outside the scope. */
  lemma ApplyAllOutside(kinds: NodeKinds, num: Numerics, b: Browser, st: PassState, inverted: bool)
    ensures var st' := ApplyAllAfter(kinds, num, b, st, inverted);
      st.table.Keys <= st'.table.Keys && SameOutside(Scope(b), st.table, st'.table, st.inline, st'.inline)
  {
    var t := FirstPass(kinds, num, b, st.inline, st.table);
    BuildFoldOutside(kinds, num, b, st.inline, st.table, Scope(b));
    assert Extends(st.table, t) && forall el :: el in t && el !in st.table ==> el in Scope(b);
    ApplyFoldOutside(kinds, num, b, PassState(t, st.inline), Scope(b), inverted);
  }

  // ---------------------------------------------------------------------------
  // The engine
  // ---------------------------------------------------------------------------

  /** A record of the mutation observer: nodes added, or an attribute of `target` changed. */
  datatype Mutation = ChildList(addedNodes: seq<Node>) | Attributes(attributeName: string, target: Node)

  class Engine {
    const kinds: NodeKinds
    const num: Numerics
    const doc: Document
    const store: Storage
    const storageKey: string
    /** The flag read from storage when the engine was created. */
    const initial: Option<bool>
    /** The inline styles before the engine wrote anything. */
    ghost const base: Styles

    var isInverted: bool
    /** Whether the mutation observer is connected. */
    var observing: bool
    var colorTable: map<Node, Entry>
    var originals: map<Node, Style>

    /** What the passes change: the table and the inline styles. */
    function State(): PassState
      reads this`colorTable, doc
    {
      PassState(colorTable, doc.inline)
    }

    ghost predicate Valid()
      reads this, doc
    {
      TableOk(kinds, base, colorTable)
      && OriginalsOk(base, originals)
      && DriftTracked(doc.inline, base, colorTable)
    }

    /** `useInvertTheme(options)`: nothing inverted, nothing cached, the persisted flag read. */
    constructor(kinds: NodeKinds, num: Numerics, doc: Document, store: Storage, storageKeyOption: Option<string>)
      ensures this.kinds == kinds && this.num == num && this.doc == doc && this.store == store
      ensures storageKey == StorageKey(storageKeyOption)
      ensures initial == StoredInverted(store.GetItem(storageKey))
      ensures !isInverted && !observing && colorTable == map[] && originals == map[]
      ensures base == doc.inline
      ensures Valid()
    {
      this.kinds := kinds;
      this.num := num;
      this.doc := doc;
      this.store := store;
      var key := StorageKey(storageKeyOption);
      this.storageKey := key;
      this.initial := StoredInverted(store.GetItem(key));
      this.base := doc.inline;
      isInverted := false;
      observing := false;
      colorTable := map[];
      originals := map[];
    }

    /** `readStoredInverted()`. */
    function ReadStoredInverted(): (r: Option<bool>)
      reads store
      ensures !store.available ==> r.None?
    {
      StoredInverted(store.GetItem(storageKey))
    }

    /** `writeStoredInverted(next)`: a failing storage is ignored. */
    method WriteStoredInverted(next: bool)
      modifies store
      ensures store.available == old(store.available)
      ensures store.items == if store.available then old(store.items)[storageKey := StoredText(next)] else old(store.items)
      ensures store.available ==> ReadStoredInverted() == Some(next)
    {
      store.SetItemIgnoringErrors(storageKey, StoredText(next));
      StoredRoundTrip(next);
    }

    /** `record(el, prop, value)`: the first value recorded for a property is kept. */
    method Record(el: Node, prop: Prop, value: string)
      modifies this`originals
      ensures originals == Kept(old(originals), el, map[prop := value])
    {
      var m := RecordOf(originals, el);
      if prop !in m {
        m := m[prop := value];
      }
      assert m == map[prop := value] + RecordOf(originals, el);
      originals := originals[el := m];
    }

    /** The `record` calls of `applyEntry`, one per tracked property. */
    method RecordAll(el: Node, w: Style)
      modifies this`originals
      ensures originals == Kept(old(originals), el, w)
    {
      var todo := w.Keys;
      ghost var done: Style := map[];
      while todo != {}
        invariant todo <= w.Keys && done.Keys == w.Keys - todo
        invariant forall p :: p in done ==> done[p] == w[p]
        invariant originals == Kept(old(originals), el, done)
        decreases todo
      {
        var p :| p in todo;
        Record(el, p, w[p]);
        KeptOne(old(originals), el, done, p, w[p]);
        done := done[p := w[p]];
        todo := todo - {p};
      }
      assert done == w;
    }

    /** `ensureEntry(el)`: the existing entry, or one built now and stored when the element gets one. */
    method EnsureEntry(b: Browser, el: Node) returns (entry: Option<Entry>)
      requires Valid()
      modifies this`colorTable
      ensures Valid()
      ensures colorTable == Ensured(old(colorTable), kinds, num, b, doc.inline, el)
      ensures entry == if el in old(colorTable) then Some(old(colorTable)[el]) else EntryFor(kinds, num, PageAt(b, doc.inline), doc.inline, el)
      ensures entry.Some? ==> el in colorTable && colorTable[el] == entry.value
    {
      if el in colorTable {
        return Some(colorTable[el]);
      }
      entry := BuildEntry(kinds, num, PageAt(b, doc.inline), doc.inline, el);
      if entry.Some? {
        InsertBuiltOk(kinds, num, b, doc.inline, base, colorTable, el);
        colorTable := colorTable[el := entry.value];
      }
    }

    /** `restoreElementFromEntry(el, entry)`: every tracked property back to its `origInline`. */
    method RestoreElementFromEntry(el: Node, entry: Option<Entry>)
      requires entry.Some? ==> WellFormedEntry(entry.value)
      modifies doc
      ensures doc.inline == if entry.None? then old(doc.inline) else Put(old(doc.inline), el, Origs(entry.value))
    {
      if entry.Some? {
        doc.WriteAll(el, Origs(entry.value));
      }
    }

    /**
     * `applyEntry(el, entry)`: records the entry's `origInline` values in
     * `originals`, then writes what `AppliedWrites` says; a dynamic entry
     * applied inverted gains its new records in the table.
     */
    method ApplyEntry(b: Browser, el: Node, entry: Option<Entry>)
      requires Valid()
      requires entry.Some? ==> el in colorTable && colorTable[el] == entry.value
      modifies this`colorTable, this`originals, doc
      ensures Valid()
      ensures entry.None? ==> colorTable == old(colorTable) && originals == old(originals) && doc.inline == old(doc.inline)
      ensures entry.Some? ==>
        var e := entry.value;
        originals == Kept(old(originals), el, Origs(e))
        && doc.inline == Put(old(doc.inline), el, AppliedWrites(kinds, num, b, old(doc.inline), el, e, isInverted))
        && colorTable == old(colorTable)[el := AppliedEntry(kinds, num, b, old(doc.inline), el, e, isInverted)]
    {
      if entry.None? {
        return;
      }
      var e := entry.value;
      assert EntryOk(kinds, base, el, e);
      KeptOk(base, originals, el, Origs(e));
      RecordAll(el, Origs(e));
      if isInverted {
        if e.dynamic {
          ApplyLive(b, el, e);
        } else {
          ApplyInverted(el, e);
          assert colorTable == old(colorTable)[el := e];
        }
      } else {
        ApplyOriginal(el, e);
        assert colorTable == old(colorTable)[el := e];
      }
    }

    /** The inverted branch of `applyEntry` for a static entry: every tracked property to its `inv`. */
    method ApplyInverted(el: Node, e: Entry)
      requires Valid() && el in colorTable && colorTable[el] == e && !e.dynamic
      modifies doc
      ensures Valid()
      ensures doc.inline == Put(old(doc.inline), el, Invs(e))
    {
      assert EntryOk(kinds, base, el, e);
      DriftAfterTrackedWrites(doc.inline, base, colorTable, el, Invs(e), e);
      assert colorTable[el := e] == colorTable;
      doc.WriteAll(el, Invs(e));
    }

    /** The branch of `applyEntry` when not inverted: every tracked property to its `origInline`. */
    method ApplyOriginal(el: Node, e: Entry)
      requires Valid() && el in colorTable && colorTable[el] == e
      modifies doc
      ensures Valid()
      ensures doc.inline == Put(old(doc.inline), el, Origs(e))
    {
      assert EntryOk(kinds, base, el, e);
      DriftAfterBaseWrites(doc.inline, base, colorTable, el, Origs(e));
      doc.WriteAll(el, Origs(e));
    }

    /** The inverted branch of `applyEntry` for a dynamic entry: `applyDynamicToElement`, the entry updated in the table. */
    method ApplyLive(b: Browser, el: Node, e: Entry)
      requires Valid() && el in colorTable && colorTable[el] == e && e.dynamic
      modifies doc, this`colorTable
      ensures Valid()
      ensures doc.inline == Put(old(doc.inline), el, DynamicWrites(kinds, num, b, old(doc.inline), el))
      ensures colorTable == old(colorTable)[el := DynamicEntry(kinds, num, b, old(doc.inline), el, e)]
    {
      ghost var inline0 := doc.inline;
      ghost var table0 := colorTable;
      ghost var w := DynamicWrites(kinds, num, b, inline0, el);
      var e' := ApplyDynamic(kinds, num, b, doc, el, e);
      assert e' == Extend(e, inline0, el, w);
      colorTable := colorTable[el := e'];
      LiveStepOk(kinds, base, inline0, table0, el, w, e');
    }

    /** `applyToElement(el)`: for an HTML or SVG element, `ensureEntry` and `applyEntry`. */
    method ApplyToElement(b: Browser, el: Node)
      requires Valid()
      modifies this`colorTable, this`originals, doc
      ensures Valid()
      ensures colorTable == TableAfterApply(old(colorTable), kinds, num, b, old(doc.inline), el, isInverted)
      ensures doc.inline == InlineAfterApply(old(colorTable), kinds, num, b, old(doc.inline), el, isInverted)
      ensures State() == ApplyOne(kinds, num, b, old(State()), el, isInverted)
      ensures originals.Keys <= old(originals).Keys + {el}
    {
      if !kinds.isElement(el) || !kinds.isStyled(el) {
        return;
      }
      EnsuredIdempotent(colorTable, kinds, num, b, doc.inline, el);
      ghost var table := Ensured(colorTable, kinds, num, b, doc.inline, el);
      var entry := EnsureEntry(b, el);
      assert colorTable == table && el in table && entry == Some(table[el]);
      ApplyEntry(b, el, entry);
    }

    /** The first pass of `applyAll`: an entry for every element of the scope that has none. */
    method BuildTable(b: Browser, all: seq<Node>)
      requires Valid()
      modifies this`colorTable
      ensures Valid()
      ensures old(colorTable).Keys <= colorTable.Keys
      ensures forall el :: el in old(colorTable) ==> colorTable[el] == old(colorTable)[el]
      ensures forall el :: el in all && Applicable(kinds, el) ==> el in colorTable
      ensures BuiltAt(kinds, num, b, doc.inline, old(colorTable), colorTable)
      ensures colorTable == BuildFold(kinds, num, b, doc.inline, old(colorTable), all)
    {
      for i := 0 to |all|
        invariant Valid()
        invariant Extends(old(colorTable), colorTable) && CoveredUpTo(kinds, colorTable, all, i)
        invariant BuiltAt(kinds, num, b, doc.inline, old(colorTable), colorTable)
        invariant colorTable == BuildFold(kinds, num, b, doc.inline, old(colorTable), all[..i])
      {
        EnsuredStep(kinds, num, b, doc.inline, old(colorTable), colorTable, all, i);
        BuiltAtStep(kinds, num, b, doc.inline, old(colorTable), colorTable, all[i]);
        BuildFoldStep(kinds, num, b, doc.inline, old(colorTable), all, i);
        BuildStep(b, all[i]);
      }
      assert all[..|all|] == all;
    }

    /** One element of the first pass of `applyAll`: an element without an entry gets one, if `buildEntry` gives one. */
    method BuildStep(b: Browser, el: Node)
      requires Valid()
      modifies this`colorTable
      ensures Valid()
      ensures colorTable == Ensured(old(colorTable), kinds, num, b, doc.inline, el)
    {
      if !kinds.isElement(el) || el in colorTable {
        EntryForWellFormed(kinds, num, PageAt(b, doc.inline), doc.inline, el);
        return;
      }
      var entry := BuildEntry(kinds, num, PageAt(b, doc.inline), doc.inline, el);
      if entry.Some? {
        InsertBuiltOk(kinds, num, b, doc.inline, base, colorTable, el);
        colorTable := colorTable[el := entry.value];
      }
    }

    /**
     * `applyAll()`: on the first call (empty table) an entry is built for
     * every element of the scope; then every element of the scope gets
     * `applyToElement`. Afterwards every HTML or SVG element of the scope has
     * an entry, and when inverted every static one is shown inverted.
     * The table and the inline styles are those of the two passes on
     * values, and nothing outside the scope changes.
     */
    method ApplyAll(b: Browser)
      requires Valid()
      modifies this`colorTable, this`originals, doc
      ensures Valid()
      ensures State() == ApplyAllAfter(kinds, num, b, old(State()), isInverted)
      ensures SameOutside(Scope(b), old(colorTable), colorTable, old(doc.inline), doc.inline)
      ensures old(colorTable).Keys <= colorTable.Keys
      ensures forall el :: el in Scope(b) && Applicable(kinds, el) ==> el in colorTable
      ensures isInverted ==> forall el :: el in Scope(b) && el in colorTable ==> InvertedShown(doc.inline, el, colorTable[el])
      ensures b.root.None? ==> colorTable == old(colorTable) && originals == old(originals) && doc.inline == old(doc.inline)
      ensures |old(colorTable)| == 0 ==> forall el :: el in Scope(b) && Applicable(kinds, el) && !colorTable[el].dynamic ==>
        EntryFor(kinds, num, PageAt(b, old(doc.inline)), old(doc.inline), el) == Some(colorTable[el])
    {
      if b.root.None? {
        return;
      }
      ghost var st0 := State();
      var all := Scope(b);
      ghost var built := colorTable;
      if |colorTable| == 0 {
        BuildTable(b, all);
        built := colorTable;
      }
      ApplyPass(b, all, built);
      PrebuiltStatic(kinds, num, b, old(doc.inline), old(colorTable), built, colorTable, all);
      assert SameOutside(Scope(b), old(colorTable), colorTable, old(doc.inline), doc.inline) by {
        ApplyAllOutside(kinds, num, b, st0, isInverted);
      }
    }

    /** The second pass of `applyAll`: `applyToElement` on every element of `all`, in order. */
    method ApplyPass(b: Browser, all: seq<Node>, ghost built: map<Node, Entry>)
      requires Valid() && KeepsBuilt(built, colorTable)
      modifies this`colorTable, this`originals, doc
      ensures Valid() && KeepsBuilt(built, colorTable)
      ensures old(colorTable).Keys <= colorTable.Keys
      ensures CoveredUpTo(kinds, colorTable, all, |all|) && (isInverted ==> ShownUpTo(doc.inline, colorTable, all, |all|))
      ensures State() == ApplyFold(kinds, num, b, old(State()), all, isInverted)
    {
      for i := 0 to |all|
        invariant Valid()
        invariant old(colorTable).Keys <= colorTable.Keys
        invariant AppliedUpTo(all, i)
        invariant KeepsBuilt(built, colorTable)
        invariant State() == ApplyFold(kinds, num, b, old(State()), all[..i], isInverted)
      {
        ApplyFoldStep(kinds, num, b, old(State()), all, i, isInverted);
        ApplyStep(b, all, i, built);
      }
      assert all[..|all|] == all;
    }

    /** The elements `all[..i]` each have an entry, shown inverted when the engine is. */
    ghost predicate AppliedUpTo(all: seq<Node>, i: nat)
      reads this, doc
    {
      i <= |all| && CoveredUpTo(kinds, colorTable, all, i) && (isInverted ==> ShownUpTo(doc.inline, colorTable, all, i))
    }

    /** One element of the second pass of `applyAll`. */
    method ApplyStep(b: Browser, all: seq<Node>, i: nat, ghost built: map<Node, Entry>)
      requires Valid() && i < |all| && AppliedUpTo(all, i) && KeepsBuilt(built, colorTable)
      modifies this`colorTable, this`originals, doc
      ensures Valid() && AppliedUpTo(all, i + 1) && KeepsBuilt(built, colorTable)
      ensures old(colorTable).Keys <= colorTable.Keys
      ensures colorTable == TableAfterApply(old(colorTable), kinds, num, b, old(doc.inline), all[i], isInverted)
      ensures State() == ApplyOne(kinds, num, b, old(State()), all[i], isInverted)
    {
      KeepsBuiltStep(built, colorTable, kinds, num, b, doc.inline, all[i], isInverted);
      ApplyStepOk(colorTable, kinds, num, b, doc.inline, all, i, isInverted);
      ApplyToElement(b, all[i]);
    }

    /**
     * `restoreAll()`: every element of the scope with an entry gets its
     * `origInline` values back, and one without gets its `originals` record
     * back, which is then dropped. The table is kept. Afterwards every element
     * of the scope has its inline styles from before the engine wrote
     * anything, and nothing outside the scope has changed.
     */
    method RestoreAll(b: Browser)
      requires Valid()
      modifies this`originals, doc
      ensures Valid()
      ensures colorTable == old(colorTable)
      ensures forall el :: el in Scope(b) ==> ElementAtBase(doc.inline, base, el)
      ensures forall el, p :: el !in Scope(b) ==> StyleIn(doc.inline, el, p) == StyleIn(old(doc.inline), el, p)
      ensures originals.Keys <= old(originals).Keys
      ensures forall el :: el in Scope(b) && el !in colorTable && Applicable(kinds, el) ==> el !in originals
    {
      if b.root.None? {
        return;
      }
      var all := Scope(b);
      for i := 0 to |all|
        invariant Valid()
        invariant RestoredUpTo(all, i, old(doc.inline), old(originals))
      {
        RestoreStep(all, i, old(doc.inline), old(originals));
      }
    }

    /**
     * The elements `all[..i]` are at `base`, those without an entry have no
     * record left, nothing outside `all` has changed since `inline0` and no
     * record was added since `originals0`.
     */
    ghost predicate RestoredUpTo(all: seq<Node>, i: nat, inline0: Styles, originals0: map<Node, Style>)
      reads this, doc
    {
      i <= |all|
      && AtBaseUpTo(doc.inline, base, all, i)
      && (forall el, p :: el !in all ==> StyleIn(doc.inline, el, p) == StyleIn(inline0, el, p))
      && originals.Keys <= originals0.Keys
      && (forall j :: 0 <= j < i && all[j] !in colorTable && Applicable(kinds, all[j]) ==> all[j] !in originals)
    }

    /** One element of the loop of `restoreAll`. */
    method RestoreStep(all: seq<Node>, i: nat, ghost inline0: Styles, ghost originals0: map<Node, Style>)
      requires Valid() && i < |all| && RestoredUpTo(all, i, inline0, originals0)
      modifies this`originals, doc
      ensures Valid() && RestoredUpTo(all, i + 1, inline0, originals0)
    {
      ghost var before := doc.inline;
      RestoreElement(all[i]);
      RestoreStepOk(before, doc.inline, base, all, i);
    }

    /** One element of `restoreAll`. */
    method RestoreElement(el: Node)
      requires Valid()
      modifies this`originals, doc
      ensures Valid()
      ensures ElementAtBase(doc.inline, base, el)
      ensures forall e2 :: ElementAtBase(old(doc.inline), base, e2) ==> ElementAtBase(doc.inline, base, e2)
      ensures forall e2, p :: e2 != el ==> StyleIn(doc.inline, e2, p) == StyleIn(old(doc.inline), e2, p)
      ensures originals == if el !in colorTable && Applicable(kinds, el) then old(originals) - {el} else old(originals)
    {
      if !kinds.isElement(el) || !kinds.isStyled(el) {
        UntrackedAtBase(doc.inline, base, colorTable, el);
        return;
      }
      if el in colorTable {
        var e := colorTable[el];
        RestoredAtBase(doc.inline, base, colorTable, el);
        DriftAfterBaseWrites(doc.inline, base, colorTable, el, Origs(e));
        doc.WriteAll(el, Origs(e));
        return;
      }
      UntrackedAtBase(doc.inline, base, colorTable, el);
      if el !in originals {
        return;
      }
      DriftAfterBaseWrites(doc.inline, base, colorTable, el, originals[el]);
      doc.WriteAll(el, originals[el]);
      originals := originals - {el};
    }

    /** An element without an entry gets one built, then `applyToElement`: the same as `applyToElement` alone. */
    method ObserveElement(b: Browser, el: Node)
      requires Valid()
      modifies this`colorTable, this`originals, doc
      ensures Valid()
      ensures colorTable == TableAfterApply(old(colorTable), kinds, num, b, old(doc.inline), el, isInverted)
      ensures doc.inline == InlineAfterApply(old(colorTable), kinds, num, b, old(doc.inline), el, isInverted)
      ensures State() == ApplyOne(kinds, num, b, old(State()), el, isInverted)
    {
      BuildThenApply(colorTable, kinds, num, b, doc.inline, el, isInverted);
      BuildStep(b, el);
      ApplyToElement(b, el);
    }

    /** One element of the observer's loops. */
    method ObserveStep(b: Browser, all: seq<Node>, i: nat, ghost table0: map<Node, Entry>, ghost inline0: Styles)
      requires Valid() && i < |all| && AppliedUpTo(all, i) && SameOutside(all, table0, colorTable, inline0, doc.inline)
      modifies this`colorTable, this`originals, doc
      ensures Valid() && AppliedUpTo(all, i + 1) && SameOutside(all, table0, colorTable, inline0, doc.inline)
      ensures State() == ApplyOne(kinds, num, b, old(State()), all[i], isInverted)
    {
      ghost var t := colorTable;
      ghost var inline := doc.inline;
      ApplyStepOk(t, kinds, num, b, inline, all, i, isInverted);
      ObserveElement(b, all[i]);
      SameOutsideStep(all, i, table0, t, colorTable, inline0, inline, doc.inline);
    }

    /** One added node: for an element, every element of its subtree gets an entry and `applyToElement`. */
    method OnAddedNode(b: Browser, node: Node)
      requires Valid()
      modifies this`colorTable, this`originals, doc
      ensures Valid()
      ensures var targets := if kinds.isElement(node) then Subtree(b, node) else [];
        SameOutside(targets, old(colorTable), colorTable, old(doc.inline), doc.inline)
        && (isInverted ==> Settled(kinds, doc.inline, colorTable, targets))
        && State() == ApplyFold(kinds, num, b, old(State()), targets, isInverted)
    {
      if !kinds.isElement(node) {
        return;
      }
      var targets := Subtree(b, node);
      for i := 0 to |targets|
        invariant Valid() && AppliedUpTo(targets, i)
        invariant SameOutside(targets, old(colorTable), colorTable, old(doc.inline), doc.inline)
        invariant State() == ApplyFold(kinds, num, b, old(State()), targets[..i], isInverted)
      {
        ApplyFoldStep(kinds, num, b, old(State()), targets, i, isInverted);
        ObserveStep(b, targets, i, old(colorTable), old(doc.inline));
      }
      assert targets[..|targets|] == targets;
      if isInverted {
        SettledOfPrefix(kinds, doc.inline, colorTable, targets);
      }
    }

    /** A `childList` record: every added node in turn. */
    method OnChildList(b: Browser, nodes: seq<Node>)
      requires Valid()
      modifies this`colorTable, this`originals, doc
      ensures Valid()
      ensures SameOutside(AddedTargets(kinds, b, nodes), old(colorTable), colorTable, old(doc.inline), doc.inline)
      ensures isInverted ==> Settled(kinds, doc.inline, colorTable, AddedTargets(kinds, b, nodes))
      ensures State() == ApplyFold(kinds, num, b, old(State()), AddedTargets(kinds, b, nodes), isInverted)
    {
      for k := 0 to |nodes|
        invariant Valid()
        invariant SameOutside(AddedTargets(kinds, b, nodes[..k]), old(colorTable), colorTable, old(doc.inline), doc.inline)
        invariant isInverted ==> Settled(kinds, doc.inline, colorTable, AddedTargets(kinds, b, nodes[..k]))
        invariant State() == ApplyFold(kinds, num, b, old(State()), AddedTargets(kinds, b, nodes[..k]), isInverted)
      {
        ghost var t := colorTable;
        ghost var inline := doc.inline;
        ghost var done := AddedTargets(kinds, b, nodes[..k]);
        OnAddedNode(b, nodes[k]);
        ghost var s := if kinds.isElement(nodes[k]) then Subtree(b, nodes[k]) else [];
        AddedNodesAreTargets(kinds, b, nodes, k);
        ApplyFoldAppend(kinds, num, b, old(State()), done, s, isInverted);
        SameOutsideTrans(done, s, old(colorTable), t, colorTable, old(doc.inline), inline, doc.inline);
        if isInverted {
          SettledGrow(kinds, done, s, t, colorTable, inline, doc.inline);
        }
      }
      assert nodes[..|nodes|] == nodes;
    }

    /** The first loop of a class change: an element with an entry is restored from it and loses it. */
    method DropEntry(el: Node)
      requires Valid()
      modifies this`colorTable, doc
      ensures Valid()
      ensures el !in colorTable && ElementAtBase(doc.inline, base, el)
      ensures OnlyAt(el, old(colorTable), colorTable, old(doc.inline), doc.inline)
      ensures colorTable.Keys <= old(colorTable).Keys
      ensures State() == DropOne(old(State()), el)
    {
      if el !in colorTable {
        UntrackedAtBase(doc.inline, base, colorTable, el);
        assert colorTable - {el} == colorTable;
        return;
      }
      var e := colorTable[el];
      assert EntryOk(kinds, base, el, e);
      DriftAfterRestoreDelete(doc.inline, base, colorTable, el);
      RestoreElementFromEntry(el, Some(e));
      colorTable := colorTable - {el};
    }

    /** One element of the first loop of a class change. */
    method DropStep(all: seq<Node>, i: nat, ghost table0: map<Node, Entry>, ghost inline0: Styles)
      requires Valid() && i < |all| && DroppedUpTo(colorTable, all, i) && SameOutside(all, table0, colorTable, inline0, doc.inline)
      modifies this`colorTable, doc
      ensures Valid() && DroppedUpTo(colorTable, all, i + 1) && SameOutside(all, table0, colorTable, inline0, doc.inline)
      ensures State() == DropOne(old(State()), all[i])
    {
      ghost var t := colorTable;
      ghost var inline := doc.inline;
      DropEntry(all[i]);
      SameOutsideStep(all, i, table0, t, colorTable, inline0, inline, doc.inline);
    }

    /**
     * An `attributes` record for `class`: for an element, every element of
     * its subtree is first restored from its entry, which is dropped, and
     * then gets a new entry and `applyToElement`. The new entries record
     * the same original values as the dropped ones.
     */
    method OnClassChange(b: Browser, node: Node)
      requires Valid()
      modifies this`colorTable, this`originals, doc
      ensures Valid()
      ensures var targets := if kinds.isElement(node) then Subtree(b, node) else [];
        SameOutside(targets, old(colorTable), colorTable, old(doc.inline), doc.inline)
        && (isInverted ==> Settled(kinds, doc.inline, colorTable, targets))
      ensures forall el :: el in old(colorTable) && el in colorTable ==> OrigsAgree(old(colorTable)[el], colorTable[el])
      ensures var targets := if kinds.isElement(node) then Subtree(b, node) else [];
        State() == ApplyFold(kinds, num, b, DropFold(old(State()), targets), targets, isInverted)
    {
      ghost var t0 := colorTable;
      if !kinds.isElement(node) {
        return;
      }
      var targets := Subtree(b, node);
      for i := 0 to |targets|
        invariant Valid() && DroppedUpTo(colorTable, targets, i)
        invariant SameOutside(targets, old(colorTable), colorTable, old(doc.inline), doc.inline)
        invariant State() == DropFold(old(State()), targets[..i])
      {
        DropFoldStep(old(State()), targets, i);
        DropStep(targets, i, old(colorTable), old(doc.inline));
      }
      assert targets[..|targets|] == targets;
      ghost var dropped := State();
      for i := 0 to |targets|
        invariant Valid() && AppliedUpTo(targets, i)
        invariant SameOutside(targets, old(colorTable), colorTable, old(doc.inline), doc.inline)
        invariant State() == ApplyFold(kinds, num, b, dropped, targets[..i], isInverted)
      {
        ApplyFoldStep(kinds, num, b, dropped, targets, i, isInverted);
        ObserveStep(b, targets, i, old(colorTable), old(doc.inline));
      }
      if isInverted {
        SettledOfPrefix(kinds, doc.inline, colorTable, targets);
      }
      forall el | el in t0 && el in colorTable ensures OrigsAgree(t0[el], colorTable[el]) {
        assert EntryOk(kinds, base, el, colorTable[el]);
      }
    }

    /** One mutation record: `childList`, or `attributes` for `class`; any other record is ignored. */
    method OnMutation(b: Browser, m: Mutation)
      requires Valid()
      modifies this`colorTable, this`originals, doc
      ensures Valid()
      ensures SameOutside(MutationTargets(kinds, b, m), old(colorTable), colorTable, old(doc.inline), doc.inline)
      ensures isInverted ==> Settled(kinds, doc.inline, colorTable, MutationTargets(kinds, b, m))
      ensures State() == MutationAfter(kinds, num, b, old(State()), m, isInverted)
    {
      match m
      case ChildList(nodes) =>
        OnChildList(b, nodes);
      case Attributes(name, target) =>
        if name == "class" {
          OnClassChange(b, target);
        }
    }

    /**
     * The observer callback: nothing when not inverted; otherwise every
     * record in turn. Afterwards every element of every added subtree and of
     * every subtree whose root changed its class has an entry and is shown
     * inverted, and nothing else has changed.
     */
    method OnMutations(b: Browser, ms: seq<Mutation>)
      requires Valid()
      modifies this`colorTable, this`originals, doc
      ensures Valid()
      ensures !isInverted ==> colorTable == old(colorTable) && originals == old(originals) && doc.inline == old(doc.inline)
      ensures isInverted ==>
        SameOutside(AllTargets(kinds, b, ms), old(colorTable), colorTable, old(doc.inline), doc.inline)
        && Settled(kinds, doc.inline, colorTable, AllTargets(kinds, b, ms))
        && State() == MutationsAfter(kinds, num, b, old(State()), ms, true)
    {
      if !isInverted {
        return;
      }
      for k := 0 to |ms|
        invariant Valid()
        invariant SameOutside(AllTargets(kinds, b, ms[..k]), old(colorTable), colorTable, old(doc.inline), doc.inline)
        invariant Settled(kinds, doc.inline, colorTable, AllTargets(kinds, b, ms[..k]))
        invariant State() == MutationsAfter(kinds, num, b, old(State()), ms[..k], true)
      {
        MutationsAfterStep(kinds, num, b, old(State()), ms, k, true);
        ghost var t := colorTable;
        ghost var inline := doc.inline;
        ghost var done := AllTargets(kinds, b, ms[..k]);
        OnMutation(b, ms[k]);
        AllTargetsStep(kinds, b, ms, k);
        SameOutsideTrans(done, MutationTargets(kinds, b, ms[k]), old(colorTable), t, colorTable, old(doc.inline), inline, doc.inline);
        SettledGrow(kinds, done, MutationTargets(kinds, b, ms[k]), t, colorTable, inline, doc.inline);
      }
      assert ms[..|ms|] == ms;
    }

    /** `startObserver()`: connects when there is a root and no observer yet. */
    method StartObserver(b: Browser)
      modifies this`observing
      ensures observing == (old(observing) || b.root.Some?)
    {
      if b.root.None? || observing {
        return;
      }
      observing := true;
    }

    /** `stopObserver()`. */
    method StopObserver()
      modifies this`observing
      ensures !observing
    {
      observing := false;
    }

    /**
     * `enable()`: inverted, persisted, applied to the whole scope, observed.
     * Afterwards every HTML or SVG element of the scope has an entry and every
     * static one is shown inverted.
     */
    method Enable(b: Browser)
      requires Valid()
      modifies this`isInverted, this`observing, this`colorTable, this`originals, doc, store
      ensures Valid()
      ensures isInverted && observing == (old(observing) || b.root.Some?)
      ensures store.available ==> ReadStoredInverted() == Some(true)
      ensures Settled(kinds, doc.inline, colorTable, Scope(b))
      ensures State() == ApplyAllAfter(kinds, num, b, old(State()), true)
      ensures SameOutside(Scope(b), old(colorTable), colorTable, old(doc.inline), doc.inline)
    {
      isInverted := true;
      WriteStoredInverted(true);
      ApplyAll(b);
      StartObserver(b);
    }

    /**
     * `disable()`: not inverted, persisted, no longer observed, and every
     * element of the scope back to its inline styles from before the engine
     * wrote anything; nothing outside the scope changes.
     */
    method Disable(b: Browser)
      requires Valid()
      modifies this`isInverted, this`observing, this`originals, doc, store
      ensures Valid()
      ensures !isInverted && !observing
      ensures store.available ==> ReadStoredInverted() == Some(false)
      ensures forall el :: el in Scope(b) ==> ElementAtBase(doc.inline, base, el)
      ensures forall el, p :: el !in Scope(b) ==> StyleIn(doc.inline, el, p) == StyleIn(old(doc.inline), el, p)
    {
      isInverted := false;
      WriteStoredInverted(false);
      StopObserver();
      RestoreAll(b);
    }

    /** `toggle()`: `disable()` when inverted, else `enable()`. */
    method Toggle(b: Browser)
      requires Valid()
      modifies this`isInverted, this`observing, this`colorTable, this`originals, doc, store
      ensures Valid()
      ensures isInverted == !old(isInverted)
      ensures store.available ==> ReadStoredInverted() == Some(isInverted)
      ensures isInverted ==> Settled(kinds, doc.inline, colorTable, Scope(b))
      ensures isInverted ==>
        State() == ApplyAllAfter(kinds, num, b, old(State()), true)
        && SameOutside(Scope(b), old(colorTable), colorTable, old(doc.inline), doc.inline)
      ensures !isInverted ==> forall el :: el in Scope(b) ==> ElementAtBase(doc.inline, base, el)
    {
      if isInverted {
        Disable(b);
      } else {
        Enable(b);
      }
    }

    /** The `onMounted` hook: `enable()` when the persisted flag read at creation was true. */
    method OnMounted(b: Browser)
      requires Valid()
      modifies this`isInverted, this`observing, this`colorTable, this`originals, doc, store
      ensures Valid()
      ensures initial == Some(true) ==>
        isInverted && Settled(kinds, doc.inline, colorTable, Scope(b))
        && State() == ApplyAllAfter(kinds, num, b, old(State()), true)
      ensures initial != Some(true) ==> isInverted == old(isInverted) && colorTable == old(colorTable) && doc.inline == old(doc.inline)
    {
      if initial == Some(true) {
        Enable(b);
      }
    }

    /** The `onUnmounted` hook. */
    method OnUnmounted()
      modifies this`observing
      ensures !observing
    {
      StopObserver();
    }
  }
}
