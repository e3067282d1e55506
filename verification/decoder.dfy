/**
 * The symbol decoder: a listbox of ornament symbols and a detail panel.
 *
 * The selection is an optional symbol index. Every option reacts to
 * mouse, focus and key events; the option flags `aria-selected` on the
 * one selected item, and the panel shows the selected symbol or, with no
 * selection, its distinct "SELECT DATA FOR DECODING" prompt.
 */
module SymbolDecoder {
  import opened Optional

  /** Number of entries in the symbol table. */
  const SYMBOL_COUNT: nat := 5

  type Selection = Option<nat>

  /** An event delivered to the option for symbol `item`. */
  datatype Event =
    | KeyDown(item: nat, key: string)
    | MouseEnter(item: nat)
    | MouseLeave(item: nat)
    | Focus(item: nat)
    | Blur(item: nat)

  /** The keys that activate an option. */
  predicate IsActivationKey(key: string) {
    key == "Enter" || key == " "
  }

  /** The option handlers. */
  function Step(sel: Selection, e: Event): (r: Selection)
    ensures e.KeyDown? && IsActivationKey(e.key) ==> (r == None <==> sel == Some(e.item))
    ensures e.KeyDown? && IsActivationKey(e.key) && sel != Some(e.item) ==> r == Some(e.item)
    ensures e.KeyDown? && !IsActivationKey(e.key) ==> r == sel
    ensures (e.MouseEnter? || e.Focus?) ==> r == Some(e.item)
    ensures (e.MouseLeave? || e.Blur?) ==> r == None
  {
    match e
    case KeyDown(idx, key) =>
      if IsActivationKey(key) then (if sel == Some(idx) then None else Some(idx)) else sel
    case MouseEnter(idx) => Some(idx)
    case Focus(idx) => Some(idx)
    case MouseLeave(_) => None
    case Blur(_) => None
  }

  /** The selection after a sequence of events. */
  function Replay(sel: Selection, es: seq<Event>): Selection {
    if es == [] then sel else Step(Replay(sel, es[..|es| - 1]), es[|es| - 1])
  }

  /** The `aria-selected` flag of option `idx`. */
  predicate AriaSelected(sel: Selection, idx: nat) {
    sel == Some(idx)
  }

  /** What the detail panel shows. */
  datatype Panel =
    | Prompt               // "SELECT DATA FOR DECODING"
    | Identified(symbol: nat)  // the symbol's image, name and "SEMIOTIC DATA IDENTIFIED"
    | Missing              // the index is past the symbol table; reading its entry fails

  function PanelFor(sel: Selection): (p: Panel)
    ensures p == Prompt <==> sel == None
    ensures p.Identified? <==> sel.Some? && sel.value < SYMBOL_COUNT
    ensures p.Identified? ==> AriaSelected(sel, p.symbol)
  {
    match sel
    case None => Prompt
    case Some(i) => if i < SYMBOL_COUNT then Identified(i) else Missing
  }

  /** The key that drives the panel's cross-fade: the index itself, or `'default'` for no selection. */
  datatype PanelKey = DefaultKey | IndexKey(i: nat)

  function KeyFor(sel: Selection): (k: PanelKey)
    ensures k == DefaultKey <==> sel == None
  {
    match sel
    case None => DefaultKey
    case Some(i) => IndexKey(i)
  }

  predicate InRange(sel: Selection) {
    sel.Some? ==> sel.value < SYMBOL_COUNT
  }

  predicate EventsInRange(es: seq<Event>) {
    forall k :: 0 <= k < |es| ==> es[k].item < SYMBOL_COUNT
  }

  /** At most one option is flagged selected, and it is the selected index. */
  lemma AtMostOneSelected(sel: Selection, i: nat, j: nat)
    requires AriaSelected(sel, i) && AriaSelected(sel, j)
    ensures i == j
    ensures sel == Some(i)
  {
  }

  /** Every change of selection changes the panel key, so each change cross-fades, including to and from the prompt. */
  lemma KeyFollowsSelection(a: Selection, b: Selection)
    ensures KeyFor(a) == KeyFor(b) <==> a == b
  {
  }

  /** Events on listed options keep the selection within the symbol table, so the panel never reads past it. */
  lemma {:induction false} ReplayInRange(sel: Selection, es: seq<Event>)
    requires InRange(sel)
    requires EventsInRange(es)
    ensures InRange(Replay(sel, es))
    ensures PanelFor(Replay(sel, es)) != Missing
  {
    if es != [] {
      assert EventsInRange(es[..|es| - 1]);
      ReplayInRange(sel, es[..|es| - 1]);
    }
  }

  /** Activating an option twice from no selection returns to no selection. */
  lemma ToggleTwice(idx: nat, key: string)
    requires IsActivationKey(key)
    ensures Replay(None, [KeyDown(idx, key), KeyDown(idx, key)]) == None
    ensures Replay(None, [KeyDown(idx, key)]) == Some(idx)
  {
    var e := KeyDown(idx, key);
    assert [e, e][..1] == [e];
    assert [e][..0] == [];
    assert Replay(None, [e]) == Some(idx);
  }

  /** Moving to another option while one is selected moves the selection: the old option is no longer flagged. */
  lemma SelectMoves(i: nat, j: nat, e: Event)
    requires i != j
    requires e == MouseEnter(j) || e == Focus(j) || e == KeyDown(j, "Enter") || e == KeyDown(j, " ")
    ensures AriaSelected(Step(Some(i), e), j)
    ensures !AriaSelected(Step(Some(i), e), i)
  {
  }

  /**
   * Focus already selects an option, so an activation key pressed on the
   * option that has just received focus clears the selection again.
   */
  lemma FocusThenActivateClears(idx: nat, sel: Selection)
    ensures Replay(sel, [Focus(idx), KeyDown(idx, "Enter")]) == None
  {
  }

  /** Leaving or blurring any option, not only the selected one, clears the selection. */
  lemma LeaveClearsAny(sel: Selection, i: nat, j: nat)
    requires sel == Some(i)
    ensures Step(sel, MouseLeave(j)) == None
    ensures Step(sel, Blur(j)) == None
    ensures PanelFor(Step(sel, Blur(j))) == Prompt
  {
  }
}
