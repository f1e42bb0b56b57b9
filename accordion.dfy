/**
 * The FAQ accordion of `initFAQAccordion`. Every FAQ item carries an
 * `active` class and its header an `aria-expanded` attribute. A header click
 * closes every other item and then toggles the clicked one.
 */
module Accordion {
  import opened Wrappers
  import opened Flags

  /**
   * The `active` flags once the close-others loop of a click on item `i` has
   * visited the items of `flags`, in document order: each visited item other
   * than `i` is cleared and item `i` is left as it was.
   */
  function CloseOthers(flags: seq<bool>, i: nat): (r: seq<bool>)
    ensures |r| == |flags|
    decreases |flags|
  {
    if flags == [] then []
    else
      var last := |flags| - 1;
      CloseOthers(flags[..last], i) + [if last == i then flags[last] else false]
  }

  /** The `active` flags after a click on the header of item `i`. */
  function AfterClick(active: seq<bool>, i: nat): (r: seq<bool>)
    requires i < |active|
    ensures |r| == |active|
  {
    CloseOthers(active, i)[i := !active[i]]
  }

  /** The close-others loop clears exactly the items other than `i`. */
  lemma {:induction false} CloseOthersAt(flags: seq<bool>, i: nat, j: nat)
    requires j < |flags|
    ensures CloseOthers(flags, i)[j] == (j == i && flags[j])
  {
    var last := |flags| - 1;
    if j < last {
      CloseOthersAt(flags[..last], i, j);
    }
  }

  /**
   * A click collapses everything when the clicked item was open, and
   * otherwise opens exactly the clicked item: the outcome never depends on
   * the other items' prior state.
   */
  lemma ClickOutcome(active: seq<bool>, i: nat)
    requires i < |active|
    ensures AfterClick(active, i) == Exclusive(|active|, if active[i] then None else Some(i))
  {
    var r, e := AfterClick(active, i), Exclusive(|active|, if active[i] then None else Some(i));
    forall j | 0 <= j < |active|
      ensures r[j] == e[j]
    {
      if j != i {
        CloseOthersAt(active, i, j);
      }
    }
  }

  /** After any click at most one item is open, whatever the state before. */
  lemma ClickMutualExclusion(active: seq<bool>, i: nat)
    requires i < |active|
    ensures AtMostOne(AfterClick(active, i))
  {
    ClickOutcome(active, i);
  }

  /** Clicking the header of the open item leaves every item closed. */
  lemma ClickOpenItemClosesAll(active: seq<bool>, i: nat)
    requires i < |active| && active[i]
    ensures forall j | 0 <= j < |active| :: !AfterClick(active, i)[j]
  {
    ClickOutcome(active, i);
  }

  /** Clicking the header of a closed item makes that item, and only it, open. */
  lemma ClickClosedItemOpensIt(active: seq<bool>, i: nat)
    requires i < |active| && !active[i]
    ensures AfterClick(active, i)[i]
    ensures forall j | 0 <= j < |active| && j != i :: !AfterClick(active, i)[j]
  {
    ClickOutcome(active, i);
  }

  /** Every click targets an existing item. */
  predicate ValidClicks(n: nat, clicks: seq<nat>) {
    forall c | 0 <= c < |clicks| :: clicks[c] < n
  }

  /** The `active` flags after the header clicks `clicks`, in order. */
  function AfterClicks(active: seq<bool>, clicks: seq<nat>): (r: seq<bool>)
    requires ValidClicks(|active|, clicks)
    ensures |r| == |active|
    decreases |clicks|
  {
    if clicks == [] then active
    else AfterClicks(AfterClick(active, clicks[0]), clicks[1..])
  }

  /**
   * Over any sequence of header clicks at most one item is open, provided
   * the page starts that way or at least one click happens.
   */
  lemma {:induction false} ClicksKeepMutualExclusion(active: seq<bool>, clicks: seq<nat>)
    requires ValidClicks(|active|, clicks)
    requires AtMostOne(active) || clicks != []
    ensures AtMostOne(AfterClicks(active, clicks))
    decreases |clicks|
  {
    if clicks != [] {
      ClickMutualExclusion(active, clicks[0]);
      ClicksKeepMutualExclusion(AfterClick(active, clicks[0]), clicks[1..]);
    }
  }

  /** Enter and Space on a focused header act as a click. */
  predicate IsActivationKey(key: string) {
    key == "Enter" || key == " "
  }

  /** The FAQ items of the page: each item's `active` class and its header's `aria-expanded`. */
  class FaqList {
    var active: array<bool>
    var ariaExpanded: array<bool>

    ghost predicate Valid()
      reads this
    {
      active != ariaExpanded && active.Length == ariaExpanded.Length
    }

    /**
     * Page setup: the items keep the `active` classes of the markup and every
     * header gets `aria-expanded` = "false".
     */
    constructor (markup: seq<bool>)
      ensures Valid() && fresh(active) && fresh(ariaExpanded)
      ensures active[..] == markup
      ensures ariaExpanded[..] == Exclusive(|markup|, None)
    {
      active := new bool[|markup|](j requires 0 <= j < |markup| => markup[j]);
      ariaExpanded := new bool[|markup|](j => false);
    }

    /** The click handler of item `i`'s header. */
    method ClickHeader(i: nat)
      requires Valid() && i < active.Length
      modifies active, ariaExpanded
      ensures active[..] == AfterClick(old(active[..]), i)
      ensures ariaExpanded[..] == active[..]
    {
      ghost var before := active[..];
      var isActive := active[i];
      var k := 0;
      while k < active.Length
        invariant 0 <= k <= active.Length
        invariant forall j | 0 <= j < k :: active[j] == (j == i && before[j])
        invariant forall j | k <= j < active.Length :: active[j] == before[j]
        invariant forall j | 0 <= j < k && j != i :: !ariaExpanded[j]
      {
        if k != i {
          active[k] := false;
          ariaExpanded[k] := false;
        }
        k := k + 1;
      }
      if isActive {
        active[i] := false;
        ariaExpanded[i] := false;
      } else {
        active[i] := true;
        ariaExpanded[i] := true;
      }
      ClickOutcome(before, i);
      assert active[..] == Exclusive(|before|, if before[i] then None else Some(i));
      assert ariaExpanded[..] == active[..];
    }

    /** The keydown handler of item `i`'s header. */
    method KeyDown(i: nat, key: string)
      requires Valid() && i < active.Length
      modifies active, ariaExpanded
      ensures IsActivationKey(key) ==> active[..] == AfterClick(old(active[..]), i) && ariaExpanded[..] == active[..]
      ensures !IsActivationKey(key) ==> active[..] == old(active[..]) && ariaExpanded[..] == old(ariaExpanded[..])
    {
      if key == "Enter" || key == " " {
        ClickHeader(i);
      }
    }
  }
}
