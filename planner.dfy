/**
 * The overflow-fit planner of the DynamicBadge component: given the items,
 * the width of the container and the width of a badge, decide how many
 * trailing items to hide behind a "+N" badge.
 *
 * Text measurement (an off-screen ruler element in the browser) is the
 * parameter `measure`, a total function from a candidate text to its pixel
 * width; the badge's measured width is the parameter `badgeW`.
 */
module FitPlanner {
  import opened Wrappers
  import opened Text

  /** Separator between displayed items. */
  const Separator := ", "
  /** Appended to a candidate that does not end with the list's last item, leaving room for the ellipsis. */
  const Continuation := ", ....."

  /** Items that stay visible and the number of hidden items shown in the badge. */
  datatype FitResult = FitResult(visible: seq<string>, hiddenCount: nat)

  /** The sample whose width is the default minimum width: three characters and "..." for one item, two and ", ..." otherwise. */
  function MinWidthSample(items: seq<string>): (s: string)
    requires items != []
    ensures var keep := if |items| == 1 then 3 else 2;
            var marker := if |items| == 1 then "..." else ", ...";
            var k := |s| - |marker|;
            0 <= k <= keep && k <= |items[0]| && (k < keep ==> k == |items[0]|) &&
            s[..k] == items[0][..k] && s[k..] == marker
  {
    if |items| == 1 then Take(items[0], 3) + "..." else Take(items[0], 2) + ", ..."
  }

  /** Width below which only the badge is shown when the caller gives no minimum width. */
  function DefaultMinWidth(items: seq<string>, measure: string -> nat): (w: nat)
    ensures items == [] ==> w == 0
    ensures items != [] ==> w == measure(MinWidthSample(items))
  {
    if items == [] then 0 else measure(MinWidthSample(items))
  }

  /** A truthy `minWidth` prop wins; 0 or an absent prop falls back to the default. */
  function MinWidth(minWidthProp: Option<int>, items: seq<string>, measure: string -> nat): (w: int)
    ensures minWidthProp.Some? && minWidthProp.value != 0 ==> w == minWidthProp.value
    ensures minWidthProp == None || minWidthProp == Some(0) ==> w == DefaultMinWidth(items, measure)
  {
    if minWidthProp.Some? && minWidthProp.value != 0 then minWidthProp.value
    else DefaultMinWidth(items, measure)
  }

  /** Badge width reserved by the badge-only test: none for a single item. */
  function BadgeReserve(items: seq<string>, badgeW: nat): (w: nat)
    ensures w <= badgeW
    ensures |items| == 1 ==> w == 0
    ensures |items| != 1 ==> w == badgeW
  {
    if |items| == 1 then 0 else badgeW
  }

  /** The short-circuit that hides every item: too narrow for the minimum width, or `onlyBadge`. */
  predicate BadgeOnly(items: seq<string>, containerW: int, badgeW: nat, minWidthProp: Option<int>,
                      onlyBadge: bool, measure: string -> nat)
    ensures onlyBadge ==> BadgeOnly(items, containerW, badgeW, minWidthProp, onlyBadge, measure)
    ensures containerW - badgeW >= MinWidth(minWidthProp, items, measure) ==>
              (BadgeOnly(items, containerW, badgeW, minWidthProp, onlyBadge, measure) <==> onlyBadge)
  {
    containerW - BadgeReserve(items, badgeW) < MinWidth(minWidthProp, items, measure) || onlyBadge
  }

  /**
   * One pass of the eviction loop over the candidate list `pop`. When `pop`
   * still ends with (a string equal to) the list's last item, the bare join is
   * checked against the whole width; otherwise the join with a continuation
   * marker is checked against the width left beside the badge. A candidate
   * that does not fit loses its tail item, unless it is the only one left.
   */
  function Step(items: seq<string>, containerW: int, badgeW: nat, measure: string -> nat,
                pop: seq<string>): (r: seq<string>)
    requires items != [] && pop != []
    ensures r != [] && |r| <= |pop| && r == pop[..|r|]
    ensures |pop| - 1 <= |r|
  {
    if measure(RulerText(items, pop)) > containerW - CheckReserve(items, badgeW, pop) && |pop| > 1
    then pop[..|pop| - 1]
    else pop
  }

  /** Whether the candidate list still ends with (a string equal to) the list's last item. */
  predicate EndsWithLast(items: seq<string>, pop: seq<string>)
    requires items != [] && pop != []
  {
    pop[|pop| - 1] == items[|items| - 1]
  }

  /** The text measured for a candidate list: its bare join, or its join and the continuation marker. */
  function RulerText(items: seq<string>, pop: seq<string>): string
    requires items != [] && pop != []
  {
    if EndsWithLast(items, pop) then Join(pop, Separator) else Join(pop, Separator) + Continuation
  }

  /** Badge width the candidate's text must leave free: none when it ends with the last item. */
  function CheckReserve(items: seq<string>, badgeW: nat, pop: seq<string>): nat
    requires items != [] && pop != []
  {
    if EndsWithLast(items, pop) then 0 else badgeW
  }

  /** The candidate list after `k` passes of the loop, starting from `pop`. */
  function Evict(items: seq<string>, containerW: int, badgeW: nat, measure: string -> nat,
                 pop: seq<string>, k: nat): (r: seq<string>)
    requires items != [] && pop != []
    ensures r != [] && |r| <= |pop| && r == pop[..|r|]
    ensures |pop| - k <= |r|
    decreases k
  {
    if k == 0 then pop
    else
      var next := Step(items, containerW, badgeW, measure, pop);
      var r := Evict(items, containerW, badgeW, measure, next, k - 1);
      assert r == next[..|r|] == pop[..|next|][..|r|];
      r
  }

  /** What the layout pass decides: everything hidden on the short-circuit, otherwise one pass per item. */
  function Planned(items: seq<string>, containerW: int, badgeW: nat, minWidthProp: Option<int>,
                   onlyBadge: bool, measure: string -> nat): (r: FitResult)
    ensures |r.visible| + r.hiddenCount == |items|
    ensures r.visible == items[..|r.visible|]
    ensures r.hiddenCount == 0 <==> r.visible == items
  {
    if BadgeOnly(items, containerW, badgeW, minWidthProp, onlyBadge, measure) then
      FitResult([], |items|)
    else if items != [] then
      var v := Evict(items, containerW, badgeW, measure, items, |items|);
      FitResult(v, |items| - |v|)
    else
      FitResult([], 0)
  }

  /**
   * The layout pass: copy the items, measure the minimum-width sample, and
   * either take the badge-only short-circuit or run the eviction pass.
   */
  method Plan(items: seq<string>, containerW: int, badgeW: nat, minWidthProp: Option<int>,
              onlyBadge: bool, measure: string -> nat)
    returns (popItems: seq<string>, badgeCounter: nat)
    ensures FitResult(popItems, badgeCounter) == Planned(items, containerW, badgeW, minWidthProp, onlyBadge, measure)
    ensures |popItems| + badgeCounter == |items|
    ensures popItems == items[..|popItems|]
    ensures onlyBadge ==> popItems == [] && badgeCounter == |items|
  {
    popItems := items;
    var defaultMinWidth: nat := 0;
    if |items| > 0 {
      defaultMinWidth := measure(MinWidthSample(items));
    }
    var minWidth := if minWidthProp.Some? && minWidthProp.value != 0 then minWidthProp.value else defaultMinWidth;
    badgeCounter := 0;
    var badgeWidth := if |items| == 1 then 0 else badgeW;
    if containerW - badgeWidth < minWidth || onlyBadge {
      popItems := [];
      badgeCounter := |items|;
    } else if |items| > 0 {
      popItems, badgeCounter := EvictPass(items, containerW, badgeW, measure);
    }
  }

  /**
   * The eviction loop: one pass per item over the candidate list, a copy of
   * the items; a candidate that does not fit pops its tail, counted in the badge.
   */
  method EvictPass(items: seq<string>, containerW: int, badgeW: nat, measure: string -> nat)
    returns (popItems: seq<string>, badgeCounter: nat)
    requires items != []
    ensures popItems == Evict(items, containerW, badgeW, measure, items, |items|)
    ensures |popItems| + badgeCounter == |items|
  {
    popItems := items;
    badgeCounter := 0;
    var badgeWidth := badgeW;
    var index := 0;
    while index < |items|
      invariant 0 <= index <= |items|
      invariant popItems != []
      invariant Evict(items, containerW, badgeW, measure, popItems, |items| - index)
                == Evict(items, containerW, badgeW, measure, items, |items|)
      invariant |popItems| + badgeCounter == |items|
    {
      ghost var before := popItems;
      var isLastItem := popItems[|popItems| - 1] == items[|items| - 1];
      var textToCheck := Join(popItems, Separator);
      var rulerText;
      if isLastItem {
        rulerText := textToCheck;
        badgeWidth := 0;
      } else {
        rulerText := textToCheck + Continuation;
        badgeWidth := badgeW;
      }
      var rulerSpanWidth := measure(rulerText);
      assert rulerText == RulerText(items, before) && badgeWidth == CheckReserve(items, badgeW, before);
      if rulerSpanWidth > containerW - badgeWidth {
        if |popItems| > 1 {
          popItems := popItems[..|popItems| - 1];
          badgeCounter := badgeCounter + 1;
        }
      }
      assert popItems == Step(items, containerW, badgeW, measure, before);
      index := index + 1;
    }
  }

  /** Past the short-circuit, the plan keeps what `|items|` passes leave of the items. */
  lemma PlannedPastShortCircuit(items: seq<string>, containerW: int, badgeW: nat, minWidthProp: Option<int>,
                                onlyBadge: bool, measure: string -> nat)
    requires items != []
    requires !BadgeOnly(items, containerW, badgeW, minWidthProp, onlyBadge, measure)
    ensures var v := Evict(items, containerW, badgeW, measure, items, |items|);
            Planned(items, containerW, badgeW, minWidthProp, onlyBadge, measure) == FitResult(v, |items| - |v|)
  {
  }

  /** A candidate list the loop leaves alone stays as it is for any number of passes. */
  lemma {:induction false} EvictStable(items: seq<string>, containerW: int, badgeW: nat, measure: string -> nat,
                                       pop: seq<string>, k: nat)
    requires items != [] && pop != []
    requires Step(items, containerW, badgeW, measure, pop) == pop
    ensures Evict(items, containerW, badgeW, measure, pop, k) == pop
  {
    if k > 0 {
      EvictStable(items, containerW, badgeW, measure, pop, k - 1);
      assert Evict(items, containerW, badgeW, measure, pop, k)
             == Evict(items, containerW, badgeW, measure, pop, k - 1);
    }
  }

  /** The candidate list only shrinks from one pass to the next. */
  lemma {:induction false} EvictShrinks(items: seq<string>, containerW: int, badgeW: nat, measure: string -> nat,
                                        pop: seq<string>, j: nat, k: nat)
    requires items != [] && pop != []
    requires j <= k
    ensures |Evict(items, containerW, badgeW, measure, pop, k)| <= |Evict(items, containerW, badgeW, measure, pop, j)|
    decreases j
  {
    if j > 0 {
      var next := Step(items, containerW, badgeW, measure, pop);
      EvictShrinks(items, containerW, badgeW, measure, next, j - 1, k - 1);
    }
  }

  /** With `onlyBadge` nothing is visible and every item is counted, whatever the width. */
  lemma OnlyBadgeHidesAll(items: seq<string>, containerW: int, badgeW: nat, minWidthProp: Option<int>,
                          measure: string -> nat)
    ensures Planned(items, containerW, badgeW, minWidthProp, true, measure) == FitResult([], |items|)
  {
  }

  /** An empty list hides nothing. */
  lemma EmptyHidesNothing(containerW: int, badgeW: nat, minWidthProp: Option<int>, onlyBadge: bool,
                          measure: string -> nat)
    ensures Planned([], containerW, badgeW, minWidthProp, onlyBadge, measure) == FitResult([], 0)
  {
  }

  /** Every item is hidden exactly when the badge-only short-circuit is taken: past it, at least one item stays. */
  lemma AllHiddenIffBadgeOnly(items: seq<string>, containerW: int, badgeW: nat, minWidthProp: Option<int>,
                              onlyBadge: bool, measure: string -> nat)
    requires items != []
    ensures var r := Planned(items, containerW, badgeW, minWidthProp, onlyBadge, measure);
            (r.visible == [] <==> BadgeOnly(items, containerW, badgeW, minWidthProp, onlyBadge, measure)) &&
            (!BadgeOnly(items, containerW, badgeW, minWidthProp, onlyBadge, measure) ==> r.hiddenCount <= |items| - 1)
  {
  }

  /**
   * A single item is either shown whole or, when the container is narrower
   * than the minimum width (no badge width reserved) or `onlyBadge` is set,
   * replaced by a badge counting 1.
   */
  lemma SingleItem(item: string, containerW: int, badgeW: nat, minWidthProp: Option<int>, onlyBadge: bool,
                   measure: string -> nat)
    ensures var r := Planned([item], containerW, badgeW, minWidthProp, onlyBadge, measure);
            if onlyBadge || containerW < MinWidth(minWidthProp, [item], measure)
            then r == FitResult([], 1)
            else r == FitResult([item], 0)
  {
    if !(onlyBadge || containerW < MinWidth(minWidthProp, [item], measure)) {
      var v := Evict([item], containerW, badgeW, measure, [item], 1);
      assert v == [item][..|v|];
    }
  }

  /**
   * Past the short-circuit, a list of several items is shown whole exactly
   * when its full join fits the container's width.
   */
  lemma FullFit(items: seq<string>, containerW: int, badgeW: nat, minWidthProp: Option<int>, onlyBadge: bool,
                measure: string -> nat)
    requires |items| > 1
    requires !BadgeOnly(items, containerW, badgeW, minWidthProp, onlyBadge, measure)
    ensures Planned(items, containerW, badgeW, minWidthProp, onlyBadge, measure).hiddenCount == 0
            <==> measure(Join(items, Separator)) <= containerW
  {
    var n := |items|;
    PlannedPastShortCircuit(items, containerW, badgeW, minWidthProp, onlyBadge, measure);
    var first := Step(items, containerW, badgeW, measure, items);
    assert Evict(items, containerW, badgeW, measure, items, n) == Evict(items, containerW, badgeW, measure, first, n - 1);
    if measure(Join(items, Separator)) <= containerW {
      assert first == items;
      EvictStable(items, containerW, badgeW, measure, items, n - 1);
    } else {
      assert first == items[..n - 1];
    }
  }

  /** Effective minimum width: a truthy `minWidth` makes the sample's measurement irrelevant. */
  lemma MinWidthOverride(items: seq<string>, m: int, measure: string -> nat, other: string -> nat)
    requires m != 0
    ensures MinWidth(Some(m), items, measure) == MinWidth(Some(m), items, other) == m
  {
  }

  /**
   * Otherwise the threshold is the measured sample: the first item's first
   * three characters and "..." for one item, its first two and ", ..." for
   * several, and no threshold for an empty list.
   */
  lemma MinWidthDefault(items: seq<string>, minWidthProp: Option<int>, measure: string -> nat)
    requires minWidthProp == None || minWidthProp == Some(0)
    ensures items == [] ==> MinWidth(minWidthProp, items, measure) == 0
    ensures items != [] ==>
              var keep := if |items| == 1 then 3 else 2;
              var marker := if |items| == 1 then "..." else ", ...";
              exists k :: 0 <= k <= keep && k <= |items[0]| && (k < keep ==> k == |items[0]|) &&
                          MinWidth(minWidthProp, items, measure) == measure(items[0][..k] + marker)
  {
    if items != [] {
      var keep := if |items| == 1 then 3 else 2;
      var k := |Take(items[0], keep)|;
      assert Take(items[0], keep) == items[0][..k];
    }
  }
}
