/**
 * The component's test suite restated over the model. The tests mock the
 * container's width, report every measured element as 0 pixels wide, and in
 * the resize series give each item 100 pixels.
 */
module Scenarios {
  import opened Wrappers
  import opened Text
  import opened FitPlanner
  import opened BadgeView

  /** The ten items of the test suite, "Item 0" to "Item 9", built one per index as the suite does. */
  const TenItems: seq<string> := seq(10, i requires 0 <= i < 10 => "Item " + ["0123456789"[i]])

  /**
   * A ruler for six-character items joined by ", ": 100 pixels per item,
   * with or without the trailing continuation marker.
   */
  function ItemRuler(s: string): nat
  {
    100 * ((|s| + 2) / 8)
  }

  /** A ruler that reports every text as 0 pixels wide, as a layout-less document does. */
  function ZeroRuler(s: string): nat
  {
    0
  }

  /** One pass with 100-pixel items in a container `100 * i` wide: evict while more than `i` items remain. */
  lemma UniformStep(items: seq<string>, i: nat, pop: seq<string>)
    requires items != [] && pop != [] && 1 <= i
    requires forall j :: 0 <= j < |pop| ==> |pop[j]| == 6
    ensures |Step(items, 100 * i, 0, ItemRuler, pop)| == if |pop| > i then |pop| - 1 else |pop|
  {
    JoinUniformLength(pop, Separator, 6);
    var m := |pop|;
    assert ItemRuler(Join(pop, Separator)) == 100 * m;
    assert ItemRuler(Join(pop, Separator) + Continuation) == 100 * m;
  }

  /** After `k` passes from `pop`, the candidate list is down to `i` items, or `k` fewer if more remain. */
  lemma {:induction false} UniformEvict(items: seq<string>, i: nat, pop: seq<string>, k: nat)
    requires items != [] && pop != [] && 1 <= i
    requires forall j :: 0 <= j < |pop| ==> |pop[j]| == 6
    ensures |Evict(items, 100 * i, 0, ItemRuler, pop, k)|
            == if |pop| <= i then |pop| else if |pop| - k > i then |pop| - k else i
  {
    if k > 0 {
      var next := Step(items, 100 * i, 0, ItemRuler, pop);
      UniformStep(items, i, pop);
      assert forall j :: 0 <= j < |next| ==> next[j] == pop[j];
      UniformEvict(items, i, next, k - 1);
    }
  }

  /**
   * The resize series for any list of six-character items with minimum width
   * 10: a container `100 * i` wide hides all but `i` items.
   */
  lemma UniformPlan(items: seq<string>, i: nat)
    requires items != [] && i <= |items|
    requires forall j :: 0 <= j < |items| ==> |items[j]| == 6
    ensures Planned(items, 100 * i, 0, Some(10), false, ItemRuler).hiddenCount == |items| - i
  {
    if i > 0 {
      UniformEvict(items, i, items, |items|);
    }
  }

  /** What the resize series renders: a badge counting `n - i` below full width, the whole list at full width. */
  lemma UniformDisplay(items: seq<string>, n: nat, i: nat)
    requires |items| == n && 0 < n && i <= n
    requires forall j :: 0 <= j < |items| ==> |items[j]| == 6
    ensures i < n ==> Display(items, 100 * i, 0, Some(10), false, ItemRuler).badge
                      == Some(Badge(n - i, Join(items, Separator)))
    ensures i == n ==> Display(items, 100 * i, 0, Some(10), false, ItemRuler)
                       == View(Some(Join(items, Separator)), None)
  {
    UniformPlan(items, i);
    BadgeIffHidden(items, 100 * i, 0, Some(10), false, ItemRuler);
  }

  /**
   * The ten test items meet the resize series' conditions with `n == 10`:
   * each is six characters long, so `UniformDisplay` gives a badge showing
   * `10 - i` below full width and no badge at full width.
   */
  lemma TenItemsWidths()
    ensures |TenItems| == 10 && forall j :: 0 <= j < |TenItems| ==> |TenItems[j]| == 6
  {
  }

  /** A single item in a 400-pixel container is shown whole; in a 0-pixel one with minimum width 10 it becomes a badge counting 1. */
  lemma SingleItemScenarios()
    ensures Display(["Item 1"], 400, 0, None, false, ZeroRuler) == View(Some("Item 1"), None)
    ensures Display(["Item 1"], 0, 0, Some(10), false, ZeroRuler).badge == Some(Badge(1, "Item 1"))
  {
    SingleItem("Item 1", 400, 0, None, false, ZeroRuler);
    SingleItem("Item 1", 0, 0, Some(10), false, ZeroRuler);
  }

  /** With `onlyBadge` the ten items in a 400-pixel container render only a badge counting 10. */
  lemma OnlyBadgeScenario(badgeW: nat)
    ensures Display(TenItems, 400, badgeW, None, true, ZeroRuler) == View(None, Some(Badge(10, Join(TenItems, Separator))))
  {
    OnlyBadgeView(TenItems, 400, badgeW, None, ZeroRuler);
  }
}
