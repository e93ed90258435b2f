/**
 * What the DynamicBadge component renders from the planner's result: the
 * text of the ellipsis element, and the badge with its count and its title
 * (the whole list, shown on hover).
 */
module BadgeView {
  import opened Wrappers
  import opened Text
  import opened FitPlanner

  /** State stored by the layout pass: the badge counter and the joined visible items. */
  datatype LayoutState = LayoutState(badgeCounter: nat, itemsToDisplay: string)

  /** The badge element: the number it shows and its title. */
  datatype Badge = Badge(count: nat, title: string)

  /** The rendered tree: the text element (absent when only the badge shows) and the badge, if any. */
  datatype View = View(text: Option<string>, badge: Option<Badge>)

  /** Marker after truncated text. */
  const Ellipsis := ", ..."

  /** The layout pass stores the counter and the visible items joined by ", ". */
  function Settle(r: FitResult): (s: LayoutState)
    ensures s.badgeCounter == r.hiddenCount
    ensures s.itemsToDisplay == "" <==> r.visible == [] || r.visible == [""]
  {
    JoinEmpty(r.visible, Separator);
    LayoutState(r.hiddenCount, Join(r.visible, Separator))
  }

  /**
   * With a positive counter: the text (left out with `onlyBadge`) followed by
   * the ellipsis marker unless empty, and a badge titled with the whole list.
   * With a zero counter: the text alone.
   */
  function Render(state: LayoutState, onlyBadge: bool, items: seq<string>): (v: View)
    ensures v.badge.Some? <==> state.badgeCounter > 0
    ensures v.badge.Some? ==> v.badge.value == Badge(state.badgeCounter, Join(items, Separator))
    ensures v.text == None <==> state.badgeCounter > 0 && onlyBadge
    ensures state.badgeCounter == 0 ==> v.text == Some(state.itemsToDisplay)
  {
    if state.badgeCounter > 0 then
      View(if onlyBadge then None
           else Some(if state.itemsToDisplay == "" then "" else state.itemsToDisplay + Ellipsis),
           Some(Badge(state.badgeCounter, Join(items, Separator))))
    else
      View(Some(state.itemsToDisplay), None)
  }

  /** The view the component settles on for these inputs. */
  function Display(items: seq<string>, containerW: int, badgeW: nat, minWidthProp: Option<int>,
                   onlyBadge: bool, measure: string -> nat): (v: View)
    ensures v.badge.Some? ==> 0 < v.badge.value.count <= |items| && v.badge.value.title == Join(items, Separator)
    ensures v.text == None ==> onlyBadge && items != []
    ensures v.badge == None ==> v.text == Some(Join(items, Separator))
  {
    Render(Settle(Planned(items, containerW, badgeW, minWidthProp, onlyBadge, measure)), onlyBadge, items)
  }

  /**
   * A badge appears exactly when something is hidden; it shows the hidden count
   * and the whole list as title. With no badge the whole list is the text.
   */
  lemma BadgeIffHidden(items: seq<string>, containerW: int, badgeW: nat, minWidthProp: Option<int>,
                       onlyBadge: bool, measure: string -> nat)
    ensures var r := Planned(items, containerW, badgeW, minWidthProp, onlyBadge, measure);
            var v := Display(items, containerW, badgeW, minWidthProp, onlyBadge, measure);
            (v.badge == None <==> r.hiddenCount == 0) &&
            (r.hiddenCount > 0 ==> v.badge == Some(Badge(r.hiddenCount, Join(items, Separator)))) &&
            (r.hiddenCount == 0 ==> v.text == Some(Join(items, Separator)))
  {
  }

  /** With `onlyBadge` and some items, no text element is rendered and the badge counts every item. */
  lemma OnlyBadgeView(items: seq<string>, containerW: int, badgeW: nat, minWidthProp: Option<int>,
                      measure: string -> nat)
    requires items != []
    ensures Display(items, containerW, badgeW, minWidthProp, true, measure)
            == View(None, Some(Badge(|items|, Join(items, Separator))))
  {
  }

  /** An empty list renders an empty text and no badge. */
  lemma EmptyView(containerW: int, badgeW: nat, minWidthProp: Option<int>, onlyBadge: bool,
                  measure: string -> nat)
    ensures Display([], containerW, badgeW, minWidthProp, onlyBadge, measure) == View(Some(""), None)
  {
  }

  /** Too narrow for the minimum width: empty text beside a badge counting every item. */
  lemma TooNarrowView(items: seq<string>, containerW: int, badgeW: nat, minWidthProp: Option<int>,
                      measure: string -> nat)
    requires items != []
    requires containerW - BadgeReserve(items, badgeW) < MinWidth(minWidthProp, items, measure)
    ensures Display(items, containerW, badgeW, minWidthProp, false, measure)
            == View(Some(""), Some(Badge(|items|, Join(items, Separator))))
  {
  }

  /**
   * When the eviction pass hid some items, the text shown is the start of the
   * badge's title: the visible items' join followed by ", ...", where the title
   * continues with ", " and the hidden items. It is empty only when the one
   * item left is the empty string.
   */
  lemma TruncatedTextStartsTitle(items: seq<string>, containerW: int, badgeW: nat, minWidthProp: Option<int>,
                                 measure: string -> nat)
    requires !BadgeOnly(items, containerW, badgeW, minWidthProp, false, measure)
    requires Planned(items, containerW, badgeW, minWidthProp, false, measure).hiddenCount > 0
    ensures var r := Planned(items, containerW, badgeW, minWidthProp, false, measure);
            var v := Display(items, containerW, badgeW, minWidthProp, false, measure);
            var shown := Join(r.visible, Separator);
            Join(items, Separator) == shown + Separator + Join(items[|r.visible|..], Separator) &&
            (v.text == Some("") <==> r.visible == [""]) &&
            (r.visible != [""] ==> v.text == Some(shown + Ellipsis))
  {
    var r := Planned(items, containerW, badgeW, minWidthProp, false, measure);
    var k := |r.visible|;
    assert items == r.visible + items[k..];
    JoinAppend(r.visible, items[k..], Separator);
    JoinEmpty(r.visible, Separator);
  }
}
