# DynamicBadge overflow-fit planner in Dafny

This project models the core of the React `DynamicBadge` component: the layout pass
that decides how many trailing items of a horizontal, comma-separated list must be
hidden behind a "+N" badge, and the render expression that turns that decision into
the displayed text, the badge count and the badge's title.

- `text.dfy` (module `Text`): `Array.prototype.join` and `substring(0, k)` as functions, with lemmas about joins.
- `planner.dfy` (module `FitPlanner`): the planner. `Planned` specifies it as functions
  (`MinWidth`, `BadgeOnly`, one loop pass `Step`, `k` passes `Evict`); the method `Plan`
  is the layout pass itself, whose `forEach` loop over the items (the method `EvictPass`)
  pops the tail of a mutable candidate list and counts each pop; both are proved equal
  to their specification functions.
- `view.dfy` (module `BadgeView`): the stored layout state and the render expression.
- `scenarios.dfy` (module `Scenarios`): the component's test cases restated as lemmas.
- `wrappers.dfy` (module `Wrappers`): `Option`, for the optional `minWidth` prop.

Text measurement is the parameter `measure: string -> nat` (the ruler element's
`offsetWidth`), the badge's measured width is the parameter `badgeW`, and the
container's content width is the integer `containerW`.

Behaviour of the code worth noting:
- `minWidth` is chosen by JavaScript truthiness: a `minWidth` of 0 falls back to the measured default, like an absent one.
- A single item still goes through the eviction loop; the `popItems.length > 1` guard keeps it from ever being popped.
- "Is the candidate's tail the last item" compares strings by value, so with duplicate strings an earlier copy of the last item counts as the last item.
- With `onlyBadge` and an empty list the counter is 0, so the text element is rendered (empty) rather than omitted.

## Model

| member | source | states |
|---|---|---|
| `Text.Join` | src/DynamicBadge.js:218 | `join` of no items is "" and of one item is that item |
| `Text.JoinEnds` | src/DynamicBadge.js:182 | a join of a non-empty list starts with its first item and ends with its last |
| `Text.JoinUniformLength` | src/DynamicBadge.js:182 | items all `w` long join to `w` per item plus one separator between neighbours |
| `Text.Take` | src/DynamicBadge.js:146 | `substring(0, k)` yields the first `k` characters (code points here, see Left out), or the whole string when it is shorter |
| `Text.JoinAppend` | src/DynamicBadge.js:218 | joining a list split in two non-empty parts is the two joins with one separator between them |
| `Text.JoinEmpty` | src/DynamicBadge.js:232 | with a non-empty separator, the join is "" exactly for no items or a single empty item |
| `FitPlanner.MinWidthSample` | src/DynamicBadge.js:146 | the ruler sample is the first item's first 3 characters + "..." for one item, its first 2 + ", ..." for several; fewer only when the item is shorter |
| `FitPlanner.DefaultMinWidth` | src/DynamicBadge.js:140-149 | the default minimum width is 0 for no items, else the measured width of the sample |
| `FitPlanner.MinWidth` | src/DynamicBadge.js:152 | a truthy (non-zero) `minWidth` prop is the threshold; an absent or zero one falls back to the default |
| `FitPlanner.BadgeReserve` | src/DynamicBadge.js:157 | no badge width is reserved for a single item, the full badge width otherwise |
| `FitPlanner.BadgeOnly` | src/DynamicBadge.js:160 | `onlyBadge` always takes the short-circuit; when the container minus the whole badge width meets the minimum width, only `onlyBadge` takes it |
| `FitPlanner.Step` | src/DynamicBadge.js:178-211 | one loop pass (ruler text and badge reserve from lines 179-196) leaves a non-empty prefix of the candidate list and removes at most its tail item |
| `FitPlanner.Evict` | src/DynamicBadge.js:176-213 | after `k` passes the candidate list is a non-empty prefix of the start list, at most `k` items shorter |
| `FitPlanner.Planned` | src/DynamicBadge.js:135-218 | conservation: visible plus hidden is the item count; the visible items are a prefix of the items; nothing hidden iff all visible |
| `FitPlanner.PlannedPastShortCircuit` | src/DynamicBadge.js:160-215 | past the short-circuit, the plan keeps what the `|items|` loop passes leave and counts the rest |
| `FitPlanner.EvictPass` | src/DynamicBadge.js:171-213 | the `forEach` loop returns exactly what `|items|` passes of `Step` leave of the items, and counts every pop |
| `FitPlanner.Plan` | src/DynamicBadge.js:131-223 | the layout pass returns exactly `Planned`'s result; every pop is counted (conservation); what stays is a prefix; `onlyBadge` hides all |
| `FitPlanner.EvictStable` | src/DynamicBadge.js:176-213 | a candidate list one pass leaves alone survives every later pass unchanged |
| `FitPlanner.EvictShrinks` | src/DynamicBadge.js:205-210 | the candidate list never grows from one pass to the next |
| `FitPlanner.OnlyBadgeHidesAll` | src/DynamicBadge.js:160-166 | with `onlyBadge`, no item is visible and all are counted, whatever the widths |
| `FitPlanner.EmptyHidesNothing` | src/DynamicBadge.js:140-171 | an empty list gives no visible items and a counter of 0 |
| `FitPlanner.AllHiddenIffBadgeOnly` | src/DynamicBadge.js:160-213 | for a non-empty list, all items are hidden iff the badge-only short-circuit is taken; otherwise at most `n - 1` are hidden |
| `FitPlanner.SingleItem` | src/DynamicBadge.js:157-166 | one item is shown whole, or replaced by a badge of 1 exactly when `onlyBadge` or the container is narrower than the minimum width (no badge width reserved) |
| `FitPlanner.FullFit` | src/DynamicBadge.js:176-202 | past the short-circuit, several items are all shown iff the measured full join fits the container width |
| `FitPlanner.MinWidthOverride` | src/DynamicBadge.js:152 | a non-zero `minWidth` prop is the threshold, whatever the sample measures |
| `FitPlanner.MinWidthDefault` | src/DynamicBadge.js:140-152 | without a truthy `minWidth`, the threshold is 0 for no items, else the measured width of the first item's first 3 characters (code points here, see Left out) + "..." (one item) or first 2 + ", ..." (several) |
| `BadgeView.Settle` | src/DynamicBadge.js:218-223 | the stored counter is the hidden count; the stored text is empty iff no item or one empty item stays |
| `BadgeView.Render` | src/DynamicBadge.js:230-236 | a badge iff the counter is positive, showing the counter and the whole joined list as title; the text element is omitted iff there is a badge and `onlyBadge`; with no badge the stored text is shown |
| `BadgeView.Display` | src/DynamicBadge.js:227-239 | a badge counts between 1 and all the items and is titled with the whole join; no text element only with `onlyBadge` and some items; with no badge the text is the whole join |
| `BadgeView.BadgeIffHidden` | src/DynamicBadge.js:230-236 | a badge is rendered iff items are hidden; it shows the hidden count and the whole joined list as title; with no badge the whole joined list is the text |
| `BadgeView.OnlyBadgeView` | src/DynamicBadge.js:230-233 | with `onlyBadge`, a non-empty list renders no text element and a badge counting every item |
| `BadgeView.EmptyView` | src/DynamicBadge.js:230-236 | an empty list renders empty text and no badge |
| `BadgeView.TooNarrowView` | src/DynamicBadge.js:160-166 | a container narrower than the minimum width renders empty text beside a badge counting every item |
| `BadgeView.TruncatedTextStartsTitle` | src/DynamicBadge.js:232-233 | after evictions the shown text is the visible join plus ", ...", and the title is that join, ", ", then the hidden items' join |
| `Scenarios.UniformStep` | src/test/__test__/DynamicBadge.test.js:62-110 | with 100-pixel items in a `100 * i` container, a pass evicts exactly while more than `i` items remain |
| `Scenarios.UniformEvict` | src/test/__test__/DynamicBadge.test.js:62-110 | after `k` such passes `max(m - k, i)` items remain (all `m` if `m <= i`) |
| `Scenarios.UniformPlan` | src/test/__test__/DynamicBadge.test.js:62-110 | with minimum width 10 and badge width 0, a `100 * i` container hides `n - i` items |
| `Scenarios.UniformDisplay` | src/test/__test__/DynamicBadge.test.js:62-110 | `n` six-character items in a `100 * i` container render a badge of `n - i` for `i < n`, and no badge with the full text at `i = n` |
| `Scenarios.TenItemsWidths` | src/test/__test__/DynamicBadge.test.js:9-13 | the suite's ten items "Item 0" to "Item 9" are six characters each, so `UniformDisplay` with `n = 10` is the resize series (a badge of `10 - i`, none at `i = 10`) |
| `Scenarios.SingleItemScenarios` | src/test/__test__/DynamicBadge.test.js:113-166 | "Item 1" in a 400-pixel container is shown whole; in a 0-pixel one with minimum width 10 it is a badge of 1 |
| `Scenarios.OnlyBadgeScenario` | src/test/__test__/DynamicBadge.test.js:168-194 | with `onlyBadge`, the ten items render only a badge of 10 |

## Left out

- The resize subscription and its `setTimeout` debounce (src/DynamicBadge.js:59-97): asynchronous browser plumbing that only coalesces events; the model is one layout pass for given inputs.
- Creating and looking up the ruler elements and reading `offsetWidth` (src/DynamicBadge.js:101-128): measurement is the parameter `measure`, the badge ruler's width the parameter `badgeW`.
- `getComputedStyle`, font size and the floating-point padding arithmetic (src/DynamicBadge.js:39-57): the container's content width is an integer input, so fractional widths are not modelled.
- The `testRulerSpanWidth` override (src/DynamicBadge.js:199), whose width depends on the loop index and uses fractional division: the resize series of the tests is reproduced with `ItemRuler`, a text ruler giving 100 pixels per six-character item; it agrees with the override at every pass up to the first one that evicts nothing, after which neither evicts.
- React state, hooks, dependency lists and re-rendering: the view is rendered from the state the layout pass settles on, not from a stale state of an earlier pass.
- The badge's CSS class (`badgeClass`, src/DynamicBadge.js:121-125, 233) and the custom-class test: a class name only, it affects the planner through the measured badge width.
- An absent `items` prop is the empty list (src/DynamicBadge.js:135-136); the title expression of line 233 is then never reached in a settled render, since the counter is 0.
- Text.Take: `substring` counts UTF-16 code units while a Dafny string counts Unicode code points, so for an item starting with characters outside the Basic Multilingual Plane the model's prefix is longer than JavaScript's (which may also split a surrogate pair).
- FitPlanner.MinWidthSample: built with `Take`, so it shares that difference in what counts as a character.
- FitPlanner.MinWidthDefault: the default threshold is the measured width of that sample, so with such an item it can differ from the component's.
- Monotonicity of the hidden count in the container width, and optimality of the eviction, are not stated: the single forward pass does not promise either for an arbitrary measure.
