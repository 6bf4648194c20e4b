# Trilemma selection state machine

A model of the `Trilemma` widget of the ethereum.org website
(`src/components/Trilemma.js`): an SVG triangle whose corners are
Decentralization, Security and Scalability, with four clickable circles
(one per pair of corners, and an Eth2 circle in the middle) and an
explanation card beside it.

The widget holds one piece of state, a record of four booleans
(`isDecentralizedAndSecure`, `isDecentralizedAndScalable`,
`isScalableAndSecure`, `isEth2`), which it creates with only `isEth2` set.
A click on a circle calls the click handler with that circle's selection
string. The handler replaces the whole record by one with only the matching
flag set, and ignores any other string. On every render the widget derives
from the record the card's paragraph (a prioritised chain of tests ending in
a fallback prompt), the highlight of the three corner labels and of the
Eth2 label, and the fill of the four circles.

`trilemma.dfy` holds one module, `Trilemma`:

- `SelectionState` is the four-flag record as the source holds it.
  `Theme` names the four circles. `SelectedTheme` reads back the set flag
  of a state in which exactly one flag is set (`ExactlyOne`).
- `Step` is the click handler on values. `Run` folds it over a sequence of
  clicks. The reachable states are `Run(Initial, clicks)`.
- `TrilemmaWidget` is the mounted widget. It is a class with a mutable
  `state` field. Its `HandleClick` method keeps the source's four
  independent `if` tests and is proved to compute `Step`. `Render` derives
  the view.
- `CardText`, `IsDecentralized`, `IsScalable`, `IsSecure`, `IsEth2Label`
  and `ViewOf` are the render-time derivations. They are checked against
  definitions made from the circle alone: `Paragraph`, `Corners` and
  `ExpectedView`.

React's `setState` is modelled as a synchronous assignment to the field.

Three behaviours of the code are worth stating plainly:

- The first render shows the Eth2 paragraph. The prompt "Press the buttons
  on the triangle" is never shown, which `FallbackUnreachable` proves.
- The click on the Eth2 circle (`"isEth2"`) restores `Initial`. There is no
  other reset.
- After a trade-off circle is clicked, the Eth2 label is lit. Its flag is
  true exactly when a trade-off is selected, so it is dark only in the Eth2
  state, where the Eth2 circle is filled.

## Model

| member | source | states |
|---|---|---|
| Trilemma.InitialIsEth2 | src/components/Trilemma.js:77-82 | `Initial` has `isEth2` set and the other three flags clear, so exactly one flag is set and it is Eth2's |
| Trilemma.TrilemmaWidget.constructor | src/components/Trilemma.js:77-82 | mounting sets the state to `Initial`, which satisfies the exactly-one invariant with Eth2 selected |
| Trilemma.Only | src/components/Trilemma.js:86-115 | each record the handler writes has exactly one flag set, the one of its own circle |
| Trilemma.ParseSelection | src/components/Trilemma.js:84-117 | the four string tests recognise a selection only when it is some circle's selection string, and then name that circle |
| Trilemma.SelectionNameRoundTrip | src/components/Trilemma.js:176-231 | the string each circle passes on click is recognised by the handler as that circle, and no other string is recognised as it |
| Trilemma.Step | src/components/Trilemma.js:84-117 | a recognised selection yields a state with exactly its flag set; an unrecognised string leaves the state unchanged; exactly-one is preserved |
| Trilemma.TrilemmaWidget.HandleClick | src/components/Trilemma.js:84-117 | the four independent tests compute `Step` on the old state; the exactly-one invariant is kept; an unrecognised selection changes nothing |
| Trilemma.ClickSelects | src/components/Trilemma.js:84-116 | clicking a circle from any state sets exactly that circle's flag and clears the other three |
| Trilemma.ClickOverwrites | src/components/Trilemma.js:84-116 | a recognised click discards the previous click's effect, and clicking the same selection twice equals clicking it once |
| Trilemma.RunKeepsExactlyOne | src/components/Trilemma.js:84-116 | any sequence of clicks from an exactly-one state ends in an exactly-one state |
| Trilemma.ReachableExactlyOne | src/components/Trilemma.js:77-116 | every state reachable from `Initial` by clicks has exactly one flag set |
| Trilemma.ExactlyOneReachable | src/components/Trilemma.js:77-116 | every exactly-one state is reached by one click on its circle, so the reachable states are exactly the four single-flag records |
| Trilemma.RunAppend | src/components/Trilemma.js:84-117 | running two click sequences one after the other equals running their concatenation |
| Trilemma.RunIgnoresUnrecognised | src/components/Trilemma.js:84-117 | a sequence of strings the handler does not recognise leaves the state unchanged |
| Trilemma.LastClickDecides | src/components/Trilemma.js:84-117 | after any click sequence the state is the record of the last circle clicked, whatever came before it and whatever unrecognised strings follow |
| Trilemma.RunForgetsHistory | src/components/Trilemma.js:84-116 | a click sequence holding a recognised selection ends in the same state whatever state it started from |
| Trilemma.CardText | src/components/Trilemma.js:119-127 | the card shows the fallback prompt exactly when no flag is set, and in an exactly-one state the selected circle's paragraph |
| Trilemma.FirstSetIndex | src/components/Trilemma.js:119-127 | the position it returns is the first circle in the given order whose flag is set, or the length of the order when none is |
| Trilemma.CardTextByPriority | src/components/Trilemma.js:119-127 | the card shows the paragraph of the first set flag in the order DecentralizedAndSecure, DecentralizedAndScalable, ScalableAndSecure, Eth2, and the fallback prompt only when no flag is set |
| Trilemma.ParagraphsDistinct | src/components/Trilemma.js:119-127 | the four paragraphs are non-empty, pairwise distinct, and none equals the fallback prompt |
| Trilemma.FallbackUnreachable | src/components/Trilemma.js:77-127 | the first render shows the Eth2 paragraph, and after any click sequence the card shows the selected circle's paragraph, never the fallback prompt |
| Trilemma.IsDecentralized | src/components/Trilemma.js:129-130 | in an exactly-one state the Decentralization label is lit exactly when the selected circle trades on Decentralization |
| Trilemma.IsScalable | src/components/Trilemma.js:131-132 | in an exactly-one state the Scalability label is lit exactly when the selected circle trades on Scalability |
| Trilemma.IsSecure | src/components/Trilemma.js:133 | in an exactly-one state the Security label is lit exactly when the selected circle trades on Security |
| Trilemma.IsEth2Label | src/components/Trilemma.js:134-137 | the Eth2 label is lit exactly when some flag other than Eth2's is set; in an exactly-one state, exactly when Eth2 is not selected |
| Trilemma.CornerActiveIffSomeFlag | src/components/Trilemma.js:129-133 | in any state, a corner label is lit exactly when some set flag's circle trades on that corner |
| Trilemma.CornersOfSelected | src/components/Trilemma.js:129-133 | in an exactly-one state the lit corners are the selected circle's corners: two for a trade-off, none for Eth2 |
| Trilemma.Eth2LabelOppositeToCircle | src/components/Trilemma.js:134-207 | in an exactly-one state the Eth2 label (bound at line 160) is lit exactly when Eth2 is not selected, while the Eth2 circle (line 207) is filled exactly when it is |
| Trilemma.ViewOf | src/components/Trilemma.js:119-245 | the rendered card text is the fallback exactly when no flag is set; in an exactly-one state the whole view (card, four label highlights, four circle fills) is the selected circle's expected view |
| Trilemma.ReachableView | src/components/Trilemma.js:77-245 | the first render shows the Eth2 paragraph with no label lit and only the Eth2 circle filled; every reachable render is the selected circle's expected view |
| Trilemma.TrilemmaWidget.Render | src/components/Trilemma.js:119-245 | a render of the mounted widget is the expected view of the selected circle and never shows the fallback prompt |

## Left out

- Styling: the styled-components definitions, theme colours, media queries and SVG geometry of `src/components/Trilemma.js`. A label or circle is modelled only by its `isActive` flag.
- The `Card` component and React's rendering machinery. `setState` is a synchronous field assignment, and a render is a call to `Render`.
- `src/templates/eth2.js` is not part of this model. It is a declarative page template built on a GraphQL query, MDX rendering, the locale hook and timestamp formatting, none of which are shown. Its two conditionals only choose between externally supplied values.
