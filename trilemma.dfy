/** The selection state machine of the Trilemma widget: a four-flag record,
    the click handler that replaces it, and the values the widget derives
    from it on every render (the explanation text, the four label
    highlights and the four circle fills). */
module Trilemma {

  datatype Option<T> = None | Some(value: T)

  /** The widget's state record, one flag per circle, as the source holds it. */
  datatype SelectionState = SelectionState(
    isDecentralizedAndSecure: bool,
    isDecentralizedAndScalable: bool,
    isScalableAndSecure: bool,
    isEth2: bool)

  /** The four circles of the triangle: three pairwise trade-offs and Eth2. */
  datatype Theme = DecentralizedAndSecure | DecentralizedAndScalable | ScalableAndSecure | Eth2

  /** The three corner labels of the triangle. */
  datatype Corner = Decentralization | Security | Scalability

  /** Everything one render shows that depends on the state. */
  datatype View = View(
    cardText: string,
    decentralizationLabel: bool,
    securityLabel: bool,
    scalabilityLabel: bool,
    eth2Label: bool,
    decentralizedAndSecureCircle: bool,
    eth2Circle: bool,
    scalableAndSecureCircle: bool,
    decentralizedAndScalableCircle: bool)

  // ---------------------------------------------------------------------
  // State, selections and the transition

  /** The value the widget mounts with: only the Eth2 flag set. */
  const Initial := SelectionState(false, false, false, true)

  /** The flag of the state record that belongs to circle `t`. */
  function Flag(s: SelectionState, t: Theme): bool
  {
    match t
    case DecentralizedAndSecure => s.isDecentralizedAndSecure
    case DecentralizedAndScalable => s.isDecentralizedAndScalable
    case ScalableAndSecure => s.isScalableAndSecure
    case Eth2 => s.isEth2
  }

  /** The number of flags that are set. */
  function SetCount(s: SelectionState): (n: nat)
    ensures n <= 4
  {
    (if s.isDecentralizedAndSecure then 1 else 0) +
    (if s.isDecentralizedAndScalable then 1 else 0) +
    (if s.isScalableAndSecure then 1 else 0) +
    (if s.isEth2 then 1 else 0)
  }

  /** The invariant of every reachable state: exactly one flag is set. */
  predicate ExactlyOne(s: SelectionState)
  {
    SetCount(s) == 1
  }

  /** The circle whose flag is set, in a state with exactly one. */
  function SelectedTheme(s: SelectionState): (t: Theme)
    requires ExactlyOne(s)
    ensures Flag(s, t)
    ensures forall u :: u != t ==> !Flag(s, u)
  {
    if s.isDecentralizedAndSecure then DecentralizedAndSecure
    else if s.isDecentralizedAndScalable then DecentralizedAndScalable
    else if s.isScalableAndSecure then ScalableAndSecure
    else Eth2
  }

  /** The record each branch of the click handler writes: only `t`'s flag set. */
  function Only(t: Theme): (s: SelectionState)
    ensures ExactlyOne(s)
    ensures forall u :: Flag(s, u) <==> u == t
  {
    SelectionState(
      t == DecentralizedAndSecure,
      t == DecentralizedAndScalable,
      t == ScalableAndSecure,
      t == Eth2)
  }

  /** The selection string each circle passes to the click handler. */
  function SelectionName(t: Theme): string
  {
    match t
    case DecentralizedAndSecure => "isDecentralizedAndSecure"
    case DecentralizedAndScalable => "isDecentralizedAndScalable"
    case ScalableAndSecure => "isScalableAndSecure"
    case Eth2 => "isEth2"
  }

  /** Which circle, if any, a selection string names. */
  function ParseSelection(selection: string): (r: Option<Theme>)
    ensures r.Some? ==> selection == SelectionName(r.value)
    ensures r.None? ==> forall t :: selection != SelectionName(t)
  {
    if selection == "isDecentralizedAndSecure" then Some(DecentralizedAndSecure)
    else if selection == "isEth2" then Some(Eth2)
    else if selection == "isDecentralizedAndScalable" then Some(DecentralizedAndScalable)
    else if selection == "isScalableAndSecure" then Some(ScalableAndSecure)
    else None
  }

  predicate Recognised(selection: string)
  {
    ParseSelection(selection).Some?
  }

  /** The state after one click: a recognised selection replaces the whole
      record, any other string leaves it as it was. */
  function Step(s: SelectionState, selection: string): (r: SelectionState)
    ensures Recognised(selection) ==> ExactlyOne(r) && SelectedTheme(r) == ParseSelection(selection).value
    ensures !Recognised(selection) ==> r == s
    ensures ExactlyOne(s) ==> ExactlyOne(r)
  {
    match ParseSelection(selection)
    case Some(t) => Only(t)
    case None => s
  }

  /** The state after a sequence of clicks, the first one applied first. */
  function Run(s: SelectionState, clicks: seq<string>): SelectionState
    decreases |clicks|
  {
    if clicks == [] then s else Run(Step(s, clicks[0]), clicks[1..])
  }

  /** The strings the four circles pass are pairwise distinct, and the
      handler recognises each as its own circle and nothing else. */
  lemma SelectionNameRoundTrip(t: Theme, selection: string)
    ensures ParseSelection(SelectionName(t)) == Some(t)
    ensures ParseSelection(selection) == Some(t) ==> selection == SelectionName(t)
  {
  }

  /** The widget mounts with only the Eth2 flag set. */
  lemma InitialIsEth2()
    ensures Initial == Only(Eth2)
    ensures ExactlyOne(Initial) && SelectedTheme(Initial) == Eth2
  {
  }

  /** A recognised click sets exactly its own flag and clears the other three. */
  lemma ClickSelects(s: SelectionState, t: Theme)
    ensures Step(s, SelectionName(t)) == Only(t)
    ensures forall u :: Flag(Step(s, SelectionName(t)), u) <==> u == t
  {
    SelectionNameRoundTrip(t, SelectionName(t));
  }

  /** Clicks overwrite rather than accumulate: after a recognised click the
      previous click does not matter, and repeating a click changes nothing. */
  lemma ClickOverwrites(s: SelectionState, first: string, second: string)
    ensures Recognised(second) ==> Step(Step(s, first), second) == Step(s, second)
    ensures Step(Step(s, first), first) == Step(s, first)
  {
  }

  /** Exactly one flag is set in every state reachable by clicks from a
      state where that already holds. */
  lemma {:induction false} RunKeepsExactlyOne(s: SelectionState, clicks: seq<string>)
    requires ExactlyOne(s)
    ensures ExactlyOne(Run(s, clicks))
    decreases |clicks|
  {
    if clicks != [] {
      RunKeepsExactlyOne(Step(s, clicks[0]), clicks[1..]);
    }
  }

  /** Exactly one flag is set in every reachable state. */
  lemma ReachableExactlyOne(clicks: seq<string>)
    ensures ExactlyOne(Run(Initial, clicks))
  {
    RunKeepsExactlyOne(Initial, clicks);
  }

  /** Conversely, every state with exactly one flag set is reachable, by
      one click on its circle: the reachable states are exactly four. */
  lemma ExactlyOneReachable(s: SelectionState)
    requires ExactlyOne(s)
    ensures Run(Initial, [SelectionName(SelectedTheme(s))]) == s
  {
    var t := SelectedTheme(s);
    ClickSelects(Initial, t);
    assert [SelectionName(t)][1..] == [];
  }

  /** Running two click sequences one after the other. */
  lemma {:induction false} RunAppend(s: SelectionState, a: seq<string>, b: seq<string>)
    ensures Run(s, a + b) == Run(Run(s, a), b)
    decreases |a|
  {
    if a != [] {
      assert (a + b)[0] == a[0];
      assert (a + b)[1..] == a[1..] + b;
      RunAppend(Step(s, a[0]), a[1..], b);
    } else {
      assert a + b == b;
    }
  }

  /** Clicks the handler does not recognise leave the state as it was. */
  lemma {:induction false} RunIgnoresUnrecognised(s: SelectionState, clicks: seq<string>)
    requires forall i :: 0 <= i < |clicks| ==> !Recognised(clicks[i])
    ensures Run(s, clicks) == s
    decreases |clicks|
  {
    if clicks != [] {
      RunIgnoresUnrecognised(s, clicks[1..]);
    }
  }

  /** The state after any click sequence is the record of the last circle
      clicked; the clicks before it and the unrecognised strings after it
      do not matter. */
  lemma LastClickDecides(s: SelectionState, before: seq<string>, t: Theme, after: seq<string>)
    requires forall i :: 0 <= i < |after| ==> !Recognised(after[i])
    ensures Run(s, before + [SelectionName(t)] + after) == Only(t)
  {
    RunAppend(s, before + [SelectionName(t)], after);
    RunAppend(s, before, [SelectionName(t)]);
    RunIgnoresUnrecognised(Run(s, before + [SelectionName(t)]), after);
    ClickSelects(Run(s, before), t);
    assert [SelectionName(t)][1..] == [];
  }

  /** A click sequence holding a recognised selection forgets the state it
      started from. */
  lemma {:induction false} RunForgetsHistory(s1: SelectionState, s2: SelectionState, clicks: seq<string>, i: nat)
    requires i < |clicks| && Recognised(clicks[i])
    ensures Run(s1, clicks) == Run(s2, clicks)
    decreases |clicks|
  {
    if i == 0 {
      assert Step(s1, clicks[0]) == Step(s2, clicks[0]);
    } else {
      RunForgetsHistory(Step(s1, clicks[0]), Step(s2, clicks[0]), clicks[1..], i - 1);
    }
  }

  // ---------------------------------------------------------------------
  // The explanation card

  const DecentralizedAndSecureText := "Secure and decentralized blockchain networks require every node to verify every transaction processed by the chain. This amount of work limits the number of transactions that can happen at any one given time."
  const DecentralizedAndScalableText := "Dececentralized networks work by sending information about transactions across nodes – the whole network needs to know about any state change. Scaling transactions per second across a decentralized network poses security risks because the more transactions, the longer the delay, the higher the probability of attack while information is in flight."
  const ScalableAndSecureText := "Increasing the size and power of Ethereum’s nodes could increase transactions per second in a secure way, but the hardware requirement would restrict who could do it – this threatens decentralization. It's hoped that sharding and proof-of-stake will allow Ethereum to scale by increasing the amount of nodes, not node size."
  const Eth2Text := "The Eth2 upgrades will make Ethereum scalable, secure, and decentralized. The cost of running a node will be small enough to increase decentralization through greater participation. Shards will increase transaction throughput. And staking via the beacon chain Proof of Stake system will provide a more secure network for a sharded Ethereum.  "
  /** The text shown when no flag is set. */
  const FallbackPrompt := "Press the buttons on the triangle"

  /** The paragraph that explains circle `t`. */
  function Paragraph(t: Theme): string
  {
    match t
    case DecentralizedAndSecure => DecentralizedAndSecureText
    case DecentralizedAndScalable => DecentralizedAndScalableText
    case ScalableAndSecure => ScalableAndSecureText
    case Eth2 => Eth2Text
  }

  /** The card's text: the ternary chain of the render function. */
  function CardText(s: SelectionState): (r: string)
    ensures r == FallbackPrompt <==> SetCount(s) == 0
    ensures ExactlyOne(s) ==> r == Paragraph(SelectedTheme(s))
  {
    if s.isDecentralizedAndSecure then DecentralizedAndSecureText
    else if s.isDecentralizedAndScalable then DecentralizedAndScalableText
    else if s.isScalableAndSecure then ScalableAndSecureText
    else if s.isEth2 then Eth2Text
    else FallbackPrompt
  }

  /** The order in which the card tests the flags. */
  const Priority := [DecentralizedAndSecure, DecentralizedAndScalable, ScalableAndSecure, Eth2]

  /** The position of the first circle in `order` whose flag is set, or
      `|order|` when none is. */
  function FirstSetIndex(s: SelectionState, order: seq<Theme>): (i: nat)
    ensures i <= |order|
    ensures forall j :: 0 <= j < i ==> !Flag(s, order[j])
    ensures i < |order| ==> Flag(s, order[i])
    decreases |order|
  {
    if order == [] then 0
    else if Flag(s, order[0]) then 0
    else 1 + FirstSetIndex(s, order[1..])
  }

  /** The card shows the paragraph of the highest-priority flag that is set,
      and the fallback prompt only when none is. */
  lemma CardTextByPriority(s: SelectionState)
    ensures var i := FirstSetIndex(s, Priority);
      CardText(s) == if i < |Priority| then Paragraph(Priority[i]) else FallbackPrompt
  {
  }

  /** The four paragraphs are non-empty and, with the fallback prompt,
      pairwise distinct. */
  lemma ParagraphsDistinct(t: Theme, u: Theme)
    ensures |Paragraph(t)| > 0
    ensures Paragraph(t) != FallbackPrompt
    ensures t != u ==> Paragraph(t) != Paragraph(u)
  {
    assert |DecentralizedAndSecureText| == 208;
    assert |DecentralizedAndScalableText| == 348;
    assert |ScalableAndSecureText| == 323;
    assert |Eth2Text| == 342;
    assert |FallbackPrompt| == 33;
  }

  /** The fallback prompt is never shown: the widget starts with the Eth2
      paragraph and every click sequence leads to one of the four paragraphs. */
  lemma FallbackUnreachable(clicks: seq<string>)
    ensures ExactlyOne(Run(Initial, clicks))
    ensures CardText(Initial) == Eth2Text
    ensures CardText(Run(Initial, clicks)) != FallbackPrompt
    ensures CardText(Run(Initial, clicks)) == Paragraph(SelectedTheme(Run(Initial, clicks)))
  {
    ReachableExactlyOne(clicks);
  }

  // ---------------------------------------------------------------------
  // Highlights

  /** The Decentralization label's highlight. */
  function IsDecentralized(s: SelectionState): (r: bool)
    ensures ExactlyOne(s) ==> (r <==> Decentralization in Corners(SelectedTheme(s)))
  {
    s.isDecentralizedAndScalable || s.isDecentralizedAndSecure
  }

  /** The Scalability label's highlight. */
  function IsScalable(s: SelectionState): (r: bool)
    ensures ExactlyOne(s) ==> (r <==> Scalability in Corners(SelectedTheme(s)))
  {
    s.isDecentralizedAndScalable || s.isScalableAndSecure
  }

  /** The Security label's highlight. */
  function IsSecure(s: SelectionState): (r: bool)
    ensures ExactlyOne(s) ==> (r <==> Security in Corners(SelectedTheme(s)))
  {
    s.isScalableAndSecure || s.isDecentralizedAndSecure
  }

  /** The Eth2 label's highlight: set when any flag other than Eth2's is. */
  function IsEth2Label(s: SelectionState): (r: bool)
    ensures r <==> SetCount(s) > (if s.isEth2 then 1 else 0)
    ensures ExactlyOne(s) ==> (r <==> !s.isEth2)
  {
    s.isDecentralizedAndScalable || s.isDecentralizedAndSecure || s.isScalableAndSecure
  }

  /** The highlight of a corner label. */
  function CornerActive(s: SelectionState, c: Corner): bool
  {
    match c
    case Decentralization => IsDecentralized(s)
    case Security => IsSecure(s)
    case Scalability => IsScalable(s)
  }

  /** The corners each circle trades between; the Eth2 circle names none. */
  function Corners(t: Theme): set<Corner>
  {
    match t
    case DecentralizedAndSecure => {Decentralization, Security}
    case DecentralizedAndScalable => {Decentralization, Scalability}
    case ScalableAndSecure => {Scalability, Security}
    case Eth2 => {}
  }

  /** A corner label is highlighted exactly when a set flag's circle trades
      on that corner, in any state. */
  lemma CornerActiveIffSomeFlag(s: SelectionState, c: Corner)
    ensures CornerActive(s, c) <==> exists t :: Flag(s, t) && c in Corners(t)
  {
    match c
    case Decentralization =>
      if IsDecentralized(s) {
        var t := if s.isDecentralizedAndScalable then DecentralizedAndScalable else DecentralizedAndSecure;
        assert Flag(s, t) && c in Corners(t);
      }
    case Security =>
      if IsSecure(s) {
        var t := if s.isScalableAndSecure then ScalableAndSecure else DecentralizedAndSecure;
        assert Flag(s, t) && c in Corners(t);
      }
    case Scalability =>
      if IsScalable(s) {
        var t := if s.isDecentralizedAndScalable then DecentralizedAndScalable else ScalableAndSecure;
        assert Flag(s, t) && c in Corners(t);
      }
  }

  /** With one flag set, the highlighted corners are exactly the two the
      selected trade-off names, and none in the Eth2 state. */
  lemma CornersOfSelected(s: SelectionState, c: Corner)
    requires ExactlyOne(s)
    ensures CornerActive(s, c) <==> c in Corners(SelectedTheme(s))
    ensures SelectedTheme(s) == Eth2 <==> Corners(SelectedTheme(s)) == {}
    ensures SelectedTheme(s) != Eth2 ==> |Corners(SelectedTheme(s))| == 2
  {
    CornerActiveIffSomeFlag(s, c);
    var t := SelectedTheme(s);
    match t
    case DecentralizedAndSecure =>
      assert Decentralization in Corners(t);
    case DecentralizedAndScalable =>
      assert Decentralization in Corners(t);
    case ScalableAndSecure =>
      assert Scalability in Corners(t);
    case Eth2 =>
  }

  /** The Eth2 label is highlighted exactly when a trade-off is selected,
      so it is dark in the Eth2 state, while the Eth2 circle is filled
      exactly in that state. */
  lemma Eth2LabelOppositeToCircle(s: SelectionState)
    requires ExactlyOne(s)
    ensures IsEth2Label(s) <==> SelectedTheme(s) != Eth2
    ensures IsEth2Label(s) <==> !s.isEth2
    ensures ViewOf(s).eth2Circle <==> SelectedTheme(s) == Eth2
  {
  }

  // ---------------------------------------------------------------------
  // The rendered view

  /** What one render derives from the state. */
  function ViewOf(s: SelectionState): (v: View)
    ensures v.cardText == FallbackPrompt <==> SetCount(s) == 0
    ensures ExactlyOne(s) ==> v == ExpectedView(SelectedTheme(s))
  {
    View(
      CardText(s),
      IsDecentralized(s), IsSecure(s), IsScalable(s), IsEth2Label(s),
      s.isDecentralizedAndSecure, s.isEth2, s.isScalableAndSecure, s.isDecentralizedAndScalable)
  }

  /** The view of circle `t` being selected, defined from the circle alone. */
  function ExpectedView(t: Theme): View
  {
    View(
      Paragraph(t),
      Decentralization in Corners(t), Security in Corners(t), Scalability in Corners(t), t != Eth2,
      t == DecentralizedAndSecure, t == Eth2, t == ScalableAndSecure, t == DecentralizedAndScalable)
  }

  /** The render after any sequence of clicks, and the first render. */
  lemma ReachableView(clicks: seq<string>)
    ensures ExactlyOne(Run(Initial, clicks))
    ensures ViewOf(Initial) == View(Eth2Text, false, false, false, false, false, true, false, false)
    ensures ViewOf(Run(Initial, clicks)) == ExpectedView(SelectedTheme(Run(Initial, clicks)))
  {
    ReachableExactlyOne(clicks);
  }

  // ---------------------------------------------------------------------
  // The widget

  /** A mounted widget: the state it holds between renders. */
  class TrilemmaWidget {
    var state: SelectionState

    ghost predicate Valid()
      reads this
    {
      ExactlyOne(state)
    }

    /** Mounting: the state starts as the Eth2 record. */
    constructor ()
      ensures state == Initial
      ensures Valid() && SelectedTheme(state) == Eth2
    {
      state := Initial;
    }

    /** The click handler: four independent tests, each of which replaces
        the whole record when the selection matches. */
    method HandleClick(selection: string)
      requires Valid()
      modifies this
      ensures Valid()
      ensures state == Step(old(state), selection)
      ensures !Recognised(selection) ==> state == old(state)
      ensures Recognised(selection) ==> SelectedTheme(state) == ParseSelection(selection).value
    {
      if selection == "isDecentralizedAndSecure" {
        state := SelectionState(true, false, false, false);
      }
      if selection == "isEth2" {
        state := SelectionState(false, false, false, true);
      }
      if selection == "isDecentralizedAndScalable" {
        state := SelectionState(false, true, false, false);
      }
      if selection == "isScalableAndSecure" {
        state := SelectionState(false, false, true, false);
      }
    }

    /** One render: the card text and highlights derived from the state. */
    method Render() returns (v: View)
      requires Valid()
      ensures v == ExpectedView(SelectedTheme(state))
      ensures v.cardText != FallbackPrompt
    {
      v := ViewOf(state);
    }
  }
}
