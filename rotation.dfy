/**
 * Option 99 of `menu_principal`, "next ISP": find the detected gateway in the list ordered by
 * gateway and choose the entry after it, wrapping from the last entry to the first.
 */
module Rotation {
  import opened Wrappers
  import opened Order
  import opened Gateway
  import opened Detection

  /** `(current_index + 1) % len(isps_ordenados)`. */
  function NextIndex(i: nat, n: nat): (j: nat)
    requires i < n
    ensures j < n
    ensures i + 1 < n ==> j == i + 1
    ensures i + 1 == n ==> j == 0
  {
    (i + 1) % n
  }

  /** The index reached from `i` after `k` steps. */
  function Advance(i: nat, n: nat, k: nat): (j: nat)
    requires i < n
    ensures j < n
  {
    if k == 0 then i else NextIndex(Advance(i, n, k - 1), n)
  }

  /** `k < n` steps move `k` places round the circle: to `(i + k) % n`. */
  lemma {:induction false} AdvanceFormula(i: nat, n: nat, k: nat)
    requires i < n && k < n
    ensures Advance(i, n, k) == if i + k < n then i + k else i + k - n
  {
    if k > 0 {
      AdvanceFormula(i, n, k - 1);
    }
  }

  /** The entries reached in the first `n` steps from `i`. */
  function Visited(i: nat, n: nat): set<nat>
    requires i < n
  {
    set k | 0 <= k < n :: Advance(i, n, k)
  }

  /** `n` steps from any entry reach every entry exactly once and end where they started. */
  lemma AdvanceVisitsAll(i: nat, n: nat)
    requires i < n
    ensures forall j | 0 <= j < n :: j in Visited(i, n)
    ensures forall k1, k2 | 0 <= k1 < k2 < n :: Advance(i, n, k1) != Advance(i, n, k2)
    ensures Advance(i, n, n) == i
  {
    forall j | 0 <= j < n ensures j in Visited(i, n) {
      var k := if i <= j then j - i else j + n - i;
      AdvanceFormula(i, n, k);
      assert Advance(i, n, k) == j;
    }
    forall k1, k2 | 0 <= k1 < k2 < n ensures Advance(i, n, k1) != Advance(i, n, k2) {
      AdvanceFormula(i, n, k1);
      AdvanceFormula(i, n, k2);
    }
    AdvanceFormula(i, n, n - 1);
  }

  /** The outcomes of option 99. */
  datatype Choice =
    | Undetected              // no gateway detected: nothing is chosen
    | Unordered               // a gateway with a non-numeric part: the ordering raises ValueError
    | NotListed               // the detected gateway belongs to no listed ISP
    | Chosen(index: nat, name: string, gateway: string)

  /** The choice option 99 makes for a given route listing. */
  function NextChoice(names: seq<string>, gateways: map<string, string>, listing: string): Choice
    requires Listed(names, gateways)
  {
    var gw := Detect(listing);
    if gw == "" then Undetected
    else
      match OrderedByGateway(names, gateways)
      case None => Unordered
      case Some(ordered) =>
        OrderedByGatewaySorted(names, gateways);
        ChoiceAfter(ordered, gateways, gw)
  }

  /** The entry after the first entry of `ordered` with gateway `gw`, wrapping round. */
  function ChoiceAfter(ordered: seq<string>, gateways: map<string, string>, gw: string): Choice
    requires Listed(ordered, gateways)
  {
    match FirstWithGateway(ordered, gateways, gw)
    case None => NotListed
    case Some(i) =>
      var j := NextIndex(i, |ordered|);
      Chosen(j, ordered[j], gateways[ordered[j]])
  }

  /**
   * Option 99 chooses the entry after the first entry of the ordered list whose gateway is the
   * detected one, wrapping round, and chooses nothing when there is no such entry.
   */
  lemma NextChoiceCases(names: seq<string>, gateways: map<string, string>, listing: string)
    requires Listed(names, gateways)
    requires Detect(listing) != "" && OrderedByGateway(names, gateways).Some?
    ensures var ordered := OrderedByGateway(names, gateways).value;
      var gw := Detect(listing);
      && Listed(ordered, gateways)
      && ((forall i | 0 <= i < |ordered| :: gateways[ordered[i]] != gw) <==> NextChoice(names, gateways, listing) == NotListed)
      && (forall i | 0 <= i < |ordered| && gateways[ordered[i]] == gw && (forall k | 0 <= k < i :: gateways[ordered[k]] != gw) ::
            var j := if i + 1 < |ordered| then i + 1 else 0;
            NextChoice(names, gateways, listing) == Chosen(j, ordered[j], gateways[ordered[j]]))
  {
    OrderedByGatewaySorted(names, gateways);
    ChoiceAfterCases(OrderedByGateway(names, gateways).value, gateways, Detect(listing));
  }

  /**
   * In an ordered list, the choice is `NotListed` exactly when no entry has the gateway, and
   * otherwise the entry after the first one that has it.
   */
  lemma ChoiceAfterCases(ordered: seq<string>, gateways: map<string, string>, gw: string)
    requires Listed(ordered, gateways)
    ensures (forall i | 0 <= i < |ordered| :: gateways[ordered[i]] != gw) <==> ChoiceAfter(ordered, gateways, gw) == NotListed
    ensures forall i | 0 <= i < |ordered| && gateways[ordered[i]] == gw && (forall k | 0 <= k < i :: gateways[ordered[k]] != gw) ::
      var j := if i + 1 < |ordered| then i + 1 else 0;
      ChoiceAfter(ordered, gateways, gw) == Chosen(j, ordered[j], gateways[ordered[j]])
  {
  }

  /** The entry option 99 moves to from entry `i` of `list`, once entry `i`'s gateway is in use. */
  function Step(list: seq<string>, gateways: map<string, string>, i: nat): (j: nat)
    requires Listed(list, gateways) && i < |list|
    ensures j < |list|
  {
    var f := FirstWithGateway(list, gateways, gateways[list[i]]);
    assert f.Some?;
    NextIndex(f.value, |list|)
  }

  /** Once entry `i`'s gateway is the one detected, option 99 chooses the entry `Step` names. */
  lemma StepIsChoice(list: seq<string>, gateways: map<string, string>, i: nat)
    requires Listed(list, gateways) && i < |list|
    ensures var j := Step(list, gateways, i);
      ChoiceAfter(list, gateways, gateways[list[i]]) == Chosen(j, list[j], gateways[list[j]])
  {
  }

  /** `k` successive uses of option 99, each applying the gateway it chose. */
  function Steps(list: seq<string>, gateways: map<string, string>, i: nat, k: nat): (j: nat)
    requires Listed(list, gateways) && i < |list|
    ensures j < |list|
  {
    if k == 0 then i else Step(list, gateways, Steps(list, gateways, i, k - 1))
  }

  /** With distinct gateways, each use of option 99 moves exactly one place on. */
  lemma StepDistinct(list: seq<string>, gateways: map<string, string>, i: nat)
    requires Listed(list, gateways) && i < |list|
    requires Distinct(GatewayList(list, gateways))
    ensures Step(list, gateways, i) == NextIndex(i, |list|)
  {
    var gws := GatewayList(list, gateways);
    var f := FirstWithGateway(list, gateways, gateways[list[i]]).value;
    assert gws[f] == gateways[list[f]] && gws[i] == gateways[list[i]];
  }

  /**
   * With distinct gateways, `n` successive uses of option 99 from any ISP of an `n`-entry list
   * choose every ISP exactly once.
   */
  lemma {:induction false} StepsDistinct(list: seq<string>, gateways: map<string, string>, i: nat, k: nat)
    requires Listed(list, gateways) && i < |list|
    requires Distinct(GatewayList(list, gateways))
    ensures Steps(list, gateways, i, k) == Advance(i, |list|, k)
  {
    if k > 0 {
      StepsDistinct(list, gateways, i, k - 1);
      StepDistinct(list, gateways, Steps(list, gateways, i, k - 1));
    }
  }

  /**
   * When two adjacent entries share a gateway and the first of them is the first entry with it,
   * option 99 moves from the first to the second and then stays there.
   */
  lemma SharedGatewayStalls(list: seq<string>, gateways: map<string, string>, i: nat)
    requires Listed(list, gateways) && i + 1 < |list|
    requires gateways[list[i + 1]] == gateways[list[i]]
    requires forall k | 0 <= k < i :: gateways[list[k]] != gateways[list[i]]
    ensures Step(list, gateways, i) == i + 1
    ensures Step(list, gateways, i + 1) == i + 1
  {
  }
}
