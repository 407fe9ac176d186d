/**
 * `detectar_gateway_atual` and `obter_isp_atual`: the router's route listing is scanned for
 * addresses `10.131.131.N`, the address found most often is taken as the gateway in use, and
 * that gateway is named after the first ISP that has it. The listing is a parameter: fetching
 * it over SSH is not part of this model.
 */
module Detection {
  import opened Wrappers
  import opened Text
  import opened Gateway

  /** The text the listing's `comment~` filter looks for. */
  const ListTag: string := "ROTA ACC WG"

  /** The command whose output is the listing: the routes whose comment contains `ListTag`. */
  const ListCommand: string := "/ip route print where " + "comment~\"" + ListTag + "\""

  /** The literal part of the pattern `10\.131\.131\.\d+`. */
  const Prefix: string := "10.131.131."

  /** A string the pattern matches in full: the prefix and one or more ASCII digits. */
  predicate IsAddress(m: string) {
    |m| > |Prefix| && m[..|Prefix|] == Prefix && forall k | |Prefix| <= k < |m| :: IsDigit(m[k])
  }

  /** The pattern can start a match at position `i` of `s`. */
  predicate MatchAt(s: string, i: nat) {
    OccursAt(s, Prefix, i) && i + |Prefix| < |s| && IsDigit(s[i + |Prefix|])
  }

  /** Where the greedy `\d+` starting at `j` stops. */
  function DigitsEnd(s: string, j: nat): (e: nat)
    requires j <= |s|
    ensures j <= e <= |s|
    ensures forall k | j <= k < e :: IsDigit(s[k])
    ensures e == |s| || !IsDigit(s[e])
    decreases |s| - j
  {
    if j < |s| && IsDigit(s[j]) then DigitsEnd(s, j + 1) else j
  }

  /**
   * `re.findall` from position `p`: try a match at each position in turn; after a match the
   * scan resumes where the match ended, so matches never overlap.
   */
  function FindFrom(s: string, p: nat): (r: seq<string>)
    requires p <= |s|
    ensures forall k | 0 <= k < |r| :: IsAddress(r[k])
    decreases |s| - p
  {
    if p == |s| then []
    else if MatchAt(s, p) then
      var e := DigitsEnd(s, p + |Prefix|);
      assert s[p..e][..|Prefix|] == s[p..p + |Prefix|];
      [s[p..e]] + FindFrom(s, e)
    else
      FindFrom(s, p + 1)
  }

  /** `re.findall(r'10\.131\.131\.\d+', s)`. */
  function FindAll(s: string): seq<string> {
    FindFrom(s, 0)
  }

  /** The scan from `p` finds nothing exactly when no position from `p` on starts a match. */
  lemma {:induction false} FindFromEmpty(s: string, p: nat)
    requires p <= |s|
    ensures FindFrom(s, p) == [] <==> forall i | p <= i < |s| :: !MatchAt(s, i)
    decreases |s| - p
  {
    if p < |s| && !MatchAt(s, p) {
      FindFromEmpty(s, p + 1);
    }
  }

  /** `m` occurs in `s` at or after position `p`. */
  predicate OccursFrom(s: string, m: string, p: nat) {
    exists i | p <= i <= |s| :: OccursAt(s, m, i)
  }

  /** Every match is a piece of the listing that starts at or after `p`. */
  lemma {:induction false} FindFromOccurs(s: string, p: nat)
    requires p <= |s|
    ensures forall k | 0 <= k < |FindFrom(s, p)| :: OccursFrom(s, FindFrom(s, p)[k], p)
    decreases |s| - p
  {
    var r := FindFrom(s, p);
    if p == |s| {
      assert r == [];
    } else if MatchAt(s, p) {
      var e := DigitsEnd(s, p + |Prefix|);
      FindFromOccurs(s, e);
      var tail := FindFrom(s, e);
      assert r == [s[p..e]] + tail;
      forall k | 0 <= k < |r| ensures OccursFrom(s, r[k], p) {
        if k == 0 {
          assert OccursAt(s, r[k], p);
        } else {
          assert r[k] == tail[k - 1] && OccursFrom(s, tail[k - 1], e);
          var i :| e <= i <= |s| && OccursAt(s, tail[k - 1], i);
          assert OccursAt(s, r[k], i);
        }
      }
    } else {
      FindFromOccurs(s, p + 1);
      assert r == FindFrom(s, p + 1);
      forall k | 0 <= k < |r| ensures OccursFrom(s, r[k], p) {
        assert OccursFrom(s, r[k], p + 1);
        var i :| p + 1 <= i <= |s| && OccursAt(s, r[k], i);
        assert OccursAt(s, r[k], i);
      }
    }
  }

  // ---- The most common match ----

  /** `Counter(xs)[x]`: how many times `x` occurs in `xs`. */
  function Count(xs: seq<string>, x: string): nat {
    multiset(xs)[x]
  }

  /** The position of the first occurrence of `x`. */
  function FirstIndex(xs: seq<string>, x: string): (i: nat)
    requires x in xs
    ensures i < |xs| && xs[i] == x
    ensures forall k | 0 <= k < i :: xs[k] != x
  {
    if xs[0] == x then 0 else 1 + FirstIndex(xs[1..], x)
  }

  /**
   * What `Counter(xs).most_common(1)[0][0]` returns: an element of `xs` with the largest count,
   * and among those the one that occurs first (a Counter keeps its keys in first-occurrence
   * order and `most_common(1)` keeps the first maximum).
   */
  predicate IsMostCommon(xs: seq<string>, r: string) {
    && r in xs
    && (forall j | 0 <= j < |xs| :: Count(xs, xs[j]) <= Count(xs, r))
    && (forall j | 0 <= j < |xs| :: Count(xs, xs[j]) == Count(xs, r) ==> FirstIndex(xs, r) <= j)
  }

  /** A left-to-right pass that replaces the leader only on a strictly larger count. */
  function MostCommonFrom(xs: seq<string>, i: nat, best: string): string
    requires i <= |xs|
    decreases |xs| - i
  {
    if i == |xs| then best
    else if Count(xs, xs[i]) > Count(xs, best) then MostCommonFrom(xs, i + 1, xs[i])
    else MostCommonFrom(xs, i + 1, best)
  }

  function MostCommon(xs: seq<string>): string
    requires xs != []
  {
    MostCommonFrom(xs, 1, xs[0])
  }

  /** What the pass knows after looking at the first `i` elements. */
  predicate LeaderSoFar(xs: seq<string>, i: nat, best: string)
    requires i <= |xs|
  {
    && best in xs && FirstIndex(xs, best) < i
    && (forall j | 0 <= j < i :: Count(xs, xs[j]) <= Count(xs, best))
    && (forall j | 0 <= j < i :: Count(xs, xs[j]) == Count(xs, best) ==> FirstIndex(xs, best) <= j)
  }

  lemma {:induction false} MostCommonFromCorrect(xs: seq<string>, i: nat, best: string)
    requires i <= |xs| && LeaderSoFar(xs, i, best)
    ensures IsMostCommon(xs, MostCommonFrom(xs, i, best))
    decreases |xs| - i
  {
    if i < |xs| {
      var next := if Count(xs, xs[i]) > Count(xs, best) then xs[i] else best;
      LeaderStep(xs, i, best);
      MostCommonFromCorrect(xs, i + 1, next);
    }
  }

  /** One step of the pass keeps what it knows true. */
  lemma LeaderStep(xs: seq<string>, i: nat, best: string)
    requires i < |xs| && LeaderSoFar(xs, i, best)
    ensures LeaderSoFar(xs, i + 1, if Count(xs, xs[i]) > Count(xs, best) then xs[i] else best)
  {
    if Count(xs, xs[i]) > Count(xs, best) {
      assert FirstIndex(xs, xs[i]) <= i;
    }
  }

  /** `most_common(1)` picks the element the specification describes. */
  lemma MostCommonCorrect(xs: seq<string>)
    requires xs != []
    ensures IsMostCommon(xs, MostCommon(xs))
  {
    assert LeaderSoFar(xs, 1, xs[0]);
    MostCommonFromCorrect(xs, 1, xs[0]);
  }

  /** At most one element fits the description, so it determines the result. */
  lemma MostCommonUnique(xs: seq<string>, a: string, b: string)
    requires IsMostCommon(xs, a) && IsMostCommon(xs, b)
    ensures a == b
  {
    var ia := FirstIndex(xs, a);
    var ib := FirstIndex(xs, b);
    assert Count(xs, xs[ia]) == Count(xs, b);
    assert Count(xs, xs[ib]) == Count(xs, a);
  }

  // ---- The two functions of the tool ----

  /** `detectar_gateway_atual`, given the listing the router returned. */
  function Detect(listing: string): string {
    if listing == "" then ""
    else
      var matches := FindAll(listing);
      if matches == [] then "" else MostCommon(matches)
  }

  /**
   * Detection yields nothing exactly when the listing holds no match, and otherwise an address
   * that is the most common match.
   */
  lemma DetectCorrect(listing: string)
    ensures Detect(listing) == "" <==> forall i | 0 <= i < |listing| :: !MatchAt(listing, i)
    ensures Detect(listing) != "" ==>
      IsAddress(Detect(listing)) && IsMostCommon(FindAll(listing), Detect(listing))
  {
    FindFromEmpty(listing, 0);
    var matches := FindAll(listing);
    if matches != [] {
      MostCommonCorrect(matches);
      var k :| 0 <= k < |matches| && matches[k] == MostCommon(matches);
    }
  }

  /** `obter_isp_atual`: a name for the detected gateway. */
  function CurrentIsp(names: seq<string>, gateways: map<string, string>, listing: string): string
    requires Listed(names, gateways)
  {
    var gw := Detect(listing);
    if gw == "" then "NENHUM"
    else
      match FirstWithGateway(names, gateways, gw)
      case Some(i) => names[i]
      case None => "DESCONHECIDO(" + gw + ")"
  }

  /**
   * The label is `NENHUM` when nothing is detected, the first listed name with the detected
   * gateway when there is one, and `DESCONHECIDO(<gateway>)` otherwise.
   */
  lemma CurrentIspCases(names: seq<string>, gateways: map<string, string>, listing: string)
    requires Listed(names, gateways)
    ensures var gw := Detect(listing);
      var r := CurrentIsp(names, gateways, listing);
      && (gw == "" ==> r == "NENHUM")
      && (gw != "" && (forall i | 0 <= i < |names| :: gateways[names[i]] != gw) ==>
            r == "DESCONHECIDO(" + gw + ")")
      && (gw != "" && (exists i | 0 <= i < |names| :: gateways[names[i]] == gw) ==>
            exists i | 0 <= i < |names| ::
              && r == names[i] && gateways[names[i]] == gw
              && forall j | 0 <= j < i :: gateways[names[j]] != gw)
  {
    var gw := Detect(listing);
    if gw != "" {
      match FirstWithGateway(names, gateways, gw)
      case Some(i) =>
      case None =>
    }
  }
}
