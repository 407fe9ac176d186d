/**
 * Gateways as the tool reads them, and `obter_isps_ordenados`: the registry's names listed
 * in ascending numeric order of their gateways (`[int(i) for i in gw.split('.')]`).
 */
module Gateway {
  import opened Wrappers
  import opened Text
  import opened Order

  function GatewayParts(gw: string): seq<string> {
    Split(gw, {'.'})
  }

  /** `int()` succeeds on every dot-separated part: each is a non-empty run of decimal digits. */
  predicate NumericGateway(gw: string) {
    var parts := GatewayParts(gw);
    forall i | 0 <= i < |parts| :: parts[i] != [] && AllDigits(parts[i])
  }

  /** The sort key `[int(i) for i in gw.split('.')]`. */
  function GatewayKey(gw: string): seq<nat> {
    var parts := GatewayParts(gw);
    seq(|parts|, i requires 0 <= i < |parts| => DecimalValue(parts[i]))
  }

  /** Every listed name has a gateway, so `ISP_GATEWAYS[isp]` never fails. */
  predicate Listed(names: seq<string>, gateways: map<string, string>) {
    forall i | 0 <= i < |names| :: names[i] in gateways
  }

  /** The registry's two structures agree: the map's keys are exactly the listed names. */
  predicate Consistent(names: seq<string>, gateways: map<string, string>) {
    Listed(names, gateways) && forall n | n in gateways :: n in names
  }

  /** `gateways_temp`: each listed name's gateway, in list order. */
  function GatewayList(names: seq<string>, gateways: map<string, string>): seq<string>
    requires Listed(names, gateways)
  {
    seq(|names|, i requires 0 <= i < |names| => gateways[names[i]])
  }

  /** `map[s[i]]` for every element of `s`. */
  function Lookup(m: map<string, string>, s: seq<string>): (r: seq<string>)
    requires forall i | 0 <= i < |s| :: s[i] in m
    ensures |r| == |s| && forall i | 0 <= i < |s| :: r[i] == m[s[i]]
  {
    if s == [] then [] else [m[s[0]]] + Lookup(m, s[1..])
  }

  /**
   * `gateway_to_name`, filled in list order: each gateway maps to a name that has it, and a
   * gateway shared by several names keeps the last of them.
   */
  function GatewayToName(names: seq<string>, gateways: map<string, string>): (r: map<string, string>)
    requires Listed(names, gateways)
    ensures forall i | 0 <= i < |names| :: gateways[names[i]] in r
    ensures forall g | g in r :: r[g] in gateways && gateways[r[g]] == g
    ensures forall i | 0 <= i < |names| ::
      (forall j | i < j < |names| :: gateways[names[j]] != gateways[names[i]]) ==> r[gateways[names[i]]] == names[i]
  {
    if names == [] then map[]
    else
      var init := names[..|names| - 1];
      var last := names[|names| - 1];
      GatewayToName(init, gateways)[gateways[last] := last]
  }

  /** Position of the first name in `list` whose gateway is `gw`. */
  function FirstWithGateway(list: seq<string>, gateways: map<string, string>, gw: string): (r: Option<nat>)
    requires Listed(list, gateways)
    ensures r.None? <==> forall i | 0 <= i < |list| :: gateways[list[i]] != gw
    ensures r.Some? ==> r.value < |list| && gateways[list[r.value]] == gw
    ensures r.Some? ==> forall i | 0 <= i < r.value :: gateways[list[i]] != gw
  {
    if list == [] then None
    else if gateways[list[0]] == gw then Some(0)
    else match FirstWithGateway(list[1..], gateways, gw)
      case None => None
      case Some(k) => Some(k + 1)
  }

  predicate AllNumeric(gws: seq<string>) {
    forall i | 0 <= i < |gws| :: NumericGateway(gws[i])
  }

  /**
   * `obter_isps_ordenados()`: the gateways sorted by numeric key, each replaced by its name in
   * `gateway_to_name`. None stands for the ValueError `int()` raises on a non-numeric part.
   */
  function OrderedByGateway(names: seq<string>, gateways: map<string, string>): Option<seq<string>>
    requires Listed(names, gateways)
  {
    var gws := GatewayList(names, gateways);
    if AllNumeric(gws) then
      var byGateway := GatewayToName(names, gateways);
      var sorted := SortBy(gws, GatewayKey);
      SortedKeys(names, gateways, byGateway, sorted);
      Some(Lookup(byGateway, sorted))
    else
      None
  }

  lemma SortedKeys(names: seq<string>, gateways: map<string, string>, byGateway: map<string, string>, sorted: seq<string>)
    requires Listed(names, gateways) && byGateway == GatewayToName(names, gateways)
    requires multiset(sorted) == multiset(GatewayList(names, gateways))
    ensures forall i | 0 <= i < |sorted| :: sorted[i] in byGateway && gateways[byGateway[sorted[i]]] == sorted[i]
  {
    var gws := GatewayList(names, gateways);
    forall i | 0 <= i < |sorted| ensures sorted[i] in byGateway {
      assert sorted[i] in multiset(gws);
      var k :| 0 <= k < |gws| && gws[k] == sorted[i];
    }
  }

  /** The ordering fails exactly when some listed name has a gateway with a non-numeric part. */
  lemma OrderedByGatewayFails(names: seq<string>, gateways: map<string, string>)
    requires Listed(names, gateways)
    ensures OrderedByGateway(names, gateways).None? <==>
      exists i | 0 <= i < |names| :: !NumericGateway(gateways[names[i]])
  {
    var gws := GatewayList(names, gateways);
    if AllNumeric(gws) {
      forall i | 0 <= i < |names| ensures NumericGateway(gateways[names[i]]) {
        assert gws[i] == gateways[names[i]];
      }
    } else {
      var i :| 0 <= i < |gws| && !NumericGateway(gws[i]);
      assert !NumericGateway(gateways[names[i]]);
    }
  }

  /**
   * When the ordering succeeds it lists as many entries as there are names, each a name with a
   * gateway, in ascending numeric order of gateway.
   */
  lemma OrderedByGatewaySorted(names: seq<string>, gateways: map<string, string>)
    requires Listed(names, gateways)
    requires OrderedByGateway(names, gateways).Some?
    ensures var ordered := OrderedByGateway(names, gateways).value;
      && |ordered| == |names|
      && (forall i | 0 <= i < |ordered| :: ordered[i] in gateways)
      && (forall i, j | 0 <= i < j < |ordered| ::
            LexLe(GatewayKey(gateways[ordered[i]]), GatewayKey(gateways[ordered[j]])))
  {
    var gws := GatewayList(names, gateways);
    var byGateway := GatewayToName(names, gateways);
    var sorted := SortBy(gws, GatewayKey);
    SortBySorted(gws, GatewayKey);
    SortedKeys(names, gateways, byGateway, sorted);
    var ordered := Lookup(byGateway, sorted);
    forall i, j | 0 <= i < j < |ordered|
      ensures LexLe(GatewayKey(gateways[ordered[i]]), GatewayKey(gateways[ordered[j]]))
    {
      assert gateways[ordered[i]] == sorted[i] && gateways[ordered[j]] == sorted[j];
    }
  }

  lemma InsertKeys(m: map<string, string>, x: string, s: seq<string>, key: string -> seq<nat>)
    requires x in m && forall i | 0 <= i < |s| :: s[i] in m
    ensures forall i | 0 <= i < |Insert(x, s, key)| :: Insert(x, s, key)[i] in m
  {
    var r := Insert(x, s, key);
    forall i | 0 <= i < |r| ensures r[i] in m {
      assert r[i] in multiset(r);
    }
  }

  lemma {:induction false} LookupInsert(m: map<string, string>, x: string, s: seq<string>, key: string -> seq<nat>)
    requires x in m && forall i | 0 <= i < |s| :: s[i] in m
    requires forall i | 0 <= i < |Insert(x, s, key)| :: Insert(x, s, key)[i] in m
    ensures multiset(Lookup(m, Insert(x, s, key))) == multiset(Lookup(m, s)) + multiset{m[x]}
  {
    var r := Insert(x, s, key);
    if s == [] || LexLe(key(x), key(s[0])) {
      assert r[1..] == s;
    } else {
      var t := Insert(x, s[1..], key);
      InsertKeys(m, x, s[1..], key);
      LookupInsert(m, x, s[1..], key);
      assert r[1..] == t;
    }
  }

  /** Sorting and then looking up gives the same multiset as looking up directly. */
  lemma {:induction false} LookupSortBy(m: map<string, string>, s: seq<string>, key: string -> seq<nat>)
    requires forall i | 0 <= i < |s| :: s[i] in m
    ensures forall i | 0 <= i < |SortBy(s, key)| :: SortBy(s, key)[i] in m
    ensures multiset(Lookup(m, SortBy(s, key))) == multiset(Lookup(m, s))
  {
    if s != [] {
      LookupSortBy(m, s[1..], key);
      InsertKeys(m, s[0], SortBy(s[1..], key), key);
      LookupInsert(m, s[0], SortBy(s[1..], key), key);
    }
  }

  /**
   * With pairwise different gateways the ordered list is a permutation of the names, and the
   * position of each name is fixed by its gateway.
   */
  lemma OrderedByGatewayPermutation(names: seq<string>, gateways: map<string, string>)
    requires Listed(names, gateways)
    requires forall i | 0 <= i < |names| :: NumericGateway(gateways[names[i]])
    requires Distinct(GatewayList(names, gateways))
    ensures OrderedByGateway(names, gateways).Some?
    ensures multiset(OrderedByGateway(names, gateways).value) == multiset(names)
  {
    var gws := GatewayList(names, gateways);
    var byGateway := GatewayToName(names, gateways);
    forall i | 0 <= i < |gws| ensures gws[i] in byGateway && byGateway[gws[i]] == names[i] {
      forall j | i < j < |names| ensures gateways[names[j]] != gateways[names[i]] {
        assert gws[j] == gateways[names[j]] && gws[i] == gateways[names[i]];
      }
    }
    assert Lookup(byGateway, gws) == names;
    LookupSortBy(byGateway, gws, GatewayKey);
  }

  /**
   * A gateway shared by two different names hides the earlier one: `gateway_to_name` keeps only
   * the last name with that gateway, so the earlier name never appears in the ordered list.
   */
  lemma SharedGatewayHidesName(names: seq<string>, gateways: map<string, string>, i: nat, j: nat)
    requires Listed(names, gateways)
    requires i < j < |names| && names[i] != names[j]
    requires gateways[names[i]] == gateways[names[j]]
    requires forall k | j < k < |names| :: gateways[names[k]] != gateways[names[j]]
    requires OrderedByGateway(names, gateways).Some?
    ensures names[i] !in OrderedByGateway(names, gateways).value
  {
    var gws := GatewayList(names, gateways);
    var byGateway := GatewayToName(names, gateways);
    var sorted := SortBy(gws, GatewayKey);
    SortedKeys(names, gateways, byGateway, sorted);
    var ordered := Lookup(byGateway, sorted);
    var g := gateways[names[i]];
    assert byGateway[g] == names[j];
    forall k | 0 <= k < |ordered| ensures ordered[k] != names[i] {
      assert gateways[byGateway[sorted[k]]] == sorted[k];
    }
  }

  /**
   * A registry whose names are already listed in ascending gateway order, with distinct numeric
   * gateways, is listed unchanged.
   */
  lemma OrderedByGatewayIdentity(names: seq<string>, gateways: map<string, string>)
    requires Listed(names, gateways)
    requires AllNumeric(GatewayList(names, gateways))
    requires Distinct(GatewayList(names, gateways))
    requires SortedBy(GatewayList(names, gateways), GatewayKey)
    ensures OrderedByGateway(names, gateways) == Some(names)
  {
    OrderedByGatewayUnfold(names, gateways);
    SortBySortedInput(GatewayList(names, gateways), GatewayKey);
    LookupOwnGateways(names, gateways);
  }

  /** With distinct gateways, `gateway_to_name` takes each name's gateway back to that name. */
  lemma LookupOwnGateways(names: seq<string>, gateways: map<string, string>)
    requires Listed(names, gateways) && Distinct(GatewayList(names, gateways))
    ensures var gws := GatewayList(names, gateways);
      && (forall i | 0 <= i < |gws| :: gws[i] in GatewayToName(names, gateways))
      && Lookup(GatewayToName(names, gateways), gws) == names
  {
    var gws := GatewayList(names, gateways);
    var byGateway := GatewayToName(names, gateways);
    assert forall i | 0 <= i < |gws| :: gws[i] in byGateway;
    var ordered := Lookup(byGateway, gws);
    forall i | 0 <= i < |names| ensures ordered[i] == names[i] {
      assert gws[i] == gateways[names[i]];
      forall j | i < j < |names| ensures gateways[names[j]] != gateways[names[i]] {
        assert gws[j] == gateways[names[j]];
      }
    }
  }

  lemma OrderedByGatewayUnfold(names: seq<string>, gateways: map<string, string>)
    requires Listed(names, gateways) && AllNumeric(GatewayList(names, gateways))
    ensures var sorted := SortBy(GatewayList(names, gateways), GatewayKey);
      && (forall i | 0 <= i < |sorted| :: sorted[i] in GatewayToName(names, gateways))
      && OrderedByGateway(names, gateways) == Some(Lookup(GatewayToName(names, gateways), sorted))
  {
    var sorted := SortBy(GatewayList(names, gateways), GatewayKey);
    SortedKeys(names, gateways, GatewayToName(names, gateways), sorted);
  }
}
