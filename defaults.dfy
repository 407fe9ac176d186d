/**
 * `criar_configuracao_padrao`: the registry used when no configuration file exists, 64 ISPs
 * named `ISP-01` to `ISP-64` on the gateways `10.131.131.1`, `10.131.131.5`, ... `10.131.131.253`.
 */
module Defaults {
  import opened Wrappers
  import opened Text
  import opened Order
  import opened Gateway
  import opened ConfigFile

  /** The address every default gateway starts with. */
  const GatewayPrefix: string := "10.131.131."

  /** `f"{n:02d}"` for a number below 100. */
  function TwoDigits(n: nat): (r: string)
    requires n < 100
    ensures |r| == 2 && AllDigits(r) && DecimalValue(r) == n
  {
    var r := [DigitChar(n / 10), DigitChar(n % 10)];
    assert r[..1] == [r[0]];
    assert DecimalValue(r[..1]) == DigitValue(r[0]);
    r
  }

  /** The names `f"ISP-{i:02d}"` for `i` in `range(1, 65)`. */
  const DefaultNames: seq<string> := seq(64, i requires 0 <= i < 64 => "ISP-" + TwoDigits(i + 1))

  /** The `k`-th default gateway, `k` counted from 0: the fourth octet is `4k + 1`. */
  function DefaultGateway(k: nat): string {
    GatewayPrefix + NatToString(4 * k + 1)
  }

  /** The gateway list of `criar_configuracao_padrao`, `10.131.131.1` to `10.131.131.253` in steps of 4. */
  const DefaultGateways: seq<string> := seq(64, k requires 0 <= k < 64 => DefaultGateway(k))

  /** The pairs the loop `ISP_GATEWAYS[isp] = gateways[i]` sets, in order. */
  const DefaultEntries: seq<Entry> :=
    seq(64, i requires 0 <= i < 64 => Entry(DefaultNames[i], DefaultGateways[i]))

  /** `ISP_GATEWAYS` after that loop, starting from an empty map. */
  const DefaultMap: map<string, string> := EntryMap(DefaultEntries)

  /** The first and the last of the 64 gateways the source lists. */
  lemma DefaultGatewayEnds()
    ensures DefaultGateways[0] == "10.131.131.1"
    ensures DefaultGateways[63] == "10.131.131.253"
  {
  }

  /** Every default gateway is a dotted quad `10.131.131.(4k+1)` that sorts by its last octet. */
  lemma DefaultGatewayKey(k: nat)
    ensures NumericGateway(DefaultGateway(k)) && ValidGatewayText(DefaultGateway(k))
    ensures GatewayKey(DefaultGateway(k)) == [10, 131, 131, 4 * k + 1]
  {
    var d := NatToString(4 * k + 1);
    DefaultGatewayParts(d);
    DecimalRoundTrip(4 * k + 1);
    assert DecimalValue("10") == 10 && DecimalValue("131") == 131;
    var gw := DefaultGateway(k);
    assert forall i | 0 <= i < |GatewayPrefix| :: IsDigit(GatewayPrefix[i]) || GatewayPrefix[i] == '.';
    assert gw[|GatewayPrefix|..] == d;
  }

  /** The prefix followed by a run of digits splits at its three dots. */
  lemma DefaultGatewayParts(d: string)
    requires d != [] && AllDigits(d)
    ensures GatewayParts(GatewayPrefix + d) == ["10", "131", "131", d]
  {
    assert GatewayPrefix + d == "10" + ['.'] + ("131" + ['.'] + ("131" + ['.'] + d));
    SplitFour("10", "131", "131", d, '.', {'.'});
  }

  /** The 64 default names are distinct and pass the loader's key pattern. */
  lemma DefaultNamesValid()
    ensures |DefaultNames| == 64 && Distinct(DefaultNames)
    ensures forall i | 0 <= i < 64 :: ValidName(DefaultNames[i])
  {
    forall i, j | 0 <= i < j < 64 ensures DefaultNames[i] != DefaultNames[j] {
      assert DefaultNames[i][4..] == TwoDigits(i + 1);
      assert DefaultNames[j][4..] == TwoDigits(j + 1);
    }
  }

  /** Each default name maps to its own gateway. */
  lemma DefaultMapLookup()
    ensures forall i | 0 <= i < 64 :: DefaultNames[i] in DefaultMap && DefaultMap[DefaultNames[i]] == DefaultGateways[i]
  {
    DefaultNamesValid();
    forall i | 0 <= i < 64 ensures DefaultNames[i] in DefaultMap && DefaultMap[DefaultNames[i]] == DefaultGateways[i] {
      EntryMapLastWins(DefaultEntries, i);
    }
  }

  /** The map's keys are exactly the default names. */
  lemma DefaultMapKeys()
    ensures forall k :: k in DefaultMap <==> k in DefaultNames
  {
    EntryMapKeys(DefaultEntries);
    assert EntryNames(DefaultEntries) == DefaultNames;
  }

  /** The default names and map form a consistent registry that passes the loader's patterns. */
  lemma DefaultMapContents()
    ensures Consistent(DefaultNames, DefaultMap)
    ensures ValidMap(DefaultMap)
  {
    DefaultNamesValid();
    DefaultMapLookup();
    DefaultMapKeys();
    forall k | k in DefaultMap ensures ValidName(k) && ValidGatewayText(DefaultMap[k]) {
      var i :| 0 <= i < 64 && DefaultNames[i] == k;
      DefaultGatewayKey(i);
    }
  }

  /** The gateways in name order are the default list: distinct, numeric and ascending. */
  lemma DefaultGatewayOrder()
    ensures Listed(DefaultNames, DefaultMap)
    ensures GatewayList(DefaultNames, DefaultMap) == DefaultGateways
    ensures AllNumeric(DefaultGateways) && Distinct(DefaultGateways)
    ensures SortedBy(DefaultGateways, GatewayKey)
  {
    DefaultMapContents();
    DefaultMapLookup();
    assert GatewayList(DefaultNames, DefaultMap) == DefaultGateways;
    DefaultGatewaysAscending();
  }

  /** The default gateways are numeric, distinct and ascending. */
  lemma DefaultGatewaysAscending()
    ensures AllNumeric(DefaultGateways) && Distinct(DefaultGateways)
    ensures SortedBy(DefaultGateways, GatewayKey)
  {
    forall i | 0 <= i < 64 ensures NumericGateway(DefaultGateways[i]) {
      DefaultGatewayKey(i);
    }
    forall i, j | 0 <= i < j < 64
      ensures DefaultGateways[i] != DefaultGateways[j]
      ensures LexLe(GatewayKey(DefaultGateways[i]), GatewayKey(DefaultGateways[j]))
    {
      DefaultGatewayPair(i, j);
    }
  }

  lemma DefaultGatewayPair(i: nat, j: nat)
    requires i < j
    ensures DefaultGateway(i) != DefaultGateway(j)
    ensures LexLe(GatewayKey(DefaultGateway(i)), GatewayKey(DefaultGateway(j)))
  {
    DefaultGatewayKey(i);
    DefaultGatewayKey(j);
    LexLePrefix([10, 131, 131], [4 * i + 1], [4 * j + 1]);
    assert [10, 131, 131] + [4 * i + 1] == [10, 131, 131, 4 * i + 1];
    assert [10, 131, 131] + [4 * j + 1] == [10, 131, 131, 4 * j + 1];
  }

  /** `obter_isps_ordenados` on the default registry lists `ISP-01` to `ISP-64` in that order. */
  lemma DefaultOrdered()
    ensures Listed(DefaultNames, DefaultMap)
    ensures OrderedByGateway(DefaultNames, DefaultMap) == Some(DefaultNames)
  {
    DefaultMapContents();
    DefaultGatewayOrder();
    OrderedByGatewayIdentity(DefaultNames, DefaultMap);
  }

  /** The default names are already in the order `sorted(ISP_NAMES)` gives. */
  lemma DefaultNamesSorted()
    ensures SortedBy(DefaultNames, NameKey)
  {
    forall i, j | 0 <= i < j < 64 ensures LexLe(NameKey(DefaultNames[i]), NameKey(DefaultNames[j])) {
      NameKeyOfDefault(i + 1);
      NameKeyOfDefault(j + 1);
      var m, n := i + 1, j + 1;
      var a := [48 + m / 10, 48 + m % 10];
      var b := [48 + n / 10, 48 + n % 10];
      assert LexLe(a, b);
      LexLePrefix(NameKey("ISP-"), a, b);
    }
  }

  lemma NameKeyOfDefault(n: nat)
    requires 1 <= n <= 64
    ensures NameKey("ISP-" + TwoDigits(n)) == NameKey("ISP-") + [48 + n / 10, 48 + n % 10]
  {
    var t := TwoDigits(n);
    assert t[0] as int == 48 + n / 10 && t[1] as int == 48 + n % 10;
  }

  /**
   * The file `criar_configuracao_padrao` saves lists the 64 pairs in name order, and reading it
   * back gives the default registry again.
   */
  lemma DefaultFile()
    ensures Listed(DefaultNames, DefaultMap)
    ensures Serialize(DefaultNames, DefaultMap) == Render(DefaultEntries)
    ensures EntryNames(Parse(Serialize(DefaultNames, DefaultMap))) == DefaultNames
    ensures EntryMap(Parse(Serialize(DefaultNames, DefaultMap))) == DefaultMap
  {
    DefaultMapContents();
    DefaultNamesSorted();
    SortBySortedInput(DefaultNames, NameKey);
    DefaultEntriesFromMap();
    RoundTrip(DefaultNames, DefaultMap);
  }

  /** Looking each default name up in the map gives back the default pairs. */
  lemma DefaultEntriesFromMap()
    ensures Listed(DefaultNames, DefaultMap)
    ensures Entries(DefaultNames, DefaultMap) == DefaultEntries
  {
    DefaultMapLookup();
    assert Entries(DefaultNames, DefaultMap) == DefaultEntries;
  }
}
