/**
 * The registry file `~/.wg_isps.conf` as text: one `name=gateway` line per ISP. `carregar_isps`
 * reads it line by line, keeping only lines that pass validation; `salvar_isps` writes it back
 * sorted by name. Opening, reading and writing the file are left to the caller.
 */
module ConfigFile {
  import opened Wrappers
  import opened Text
  import opened Order
  import opened Gateway

  datatype Entry = Entry(name: string, gateway: string)

  /** One character of `[A-Za-z0-9_-]`. */
  predicate IsNameChar(c: char) {
    ('A' <= c <= 'Z') || ('a' <= c <= 'z') || IsDigit(c) || c == '_' || c == '-'
  }

  /** A key accepted by `^[A-Za-z0-9_-]+$`. */
  predicate ValidName(s: string) {
    s != [] && forall i | 0 <= i < |s| :: IsNameChar(s[i])
  }

  /** A value accepted by `^[0-9.]+$`. */
  predicate ValidGatewayText(s: string) {
    s != [] && forall i | 0 <= i < |s| :: IsDigit(s[i]) || s[i] == '.'
  }

  /**
   * Iterating over a text file opened with universal newlines: `\r\n`, `\r` and `\n` all end a
   * line. Splitting at either character gives the same lines once each is stripped, apart from
   * extra empty lines, which hold no `=` and are skipped.
   */
  function Lines(text: string): seq<string> {
    Split(text, {'\n', '\r'})
  }

  /**
   * The body of the loop in `carregar_isps`: strip the line, split it at its first `=`, strip
   * both halves and keep the pair when the key and the value pass their patterns.
   */
  function ParseLine(line: string): (r: Option<Entry>)
    ensures r.Some? ==> ValidName(r.value.name) && ValidGatewayText(r.value.gateway)
  {
    ParseStripped(Strip(line))
  }

  /** A stripped line: split at its first `=`, if any, and strip both halves. */
  function ParseStripped(stripped: string): (r: Option<Entry>)
    ensures r.Some? ==> ValidName(r.value.name) && ValidGatewayText(r.value.gateway)
  {
    match FirstIndexIn(stripped, {'='})
    case None => None
    case Some(i) => Accept(Strip(stripped[..i]), Strip(stripped[i + 1..]))
  }

  /** The two patterns: the pair is kept only when the key and the value both match. */
  function Accept(key: string, value: string): (r: Option<Entry>)
    ensures r.Some? <==> ValidName(key) && ValidGatewayText(value)
    ensures r.Some? ==> r.value == Entry(key, value)
  {
    if ValidName(key) && ValidGatewayText(value) then Some(Entry(key, value)) else None
  }

  /** The accepted lines, in file order. */
  function ParseLines(lines: seq<string>): seq<Entry> {
    Keep(lines, ParseLine)
  }

  function Parse(text: string): seq<Entry> {
    ParseLines(Lines(text))
  }

  /** `ISP_NAMES` after loading: every accepted key, in file order, repeats included. */
  function EntryNames(entries: seq<Entry>): seq<string> {
    seq(|entries|, i requires 0 <= i < |entries| => entries[i].name)
  }

  /** `ISP_GATEWAYS` after loading: each key set in turn, so a repeated key keeps its last value. */
  function EntryMap(entries: seq<Entry>): map<string, string> {
    if entries == [] then map[]
    else
      var last := entries[|entries| - 1];
      EntryMap(entries[..|entries| - 1])[last.name := last.gateway]
  }

  /** Python compares strings by code point, which is `LexLe` on the code points. */
  function NameKey(name: string): seq<nat> {
    seq(|name|, i requires 0 <= i < |name| => name[i] as int as nat)
  }

  /** A key and a value that pass the loader's two patterns. */
  predicate ValidEntry(e: Entry) {
    ValidName(e.name) && ValidGatewayText(e.gateway)
  }

  /** Every key and its gateway pass the loader's patterns. */
  predicate ValidMap(gateways: map<string, string>) {
    forall k | k in gateways :: ValidName(k) && ValidGatewayText(gateways[k])
  }

  /** The registry's pairs in the order of `names`. */
  function Entries(names: seq<string>, gateways: map<string, string>): (r: seq<Entry>)
    requires Listed(names, gateways)
    ensures |r| == |names|
    ensures forall i | 0 <= i < |r| :: r[i].name == names[i] && r[i].gateway == gateways[names[i]]
  {
    seq(|names|, i requires 0 <= i < |names| => Entry(names[i], gateways[names[i]]))
  }

  /** One line `f"{isp}={ISP_GATEWAYS[isp]}\n"`. */
  function FileLine(e: Entry): string {
    e.name + "=" + e.gateway + "\n"
  }

  /** The lines for the entries in the order given. */
  function Render(entries: seq<Entry>): string {
    if entries == [] then "" else FileLine(entries[0]) + Render(entries[1..])
  }

  /** `salvar_isps`: the whole file, names in ascending order. */
  function Serialize(names: seq<string>, gateways: map<string, string>): string
    requires Listed(names, gateways)
  {
    var sorted := SortBy(names, NameKey);
    assert forall i | 0 <= i < |sorted| :: sorted[i] in gateways by {
      forall i | 0 <= i < |sorted| ensures sorted[i] in gateways {
        assert sorted[i] in multiset(names);
      }
    }
    Render(Entries(sorted, gateways))
  }

  // ---- Lemmas about a single line ----

  lemma NoEqualsOrBreak(s: string)
    requires ValidName(s) || ValidGatewayText(s)
    ensures forall k | 0 <= k < |s| :: s[k] != '=' && s[k] != '\n' && s[k] != '\r' && !IsSpace(s[k])
    ensures Trimmed(s)
  {
  }

  /**
   * A line made of a valid key and a valid value around `=`, with any whitespace around either,
   * is accepted as exactly that pair.
   */
  lemma ParseLinePadded(name: string, gateway: string, w1: string, w2: string, w3: string, w4: string)
    requires ValidName(name) && ValidGatewayText(gateway)
    requires forall k | 0 <= k < |w1| :: IsSpace(w1[k])
    requires forall k | 0 <= k < |w2| :: IsSpace(w2[k])
    requires forall k | 0 <= k < |w3| :: IsSpace(w3[k])
    requires forall k | 0 <= k < |w4| :: IsSpace(w4[k])
    ensures ParseLine(w1 + name + w2 + "=" + w3 + gateway + w4) == Some(Entry(name, gateway))
  {
    StripPaddedLine(name, gateway, w1, w2, w3, w4);
    PaddedParts(name, w2, w3, gateway);
  }

  /** The stripped line splits at the `=` after the padded key, and both halves strip to the pair. */
  lemma PaddedParts(name: string, w2: string, w3: string, gateway: string)
    requires ValidName(name) && ValidGatewayText(gateway)
    requires forall k | 0 <= k < |w2| :: IsSpace(w2[k])
    requires forall k | 0 <= k < |w3| :: IsSpace(w3[k])
    ensures ParseStripped(name + w2 + "=" + w3 + gateway) == Some(Entry(name, gateway))
  {
    NoEqualsOrBreak(name);
    NoEqualsOrBreak(gateway);
    PaddedSplit(name, w2, w3, gateway);
  }

  /** The same, for any non-empty trimmed key without `=` and any non-empty trimmed value. */
  lemma PaddedSplit(name: string, w2: string, w3: string, gateway: string)
    requires Trimmed(name) && name != [] && Trimmed(gateway) && gateway != []
    requires NoEquals(name)
    requires forall k | 0 <= k < |w2| :: IsSpace(w2[k])
    requires forall k | 0 <= k < |w3| :: IsSpace(w3[k])
    ensures ParseStripped(name + w2 + "=" + w3 + gateway) == Accept(name, gateway)
  {
    assert name + w2 + "=" + w3 + gateway == (name + w2) + "=" + (w3 + gateway);
    assert [] + name + w2 == name + w2;
    assert w3 + gateway + [] == w3 + gateway;
    StripPadded([], name, w2);
    StripPadded(w3, gateway, []);
    NoEqualsPadded(name, w2);
    SplitAtEquals(name + w2, w3 + gateway);
  }

  predicate NoEquals(s: string) {
    forall k | 0 <= k < |s| :: s[k] != '='
  }

  lemma NoEqualsPadded(name: string, w: string)
    requires NoEquals(name)
    requires forall k | 0 <= k < |w| :: IsSpace(w[k])
    ensures NoEquals(name + w)
  {
    forall k | 0 <= k < |name + w| ensures (name + w)[k] != '=' {
      if k >= |name| { assert (name + w)[k] == w[k - |name|]; }
    }
  }

  /** A line with no `=` before a given one is read as its two stripped sides. */
  lemma SplitAtEquals(left: string, right: string)
    requires NoEquals(left)
    ensures ParseStripped(left + "=" + right) == Accept(Strip(left), Strip(right))
  {
    var s := left + "=" + right;
    assert s[|left|] == '=';
    forall k | 0 <= k < |left| ensures s[k] !in {'='} {
      assert s[k] == left[k];
    }
    FirstIndexAt(s, {'='}, |left|);
    assert s[..|left|] == left && s[|left| + 1..] == right;
    ParseStrippedAt(s, |left|);
  }

  lemma StripPaddedLine(name: string, gateway: string, w1: string, w2: string, w3: string, w4: string)
    requires ValidName(name) && ValidGatewayText(gateway)
    requires forall k | 0 <= k < |w1| :: IsSpace(w1[k])
    requires forall k | 0 <= k < |w4| :: IsSpace(w4[k])
    ensures Strip(w1 + name + w2 + "=" + w3 + gateway + w4) == name + w2 + "=" + w3 + gateway
  {
    NoEqualsOrBreak(name);
    NoEqualsOrBreak(gateway);
    var core := name + w2 + "=" + w3 + gateway;
    assert core[0] == name[0] && core[|core| - 1] == gateway[|gateway| - 1];
    assert w1 + name + w2 + "=" + w3 + gateway + w4 == w1 + core + w4;
    StripPadded(w1, core, w4);
  }

  /** How a stripped line whose first `=` is at position `i` is read. */
  lemma ParseStrippedAt(stripped: string, i: nat)
    requires FirstIndexIn(stripped, {'='}) == Some(i)
    ensures ParseStripped(stripped) == Accept(Strip(stripped[..i]), Strip(stripped[i + 1..]))
  {
  }

  /** How `ParseLine` reads a line whose stripped form has its first `=` at position `i`. */
  lemma ParseLineAt(line: string, stripped: string, i: nat)
    requires stripped == Strip(line) && FirstIndexIn(stripped, {'='}) == Some(i)
    ensures ParseLine(line) == Accept(Strip(stripped[..i]), Strip(stripped[i + 1..]))
  {
  }

  /** `f"{isp}={gw}"` is read back as the pair it was written from. */
  lemma ParseFileLine(name: string, gateway: string)
    requires ValidName(name) && ValidGatewayText(gateway)
    ensures ParseLine(name + "=" + gateway) == Some(Entry(name, gateway))
  {
    var line := name + "=" + gateway;
    NoEqualsOrBreak(name);
    NoEqualsOrBreak(gateway);
    assert line[0] == name[0] && line[|line| - 1] == gateway[|gateway| - 1];
    assert Strip(line) == line;
    assert line[|name|] == '=';
    forall k | 0 <= k < |name| ensures line[k] !in {'='} {
      assert line[k] == name[k];
    }
    FirstIndexAt(line, {'='}, |name|);
    assert line[..|name|] == name && line[|name| + 1..] == gateway;
    ParseLineAt(line, line, |name|);
  }

  /**
   * `^[0-9.]+$` lets through a gateway with an empty part, such as `10..1`: the line is loaded,
   * but ordering a registry that holds it fails, as `int('')` raises ValueError.
   */
  lemma EmptyPartPassesLoader(name: string, a: string, b: string)
    requires ValidName(name) && AllDigits(a) && AllDigits(b)
    ensures ValidGatewayText(a + ".." + b) && !NumericGateway(a + ".." + b)
    ensures ParseLine(name + "=" + (a + ".." + b)) == Some(Entry(name, a + ".." + b))
    ensures OrderedByGateway([name], map[name := a + ".." + b]) == None
  {
    var gw := a + ".." + b;
    DoubleDotText(a, b);
    ParseFileLine(name, gw);
    var gateways := map[name := gw];
    assert gateways[[name][0]] == gw;
    OrderedByGatewayFails([name], gateways);
  }

  /** Two digit runs joined by `..` match `^[0-9.]+$` but are not a numeric gateway. */
  lemma DoubleDotText(a: string, b: string)
    requires AllDigits(a) && AllDigits(b)
    ensures ValidGatewayText(a + ".." + b) && !NumericGateway(a + ".." + b)
  {
    var gw := a + ".." + b;
    forall k | 0 <= k < |gw| ensures IsDigit(gw[k]) || gw[k] == '.' {
      if k < |a| {
        assert gw[k] == a[k];
      } else if k >= |a| + 2 {
        assert gw[k] == b[k - |a| - 2];
      }
    }
    assert gw == a + ['.'] + ("" + ['.'] + b);
    DoubleDot(a, b);
  }

  /** Two dots in a row leave an empty part, which `int()` rejects. */
  lemma DoubleDot(a: string, b: string)
    requires AllDigits(a) && AllDigits(b)
    ensures !NumericGateway(a + ['.'] + ("" + ['.'] + b))
  {
    forall k | 0 <= k < |a| ensures a[k] != '.' {
      assert IsDigit(a[k]);
    }
    forall k | 0 <= k < |b| ensures b[k] != '.' {
      assert IsDigit(b[k]);
    }
    SplitThree(a, "", b, '.', {'.'});
    assert GatewayParts(a + ['.'] + ("" + ['.'] + b))[1] == "";
  }

  /**
   * A key that fails `^[A-Za-z0-9_-]+$` (an inner space, say) makes the whole line be skipped,
   * whatever the value.
   */
  lemma ParseLineRejectsKey(key: string, gateway: string)
    requires Trimmed(key) && key != [] && !ValidName(key)
    requires forall k | 0 <= k < |key| :: key[k] != '='
    ensures ParseLine(key + "=" + gateway) == None
  {
    var line := key + "=" + gateway;
    assert line[0] == key[0] && line[|key|] == '=';
    StripKeepsPrefix(line, |key|);
    var stripped := Strip(line);
    forall k | 0 <= k < |key| ensures stripped[k] !in {'='} {
      assert stripped[k] == line[k] == key[k];
    }
    assert FirstIndexIn(stripped, {'='}) == Some(|key|);
    assert stripped[..|key|] == key;
    ParseLineAt(line, stripped, |key|);
  }

  /** A line without `=` is skipped. */
  lemma ParseLineNoEquals(line: string)
    requires NoEquals(line)
    ensures ParseLine(line) == None
  {
    var pre, post := StripAround(line);
    var stripped := Strip(line);
    forall k | 0 <= k < |stripped| ensures stripped[k] !in {'='} {
      assert stripped[k] == line[|pre| + k];
    }
  }

  /**
   * A value that fails `^[0-9.]+$` (a letter or an inner space, say) makes the whole line be
   * skipped, whatever the key.
   */
  lemma ParseLineRejectsValue(key: string, value: string)
    requires Trimmed(key) && key != [] && NoEquals(key)
    requires Trimmed(value) && value != [] && !ValidGatewayText(value)
    ensures ParseLine(key + "=" + value) == None
  {
    var line := key + "=" + value;
    assert line[0] == key[0] && line[|line| - 1] == value[|value| - 1];
    assert Strip(line) == line;
    SplitAtEquals(key, value);
  }

  /** `line` is `name` and `gateway` around `=`, with the whitespace `w1` to `w4` around them. */
  predicate PaddedLine(line: string, name: string, gateway: string, w1: string, w2: string, w3: string, w4: string) {
    && AllSpace(w1) && AllSpace(w2) && AllSpace(w3) && AllSpace(w4)
    && line == w1 + name + w2 + "=" + w3 + gateway + w4
  }

  /**
   * A line is accepted as a pair exactly when the key and the value pass their patterns and the
   * line is the key, `=` and the value with only whitespace around either.
   */
  lemma ParseLineIff(line: string, name: string, gateway: string)
    ensures ParseLine(line) == Some(Entry(name, gateway)) <==>
      && ValidName(name) && ValidGatewayText(gateway)
      && exists w1, w2, w3, w4 :: PaddedLine(line, name, gateway, w1, w2, w3, w4)
  {
    if ParseLine(line) == Some(Entry(name, gateway)) {
      var w1, w2, w3, w4 := ParseLineShape(line, name, gateway);
    }
    if ValidName(name) && ValidGatewayText(gateway) && exists w1, w2, w3, w4 :: PaddedLine(line, name, gateway, w1, w2, w3, w4) {
      var w1, w2, w3, w4 :| PaddedLine(line, name, gateway, w1, w2, w3, w4);
      ParseLinePadded(name, gateway, w1, w2, w3, w4);
    }
  }

  /** An accepted line is its key and value around its first `=`, with whitespace around them. */
  lemma ParseLineShape(line: string, name: string, gateway: string) returns (w1: string, w2: string, w3: string, w4: string)
    requires ParseLine(line) == Some(Entry(name, gateway))
    ensures PaddedLine(line, name, gateway, w1, w2, w3, w4)
  {
    var stripped := Strip(line);
    var i := FirstIndexIn(stripped, {'='}).value;
    ParseLineAt(line, stripped, i);
    w1, w2, w3, w4 := HalvesShape(line, stripped, i, name, gateway);
  }

  /** The padding of a line whose first `=` is at `i` and whose two halves strip to the pair. */
  lemma HalvesShape(line: string, stripped: string, i: nat, name: string, gateway: string)
      returns (w1: string, w2: string, w3: string, w4: string)
    requires stripped == Strip(line) && i < |stripped| && stripped[i] == '='
    requires Strip(stripped[..i]) == name && Strip(stripped[i + 1..]) == gateway
    ensures PaddedLine(line, name, gateway, w1, w2, w3, w4)
  {
    var left, right := CutAt(stripped, i);
    var p1, p4 := StripAround(line);
    var q1, q2 := StripAround(left);
    var r1, r2 := StripAround(right);
    Regroup(line, stripped, left, right, name, gateway, p1, p4, q1, q2, r1, r2);
    AllSpaceAppend(p1, q1);
    AllSpaceAppend(r2, p4);
    w1, w2, w3, w4 := p1 + q1, q2, r1, r2 + p4;
  }

  /** The text before and after position `i`. */
  lemma CutAt(s: string, i: nat) returns (left: string, right: string)
    requires i < |s|
    ensures left == s[..i] && right == s[i + 1..]
    ensures s == left + [s[i]] + right
  {
    left, right := s[..i], s[i + 1..];
  }

  /** The padding of a line and of its two halves, regrouped around the key and the value. */
  lemma Regroup(line: string, stripped: string, left: string, right: string, name: string, gateway: string,
                p1: string, p4: string, q1: string, q2: string, r1: string, r2: string)
    requires line == p1 + stripped + p4 && stripped == left + "=" + right
    requires left == q1 + name + q2 && right == r1 + gateway + r2
    ensures line == (p1 + q1) + name + q2 + "=" + r1 + gateway + (r2 + p4)
  {
  }

  /**
   * Stripping a line that starts with a non-space character cuts only its end, and keeps every
   * character up to any later non-space one.
   */
  lemma StripKeepsPrefix(line: string, j: nat)
    requires j < |line| && !IsSpace(line[0]) && !IsSpace(line[j])
    ensures j < |Strip(line)| && Strip(line) == line[..|Strip(line)|]
  {
    assert TrimStart(line) == line;
  }

  // ---- Lemmas about whole files ----

  /** Reading back lines written for valid entries gives the same entries, in order. */
  lemma {:induction false} ParseRender(entries: seq<Entry>)
    requires forall i | 0 <= i < |entries| :: ValidEntry(entries[i])
    ensures Parse(Render(entries)) == entries
  {
    if entries == [] {
      ParseEmpty();
    } else {
      ParseRender(entries[1..]);
      ParseRenderCons(entries);
      assert entries == [entries[0]] + entries[1..];
    }
  }

  /** A written file reads back as its first entry followed by what the rest reads back as. */
  lemma ParseRenderCons(entries: seq<Entry>)
    requires entries != [] && ValidEntry(entries[0])
    ensures Parse(Render(entries)) == [entries[0]] + Parse(Render(entries[1..]))
  {
    var e := entries[0];
    var line := e.name + "=" + e.gateway;
    var rest := Lines(Render(entries[1..]));
    calc {
      Parse(Render(entries));
      Keep(Lines(Render(entries)), ParseLine);
      { LinesOfRender(entries); }
      Keep([line] + rest, ParseLine);
      { ParseFileLine(e.name, e.gateway); KeepCons(line, rest, ParseLine); }
      [e] + Keep(rest, ParseLine);
    }
  }

  /** An empty file holds no entries. */
  lemma ParseEmpty()
    ensures Parse("") == []
  {
    assert Lines("") == [""];
    assert Strip("") == "";
  }

  /** The first line of a written file is the first entry's line, without its line break. */
  lemma LinesOfRender(entries: seq<Entry>)
    requires entries != [] && ValidEntry(entries[0])
    ensures Lines(Render(entries)) ==
      [entries[0].name + "=" + entries[0].gateway] + Lines(Render(entries[1..]))
  {
    var e := entries[0];
    var line := e.name + "=" + e.gateway;
    var rest := Render(entries[1..]);
    NoEqualsOrBreak(e.name);
    NoEqualsOrBreak(e.gateway);
    assert Render(entries) == line + ['\n'] + rest;
    SplitFirst(line, '\n', rest, {'\n', '\r'});
  }

  /** The text of `lines`, each followed by the line end `eol`. */
  function JoinLines(lines: seq<string>, eol: string): string {
    if lines == [] then "" else lines[0] + eol + JoinLines(lines[1..], eol)
  }

  /** A line holding neither `\n` nor `\r`. */
  predicate NoBreak(line: string) {
    forall k | 0 <= k < |line| :: line[k] != '\n' && line[k] != '\r'
  }

  /**
   * Universal newlines: a file whose lines end in `\r\n`, or in `\r`, loads exactly as the same
   * lines ending in `\n`.
   */
  lemma {:induction false} LineEndsAgree(lines: seq<string>, eol: string)
    requires forall i | 0 <= i < |lines| :: NoBreak(lines[i])
    requires eol == "\r\n" || eol == "\r"
    ensures Parse(JoinLines(lines, eol)) == Parse(JoinLines(lines, "\n"))
  {
    if lines != [] {
      var line := lines[0];
      var rest := JoinLines(lines[1..], eol);
      var restLf := JoinLines(lines[1..], "\n");
      LineEndsAgree(lines[1..], eol);
      LineEnd(line, '\n', restLf);
      if eol == "\r" {
        LineEnd(line, '\r', rest);
      } else {
        LineEndCrLf(line, rest);
        KeepHead("", Lines(rest), ParseLine);
      }
      KeepHead(line, Lines(rest), ParseLine);
      KeepHead(line, Lines(restLf), ParseLine);
    }
  }

  /** A line followed by a single `\n` or `\r` reads as that line, then the lines of the rest. */
  lemma LineEnd(line: string, eol: char, rest: string)
    requires NoBreak(line) && (eol == '\n' || eol == '\r')
    ensures Lines(line + [eol] + rest) == [line] + Lines(rest)
  {
    SplitFirst(line, eol, rest, {'\n', '\r'});
  }

  /** A `\r\n` line end reads as a line end followed by an empty line, which holds no pair. */
  lemma LineEndCrLf(line: string, rest: string)
    requires NoBreak(line)
    ensures Lines(line + "\r\n" + rest) == [line] + ([""] + Lines(rest))
    ensures ParseLine("") == None
  {
    assert line + "\r\n" + rest == line + ['\r'] + ([] + ['\n'] + rest);
    assert [] + ['\n'] + rest == ['\n'] + rest;
    SplitFirst(line, '\r', [] + ['\n'] + rest, {'\n', '\r'});
    SplitFirst([], '\n', rest, {'\n', '\r'});
    assert Strip("") == "";
  }

  lemma {:induction false} EntryMapKeys(entries: seq<Entry>)
    ensures forall k :: k in EntryMap(entries) <==> k in EntryNames(entries)
  {
    if entries != [] {
      var init := entries[..|entries| - 1];
      EntryMapKeys(init);
      assert EntryNames(entries) == EntryNames(init) + [entries[|entries| - 1].name];
    }
  }

  lemma {:induction false} EntryMapValues(entries: seq<Entry>, gateways: map<string, string>)
    requires forall i | 0 <= i < |entries| :: entries[i].name in gateways && entries[i].gateway == gateways[entries[i].name]
    ensures forall k | k in EntryMap(entries) :: k in gateways && EntryMap(entries)[k] == gateways[k]
  {
    if entries != [] {
      EntryMapValues(entries[..|entries| - 1], gateways);
    }
  }

  /** A key's value after loading is the value on the last line that has that key. */
  lemma {:induction false} EntryMapLastWins(entries: seq<Entry>, i: nat)
    requires i < |entries|
    requires forall j | i < j < |entries| :: entries[j].name != entries[i].name
    ensures entries[i].name in EntryMap(entries) && EntryMap(entries)[entries[i].name] == entries[i].gateway
  {
    if i < |entries| - 1 {
      EntryMapLastWins(entries[..|entries| - 1], i);
    }
  }

  /** What `carregar_isps` builds from any text is a consistent registry. */
  lemma LoadedConsistent(text: string)
    ensures Consistent(EntryNames(Parse(text)), EntryMap(Parse(text)))
  {
    var entries := Parse(text);
    EntryMapKeys(entries);
    var names := EntryNames(entries);
    forall i | 0 <= i < |names| ensures names[i] in EntryMap(entries) {
      assert names[i] in EntryNames(entries);
    }
  }

  /** Every accepted line passes the loader's two patterns. */
  lemma ParseLinesValid(lines: seq<string>)
    ensures forall i | 0 <= i < |ParseLines(lines)| :: ValidEntry(ParseLines(lines)[i])
  {
    KeepAll(lines, ParseLine, ValidEntry);
  }

  /** Every key and gateway a load puts in the map passes the loader's patterns. */
  lemma LoadedValid(text: string)
    ensures ValidMap(EntryMap(Parse(text)))
  {
    ParseLinesValid(Lines(text));
    EntryMapValid(Parse(text));
  }

  lemma {:induction false} EntryMapValid(entries: seq<Entry>)
    requires forall i | 0 <= i < |entries| :: ValidEntry(entries[i])
    ensures ValidMap(EntryMap(entries))
  {
    if entries != [] {
      EntryMapValid(entries[..|entries| - 1]);
    }
  }

  /**
   * Save then load: for a registry whose names and gateways pass the loader's patterns, the
   * reloaded map is the saved map, and the reloaded list holds the same names sorted by name.
   */
  lemma RoundTrip(names: seq<string>, gateways: map<string, string>)
    requires Consistent(names, gateways) && ValidMap(gateways)
    ensures EntryMap(Parse(Serialize(names, gateways))) == gateways
    ensures EntryNames(Parse(Serialize(names, gateways))) == SortBy(names, NameKey)
    ensures multiset(EntryNames(Parse(Serialize(names, gateways)))) == multiset(names)
    ensures SortedBy(EntryNames(Parse(Serialize(names, gateways))), NameKey)
  {
    var sorted := SortBy(names, NameKey);
    SortBySorted(names, NameKey);
    SortedNamesListed(names, gateways);
    var entries := Entries(sorted, gateways);
    assert forall i | 0 <= i < |entries| :: ValidEntry(entries[i]);
    ParseRender(entries);
    assert EntryNames(entries) == sorted;
    ReloadedMap(entries, sorted, gateways);
  }

  /** The names sorted for writing are exactly the registry's keys. */
  lemma SortedNamesListed(names: seq<string>, gateways: map<string, string>)
    requires Consistent(names, gateways)
    ensures Listed(SortBy(names, NameKey), gateways)
    ensures forall k :: k in SortBy(names, NameKey) <==> k in gateways
  {
    var sorted := SortBy(names, NameKey);
    SortBySorted(names, NameKey);
    forall k ensures k in sorted <==> k in names {
      assert k in sorted <==> k in multiset(sorted);
      assert k in names <==> k in multiset(names);
    }
    forall i | 0 <= i < |sorted| ensures sorted[i] in gateways {
      assert sorted[i] in sorted;
    }
  }

  /** Loading the entries of a consistent registry, in any order of its names, rebuilds its map. */
  lemma ReloadedMap(entries: seq<Entry>, names: seq<string>, gateways: map<string, string>)
    requires Listed(names, gateways) && entries == Entries(names, gateways)
    requires forall k :: k in names <==> k in gateways
    ensures EntryMap(entries) == gateways
  {
    assert EntryNames(entries) == names;
    EntryMapKeys(entries);
    EntryMapValues(entries, gateways);
  }

  // ---- Steps of the read and write loops ----

  lemma {:induction false} RenderSnoc(entries: seq<Entry>, e: Entry)
    ensures Render(entries + [e]) == Render(entries) + FileLine(e)
  {
    if entries != [] {
      assert (entries + [e])[1..] == entries[1..] + [e];
      RenderSnoc(entries[1..], e);
    }
  }
}
