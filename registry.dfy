/**
 * The registry of ISPs: the global list `ISP_NAMES` (insertion order, repeats possible) and the
 * global dictionary `ISP_GATEWAYS` (name to gateway), with the operations of the tool that
 * change them in place. Every operation that ends in `salvar_isps` returns the text written to
 * the configuration file; reading the file is replaced by the file's text, or `None` when the
 * file does not exist.
 */
module Registry {
  import opened Wrappers
  import opened Text
  import opened Order
  import opened Gateway
  import opened ConfigFile
  import opened Defaults
  import opened Detection
  import opened Rotation

  // ---- The list comprehensions of `gerenciar_isps` ----

  /** `[novo_nome if name == isp_antigo else name for name in ISP_NAMES]`. */
  function Replace(names: seq<string>, oldName: string, newName: string): (r: seq<string>)
    ensures |r| == |names|
  {
    seq(|names|, i requires 0 <= i < |names| => if names[i] == oldName then newName else names[i])
  }

  /**
   * After the replacement the old name is gone (unless it is also the new one), the new name is
   * there when the old one was, and no other name appears.
   */
  lemma ReplaceMembers(names: seq<string>, oldName: string, newName: string)
    ensures var r := Replace(names, oldName, newName);
      && (oldName != newName ==> oldName !in r)
      && (oldName in names ==> newName in r)
      && (forall n | n in r :: n == newName || n in names)
  {
    var r := Replace(names, oldName, newName);
    if oldName in names {
      var i :| 0 <= i < |names| && names[i] == oldName;
      assert r[i] == newName;
    }
    forall n | n in r ensures n == newName || n in names {
      var i :| 0 <= i < |r| && r[i] == n;
    }
  }

  /** `[name for name in ISP_NAMES if name != isp_remover]`. */
  function Without(names: seq<string>, x: string): (r: seq<string>)
    ensures forall i | 0 <= i < |r| :: r[i] != x && r[i] in names
    ensures forall i | 0 <= i < |names| && names[i] != x :: names[i] in r
  {
    if names == [] then []
    else Without(names[..|names| - 1], x) + if names[|names| - 1] == x then [] else [names[|names| - 1]]
  }

  /** Filtering keeps every other name as often as it was there and drops every copy of `x`. */
  lemma {:induction false} WithoutCounts(names: seq<string>, x: string)
    ensures multiset(Without(names, x)) == multiset(names)[x := 0]
  {
    if names != [] {
      var init := names[..|names| - 1];
      var last := names[|names| - 1];
      WithoutCounts(init, x);
      assert names == init + [last];
    }
  }

  /** Filtering keeps the other names in their order: it leaves a list without `x` unchanged. */
  lemma {:induction false} WithoutAbsent(names: seq<string>, x: string)
    requires x !in names
    ensures Without(names, x) == names
  {
    if names != [] {
      var init, last := names[..|names| - 1], names[|names| - 1];
      assert names == init + [last];
      assert x !in init;
      WithoutAbsent(init, x);
    }
  }

  /** Filtering a concatenation filters each part and keeps them in order. */
  lemma {:induction false} WithoutAppend(a: seq<string>, b: seq<string>, x: string)
    ensures Without(a + b, x) == Without(a, x) + Without(b, x)
    decreases |b|
  {
    if b == [] {
      assert a + b == a;
    } else {
      var init, last := b[..|b| - 1], b[|b| - 1];
      assert (a + b)[..|a + b| - 1] == a + init;
      assert (a + b)[|a + b| - 1] == last;
      WithoutAppend(a, init, x);
    }
  }

  // ---- What each mutation does to a consistent registry ----

  /** Appending a name and setting its gateway keeps the list and the map in agreement. */
  lemma AddKeepsConsistent(names: seq<string>, gateways: map<string, string>, name: string, gw: string)
    requires Listed(names, gateways)
    ensures Listed(names + [name], gateways[name := gw])
    ensures Consistent(names, gateways) ==> Consistent(names + [name], gateways[name := gw])
    ensures (names + [name])[|names|] == name && gateways[name := gw][name] == gw
    ensures forall k | k in gateways && k != name :: gateways[name := gw][k] == gateways[k]
  {
    var n2 := names + [name];
    if Consistent(names, gateways) {
      forall k | k in gateways[name := gw] ensures k in n2 {
        if k != name {
          var i :| 0 <= i < |names| && names[i] == k;
          assert n2[i] == k;
        }
      }
    }
  }

  /** Removing a name from both structures keeps them in agreement and leaves every other entry. */
  lemma RemoveKeepsConsistent(names: seq<string>, gateways: map<string, string>, name: string)
    requires Listed(names, gateways)
    ensures Listed(Without(names, name), gateways - {name})
    ensures Consistent(names, gateways) ==> Consistent(Without(names, name), gateways - {name})
    ensures name !in Without(names, name) && name !in gateways - {name}
    ensures forall k | k in gateways && k != name :: k in gateways - {name} && (gateways - {name})[k] == gateways[k]
  {
    var r := Without(names, name);
    forall i | 0 <= i < |r| ensures r[i] in gateways - {name} {
      assert r[i] in names;
      var j :| 0 <= j < |names| && names[j] == r[i];
    }
  }

  /**
   * Renaming to a fresh name keeps the registry consistent: every position of the list keeps
   * its ISP's gateway under the ISP's new name, and every entry other than the renamed one is
   * untouched.
   */
  lemma RenameKeepsConsistent(names: seq<string>, gateways: map<string, string>, oldName: string, newName: string)
    requires Listed(names, gateways) && oldName in gateways && newName !in gateways
    ensures var n2, g2 := Replace(names, oldName, newName), (gateways - {oldName})[newName := gateways[oldName]];
      && Listed(n2, g2)
      && (Consistent(names, gateways) ==> Consistent(n2, g2))
      && (forall i | 0 <= i < |names| :: g2[n2[i]] == gateways[names[i]])
      && oldName !in g2 && g2[newName] == gateways[oldName]
      && (forall k | k in gateways && k != oldName :: k in g2 && g2[k] == gateways[k])
  {
    var n2, g2 := Replace(names, oldName, newName), (gateways - {oldName})[newName := gateways[oldName]];
    if Consistent(names, gateways) {
      forall k | k in g2 ensures k in n2 {
        var j :| 0 <= j < |names| && names[j] == (if k == newName then oldName else k);
        assert n2[j] == k;
      }
    }
  }

  /**
   * Renaming to any other name, taken or not, keeps the list and the map in agreement. The old
   * name's gateway moves to the new name, and every entry other than those two is untouched.
   */
  lemma RenameMerge(names: seq<string>, gateways: map<string, string>, oldName: string, newName: string)
    requires Listed(names, gateways) && oldName in gateways && newName != oldName
    ensures var n2, g2 := Replace(names, oldName, newName), (gateways - {oldName})[newName := gateways[oldName]];
      && Listed(n2, g2)
      && (Consistent(names, gateways) ==> Consistent(n2, g2))
      && (forall i | 0 <= i < |names| && names[i] != newName :: g2[n2[i]] == gateways[names[i]])
      && oldName !in g2 && g2[newName] == gateways[oldName]
      && (forall k | k in gateways && k != oldName && k != newName :: k in g2 && g2[k] == gateways[k])
  {
    var n2, g2 := Replace(names, oldName, newName), (gateways - {oldName})[newName := gateways[oldName]];
    if Consistent(names, gateways) {
      forall k | k in g2 ensures k in n2 {
        if k == newName {
          var j :| 0 <= j < |names| && names[j] == oldName;
          assert n2[j] == k;
        } else {
          var j :| 0 <= j < |names| && names[j] == k;
          assert n2[j] == k;
        }
      }
    }
  }

  /**
   * Renaming onto a name that is already listed merges the two ISPs. The target's name is then
   * listed twice, in its own place and in the renamed ISP's place, and it now holds the renamed
   * ISP's gateway. Unless another ISP shares the target's old gateway, that gateway is gone.
   */
  lemma RenameOntoExisting(names: seq<string>, gateways: map<string, string>, oldName: string, newName: string, i: nat, j: nat)
    requires Listed(names, gateways) && newName != oldName
    requires 0 <= i < |names| && names[i] == oldName
    requires 0 <= j < |names| && names[j] == newName
    ensures var n2, g2 := Replace(names, oldName, newName), (gateways - {oldName})[newName := gateways[oldName]];
      && i != j && n2[i] == newName && n2[j] == newName
      && g2[newName] == gateways[oldName]
    ensures var g2 := (gateways - {oldName})[newName := gateways[oldName]];
      (forall k | k in gateways && k != newName :: gateways[k] != gateways[newName]) ==> gateways[newName] !in g2.Values
  {
    var g2 := (gateways - {oldName})[newName := gateways[oldName]];
    var gw := gateways[newName];
    if forall k | k in gateways && k != newName :: gateways[k] != gw {
      forall k | k in g2 ensures g2[k] != gw {
        if k != newName {
          assert k in gateways && g2[k] == gateways[k];
        }
      }
    }
  }

  // ---- The rename as written, and what it does when the name does not change ----

  /**
   * Rename exactly as the menu does it: set the new key, then delete the old one, then replace
   * the name in the list. When both names are the same the deletion undoes the assignment.
   */
  function RenameAsWritten(names: seq<string>, gateways: map<string, string>, oldName: string, newName: string): (r: (seq<string>, map<string, string>))
    requires oldName in gateways
    ensures |r.0| == |names| && oldName !in r.1
  {
    (Replace(names, oldName, newName), gateways[newName := gateways[oldName]] - {oldName})
  }

  /**
   * Renaming a listed ISP to its own name leaves it in the list but not in the map, so the
   * `salvar_isps` that follows fails on `ISP_GATEWAYS[isp]` with a KeyError.
   */
  lemma RenameToSameNameBreaksRegistry(names: seq<string>, gateways: map<string, string>, name: string)
    requires name in names && name in gateways
    ensures var r := RenameAsWritten(names, gateways, name, name);
      && name in r.0 && name !in r.1
      && !Listed(r.0, r.1)
  {
    var r := RenameAsWritten(names, gateways, name, name);
    var i :| 0 <= i < |names| && names[i] == name;
    assert r.0[i] == name;
  }

  // ---- The registry ----

  class IspRegistry {
    var names: seq<string>
    var gateways: map<string, string>

    /** Every listed name has a gateway and every gateway belongs to a listed name. */
    ghost predicate Valid()
      reads this
    {
      Consistent(names, gateways)
    }

    /** The program starts with an empty list and an empty map. */
    constructor ()
      ensures names == [] && gateways == map[]
      ensures Valid()
    {
      names := [];
      gateways := map[];
    }

    /**
     * `carregar_isps`: with a file, clear both structures and append every accepted line in
     * file order; without one, create the default configuration and return the text written.
     */
    method Load(file: Option<string>) returns (written: Option<string>)
      modifies this
      ensures file.Some? ==> names == EntryNames(Parse(file.value)) && gateways == EntryMap(Parse(file.value))
      ensures file.Some? ==> written == None && Valid() && ValidMap(gateways)
      ensures file.None? ==> names == DefaultNames && gateways == old(gateways) + DefaultMap
      ensures file.None? ==> Listed(names, gateways) && written == Some(Serialize(names, gateways))
      ensures file.None? && (forall k | k in old(gateways) :: k in DefaultNames) ==> Valid()
    {
      match file
      case Some(text) =>
        LoadLines(Lines(text));
        LoadedConsistent(text);
        LoadedValid(text);
        written := None;
      case None =>
        var text := CreateDefault();
        written := Some(text);
    }

    /** The loop of `carregar_isps` over the file's lines, after clearing both structures. */
    method LoadLines(lines: seq<string>)
      modifies this
      ensures names == EntryNames(ParseLines(lines)) && gateways == EntryMap(ParseLines(lines))
    {
      names := [];
      gateways := map[];
      ghost var entries: seq<Entry> := [];
      var i := 0;
      while i < |lines|
        invariant 0 <= i <= |lines| && entries == ParseLines(lines[..i])
        invariant names == EntryNames(entries) && gateways == EntryMap(entries)
      {
        var parsed := ParseLine(lines[i]);
        ParseLinesStep(lines, i);
        if parsed.Some? {
          var e := parsed.value;
          AppendEntry(entries, e);
          names := names + [e.name];
          gateways := gateways[e.name := e.gateway];
          entries := entries + [e];
        }
        i := i + 1;
      }
      assert lines[..i] == lines;
    }

    /**
     * `criar_configuracao_padrao`: the names `ISP-01` to `ISP-64`, each given its default
     * gateway, then saved. The map is not cleared first, so entries already in it stay.
     */
    method CreateDefault() returns (written: string)
      modifies this
      ensures names == DefaultNames && gateways == old(gateways) + DefaultMap
      ensures Listed(names, gateways)
      ensures written == Serialize(names, gateways)
      ensures (forall k | k in old(gateways) :: k in DefaultNames) ==> Valid()
    {
      ghost var before := gateways;
      names := DefaultNames;
      PutAll(DefaultEntries);
      DefaultsMerged(before);
      written := Save();
    }

    /**
     * The loop of `criar_configuracao_padrao`: set each name to its gateway in turn, here for
     * any list of pairs.
     */
    method PutAll(entries: seq<Entry>)
      modifies this
      ensures names == old(names) && gateways == old(gateways) + EntryMap(entries)
    {
      var i := 0;
      while i < |entries|
        invariant 0 <= i <= |entries| && names == old(names)
        invariant gateways == old(gateways) + EntryMap(entries[..i])
      {
        assert entries[..i + 1] == entries[..i] + [entries[i]];
        AppendEntry(entries[..i], entries[i]);
        MergeUpdate(old(gateways), EntryMap(entries[..i]), entries[i].name, entries[i].gateway);
        gateways := gateways[entries[i].name := entries[i].gateway];
        i := i + 1;
      }
      assert entries[..i] == entries;
    }

    /** `salvar_isps`: one `name=gateway` line per listed name, names in ascending order. */
    method Save() returns (text: string)
      requires Listed(names, gateways)
      ensures text == Serialize(names, gateways)
    {
      var sorted := SortBy(names, NameKey);
      assert Listed(sorted, gateways) by {
        forall i | 0 <= i < |sorted| ensures sorted[i] in gateways {
          assert sorted[i] in multiset(names);
        }
      }
      ghost var lines := Entries(sorted, gateways);
      text := "";
      var i := 0;
      while i < |sorted|
        invariant 0 <= i <= |sorted|
        invariant text == Render(lines[..i])
      {
        assert lines[..i + 1] == lines[..i] + [lines[i]];
        RenderSnoc(lines[..i], lines[i]);
        text := text + FileLine(Entry(sorted[i], gateways[sorted[i]]));
        i := i + 1;
      }
      assert lines[..i] == lines;
    }

    /**
     * Option 99 after detection: search the list ordered by gateway for the first entry with the
     * detected gateway and choose the entry after it, wrapping round.
     */
    method NextIsp(listing: string) returns (choice: Choice)
      requires Listed(names, gateways)
      ensures choice == NextChoice(names, gateways, listing)
    {
      var gw := Detect(listing);
      if gw == "" {
        return Undetected;
      }
      var ordered := OrderedByGateway(names, gateways);
      if ordered.None? {
        return Unordered;
      }
      OrderedByGatewaySorted(names, gateways);
      choice := ChooseAfter(ordered.value, gw);
    }

    /** The choice once the list is ordered: search it, then step to the following entry. */
    method ChooseAfter(list: seq<string>, gw: string) returns (choice: Choice)
      requires Listed(list, gateways)
      ensures choice == ChoiceAfter(list, gateways, gw)
    {
      var found := SearchGateway(list, gw);
      if found.None? {
        return NotListed;
      }
      var current := found.value;
      var next := (current + 1) % |list|;
      choice := Chosen(next, list[next], gateways[list[next]]);
    }

    /** The search of option 99: the position of the first entry of `list` with gateway `gw`. */
    method SearchGateway(list: seq<string>, gw: string) returns (found: Option<nat>)
      requires Listed(list, gateways)
      ensures found == FirstWithGateway(list, gateways, gw)
    {
      var current := -1;
      var i := 0;
      while i < |list|
        invariant 0 <= i <= |list| && current == -1
        invariant forall k | 0 <= k < i :: gateways[list[k]] != gw
      {
        if gateways[list[i]] == gw {
          current := i;
          break;
        }
        i := i + 1;
      }
      if current == -1 {
        return None;
      }
      found := Some(current);
      assert FirstWithGateway(list, gateways, gw) == found;
    }

    /**
     * Option 2 of `gerenciar_isps`: with both stripped fields non-empty, append the name, set its
     * gateway and save; otherwise change nothing. A name already present is appended again.
     */
    method Add(rawName: string, rawGateway: string) returns (written: Option<string>)
      requires Listed(names, gateways)
      modifies this
      ensures var name, gw := Strip(rawName), Strip(rawGateway);
        if name != [] && gw != [] then
          && names == old(names) + [name] && gateways == old(gateways)[name := gw]
          && Listed(names, gateways) && written == Some(Serialize(names, gateways))
        else
          names == old(names) && gateways == old(gateways) && written == None
      ensures old(Valid()) ==> Valid()
    {
      var name := Strip(rawName);
      var gw := Strip(rawGateway);
      if name != [] && gw != [] {
        AddKeepsConsistent(names, gateways, name, gw);
        names := names + [name];
        gateways := gateways[name := gw];
        var text := Save();
        written := Some(text);
      } else {
        written := None;
      }
    }

    /**
     * Option 3 of `gerenciar_isps`, once confirmed: delete the name from the map, filter it out of
     * the list and save.
     */
    method Remove(name: string) returns (written: string)
      requires Listed(names, gateways) && name in gateways
      modifies this
      ensures gateways == old(gateways) - {name} && names == Without(old(names), name)
      ensures name !in names && Listed(names, gateways) && written == Serialize(names, gateways)
      ensures old(Valid()) ==> Valid()
    {
      RemoveKeepsConsistent(names, gateways, name);
      gateways := gateways - {name};
      names := Without(names, name);
      written := Save();
    }

    /**
     * Option 1 of `gerenciar_isps`: with a non-empty stripped new name, move the gateway to the
     * new key, replace the old name wherever it is listed, and save. A new name equal to the old
     * one changes nothing (the menu's own code loses the entry then).
     */
    method Rename(oldName: string, rawNew: string) returns (written: Option<string>)
      requires Listed(names, gateways) && oldName in gateways
      modifies this
      ensures var newName := Strip(rawNew);
        if newName == [] || newName == oldName then
          names == old(names) && gateways == old(gateways) && written == None
        else
          && names == Replace(old(names), oldName, newName)
          && gateways == (old(gateways) - {oldName})[newName := old(gateways)[oldName]]
          && Listed(names, gateways) && written == Some(Serialize(names, gateways))
      ensures Listed(names, gateways) && (old(Valid()) ==> Valid())
    {
      var newName := Strip(rawNew);
      if newName == [] || newName == oldName {
        written := None;
      } else {
        RenameMerge(names, gateways, oldName, newName);
        var gw := gateways[oldName];
        gateways := (gateways - {oldName})[newName := gw];
        names := Replace(names, oldName, newName);
        var text := Save();
        written := Some(text);
      }
    }
  }

  /** The accepted lines among the first `i + 1`: those among the first `i`, then line `i` if accepted. */
  lemma ParseLinesStep(lines: seq<string>, i: nat)
    requires i < |lines|
    ensures ParseLine(lines[i]).Some? ==> ParseLines(lines[..i + 1]) == ParseLines(lines[..i]) + [ParseLine(lines[i]).value]
    ensures ParseLine(lines[i]).None? ==> ParseLines(lines[..i + 1]) == ParseLines(lines[..i])
  {
    KeepStep(lines, i, ParseLine);
  }

  /** Adding the default pairs to a map lists every default name; the result is consistent when the map held only default names. */
  lemma DefaultsMerged(before: map<string, string>)
    ensures Listed(DefaultNames, before + DefaultMap)
    ensures forall k :: k in before + DefaultMap <==> k in before || k in DefaultNames
    ensures (forall k | k in before :: k in DefaultNames) ==> Consistent(DefaultNames, before + DefaultMap)
  {
    DefaultMapLookup();
    DefaultMapKeys();
  }

  /** Setting a key after a merge is the same as setting it in the map merged in. */
  lemma MergeUpdate(a: map<string, string>, b: map<string, string>, k: string, v: string)
    ensures (a + b)[k := v] == a + b[k := v]
  {
  }

  /** Loading one more accepted line appends its name and sets its gateway. */
  lemma AppendEntry(entries: seq<Entry>, e: Entry)
    ensures EntryNames(entries + [e]) == EntryNames(entries) + [e.name]
    ensures EntryMap(entries + [e]) == EntryMap(entries)[e.name := e.gateway]
  {
    assert (entries + [e])[..|entries|] == entries;
  }
}
