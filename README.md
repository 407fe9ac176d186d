# Controle WG: a Dafny model of the ISP registry and route rotation

`ROTA-ACC-WG.py` is an interactive console tool. It switches the gateway a MikroTik router uses
for the private address ranges. It keeps a registry of ISPs: the list `ISP_NAMES` and the
dictionary `ISP_GATEWAYS` (name to gateway). The registry is stored in `~/.wg_isps.conf`, one
`name=gateway` line per ISP. The tool reads the router's route listing to detect which gateway
is in use, and names the ISP it belongs to. Option 99 rotates to the next ISP in gateway order.
Activating a gateway sends one removal command, four `add` commands and one log command, and
counts the replies.

This project models that core and proves properties about it:

- `wrappers.dfy` (`Wrappers`): `Option`, and `Keep`, a filter-map used for the loader's loop.
- `text.dfy` (`Text`): the Python string operations the tool relies on. These are `str.strip`
  with Python's whitespace set, `split` at a set of separators, lower-casing, and decimal
  digits.
- `order.dfy` (`Order`): Python's ordering of integer lists, and `sorted`, modelled as a
  stable insertion sort.
- `gateway.dfy` (`Gateway`): `obter_isps_ordenados`, which lists the names in ascending numeric
  order of their gateways.
- `config.dfy` (`ConfigFile`): the configuration file as text. It covers the line parser of
  `carregar_isps` and the writer of `salvar_isps`.
- `defaults.dfy` (`Defaults`): the 64-entry default registry of `criar_configuracao_padrao`.
- `detection.dfy` (`Detection`): `detectar_gateway_atual` (`re.findall` plus
  `Counter.most_common(1)`) and `obter_isp_atual`.
- `rotation.dfy` (`Rotation`): the choice option 99 makes, and what repeated rotation visits.
- `activation.dfy` (`Activation`): the commands `configurar_rotas_mikrotik` sends, and its
  count of successful replies.
- `registry.dfy` (`Registry`): the class `IspRegistry`. It holds the two globals as fields and
  has methods for loading, creating the default registry, saving, option 99's search, and the
  rename, add and remove operations of `gerenciar_isps`.

Outside effects become parameters:

- The router's replies are inputs: the route listing for detection, and the four `add` replies
  for activation.
- The configuration file is `Option<string>`: `None` when the file does not exist, otherwise
  its text.
- Every operation that ends in `salvar_isps` returns the text it would write.

Two ISPs may share a gateway, since option 2 adds an ISP without checking its gateway. The
ordering of `obter_isps_ordenados` then never lists the earlier of them
(`Gateway.SharedGatewayHidesName`); the later one takes its place as well. The two copies are
usually side by side. The exception is a gateway with the same numeric value but other text
(`10.131.131.05` beside `10.131.131.5`), which can sort between them. When the two copies are
adjacent, option 99 moves from the first to the second and then keeps choosing it
(`Rotation.SharedGatewayStalls`), so rotation never passes that gateway. With distinct gateways, `n` uses of option 99 visit every ISP once
(`Rotation.StepsDistinct`).

The loader's value pattern `^[0-9.]+$` accepts a gateway with an empty part, such as `10..1`.
Ordering a registry that holds one then fails, because `int('')` raises `ValueError`
(`ConfigFile.EmptyPartPassesLoader`).

As in the source, an empty `add` reply counts as a success. `executar_mikrotik` also returns an
empty string when the SSH call fails, so a call that never reached the router counts as well.

## Model

| member | source | states |
|---|---|---|
| Text.Strip | ROTA-ACC-WG.py:173 | The result has no whitespace at either end, and a string with none is returned unchanged. |
| Text.StripPiece | ROTA-ACC-WG.py:173 | The stripped string occurs in the input, with only whitespace before it and after it. |
| Text.StripPadded | ROTA-ACC-WG.py:176-177 | Whitespace on both sides of a non-empty trimmed string is removed, and nothing else is. |
| Text.FirstIndexIn | ROTA-ACC-WG.py:174-175 | The result is `None` exactly when no character is a separator; otherwise it is the position of the first separator. |
| Text.StripAround | ROTA-ACC-WG.py:173 | Any string is the stripped string with a run of whitespace before it and one after it. |
| Text.SplitFirst | ROTA-ACC-WG.py:172 | Text whose first separator ends its first piece splits into that piece, then the pieces of the rest. |
| Text.SplitFour | ROTA-ACC-WG.py:155 | `a.b.c.d` with no dot inside the parts splits into exactly those four parts. |
| Text.Split | ROTA-ACC-WG.py:155 | `x.split('.')`; `SplitPieces` states its count and that no piece holds a separator, and `SplitFirst`, `SplitFour` and `SplitNone` state how it splits. |
| Text.SplitJoin | ROTA-ACC-WG.py:155 | Joining the pieces of a split at one separator with that separator gives back the text. |
| Text.SplitPieces | ROTA-ACC-WG.py:155 | Splitting gives one piece more than there are separators, and no piece holds a separator. |
| Text.CountInAppend | ROTA-ACC-WG.py:155 | The separators in two joined strings are those of the first plus those of the second. |
| Text.DecimalValue | ROTA-ACC-WG.py:155 | `int()` on a run of decimal digits; `DecimalRoundTrip` states that it reads back the digits `NatToString` writes. |
| Text.DecimalRoundTrip | ROTA-ACC-WG.py:155 | Reading back the decimal digits written for a number gives that number. |
| Order.LexLeTotal | ROTA-ACC-WG.py:155 | Any two integer lists are comparable under Python's list order. |
| Order.LexLeTransitive | ROTA-ACC-WG.py:155 | Python's list order is transitive. |
| Order.LexLeAntisymmetric | ROTA-ACC-WG.py:155 | Two lists that are each `<=` the other are equal. |
| Order.LexLePrefix | ROTA-ACC-WG.py:155 | Putting a common prefix in front does not change the order of two lists. |
| Order.Insert | ROTA-ACC-WG.py:155 | Inserting an element adds exactly that element to the multiset. |
| Order.SortBy | ROTA-ACC-WG.py:155 | The sorted list has the input's length and multiset. |
| Order.InsertSorted | ROTA-ACC-WG.py:155 | Inserting into a list sorted by key keeps it sorted by key. |
| Order.SortBySorted | ROTA-ACC-WG.py:155 | `sorted(s, key=...)` is sorted by key and is a permutation of `s`. |
| Order.SortBySortedInput | ROTA-ACC-WG.py:222 | Sorting a list that is already sorted leaves it unchanged. |
| Order.SortByDistinct | ROTA-ACC-WG.py:155 | Sorting a list without repeats gives a list without repeats. |
| Gateway.GatewayToName | ROTA-ACC-WG.py:146-152 | Every listed gateway maps to a name that has it. A gateway held by only one name maps to that name. |
| Gateway.GatewayList | ROTA-ACC-WG.py:146-151 | `gateways_temp`: `OrderedByGatewayFails` states that its entries are the listed names' gateways in list order, and `DefaultGatewayOrder` computes it for the default registry. |
| Gateway.NumericGateway | ROTA-ACC-WG.py:155 | `int()` succeeds on every part of `x.split('.')`; `OrderedByGatewayFails` states that the ordering fails exactly when it does not hold, and `EmptyPartPassesLoader` that the loader's pattern lets through gateways where it fails. |
| Gateway.Lookup | ROTA-ACC-WG.py:158 | Each element of the result is the map's value for the element in the same position. |
| Gateway.FirstWithGateway | ROTA-ACC-WG.py:253-255 | The result is `None` exactly when no listed name has the gateway; otherwise it is the first position that has it. |
| Gateway.GatewayKey | ROTA-ACC-WG.py:155 | The sort key `[int(i) for i in x.split('.')]`; `DefaultGatewayKey` computes it for every default gateway, and `OrderedByGatewaySorted` states that the ordering ascends by it. |
| Gateway.OrderedByGateway | ROTA-ACC-WG.py:144-160 | `obter_isps_ordenados`; its cases are stated by `OrderedByGatewayFails`, `OrderedByGatewaySorted`, `OrderedByGatewayPermutation`, `OrderedByGatewayIdentity` and `SharedGatewayHidesName`. |
| Gateway.OrderedByGatewayFails | ROTA-ACC-WG.py:155 | The ordering fails (the `ValueError` of `int()`) exactly when some listed gateway has a part that is not a run of digits. |
| Gateway.OrderedByGatewaySorted | ROTA-ACC-WG.py:144-160 | A successful ordering has one entry per listed name, each entry has a gateway, and the gateways ascend numerically. |
| Gateway.OrderedByGatewayPermutation | ROTA-ACC-WG.py:144-160 | With numeric, pairwise different gateways, the ordering succeeds and is a permutation of the names. |
| Gateway.LookupSortBy | ROTA-ACC-WG.py:155-158 | Sorting the gateways and then looking them up gives the same multiset as looking them up unsorted. |
| Gateway.SharedGatewayHidesName | ROTA-ACC-WG.py:152 | When two names share a gateway, the earlier name does not appear in the ordered list. |
| Gateway.OrderedByGatewayIdentity | ROTA-ACC-WG.py:144-160 | A registry already listed in ascending gateway order, with distinct numeric gateways, is listed unchanged. |
| Gateway.LookupOwnGateways | ROTA-ACC-WG.py:146-158 | With distinct gateways, looking up each name's gateway in `gateway_to_name` gives the names back in order. |
| ConfigFile.ParseLine | ROTA-ACC-WG.py:172-180 | An accepted line always yields a key that matches `^[A-Za-z0-9_-]+$` and a value that matches `^[0-9.]+$`. |
| ConfigFile.Lines | ROTA-ACC-WG.py:172 | Iterating over the file with universal newlines; `LineEndsAgree` states that `\r\n`, `\r` and `\n` line ends load the same pairs, and `LinesOfRender` that written lines read back. |
| ConfigFile.LineEndsAgree | ROTA-ACC-WG.py:172-180 | A file whose lines end in `\r\n` or in `\r` loads exactly the pairs it loads with `\n` line ends. |
| ConfigFile.ValidName | ROTA-ACC-WG.py:178 | `^[A-Za-z0-9_-]+$`; `ParseLineIff` and `ParseLineRejectsKey` state that a line is loaded only when its key passes it. |
| ConfigFile.ValidGatewayText | ROTA-ACC-WG.py:178 | `^[0-9.]+$`; `ParseLineIff` and `ParseLineRejectsValue` state that a line is loaded only when its value passes it, and `EmptyPartPassesLoader` that it lets through `10..1`. |
| ConfigFile.EmptyPartPassesLoader | ROTA-ACC-WG.py:155-178 | A gateway of two digit runs joined by `..`, such as `10..1`, passes the value pattern and its line is loaded, but ordering a registry that holds it fails. |
| ConfigFile.ParseStripped | ROTA-ACC-WG.py:174-178 | An accepted stripped line yields a key and a value that pass both patterns; `SplitAtEquals` states how it splits at the first `=`. |
| ConfigFile.ParseLineIff | ROTA-ACC-WG.py:172-180 | A line is accepted as a pair exactly when the key and the value pass their patterns and the line is the key, `=` and the value with only whitespace around either. |
| ConfigFile.ParseLineNoEquals | ROTA-ACC-WG.py:174 | A line without `=` is skipped. |
| ConfigFile.ParseLineRejectsValue | ROTA-ACC-WG.py:178 | A value that fails `^[0-9.]+$` causes the whole line to be skipped, whatever the key. |
| ConfigFile.ParseLinePadded | ROTA-ACC-WG.py:172-180 | A valid key and value, with any whitespace around the line, the key or the value, are read as exactly that pair. |
| ConfigFile.ParseFileLine | ROTA-ACC-WG.py:224 | A line written as `f"{isp}={gw}"` is read back as that pair. |
| ConfigFile.ParseLineRejectsKey | ROTA-ACC-WG.py:178 | A key that fails the name pattern causes the whole line to be skipped, whatever the value. |
| ConfigFile.ParseLines | ROTA-ACC-WG.py:172-180 | The accepted pairs in file order; `ParseLinesValid`, `ParseRender` and `ParseEmpty` state what it yields. |
| ConfigFile.Parse | ROTA-ACC-WG.py:170-180 | `carregar_isps` on the file's text; `LoadedConsistent`, `LoadedValid` and `RoundTrip` state what it loads. |
| ConfigFile.FileLine | ROTA-ACC-WG.py:224 | One written line; `ParseFileLine` states that it reads back as its pair. |
| ConfigFile.Render | ROTA-ACC-WG.py:223-224 | The written lines in the given order; `ParseRender` and `LinesOfRender` state that they read back in order. |
| ConfigFile.NameKey | ROTA-ACC-WG.py:222 | Python's string order as code-point lists; `DefaultNamesSorted` and `RoundTrip` use it for `sorted(ISP_NAMES)`. |
| ConfigFile.Serialize | ROTA-ACC-WG.py:218-224 | `salvar_isps`'s text; `RoundTrip` states that reloading it restores the registry, and `SortedNamesListed` that every lookup succeeds. |
| ConfigFile.LinesOfRender | ROTA-ACC-WG.py:172 | The first line read from a written file is the first written line, without its line break. |
| ConfigFile.ParseRender | ROTA-ACC-WG.py:172-180 | Reading back the lines written for valid pairs gives the same pairs in the same order. |
| ConfigFile.ParseEmpty | ROTA-ACC-WG.py:172-180 | An empty file yields no pairs. |
| ConfigFile.EntryMapKeys | ROTA-ACC-WG.py:179-180 | After loading, the map's keys are exactly the loaded names. |
| ConfigFile.EntryMapLastWins | ROTA-ACC-WG.py:180 | A key's value after loading comes from the last line with that key. |
| ConfigFile.EntryNames | ROTA-ACC-WG.py:179 | `ISP_NAMES` after loading; `EntryMapKeys` states that its members are exactly the map's keys, and `LoadedConsistent` that the two agree. |
| ConfigFile.EntryMap | ROTA-ACC-WG.py:180 | `ISP_GATEWAYS` after loading; `EntryMapKeys` states its keys and `EntryMapLastWins` its values. |
| ConfigFile.LoadedConsistent | ROTA-ACC-WG.py:168-180 | Loading any text gives a list and a map that agree: every name has a gateway and every key is listed. |
| ConfigFile.ParseLinesValid | ROTA-ACC-WG.py:178-180 | Every loaded pair passes both patterns. |
| ConfigFile.LoadedValid | ROTA-ACC-WG.py:178-180 | Every key and gateway in the loaded map passes both patterns. |
| ConfigFile.RoundTrip | ROTA-ACC-WG.py:218-224 | Saving and reloading a consistent registry with valid entries restores the map. The reloaded list is the name-sorted permutation of the names. |
| ConfigFile.SortedNamesListed | ROTA-ACC-WG.py:222-224 | The names sorted for writing are exactly the map's keys, so no `ISP_GATEWAYS[isp]` lookup fails. |
| ConfigFile.ReloadedMap | ROTA-ACC-WG.py:179-180 | Loading the pairs of a consistent registry, with its names in any order, rebuilds its map. |
| Defaults.TwoDigits | ROTA-ACC-WG.py:191 | `f"{n:02d}"` is two digits whose value is `n`. |
| Defaults.DefaultGateway | ROTA-ACC-WG.py:194-211 | The `k`-th entry of the gateway list `DefaultGateways`; `DefaultGatewayKey` states its key, and `DefaultGatewayEnds` the first and last entries. |
| Defaults.DefaultGatewayEnds | ROTA-ACC-WG.py:195-210 | The gateway list starts at `10.131.131.1` and ends at `10.131.131.253`. |
| Defaults.DefaultGatewayKey | ROTA-ACC-WG.py:194-211 | Each default gateway is numeric, passes the value pattern, and has sort key `[10, 131, 131, 4k+1]`. |
| Defaults.DefaultNamesValid | ROTA-ACC-WG.py:191 | The 64 default names `DefaultNames` are distinct and pass the name pattern. |
| Defaults.DefaultMapLookup | ROTA-ACC-WG.py:213-214 | Each default name maps to the gateway in the same position. |
| Defaults.DefaultMapKeys | ROTA-ACC-WG.py:213-214 | The keys of the default map `DefaultMap` are exactly the default names. |
| Defaults.DefaultMapContents | ROTA-ACC-WG.py:191-214 | The default registry is consistent and passes the loader's patterns. |
| Defaults.DefaultGatewayOrder | ROTA-ACC-WG.py:193-214 | In name order, the default gateways are the listed ones: numeric, distinct and ascending. |
| Defaults.DefaultOrdered | ROTA-ACC-WG.py:144-160 | Ordering the default registry by gateway gives `ISP-01` to `ISP-64` in that order. |
| Defaults.DefaultNamesSorted | ROTA-ACC-WG.py:222 | The default names are already in `sorted()` order. |
| Defaults.DefaultFile | ROTA-ACC-WG.py:216-224 | The default file lists the 64 pairs in order, and reading it back gives the default list and map. |
| Detection.DigitsEnd | ROTA-ACC-WG.py:235 | The greedy `\d+` stops at the first character that is not a digit. |
| Detection.FindFrom | ROTA-ACC-WG.py:235 | Every match is `10.131.131.` followed by one or more digits. |
| Detection.FindFromEmpty | ROTA-ACC-WG.py:235-238 | `findall` finds nothing exactly when no position starts a match. |
| Detection.FindFromOccurs | ROTA-ACC-WG.py:235 | Every match is a piece of the listing, found at or after the position the scan starts from. |
| Detection.FindAll | ROTA-ACC-WG.py:235 | `re.findall`; through `FindFrom` every match is an address, `FindFromOccurs` states that it occurs in the listing, and `FindFromEmpty` states when there is none. |
| Detection.MostCommon | ROTA-ACC-WG.py:241-244 | `Counter(...).most_common(1)[0][0]`; `MostCommonCorrect` and `MostCommonUnique` state which element it picks. |
| Detection.MostCommonCorrect | ROTA-ACC-WG.py:241-244 | `most_common(1)` returns an element with the largest count, and among those the one that occurs first. |
| Detection.MostCommonUnique | ROTA-ACC-WG.py:241-244 | Only one element fits that description. |
| Detection.DetectCorrect | ROTA-ACC-WG.py:227-246 | Detection is empty exactly when the listing holds no match. Otherwise it returns an address that is the most common match. |
| Detection.Detect | ROTA-ACC-WG.py:227-246 | `detectar_gateway_atual` on the listing; `DetectCorrect` states its result. |
| Detection.CurrentIsp | ROTA-ACC-WG.py:248-258 | `obter_isp_atual`; `CurrentIspCases` states its three outcomes. |
| Detection.CurrentIspCases | ROTA-ACC-WG.py:248-258 | The label is `NENHUM` when nothing is detected. Otherwise it is the first listed name with the detected gateway, or `DESCONHECIDO(gw)` when no name has it. |
| Activation.AddCommands | ROTA-ACC-WG.py:61-69 | One `add` command per route, in table order. |
| Activation.AddCommand | ROTA-ACC-WG.py:69 | One `add` command; `AddCommandParts` states that it names the destination, the gateway and the comment. |
| Activation.AddCommandParts | ROTA-ACC-WG.py:69 | An `add` command contains `dst-address=` with the destination, ` gateway=` with the gateway, and the quoted comment. |
| Activation.FiltersOnTags | ROTA-ACC-WG.py:51 | The removal command `RemoveCommand` filters on comments containing `ROTA ACC WG RFC`, and the detection listing `ListCommand` on `ROTA ACC WG`. |
| Activation.RoutesTagged | ROTA-ACC-WG.py:61-66 | Every comment in the route table `Routes` contains both tags, so the next removal matches the routes an activation adds and the detection listing shows them. |
| Activation.AddCommandsNamed | ROTA-ACC-WG.py:68-69 | The `add` command for each route names that route's destination, the gateway and that route's comment. |
| Activation.AddSucceeded | ROTA-ACC-WG.py:74 | A reply counts when it is empty or does not mention `failure`; `FailureReplyFails`, `SuccessesPositive` and `SuccessesAll` use it. |
| Activation.LogCommand | ROTA-ACC-WG.py:81 | The log line with the gateway and the count; `Activate` states that it is sent last, with the count of successes. |
| Activation.Successes | ROTA-ACC-WG.py:68-78 | The count never exceeds the number of replies. |
| Activation.Activate | ROTA-ACC-WG.py:48-97 | Sends the removal, the four additions and the log line, in that order. Counts the successful replies. Returns true exactly when at least one addition succeeded. |
| Activation.SuccessesPositive | ROTA-ACC-WG.py:97 | The count is positive exactly when some reply counts as a success. |
| Activation.SuccessesAll | ROTA-ACC-WG.py:74-76 | The count equals the number of replies exactly when every reply counts as a success. |
| Activation.FailureReplyFails | ROTA-ACC-WG.py:74 | A reply that starts with `failure:` does not count. |
| Rotation.NextIndex | ROTA-ACC-WG.py:474 | The next index is the following one, or 0 after the last. |
| Rotation.AdvanceFormula | ROTA-ACC-WG.py:474 | `k < n` rotations from `i` reach `(i + k) mod n`. |
| Rotation.AdvanceVisitsAll | ROTA-ACC-WG.py:474 | `n` rotations from any index reach every index exactly once and return to the start. |
| Rotation.NextChoiceCases | ROTA-ACC-WG.py:441-476 | When detection and ordering succeed, option 99 reports that the ISP was not found exactly when no ordered entry has the gateway. Otherwise it chooses the entry after the first one that has it, wrapping round. |
| Rotation.NextChoice | ROTA-ACC-WG.py:441-476 | Option 99's outcome; `NextChoiceCases` states it and `IspRegistry.NextIsp` computes it. |
| Rotation.ChoiceAfter | ROTA-ACC-WG.py:457-476 | The entry after the first match, wrapping round; `ChoiceAfterCases` states it. |
| Rotation.ChoiceAfterCases | ROTA-ACC-WG.py:457-476 | In an ordered list, the choice is "not listed" exactly when no entry has the gateway, and otherwise the entry after the first one that has it. |
| Rotation.StepIsChoice | ROTA-ACC-WG.py:457-476 | Once an entry's gateway is the detected one, option 99 chooses the entry `Step` names, so `StepsDistinct` and `AdvanceVisitsAll` describe repeated uses of option 99. |
| Rotation.StepDistinct | ROTA-ACC-WG.py:455-476 | With distinct gateways, each use of option 99 moves exactly one place on. |
| Rotation.StepsDistinct | ROTA-ACC-WG.py:455-476 | With distinct gateways, `k` uses of option 99 move `k` places round the circle. |
| Rotation.SharedGatewayStalls | ROTA-ACC-WG.py:460-464 | When two adjacent entries share a gateway, option 99 moves onto the second and then stays there. |
| Registry.Without | ROTA-ACC-WG.py:341 | The filtered list holds every other name and no copy of the removed one. |
| Registry.WithoutCounts | ROTA-ACC-WG.py:341 | Filtering keeps every other name as often as it occurred and drops every copy of the removed one. |
| Registry.WithoutAbsent | ROTA-ACC-WG.py:341 | Filtering a list that does not contain the name leaves it unchanged. |
| Registry.WithoutAppend | ROTA-ACC-WG.py:341 | Filtering two joined lists filters each and keeps them in order. |
| Registry.Replace | ROTA-ACC-WG.py:302 | The replaced list keeps its length; `ReplaceMembers` states its members. |
| Registry.ReplaceMembers | ROTA-ACC-WG.py:302 | After the replacement the old name is gone unless it is the new one, the new name is there when the old one was, and no other name appears. |
| Registry.AddKeepsConsistent | ROTA-ACC-WG.py:316-318 | Appending a name and setting its gateway keeps every name listed and keeps a consistent registry consistent. Other entries are unchanged. |
| Registry.RemoveKeepsConsistent | ROTA-ACC-WG.py:339-341 | Removing a name from both structures keeps every name listed, keeps a consistent registry consistent, and leaves every other entry unchanged. |
| Registry.RenameKeepsConsistent | ROTA-ACC-WG.py:296-302 | Renaming to a new name keeps every name listed and keeps a consistent registry consistent. Every position keeps its gateway under its new name, the old key is gone, and every other entry is unchanged. |
| Registry.RenameMerge | ROTA-ACC-WG.py:296-302 | Renaming to any other name, taken or not, keeps every name listed and a consistent registry consistent. The old key is gone, the new key holds the old gateway, and every other entry is unchanged. |
| Registry.RenameOntoExisting | ROTA-ACC-WG.py:296-302 | Renaming onto a listed name lists that name twice and gives it the renamed ISP's gateway. Its own old gateway is gone unless another ISP shares it. |
| Registry.RenameAsWritten | ROTA-ACC-WG.py:297-302 | The rename as written leaves the list's length unchanged and always deletes the old key. |
| Registry.RenameToSameNameBreaksRegistry | ROTA-ACC-WG.py:296-303 | Renaming an ISP to its own name, as written, leaves the name listed but removes it from the map. The following save then fails. |
| Registry.IspRegistry.constructor | ROTA-ACC-WG.py:22-23 | The program starts with an empty list and an empty map. |
| Registry.IspRegistry.Load | ROTA-ACC-WG.py:162-185 | With a file, the registry becomes the file's accepted pairs, which are consistent and valid. Without one, the default registry is created and saved. |
| Registry.IspRegistry.LoadLines | ROTA-ACC-WG.py:168-180 | After the loop, the list is the accepted names in file order and the map is built from the accepted pairs. |
| Registry.IspRegistry.CreateDefault | ROTA-ACC-WG.py:187-216 | The list becomes the default names. The default pairs are merged into the map, which is not cleared. The saved text is returned. |
| Registry.IspRegistry.PutAll | ROTA-ACC-WG.py:213-214 | Setting each pair in turn merges the pairs into the map. |
| Registry.IspRegistry.Save | ROTA-ACC-WG.py:218-225 | The text written is one line per name, with the names in sorted order. |
| Registry.IspRegistry.NextIsp | ROTA-ACC-WG.py:441-476 | Option 99 makes the choice `NextChoice` describes, whose cases `NextChoiceCases` states. |
| Registry.IspRegistry.SearchGateway | ROTA-ACC-WG.py:457-464 | The search loop finds the first position whose gateway is the detected one, or none. |
| Registry.IspRegistry.ChooseAfter | ROTA-ACC-WG.py:466-476 | The chosen entry is the one after the found position, wrapping round. |
| Registry.IspRegistry.Add | ROTA-ACC-WG.py:312-320 | With both stripped fields non-empty, the name is appended, its gateway is set and the result is saved. Otherwise nothing changes. Consistency is kept. |
| Registry.IspRegistry.Remove | ROTA-ACC-WG.py:339-342 | The name leaves the map and every copy leaves the list. Every remaining name keeps its gateway, a consistent registry stays consistent, and the result is saved. |
| Registry.IspRegistry.Rename | ROTA-ACC-WG.py:295-303 | A new name that is empty or the same as the old one changes nothing. Otherwise, even when the new name is already taken, the gateway moves to the new key, the old name is replaced everywhere in the list, and the result is saved. Every name stays listed, and a consistent registry stays consistent. |
| Registry.DefaultsMerged | ROTA-ACC-WG.py:213-214 | Merging the defaults lists every default name. The merged registry is consistent when the old map held only default names. |
| Registry.AppendEntry | ROTA-ACC-WG.py:179-180 | Loading one more pair appends its name and sets its gateway. |

## Left out

- SSH is not modelled. This covers `executar_mikrotik`, `verificar_chave_ssh`, `testar_conexao_ssh` and `main`'s connection check. The router's replies are parameters.
- Opening, reading and writing `~/.wg_isps.conf` are not modelled. The file is its text (`Option<string>`, `None` when it does not exist), and saving returns the text.
- Menus, `input`, `print`, `clear` and `sleep` are not modelled. This includes option 00's display and the choice of an ISP by its number (lines 481-497).
- Rename and remove pick the ISP by its number in the ordered list. The model takes the chosen name directly, so the `int()` and range checks of lines 291-293 and 334-336 are not modelled.
- Remove's `s/N` confirmation is not modelled: `Remove` is the confirmed case, and a refusal changes nothing.
- Registry.IspRegistry.CreateDefault: promises consistency only when the old map held only default names, because the source does not clear the map first.
- Registry.IspRegistry.NextIsp: a `ValueError` from `obter_isps_ordenados` ends the program in the source, since option 99 has no `try`. The model reports it as the outcome `Unordered`.
- Text.Lower: lower-cases ASCII letters only. This is exact for the test `"failure" not in output.lower()`, but the model states only that the length is kept.
- Detection.FindFrom: `\d` is ASCII digits only, while Python's `\d` also matches other Unicode decimal digits.
- Gateway.OrderedByGatewayFails: `int()` is modelled as accepting only a non-empty run of ASCII digits. Python's `int()` also accepts surrounding whitespace, a sign, `_` between digits and other Unicode digits. Loaded gateways cannot contain these, but a gateway typed in through option 2 could.
- Order.SortBy: is stable by construction, but no lemma states stability.
- Defaults: the gateway list of lines 194-211 is written as the formula `10.131.131.(4k+1)` for `k` from 0 to 63. `DefaultGatewayEnds` checks its first and last entries.
- The log command is built with its count, but its effect on the router is not modelled.

## Findings

| source | as written | input that shows it | evidently intended | confidence | as-written member | corrected member |
|---|---|---|---|---|---|---|
| ROTA-ACC-WG.py:296-303 | Renaming sets `ISP_GATEWAYS[novo_nome]` and then deletes `ISP_GATEWAYS[isp_antigo]`. When the two names are equal, this deletes the only entry while the name stays in `ISP_NAMES`. `salvar_isps` then raises `KeyError` after opening the file for writing. | Rename `ISP-01` to `ISP-01`. | A new name equal to the old one leaves the registry unchanged. | not executed | Registry.RenameToSameNameBreaksRegistry | Registry.IspRegistry.Rename |
