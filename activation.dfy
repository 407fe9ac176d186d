/**
 * `configurar_rotas_mikrotik`: the RouterOS commands sent to point the four private-range routes
 * at a gateway, and how the replies to the four `add` commands are counted. The replies are a
 * parameter; sending the commands over SSH is not part of this model.
 */
module Activation {
  import opened Text
  import Detection

  datatype Route = Route(destination: string, comment: string)

  /** The fixed table `rotas`: the RFC 1918 ranges and the RFC 6598 shared range. */
  const Routes: seq<Route> := [
    Route("10.0.0.0/8", "ROTA ACC WG RFC 1918 CLASS A"),
    Route("172.16.0.0/12", "ROTA ACC WG RFC 1918 CLASS B"),
    Route("192.168.0.0/16", "ROTA ACC WG RFC 1918 CLASS C"),
    Route("100.64.0.0/10", "ROTA ACC WG RFC 6598")
  ]

  /** The text the removal's `comment~` filter looks for. */
  const RemoveTag: string := "ROTA ACC WG RFC"

  /** Removes every route whose comment contains `RemoveTag`. */
  const RemoveCommand: string := "/ip route remove [find where " + "comment~\"" + RemoveTag + "\"" + "]"

  function AddCommand(route: Route, gateway: string): string {
    "/ip route add dst-address=" + route.destination + " gateway=" + gateway
      + " comment=\"" + route.comment + "\""
  }

  /** The `add` commands for the whole table, in table order. */
  function AddCommands(gateway: string): (r: seq<string>)
    ensures |r| == |Routes|
  {
    seq(|Routes|, i requires 0 <= i < |Routes| => AddCommand(Routes[i], gateway))
  }

  /** The removal filters on `RemoveTag`, and the detection listing on `ListTag`. */
  lemma FiltersOnTags()
    ensures Contains(RemoveCommand, "comment~\"" + RemoveTag + "\"")
    ensures Contains(Detection.ListCommand, "comment~\"" + Detection.ListTag + "\"")
  {
    var removeFilter := "comment~\"" + RemoveTag + "\"";
    var listFilter := "comment~\"" + Detection.ListTag + "\"";
    assert RemoveCommand == "/ip route remove [find where " + removeFilter + "]";
    assert Detection.ListCommand == "/ip route print where " + listFilter + [];
    ContainsMiddle("/ip route remove [find where ", removeFilter, "]");
    ContainsMiddle("/ip route print where ", listFilter, []);
  }

  /**
   * Every route of the table carries both tags in its comment, so the next activation's removal
   * matches it and the detection listing shows it.
   */
  lemma RoutesTagged()
    ensures forall i | 0 <= i < |Routes| ::
      Contains(Routes[i].comment, RemoveTag) && Contains(Routes[i].comment, Detection.ListTag)
  {
    forall i | 0 <= i < |Routes|
      ensures Contains(Routes[i].comment, RemoveTag) && Contains(Routes[i].comment, Detection.ListTag)
    {
      assert OccursAt(Routes[i].comment, RemoveTag, 0);
      assert OccursAt(Routes[i].comment, Detection.ListTag, 0);
    }
  }

  /** The `add` command for each route names the route's destination, the gateway and its comment. */
  lemma AddCommandsNamed(gateway: string)
    ensures forall i | 0 <= i < |Routes| ::
      && Contains(AddCommands(gateway)[i], "dst-address=" + Routes[i].destination)
      && Contains(AddCommands(gateway)[i], " gateway=" + gateway)
      && Contains(AddCommands(gateway)[i], " comment=\"" + Routes[i].comment + "\"")
  {
    forall i | 0 <= i < |Routes|
      ensures Contains(AddCommands(gateway)[i], "dst-address=" + Routes[i].destination)
      ensures Contains(AddCommands(gateway)[i], " gateway=" + gateway)
      ensures Contains(AddCommands(gateway)[i], " comment=\"" + Routes[i].comment + "\"")
    {
      AddCommandParts(Routes[i], gateway);
    }
  }

  /** An `add` command names the destination, the gateway and the comment. */
  lemma AddCommandParts(route: Route, gateway: string)
    ensures Contains(AddCommand(route, gateway), "dst-address=" + route.destination)
    ensures Contains(AddCommand(route, gateway), " gateway=" + gateway)
    ensures Contains(AddCommand(route, gateway), " comment=\"" + route.comment + "\"")
  {
    var dst := "dst-address=" + route.destination;
    var gw := " gateway=" + gateway;
    var comment := " comment=\"" + route.comment + "\"";
    assert AddCommand(route, gateway) == "/ip route add " + dst + (gw + comment);
    assert AddCommand(route, gateway) == ("/ip route add " + dst) + gw + comment;
    assert AddCommand(route, gateway) == ("/ip route add " + dst + gw) + comment + [];
    ContainsMiddle("/ip route add ", dst, gw + comment);
    ContainsMiddle("/ip route add " + dst, gw, comment);
    ContainsMiddle("/ip route add " + dst + gw, comment, []);
  }

  function LogCommand(gateway: string, added: nat): string {
    ":log info \"Rotas WG configuradas para gateway: " + gateway + " (" + NatToString(added) + "/4 rotas)\""
  }

  /** An `add` counts as done when its reply is empty or does not mention `failure` in any case. */
  predicate AddSucceeded(reply: string) {
    reply == "" || !Contains(Lower(reply), "failure")
  }

  /** How many of the replies count as done. */
  function Successes(replies: seq<string>): (n: nat)
    ensures n <= |replies|
  {
    if replies == [] then 0
    else Successes(replies[..|replies| - 1]) + if AddSucceeded(replies[|replies| - 1]) then 1 else 0
  }

  /**
   * Sends the removal, the four additions and the log line, and returns the commands in the
   * order sent, how many additions counted as done and the function's boolean result.
   */
  method Activate(gateway: string, replies: seq<string>) returns (commands: seq<string>, added: nat, ok: bool)
    requires |replies| == |Routes|
    ensures commands == [RemoveCommand] + AddCommands(gateway) + [LogCommand(gateway, added)]
    ensures added == Successes(replies) && added <= 4
    ensures ok <==> added >= 1
    ensures ok <==> exists i | 0 <= i < |replies| :: AddSucceeded(replies[i])
  {
    commands := [RemoveCommand];
    added := 0;
    var i := 0;
    while i < |Routes|
      invariant 0 <= i <= |Routes|
      invariant commands == [RemoveCommand] + AddCommands(gateway)[..i]
      invariant added == Successes(replies[..i])
    {
      commands := commands + [AddCommand(Routes[i], gateway)];
      assert replies[..i + 1][..i] == replies[..i];
      if AddSucceeded(replies[i]) {
        added := added + 1;
      }
      assert AddCommands(gateway)[..i + 1] == AddCommands(gateway)[..i] + [AddCommand(Routes[i], gateway)];
      i := i + 1;
    }
    assert replies[..i] == replies;
    assert AddCommands(gateway)[..i] == AddCommands(gateway);
    commands := commands + [LogCommand(gateway, added)];
    if added >= 2 {
      ok := true;
    } else {
      ok := added > 0;
    }
    SuccessesPositive(replies);
  }

  /** The count is positive exactly when some reply counts as done. */
  lemma {:induction false} SuccessesPositive(replies: seq<string>)
    ensures Successes(replies) > 0 <==> exists i | 0 <= i < |replies| :: AddSucceeded(replies[i])
  {
    if replies != [] {
      var init := replies[..|replies| - 1];
      SuccessesPositive(init);
      if exists i | 0 <= i < |init| :: AddSucceeded(init[i]) {
        var i :| 0 <= i < |init| && AddSucceeded(init[i]);
        assert replies[i] == init[i];
      }
      if exists i | 0 <= i < |replies| :: AddSucceeded(replies[i]) {
        var i :| 0 <= i < |replies| && AddSucceeded(replies[i]);
        if i < |init| {
          assert init[i] == replies[i];
        }
      }
    }
  }

  /** The count equals the number of replies exactly when every reply counts as done. */
  lemma {:induction false} SuccessesAll(replies: seq<string>)
    ensures Successes(replies) == |replies| <==> forall i | 0 <= i < |replies| :: AddSucceeded(replies[i])
  {
    if replies != [] {
      var init := replies[..|replies| - 1];
      SuccessesAll(init);
      if forall i | 0 <= i < |replies| :: AddSucceeded(replies[i]) {
        forall i | 0 <= i < |init| ensures AddSucceeded(init[i]) {
          assert init[i] == replies[i];
        }
      }
    }
  }

  /** A reply reporting `failure: ...` does not count. */
  lemma FailureReplyFails(rest: string)
    ensures !AddSucceeded("failure: " + rest)
  {
    var reply := "failure: " + rest;
    assert Lower(reply)[..7] == "failure";
    assert OccursAt(Lower(reply), "failure", 0);
  }
}
