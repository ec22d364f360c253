/** The routing table (include/RoutingTable.h): routes kept in insertion
    order, looked up by the first route whose destination matches under its
    mask, byte by byte. There is no longest-prefix preference. */
module Routing {
  import opened Bytes
  import opened Options
  import opened Addresses
  import opened Routes

  /** How many address bytes `match` compares. */
  function Width(t: AddrType): nat
  {
    if t == IPv4 then 4 else 16
  }

  /** Reference definition of `match`: the three types agree, and each
      compared byte of addr and dest is equal under the mask. */
  predicate Matches(addr: IPAddress, dest: IPAddress, mask: IPAddress)
  {
    && addr.kind == dest.kind && addr.kind == mask.kind
    && forall i :: 0 <= i < Width(addr.kind) ==>
         And(addr.address[i], mask.address[i]) == And(dest.address[i], mask.address[i])
  }

  predicate RouteMatches(addr: IPAddress, r: Route)
  {
    Matches(addr, r.destination, r.netmask)
  }

  /** The route `find_route` returns: the first match in table order, or
      None where the source throws "No route found". */
  function FirstMatch(routes: seq<Route>, addr: IPAddress): (r: Option<Route>)
    ensures r.Some? ==> r.value in routes && RouteMatches(addr, r.value)
  {
    if routes == [] then None
    else if RouteMatches(addr, routes[0]) then Some(routes[0])
    else FirstMatch(routes[1..], addr)
  }

  /** `match`, as the loop with early return. */
  method Match(addr: IPAddress, dest: IPAddress, mask: IPAddress) returns (m: bool)
    ensures m == Matches(addr, dest, mask)
  {
    if addr.kind != dest.kind || addr.kind != mask.kind {
      return false;
    }
    var n := if addr.kind == IPv4 then 4 else 16;
    for i := 0 to n
      invariant forall j :: 0 <= j < i ==>
        And(addr.address[j], mask.address[j]) == And(dest.address[j], mask.address[j])
    {
      if And(addr.address[i], mask.address[i]) != And(dest.address[i], mask.address[i]) {
        return false;
      }
    }
    return true;
  }

  class RoutingTable {
    var routes: seq<Route>

    constructor()
      ensures routes == []
    {
      routes := [];
    }

    /** `add_route`: append at the end. */
    method AddRoute(r: Route)
      modifies this
      ensures routes == old(routes) + [r]
    {
      routes := routes + [r];
    }

    /** `find_route`: scans in insertion order and returns the first match;
        None stands for the `runtime_error` thrown when nothing matches. */
    method FindRoute(dest: IPAddress) returns (r: Option<Route>)
      ensures r == FirstMatch(routes, dest)
    {
      var i := 0;
      while i < |routes|
        invariant 0 <= i <= |routes|
        invariant FirstMatch(routes, dest) == FirstMatch(routes[i..], dest)
      {
        assert routes[i..][1..] == routes[i + 1..];
        var m := Match(dest, routes[i].destination, routes[i].netmask);
        if m {
          return Some(routes[i]);
        }
        i := i + 1;
      }
      return None;
    }
  }

  // ---------------------------------------------------------------------
  // Properties

  /** `find_route` picks the first matching route: every earlier route
      fails to match, and None means no route matches at all. */
  lemma {:induction false} FirstMatchIsFirst(routes: seq<Route>, addr: IPAddress)
    ensures FirstMatch(routes, addr).None? <==> forall i :: 0 <= i < |routes| ==> !RouteMatches(addr, routes[i])
    ensures FirstMatch(routes, addr).Some? ==>
      exists i :: 0 <= i < |routes| && routes[i] == FirstMatch(routes, addr).value
                  && RouteMatches(addr, routes[i])
                  && forall j :: 0 <= j < i ==> !RouteMatches(addr, routes[j])
  {
    if routes != [] && !RouteMatches(addr, routes[0]) {
      var rest := routes[1..];
      FirstMatchIsFirst(rest, addr);
      assert forall i :: 1 <= i < |routes| ==> routes[i] == rest[i - 1];
      if FirstMatch(rest, addr).Some? {
        var k :| 0 <= k < |rest| && rest[k] == FirstMatch(rest, addr).value
                 && RouteMatches(addr, rest[k])
                 && forall j :: 0 <= j < k ==> !RouteMatches(addr, rest[j]);
        assert routes[k + 1] == rest[k];
        assert forall j :: 1 <= j < k + 1 ==> routes[j] == rest[j - 1];
      }
    }
  }

  /** Appending a route never changes the answer for an address some
      earlier route already matched. */
  lemma {:induction false} AddRouteKeepsEarlierMatch(routes: seq<Route>, r: Route, addr: IPAddress)
    requires FirstMatch(routes, addr).Some?
    ensures FirstMatch(routes + [r], addr) == FirstMatch(routes, addr)
  {
    if !RouteMatches(addr, routes[0]) {
      assert (routes + [r])[1..] == routes[1..] + [r];
      AddRouteKeepsEarlierMatch(routes[1..], r, addr);
    }
  }

  /** Addresses, destinations and masks of different types never match. */
  lemma MatchNeedsEqualTypes(addr: IPAddress, dest: IPAddress, mask: IPAddress)
    requires addr.kind != dest.kind || addr.kind != mask.kind
    ensures !Matches(addr, dest, mask)
  {
  }

  lemma AndZero(a: nat)
    ensures And(a, 0) == 0
  {
  }

  /** A mask whose compared bytes are zero matches every address of its
      type, so a default route listed first shadows every later route of
      that type (as with the driver's 0.0.0.0/0 before 192.168.0.0/24). */
  lemma ZeroMaskShadows(dflt: Route, later: seq<Route>, addr: IPAddress)
    requires dflt.destination.kind == addr.kind && dflt.netmask.kind == addr.kind
    requires forall i :: 0 <= i < Width(addr.kind) ==> dflt.netmask.address[i] == 0
    ensures FirstMatch([dflt] + later, addr) == Some(dflt)
  {
    forall i | 0 <= i < Width(addr.kind)
      ensures And(addr.address[i], dflt.netmask.address[i]) == And(dflt.destination.address[i], dflt.netmask.address[i])
    {
      AndZero(addr.address[i]);
      AndZero(dflt.destination.address[i]);
    }
  }

  /** The driver's table: "0.0.0.0" mask "0.0.0.0" via 192.168.0.1, then
      "192.168.0.0" mask "255.255.255.0". Whatever bytes the text
      conversion leaves past the first four, every IPv4 address is routed
      through the default route. */
  method DriverTableScenario(zero: Address16, lan: Route, gw: Address16, addr: IPAddress)
    returns (found: Option<Route>)
    requires forall i :: 0 <= i < 4 ==> zero[i] == 0
    requires addr.kind == IPv4
    ensures found == Some(Route(FromString("0.0.0.0", zero), FromString("0.0.0.0", zero), FromString("192.168.0.1", gw)))
  {
    var any := FromString("0.0.0.0", zero);
    NoColonIsIPv4("0.0.0.0");
    var dflt := Route(any, any, FromString("192.168.0.1", gw));
    var table := new RoutingTable();
    table.AddRoute(dflt);
    table.AddRoute(lan);
    ZeroMaskShadows(dflt, [lan], addr);
    assert table.routes == [dflt] + [lan];
    found := table.FindRoute(addr);
  }
}
