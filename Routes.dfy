/** Routes (include/Route.h): an immutable triple of addresses. The getters
    `get_destination`, `get_netmask` and `get_gateway` are the destructors,
    and a datatype value has no mutators. */
module Routes {
  import opened Addresses

  datatype Route = Route(destination: IPAddress, netmask: IPAddress, gateway: IPAddress)

  /** The getters return what the constructor was given. */
  lemma GettersReturnConstructorArguments(d: IPAddress, m: IPAddress, g: IPAddress)
    ensures var r := Route(d, m, g);
      r.destination == d && r.netmask == m && r.gateway == g
  {
  }
}
