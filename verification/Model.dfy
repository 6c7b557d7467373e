/** The provider's data model: what the load balancer is told about one Service. */
module Model {
  import opened Text
  import opened Sorting

  datatype ServiceRef = ServiceRef(namespace: string, name: string)

  datatype BackendEndpoint = BackendEndpoint(address: string, port: Int32)

  datatype ServicePort = ServicePort(
    name: string, protocol: string, port: Int32, targetPort: string, backends: seq<BackendEndpoint>)

  datatype Service = Service(
    namespace: string, name: string, loadBalancerClass: string, externalIP: string, ports: seq<ServicePort>)
  {
    function Ref(): ServiceRef { ServiceRef(namespace, name) }
  }

  // ---------------------------------------------------------------- the orders used for sorting

  predicate LeRef(x: ServiceRef, y: ServiceRef) {
    if x.namespace == y.namespace then LeString(x.name, y.name) else LeString(x.namespace, y.namespace)
  }

  predicate LeBackend(x: BackendEndpoint, y: BackendEndpoint) {
    if x.address == y.address then x.port <= y.port else LeString(x.address, y.address)
  }

  datatype PortKey = PortKey(port: Int32, protocol: string, name: string, targetPort: string)

  function KeyOf(p: ServicePort): PortKey {
    PortKey(p.port, p.protocol, p.name, p.targetPort)
  }

  predicate LeKey(x: PortKey, y: PortKey) {
    if x.port != y.port then x.port < y.port
    else if x.protocol != y.protocol then LeString(x.protocol, y.protocol)
    else if x.name != y.name then LeString(x.name, y.name)
    else LeString(x.targetPort, y.targetPort)
  }

  /** Ports are compared by port, protocol, name and target port; backends play no part. */
  predicate LePort(x: ServicePort, y: ServicePort) {
    LeKey(KeyOf(x), KeyOf(y))
  }

  lemma LeRefOrder()
    ensures TotalOrder(LeRef)
  {
    LeStringOrder();
  }

  lemma LeBackendOrder()
    ensures TotalOrder(LeBackend)
  {
    LeStringOrder();
  }

  lemma LeKeyOrder()
    ensures forall x, y :: LeKey(x, y) || LeKey(y, x)
    ensures forall x, y, z :: LeKey(x, y) && LeKey(y, z) ==> LeKey(x, z)
    ensures forall x, y :: LeKey(x, y) && LeKey(y, x) ==> x == y
  {
    LeStringOrder();
  }

  lemma LePortOrder()
    ensures TotalPreorder(LePort)
    ensures forall x, y :: LePort(x, y) && LePort(y, x) ==> KeyOf(x) == KeyOf(y)
  {
    LeKeyOrder();
  }

  /** All sorting is ascending: references by namespace and name, backends by address text and port, ports by
      number, protocol, name and target port. */
  lemma OrdersAscend()
    ensures forall x, y :: LeRef(x, y) <==>
              (x.namespace != y.namespace && LeString(x.namespace, y.namespace))
              || (x.namespace == y.namespace && LeString(x.name, y.name))
    ensures forall x, y :: LeBackend(x, y) <==>
              (x.address != y.address && LeString(x.address, y.address)) || (x.address == y.address && x.port <= y.port)
    ensures forall x, y :: LePort(x, y) <==>
              || x.port < y.port
              || (x.port == y.port && x.protocol != y.protocol && LeString(x.protocol, y.protocol))
              || (x.port == y.port && x.protocol == y.protocol && x.name != y.name && LeString(x.name, y.name))
              || (x.port == y.port && x.protocol == y.protocol && x.name == y.name && LeString(x.targetPort, y.targetPort))
  {}
}
