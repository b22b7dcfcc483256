// The records that policy engines, graph and store exchange.
module Models {
  import opened Wrappers

  datatype Direction = Ingress | Egress

  datatype RuleAction = ActionAllow | ActionDeny

  datatype Coverage =
    | Unset | CoverageDenyAll | CoverageAllowAll | CoverageAllowAllNs | CoverageRestricted
    | CoverageUnenforced | CoverageAudit | CoverageExcept

  /** The zero value stands for "all ports". */
  datatype Port = Port(port: int, endPort: int, name: string, protocol: string)

  const ALL_PORTS := Port(0, 0, "", "")

  datatype PolicyRef = PolicyRef(
    source: string, name: string, namespace: string,
    order: Option<real>, tier: string, createdAt: Option<int>)

  datatype L7Match = L7Match(
    hosts: seq<string>, methods: seq<string>, paths: seq<string>,
    notHosts: seq<string>, notMethods: seq<string>, notPaths: seq<string>)

  datatype PolicySelector = PolicySelector(
    labelSelector: map<string, string>, nsSelector: map<string, string>, namespaces: seq<string>)

  const NO_SELECTOR := PolicySelector(map[], map[], [])

  datatype Rule = Rule(
    srcID: string, dstID: string, ports: seq<Port>, direction: Direction, contributor: PolicyRef,
    l7Match: Option<L7Match>, action: RuleAction, allPorts: bool, allL7: bool, coverage: Coverage,
    namespaceWide: bool, srcSelector: PolicySelector, dstSelector: PolicySelector)

  datatype DirectionRules = DirectionRules(allow: seq<Rule>, deny: seq<Rule>)

  datatype NodeRules = NodeRules(ingress: DirectionRules, egress: DirectionRules)
  {
    function Side(direction: Direction): DirectionRules {
      if direction == Ingress then ingress else egress
    }
  }

  const NO_RULES := DirectionRules([], [])

  datatype NodeType =
    | Deployment | DaemonSet | StatefulSet | Pod | CronJob | Job
    | NamespaceNode | CidrNode | ExternalNode

  datatype CidrType = NoCidrType | PodCidr | ServiceCidr | LanCidr | WanCidr

  datatype WorkloadNode = WorkloadNode(
    id: string, text: string, namespace: string, nodeType: NodeType,
    labels: map<string, string>, cidrType: CidrType)

  /** Keeps the ids of synthetic CIDR nodes apart from all others. */
  const CIDR_ID_PREFIX := "cidr:"
}
