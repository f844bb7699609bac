/** The unified route rule model of `routing.rs` and its two codecs' shared types. */
module RouteRule {
  datatype GeoKind = Ip | Site

  datatype MatchField =
    | Domain(v: string)
    | DomainSuffix(v: string)
    | DomainKeyword(v: string)
    | IpCidr(v: string)
    | Port(port: nat)
    | Process(v: string)
    | RuleSet(v: string)
    | GeoSet(kind: GeoKind, v: string)

  datatype RuleTarget = Outbound(name: string) | Direct | Block

  datatype LogicOp = And | Or

  datatype IRouteRule =
    | Simple(matches: seq<MatchField>, target: RuleTarget)
    | Logical(op: LogicOp, rules: seq<IRouteRule>, target: RuleTarget)
    | Raw(clashRaw: string)

  /** What `classify_geo_value` answers for a geo reference; the published names are
      a parameter of every member that needs them. */
  datatype GeoValueMatch = RuleSetTag(tag: string) | PrivateNetworks | Unmappable

  type GeoNames = (GeoKind, string) -> GeoValueMatch

  /** Ports are 16 bits wide. */
  const PORT_BOUND := 0x1_0000
}
