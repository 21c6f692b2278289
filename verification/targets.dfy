/** The collector's configuration entities and its error type. */
module Targets {
  import opened Wrappers
  import opened Int64
  import opened ParseInt
  import opened Json

  /** How a target is read: a chain node's JSON-RPC endpoint, a GraphQL
      dictionary endpoint, a Redis key, or a Kubernetes config-map entry. */
  datatype RpcType = ChainNode | DictEntry | RedisKey | CfgMapKey

  /** One configured target. `result` is the reading a cycle attaches to its copy. */
  datatype Target = Target(
    kind: RpcType,
    uri: string,
    network: string,
    app: string,
    component: string,
    sourceLabel: string,
    blockLabel: Option<string>,
    blockLabelOffset: Option<i64>,
    result: Option<i64>,
    redisHost: Option<string>,
    redisPasswd: Option<string>,
    redisKey: Option<string>)

  /** Why reading a target failed: a transport, status or body-decoding failure
      (with its message), a missing or mistyped member (with its path and the whole
      response), or a height that is not a hexadecimal `i64`. */
  datatype MError =
    | Reqwest(message: string)
    | ParseJson(path: string, response: Value)
    | ParseHex(kind: IntErrorKind)

  /** The optional fields this target's kind unwraps are present. */
  predicate Configured(t: Target)
  {
    match t.kind
    case ChainNode => t.blockLabel.Some? && t.blockLabelOffset.Some?
    case DictEntry => true
    case CfgMapKey => true
    case RedisKey => t.redisHost.Some? && t.redisPasswd.Some? && t.redisKey.Some?
  }
}
