/** Shared vocabulary of the dependency-analysis pipeline: optional values,
    dependency relationship and scope, and package coordinates with the two
    string keys the pipeline derives from them. */
module Types {

  /** A value that may be absent, as JavaScript's `null` or `undefined`. */
  datatype Option<+T> = None | Some(value: T)

  datatype Relationship = Direct | Indirect

  datatype Scope = Runtime | Development

  /** A package URL as the dependency-submission toolkit exposes it:
      type, namespace, name, version and the `type` qualifier. */
  datatype Coord = Coord(kind: string, namespace: string, name: string, version: string, qualifierType: string)

  /** The version-sensitive key `type:namespace:name:version` under which
      children are indexed by their parent. */
  function NodeKey(c: Coord): string
  {
    c.kind + ":" + c.namespace + ":" + c.name + ":" + c.version
  }

  /** The version-insensitive package name an alert refers to: `namespace:name`. */
  function LogicalName(c: Coord): string
  {
    c.namespace + ":" + c.name
  }
}
