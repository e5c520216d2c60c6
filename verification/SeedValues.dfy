/** Document values as an aggregation pipeline sees them.  Missing is the value of an absent field;
    Failure is an aborted evaluation.  The field names that the pipeline mentions are constructors. */
module SeedValues {
  datatype Name =
    | DocumentId | SchemaVersion | CanonicalizationVersion | CanonicalUrl | Enabled
    | Priority | Categories | Sources | DiscoveredAt | UpdatedAt
    | Key | Type | SourceRef | RawUrl | Category | ObservedAt | Metadata
    | Other(name: string)

  datatype Value =
    | Missing
    | Null
    | Int(n: int)
    | Str(s: string)
    | Obj(fields: map<Name, Value>)
    | Arr(items: seq<Value>)
    | Bool(b: bool)
    | Date(ms: int)
    | Failure
}
