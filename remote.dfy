/** The one capability the search borrows from the underlying API client:
    `self.jql(...)`, a query against the remote issue tracker. The client and
    its transport are not part of this model; a search receives the client as
    an opaque function from requests to responses. */
module Remote {

  datatype Option<T> = None | Some(value: T)

  /** The two shapes of call the search makes. */
  datatype Request =
    /** `jql(jql, limit=0)`: ask only for the number of matching issues. */
    | CountQuery(jql: string)
    /** `jql(jql, expand=.., limit=.., start=.., fields=..)`: one page of issues. */
    | PageQuery(jql: string, expand: string, limit: int, start: int, fields: string)

  /** What the search reads from a response: the optional `total` key and the
      `issues` list. */
  datatype Response<Item> = Response(total: Option<int>, issues: seq<Item>)
}
