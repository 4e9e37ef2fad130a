/**
 * The four kinds of trie node and the ways a registration can fail.
 * In web/route.go every failure is a panic with a message; here each
 * message becomes one error variant carrying what the message names.
 */
module RouteKinds {

  /** nodeTypeStatic, nodeTypeReg, nodeTypeParam, nodeTypeAny. */
  datatype NodeType = Static | Reg | Param | Any

  datatype RouteError =
    | EmptyPath                     // the path is the empty string
    | NoLeadingSlash                // the path does not start with '/'
    | TrailingSlash                 // a path other than "/" ends with '/'
    | EmptySegment                  // "//a/b", "/a//b": an empty segment
    | DuplicateRoute                // a handler is already set on the terminal node
    | KindConflict(existing: NodeType, adding: NodeType)
                                    // a second kind of special child at one position
    | ParamNameConflict(existingToken: string, addingToken: string)
                                    // the param child exists with another token
}
