/**
 * `fn.truncate(minLength, options)` of jquery.truncate.js: truncate the first
 * selected node and return the part of the result that `retType` asks for.
 */
module TruncatePlugin {
  import opened Wrappers
  import opened Truncation

  /** The options `fn.truncate` reads: `retType` and the settings passed on to `truncate`. */
  datatype Options = Options(retType: string, settings: Settings)

  /** `fn.truncate.defaultSettings`. */
  const DefaultOptions := Options("both", Settings(true, true, true))

  /** What `fn.truncate` returns for a non-empty selection: the whole object, or one of its fields. */
  datatype Returned = Whole(result: Truncated) | TextField(text: string) | NodeField(node: Option<Node>)

  /** The `retType` projection: a field name of the result selects that field; `'both'` and
      any other name keep the whole result. */
  function Project(t: Truncated, retType: string): (r: Returned)
    ensures r.Whole? <==> retType != "text" && retType != "node"
    ensures r.Whole? ==> r.result == t
    ensures r.TextField? ==> r.text == t.text
    ensures r.NodeField? ==> r.node == t.node
  {
    if retType == "text" then TextField(t.text)
    else if retType == "node" then NodeField(t.node)
    else Whole(t)
  }

  /** `fn.truncate`: null for an empty selection, otherwise the projection of `truncate`
      run on the first selected node alone. */
  method TruncateFirst(selection: seq<Node>, minLength: nat, options: Options) returns (r: Option<Returned>)
    ensures r.None? <==> selection == []
    ensures selection != []
            ==> r == Some(Project(TruncateSpec([selection[0]], minLength, options.settings), options.retType))
  {
    r := None;
    if |selection| > 0 {
      var truncated := Truncate([selection[0]], minLength, options.settings);
      r := Some(Project(truncated, options.retType));
    }
  }
}
