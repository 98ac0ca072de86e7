/**
 * The keyword-query listener: turns the text typed after the keyword into
 * the list of result items the launcher shows.
 */
module Results {
  import opened Options
  import opened FileTree
  import opened Matcher

  datatype Action = Create | Use

  /** The data an item carries back when it is selected: `{'action': ..., 'path': ...}`. */
  datatype Payload = Payload(action: Action, path: string)

  /** What selecting an item does: close the window, or hand the payload back to the extension. */
  datatype OnEnter = HideWindow | Custom(payload: Payload)

  /** One result row: its title, its description and its action. */
  datatype Item = Item(name: string, description: string, onEnter: OnEnter)

  /** The single row shown while nothing has been typed. */
  const Placeholder := Item("Enter directory path", "Start typing to search or create a directory", HideWindow)

  /** The row offering to create the typed path under home and use it. */
  function CreateItem(query: string): (r: Item)
    ensures r.onEnter.Custom? && r.onEnter.payload == Payload(Create, query)
    ensures "Create and use: " <= r.name && r.name[|"Create and use: "|..] == query
  {
    Item("Create and use: " + query, "Create this directory and use it as workspace", Custom(Payload(Create, query)))
  }

  /** The row offering an existing directory found by the matcher. */
  function UseItem(p: Path): (r: Item)
    ensures r.onEnter.Custom? && r.onEnter.payload.action == Use
    ensures r.onEnter.payload.path == r.name == Render(p)
  {
    Item(Render(p), "Use this directory as workspace", Custom(Payload(Use, Render(p))))
  }

  /** `event.get_argument() or ""`: a missing argument counts as the empty query. */
  function QueryText(argument: Option<string>): (r: string)
    ensures r == "" <==> argument == None || argument == Some("")
    ensures r != "" ==> argument == Some(r)
  {
    match argument
    case None => ""
    case Some(s) => s
  }

  /**
   * The keyword-query handler. An empty query shows only the placeholder and
   * does not search; otherwise the create row comes first, followed by one
   * use row per directory found, in the order the matcher found them.
   */
  method OnKeywordQuery(argument: Option<string>, home: Path, tree: Dir, abortAfter: Option<nat>)
    returns (items: seq<Item>)
    ensures QueryText(argument) == "" ==> items == [Placeholder]
    ensures QueryText(argument) != "" ==>
      var found := MatchingDirs(home, tree, QueryText(argument), abortAfter);
      && |items| == 1 + |found|
      && items[0] == CreateItem(QueryText(argument))
      && forall i :: 0 <= i < |found| ==> items[i + 1] == UseItem(found[i])
    ensures 1 <= |items| <= 1 + Limit
  {
    var query := QueryText(argument);
    if query == "" {
      return [Placeholder];
    }
    var found := FindMatchingDirs(home, tree, query, abortAfter);
    items := [CreateItem(query)];
    for i := 0 to |found|
      invariant |items| == 1 + i && items[0] == CreateItem(query)
      invariant forall k :: 0 <= k < i ==> items[k + 1] == UseItem(found[k])
    {
      items := items + [UseItem(found[i])];
    }
  }
}
