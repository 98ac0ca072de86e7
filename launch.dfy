/**
 * The item-enter listener: resolves the selected payload to a workspace
 * path, substitutes it into the configured command template and builds the
 * terminal command line that is launched.
 */
module Launch {
  import opened Options
  import opened Text
  import opened FileTree
  import opened Results
  import opened Matcher

  /** The placeholder in the command template. */
  const Token := "$WORKSPACE_BASE"

  /** What the shell runs after the command, so that the terminal stays open. */
  const Prompt := "; read -p \"Press Enter to close...\""

  /** The argument vector handed to the process launcher: the command run by bash inside kitty. */
  function TerminalArgv(cmd: string): (argv: seq<string>)
    ensures |argv| == 5 && argv[..4] == ["kitty", "--", "bash", "-c"]
    ensures argv[4] == cmd + Prompt
  {
    ["kitty", "--", "bash", "-c", cmd + Prompt]
  }

  /**
   * The workspace path for a payload. A `use` path is taken as it is; a
   * `create` path is joined onto home and the directory is made, which can
   * fail (`mkdirOk` is that outcome): then there is no workspace.
   */
  function Workspace(payload: Payload, home: Path, mkdirOk: bool): (w: Option<string>)
    ensures payload.action == Use ==> w == Some(payload.path)
    ensures payload.action == Create ==> (w.Some? <==> mkdirOk)
    ensures payload.action == Create && mkdirOk ==> w == Some(RenderParts(home) + "/" + payload.path)
  {
    match payload.action
    case Use => Some(payload.path)
    case Create =>
      RenderJoin(home, payload.path);
      if mkdirOk then Some(Render(home + [payload.path])) else None
  }

  /**
   * The item-enter handler: the command line launched for a selected payload
   * under the command template `template`, or `None` when nothing is launched.
   */
  function OnItemEnter(payload: Payload, home: Path, template: string, mkdirOk: bool): (argv: Option<seq<string>>)
    ensures argv.None? <==> payload.action == Create && !mkdirOk
    ensures argv.Some? ==> |argv.value| == 5 && argv.value[..4] == ["kitty", "--", "bash", "-c"]
  {
    match Workspace(payload, home, mkdirOk)
    case None => None
    case Some(w) => Some(TerminalArgv(ReplaceAll(template, Token, w)))
  }

  /** A template without the placeholder is run as written. */
  lemma TemplateWithoutToken(payload: Payload, home: Path, template: string, mkdirOk: bool)
    requires forall i :: !OccursAt(template, Token, i)
    requires !(payload.action == Create && !mkdirOk)
    ensures OnItemEnter(payload, home, template, mkdirOk) == Some(TerminalArgv(template))
  {
    ReplaceAbsent(template, Token, Workspace(payload, home, mkdirOk).value);
  }

  /**
   * Selecting the row of a directory the query handler found runs the
   * template on that directory's path, whatever `mkdir` would do; and that
   * path lies strictly below home, in no hidden directory, and its name
   * contains the query.
   */
  lemma FoundItemLaunch(home: Path, tree: Dir, query: string, abortAfter: Option<nat>, i: nat,
                        template: string, mkdirOk: bool)
    requires i < |MatchingDirs(home, tree, query, abortAfter)|
    ensures var p := MatchingDirs(home, tree, query, abortAfter)[i];
      && UseItem(p).onEnter.Custom?
      && OnItemEnter(UseItem(p).onEnter.payload, home, template, mkdirOk)
         == Some(TerminalArgv(ReplaceAll(template, Token, Render(p))))
      && |p| > |home| && p[..|home|] == home
      && (forall k :: |home| <= k < |p| ==> !Hidden(p[k]))
      && IsMatch(p[|p| - 1], Lower(query))
  {
    var p := MatchingDirs(home, tree, query, abortAfter)[i];
    MatchingDirsSound(home, tree, query, abortAfter, p);
  }

  /** Selecting the create row runs the template on home joined with the query, if the directory could be made. */
  lemma CreateItemLaunch(query: string, home: Path, template: string, mkdirOk: bool)
    ensures CreateItem(query).onEnter.Custom?
    ensures OnItemEnter(CreateItem(query).onEnter.payload, home, template, mkdirOk)
         == if mkdirOk then Some(TerminalArgv(ReplaceAll(template, Token, Render(home + [query])))) else None
  {
  }
}
