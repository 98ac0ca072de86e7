/** Worked examples: concrete trees, queries and templates. */
module Scenarios {
  import opened Options
  import opened Text
  import opened FileTree
  import opened Matcher
  import opened Results
  import opened Launch

  const Home: Path := ["home", "u"]

  /** ~/projects/app1, ~/projects/app2, ~/.hidden/app3 and ~/work/App4, listed in that order. */
  function SampleTree(): Dir
  {
    Listed("u", [
      Listed("projects", [Listed("app1", []), Listed("app2", [])]),
      Listed(".hidden", [Listed("app3", [])]),
      Listed("work", [Listed("App4", [])])
    ])
  }

  lemma NameMisses()
    ensures !IsMatch("projects", "app") && !IsMatch("work", "app")
  {
    LowerOmits("projects", 'a');
    FirstCharAbsent(Lower("projects"), "app");
    LowerOmits("work", 'a');
    FirstCharAbsent(Lower("work"), "app");
  }

  lemma NameHits()
    ensures IsMatch("app1", "app") && IsMatch("app2", "app") && IsMatch("App4", "app")
  {
    assert Lower("app1") == "app1";
    assert Lower("app2") == "app2";
    assert Lower("App4") == "app4";
  }

  lemma LeafMatches(p: Path, n: Name, q: string)
    ensures TreeMatches(p, Listed(n, []), q) == []
  {
    assert Visible([]) == [];
  }

  /** Directories without sub-directories contribute nothing below themselves. */
  lemma {:induction false} LeafForest(p: Path, cs: seq<Dir>, q: string)
    requires forall i :: 0 <= i < |cs| ==> cs[i].Listed? && cs[i].children == []
    ensures ForestMatches(p, cs, q) == []
  {
    if cs != [] {
      LeafMatches(p + [cs[0].name], cs[0].name, q);
      LeafForest(p, cs[1..], q);
    }
  }

  /** Both names under ~/projects match. */
  lemma ProjectsDirMatches(pp: Path, q: string)
    requires q == "app"
    ensures DirMatches(pp, ["app1", "app2"], q) == [pp + ["app1"], pp + ["app2"]]
  {
    NameHits();
    assert ["app1", "app2"][..1] == ["app1"];
    assert DirMatches(pp, ["app1"], q) == [pp + ["app1"]];
  }

  /** The two projects, found while listing ~/projects. */
  lemma ProjectsMatches(pp: Path, d: Dir, q: string)
    requires d == Listed("projects", [Listed("app1", []), Listed("app2", [])]) && q == "app"
    ensures TreeMatches(pp, d, q) == [pp + ["app1"], pp + ["app2"]]
  {
    VisibleKeepsAll(d.children);
    assert Names(d.children) == ["app1", "app2"];
    ProjectsDirMatches(pp, q);
    LeafForest(pp, d.children, q);
  }

  /** App4, found while listing ~/work. */
  lemma WorkMatches(pw: Path, d: Dir, q: string)
    requires d == Listed("work", [Listed("App4", [])]) && q == "app"
    ensures TreeMatches(pw, d, q) == [pw + ["App4"]]
  {
    NameHits();
    VisibleKeepsAll(d.children);
    assert Names(d.children) == ["App4"];
    assert DirMatches(pw, ["App4"], q) == [pw + ["App4"]];
    LeafForest(pw, d.children, q);
  }

  /** Three sub-directories with a hidden one in the middle: the walk skips the middle one. */
  lemma SkipMiddle(p: Path, cs: seq<Dir>, q: string)
    requires |cs| == 3 && !Hidden(cs[0].name) && Hidden(cs[1].name) && !Hidden(cs[2].name)
    ensures Visible(cs) == [cs[0], cs[2]]
    ensures ForestMatches(p, cs, q) == TreeMatches(p + [cs[0].name], cs[0], q) + TreeMatches(p + [cs[2].name], cs[2], q)
  {
    var t1 := cs[1..];
    var t2 := t1[1..];
    assert t1[0] == cs[1];
    assert t2 == [cs[2]] && t2[1..] == [];
    VisibleKeepsAll(t2);
    assert Visible(t1) == Visible(t2);
    assert ForestMatches(p, t2, q) == TreeMatches(p + [cs[2].name], cs[2], q) + ForestMatches(p, [], q);
    assert ForestMatches(p, t1, q) == ForestMatches(p, t2, q);
  }

  /** Neither "projects" nor "work" matches. */
  lemma HomeDirMatches(home: Path, q: string)
    requires q == "app"
    ensures DirMatches(home, ["projects", "work"], q) == []
  {
    NameMisses();
    assert ["projects", "work"][..1] == ["projects"];
    assert ["projects"][..0] == [];
    assert DirMatches(home, ["projects"], q) == DirMatches(home, [], q);
  }

  lemma JoinTwice(p: Path, a: Name, b: Name)
    ensures p + [a] + [b] == p + [a, b]
  {
  }

  /** Below home, only ~/projects and ~/work contribute, in that order. */
  lemma HomeLevel(home: Path, t: Dir, q: string)
    requires t.Listed? && |t.children| == 3 && q == "app"
    requires t.children[0].name == "projects" && Hidden(t.children[1].name) && t.children[2].name == "work"
    ensures TreeMatches(home, t, q)
         == TreeMatches(home + ["projects"], t.children[0], q) + TreeMatches(home + ["work"], t.children[2], q)
  {
    var cs := t.children;
    SkipMiddle(home, cs, q);
    assert Names([cs[0], cs[2]]) == ["projects", "work"];
    HomeDirMatches(home, q);
  }

  /** The matches below home under query "app": the two projects, then App4. */
  lemma AppTree(home: Path, t: Dir, q: string)
    requires t.Listed? && |t.children| == 3 && q == "app"
    requires t.children[0] == Listed("projects", [Listed("app1", []), Listed("app2", [])])
    requires Hidden(t.children[1].name)
    requires t.children[2] == Listed("work", [Listed("App4", [])])
    ensures TreeMatches(home, t, q)
         == [home + ["projects", "app1"], home + ["projects", "app2"], home + ["work", "App4"]]
  {
    HomeLevel(home, t, q);
    ProjectsMatches(home + ["projects"], t.children[0], q);
    WorkMatches(home + ["work"], t.children[2], q);
    JoinTwice(home, "projects", "app1");
    JoinTwice(home, "projects", "app2");
    JoinTwice(home, "work", "App4");
  }

  /**
   * Query "app" from any home: the two projects, then App4, in walk order;
   * app3 lies under a hidden directory.
   */
  lemma AppQuery(home: Path)
    ensures MatchingDirs(home, SampleTree(), "app", None)
         == [home + ["projects", "app1"], home + ["projects", "app2"], home + ["work", "App4"]]
  {
    var q := Lower("app");
    assert q == "app";
    AppTree(home, SampleTree(), q);
    WalkMatches(home, SampleTree(), q);
  }

  const DockerCommand := "docker run -v $WORKSPACE_BASE:/ws image"
  const DockerBefore := "docker run -v "
  const DockerAfter := ":/ws image"
  const App1Path := "/home/u/projects/app1"

  lemma DockerSplit()
    ensures DockerCommand == DockerBefore + Token + DockerAfter
    ensures forall i :: 0 <= i < |DockerBefore| ==> !OccursAt(DockerCommand, Token, i)
  {
    forall i | 0 <= i < |DockerBefore| ensures !OccursAt(DockerCommand, Token, i) {
      FirstCharMismatch(DockerCommand, Token, i);
    }
  }

  lemma DockerReplaced()
    ensures ReplaceAll(DockerCommand, Token, App1Path) == DockerBefore + App1Path + DockerAfter
  {
    DockerSplit();
    ReplaceLeftmost(DockerBefore, DockerAfter, Token, App1Path);
    ReplaceAbsent(DockerAfter, Token, App1Path);
  }

  /** The docker template: the placeholder is replaced by the selected path, the rest is kept. */
  lemma DockerTemplate(mkdirOk: bool)
    ensures OnItemEnter(Payload(Use, App1Path), Home, DockerCommand, mkdirOk)
         == Some(["kitty", "--", "bash", "-c", DockerBefore + App1Path + DockerAfter + Prompt])
  {
    DockerReplaced();
    assert Workspace(Payload(Use, App1Path), Home, mkdirOk) == Some(App1Path);
  }

  /** Creating "newproj" under /home/u makes /home/u/newproj the workspace, if mkdir succeeds. */
  lemma CreateNewProject(mkdirOk: bool)
    ensures Workspace(Payload(Create, "newproj"), Home, mkdirOk)
         == if mkdirOk then Some("/home/u/newproj") else None
  {
    assert RenderParts([]) == "";
    assert RenderParts(["u"]) == "/" + "u" + RenderParts([]);
    assert Home[1..] == ["u"];
    assert RenderParts(Home) == "/" + "home" + RenderParts(["u"]);
    assert RenderParts(Home) == "/home/u";
    assert "/home/u" + "/" + "newproj" == "/home/u/newproj";
  }
}
