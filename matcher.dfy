/**
 * `find_matching_dirs`: a top-down walk of the home directory that prunes
 * hidden directories, collects the children whose lower-cased name contains
 * the lower-cased query, and stops as soon as it holds `Limit` paths.
 *
 * The walk is the one `os.walk(home)` performs top-down: a stack of
 * directories still to enter; the directory on top is popped and listed,
 * its child list is handed to the caller (who filters it in place), and the
 * children left in it are pushed in reverse, so that they are entered in
 * listing order.
 */
module Matcher {
  import opened Options
  import opened Text
  import opened FileTree

  /** The cap on the number of matches (`if len(matches) >= 5: return matches`). */
  const Limit: nat := 5

  /** `query in dir_name.lower()`, for a query already lower-cased. */
  predicate IsMatch(name: Name, q: string)
  {
    Contains(Lower(name), q)
  }

  /** The test ignores the case of the name: a name matches exactly when its lower-cased form does. */
  lemma IsMatchIgnoresCase(name: Name, query: string)
    ensures IsMatch(name, Lower(query)) <==> IsMatch(Lower(name), Lower(query))
  {
    LowerIdempotent(name);
  }

  /**
   * One directory the walk enters: its path (`root`) and the child names that
   * remain in `dirs` once the hidden ones are filtered out.
   */
  datatype Step = Step(root: Path, dirs: seq<Name>)

  /** The directories the walk enters, in the order it enters them. */
  function Walk(p: Path, d: Dir): seq<Step>
    decreases d
  {
    match d
    case Unlisted(_) => []
    case Listed(_, cs) => [Step(p, Names(Visible(cs)))] + WalkChildren(p, cs)
  }

  /** The walks of the non-hidden directories among `cs`, one after the other. */
  function WalkChildren(p: Path, cs: seq<Dir>): seq<Step>
    decreases cs
  {
    if cs == [] then []
    else (if Hidden(cs[0].name) then [] else Walk(p + [cs[0].name], cs[0])) + WalkChildren(p, cs[1..])
  }

  /** The paths `root / n` the inner loop appends, for the names `ns` examined in order. */
  function DirMatches(root: Path, ns: seq<Name>, q: string): seq<Path>
  {
    if ns == [] then []
    else DirMatches(root, ns[..|ns| - 1], q)
         + (if IsMatch(ns[|ns| - 1], q) then [root + [ns[|ns| - 1]]] else [])
  }

  /** All matches found while processing the entered directories `steps`, with no cap. */
  function Matches(steps: seq<Step>, q: string): seq<Path>
  {
    if steps == [] then []
    else Matches(steps[..|steps| - 1], q) + DirMatches(steps[|steps| - 1].root, steps[|steps| - 1].dirs, q)
  }

  /** The first `n` elements of `s`, or all of them if there are fewer. */
  function Take(s: seq<Path>, n: nat): (r: seq<Path>)
    ensures |r| <= n && r <= s
    ensures |s| >= n ==> |r| == n
    ensures |s| <= n ==> r == s
  {
    if |s| <= n then s else s[..n]
  }

  /**
   * The directories entered before the walk raises. `abortAfter == Some(k)`
   * models an exception out of the walk when it would enter its (k+1)-th
   * directory; `None` models a walk that runs to the end.
   */
  function Entered(home: Path, tree: Dir, abortAfter: Option<nat>): (r: seq<Step>)
    ensures r <= Walk(home, tree)
    ensures abortAfter.None? ==> r == Walk(home, tree)
    ensures abortAfter.Some? ==> |r| == if abortAfter.value < |Walk(home, tree)| then abortAfter.value else |Walk(home, tree)|
  {
    var steps := Walk(home, tree);
    match abortAfter
    case None => steps
    case Some(k) => if k < |steps| then steps[..k] else steps
  }

  /** Every match in walk order, had there been neither a cap nor an exception. */
  function AllMatches(home: Path, tree: Dir, query: string): seq<Path>
  {
    Matches(Walk(home, tree), Lower(query))
  }

  /** What `find_matching_dirs(query)` returns. */
  function MatchingDirs(home: Path, tree: Dir, query: string, abortAfter: Option<nat>): (r: seq<Path>)
    ensures |r| <= Limit
  {
    Take(Matches(Entered(home, tree, abortAfter), Lower(query)), Limit)
  }

  // ---------------------------------------------------------------------------
  // A direct recursive enumeration of the matches, and the walk agrees with it.

  /** The matches below directory `d` at path `p`, by recursion on the tree. */
  function TreeMatches(p: Path, d: Dir, q: string): seq<Path>
    decreases d
  {
    match d
    case Unlisted(_) => []
    case Listed(_, cs) => DirMatches(p, Names(Visible(cs)), q) + ForestMatches(p, cs, q)
  }

  function ForestMatches(p: Path, cs: seq<Dir>, q: string): seq<Path>
    decreases cs
  {
    if cs == [] then []
    else (if Hidden(cs[0].name) then [] else TreeMatches(p + [cs[0].name], cs[0], q)) + ForestMatches(p, cs[1..], q)
  }

  lemma {:induction false} MatchesAppend(a: seq<Step>, b: seq<Step>, q: string)
    ensures Matches(a + b, q) == Matches(a, q) + Matches(b, q)
    decreases |b|
  {
    if b == [] {
      assert a + b == a;
    } else {
      var init, last := b[..|b| - 1], b[|b| - 1];
      assert (a + b)[..|a + b| - 1] == a + init;
      assert (a + b)[|a + b| - 1] == last;
      MatchesAppend(a, init, q);
    }
  }

  lemma {:induction false} DirMatchesAppend(root: Path, a: seq<Name>, b: seq<Name>, q: string)
    ensures DirMatches(root, a + b, q) == DirMatches(root, a, q) + DirMatches(root, b, q)
    decreases |b|
  {
    if b == [] {
      assert a + b == a;
    } else {
      assert (a + b)[..|a + b| - 1] == a + b[..|b| - 1];
      DirMatchesAppend(root, a, b[..|b| - 1], q);
    }
  }

  lemma MatchesSingle(s: Step, q: string)
    ensures Matches([s], q) == DirMatches(s.root, s.dirs, q)
  {
    assert [s][..0] == [];
  }

  /** The matches collected along the walk are exactly the recursive enumeration. */
  lemma {:induction false} WalkMatches(p: Path, d: Dir, q: string)
    ensures Matches(Walk(p, d), q) == TreeMatches(p, d, q)
    decreases d
  {
    match d
    case Unlisted(_) =>
    case Listed(_, cs) =>
      var s := Step(p, Names(Visible(cs)));
      MatchesAppend([s], WalkChildren(p, cs), q);
      MatchesSingle(s, q);
      WalkChildrenMatches(p, cs, q);
  }

  lemma {:induction false} WalkChildrenMatches(p: Path, cs: seq<Dir>, q: string)
    ensures Matches(WalkChildren(p, cs), q) == ForestMatches(p, cs, q)
    decreases cs
  {
    if cs != [] {
      var first := if Hidden(cs[0].name) then [] else Walk(p + [cs[0].name], cs[0]);
      MatchesAppend(first, WalkChildren(p, cs[1..]), q);
      if !Hidden(cs[0].name) {
        WalkMatches(p + [cs[0].name], cs[0], q);
      }
      WalkChildrenMatches(p, cs[1..], q);
    }
  }

  // ---------------------------------------------------------------------------
  // Which paths are matches: exactly the non-hidden reachable directories whose
  // name contains the query.

  lemma {:induction false} DirMatchesIff(root: Path, ns: seq<Name>, q: string, x: Path)
    ensures x in DirMatches(root, ns, q) <==>
      |x| == |root| + 1 && x[..|root|] == root && x[|root|] in ns && IsMatch(x[|root|], q)
    decreases |ns|
  {
    if ns != [] {
      var init, last := ns[..|ns| - 1], ns[|ns| - 1];
      DirMatchesIff(root, init, q, x);
      assert ns == init + [last];
      if |x| == |root| + 1 && x[..|root|] == root && x[|root|] == last {
        assert x == root + [last];
      }
    }
  }

  lemma VisibleNames(cs: seq<Dir>, n: Name)
    ensures n in Names(Visible(cs)) <==> !Hidden(n) && exists c :: c in cs && c.name == n
  {
    var vs := Visible(cs);
    if n in Names(vs) {
      var i :| 0 <= i < |vs| && Names(vs)[i] == n;
      assert vs[i] in cs;
    }
    if !Hidden(n) && exists c :: c in cs && c.name == n {
      var c :| c in cs && c.name == n;
      assert c in vs;
      var i :| 0 <= i < |vs| && vs[i] == c;
      assert Names(vs)[i] == n;
    }
  }

  /** `rel` (of length at least two) goes down through one of the visible directories `cs`. */
  ghost predicate ReachesThrough(cs: seq<Dir>, rel: Path)
  {
    && |rel| > 1
    && !Hidden(rel[0])
    && exists c :: c in cs && c.name == rel[0] && Reaches(c, rel[1..])
  }

  lemma PrefixSnoc(x: Path, p: Path, n: Name)
    requires |x| > |p|
    ensures x[..|p| + 1] == p + [n] <==> x[..|p|] == p && x[|p|] == n
  {
    if x[..|p|] == p && x[|p|] == n {
      assert x[..|p| + 1] == x[..|p|] + [x[|p|]];
    }
  }

  lemma ReachesListed(n: Name, cs: seq<Dir>, rel: Path)
    requires |rel| > 0
    ensures Reaches(Listed(n, cs), rel) <==>
      (|rel| == 1 && rel[0] in Names(Visible(cs))) || ReachesThrough(cs, rel)
  {
    VisibleNames(cs, rel[0]);
  }

  lemma ReachesThroughCons(cs: seq<Dir>, rel: Path)
    requires cs != []
    ensures ReachesThrough(cs, rel) <==>
      ReachesThrough(cs[1..], rel) || (|rel| > 1 && !Hidden(rel[0]) && cs[0].name == rel[0] && Reaches(cs[0], rel[1..]))
  {
    if ReachesThrough(cs, rel) {
      var c :| c in cs && c.name == rel[0] && Reaches(c, rel[1..]);
      if c != cs[0] {
        assert c in cs[1..];
      }
    }
    if ReachesThrough(cs[1..], rel) {
      var c :| c in cs[1..] && c.name == rel[0] && Reaches(c, rel[1..]);
      assert c in cs;
    }
    if |rel| > 1 && !Hidden(rel[0]) && cs[0].name == rel[0] && Reaches(cs[0], rel[1..]) {
      assert cs[0] in cs;
    }
  }

  lemma {:induction false} TreeMatchesIff(p: Path, d: Dir, q: string, x: Path)
    ensures x in TreeMatches(p, d, q) <==>
      |x| > |p| && x[..|p|] == p && Reaches(d, x[|p|..]) && IsMatch(x[|x| - 1], q)
    decreases d
  {
    match d
    case Unlisted(_) =>
    case Listed(n, cs) =>
      var ns := Names(Visible(cs));
      DirMatchesIff(p, ns, q, x);
      ForestMatchesIff(p, cs, q, x);
      if |x| > |p| {
        var rel := x[|p|..];
        ReachesListed(n, cs, rel);
        assert rel[0] == x[|p|];
      }
  }

  lemma {:induction false} ForestMatchesIff(p: Path, cs: seq<Dir>, q: string, x: Path)
    ensures x in ForestMatches(p, cs, q) <==>
      |x| > |p| + 1 && x[..|p|] == p && ReachesThrough(cs, x[|p|..]) && IsMatch(x[|x| - 1], q)
    decreases cs
  {
    if cs != [] {
      var c0, rest := cs[0], cs[1..];
      ForestMatchesIff(p, rest, q, x);
      var p0 := p + [c0.name];
      TreeMatchesIff(p0, c0, q, x);
      if |x| > |p| + 1 {
        var rel := x[|p|..];
        assert x[|p0|..] == rel[1..];
        PrefixSnoc(x, p, c0.name);
        ReachesThroughCons(cs, rel);
      }
    }
  }

  /** A path is a match of the full walk exactly when it names a non-hidden reachable directory that matches the query. */
  lemma AllMatchesIff(home: Path, tree: Dir, query: string, x: Path)
    ensures x in AllMatches(home, tree, query) <==>
      |x| > |home| && x[..|home|] == home && Reaches(tree, x[|home|..]) && IsMatch(x[|x| - 1], Lower(query))
  {
    WalkMatches(home, tree, Lower(query));
    TreeMatchesIff(home, tree, Lower(query), x);
  }

  // ---------------------------------------------------------------------------
  // No path is found twice.

  predicate NoDuplicates(s: seq<Path>)
  {
    forall i, j :: 0 <= i < j < |s| ==> s[i] != s[j]
  }

  lemma NoDuplicatesAppend(a: seq<Path>, b: seq<Path>)
    requires NoDuplicates(a) && NoDuplicates(b)
    requires forall x :: x in a ==> x !in b
    ensures NoDuplicates(a + b)
  {
    forall i, j | 0 <= i < j < |a + b| ensures (a + b)[i] != (a + b)[j] {
      if i < |a| && j >= |a| {
        assert (a + b)[i] in a && (a + b)[j] in b;
      }
    }
  }

  lemma {:induction false} DirMatchesDistinct(root: Path, ns: seq<Name>, q: string)
    requires forall i, j :: 0 <= i < j < |ns| ==> ns[i] != ns[j]
    ensures NoDuplicates(DirMatches(root, ns, q))
    decreases |ns|
  {
    if ns != [] {
      var init, last := ns[..|ns| - 1], ns[|ns| - 1];
      DirMatchesDistinct(root, init, q);
      assert last !in init by {
        forall k | 0 <= k < |init| ensures init[k] != last {
          assert ns[k] != ns[|ns| - 1];
        }
      }
      forall x | x in DirMatches(root, init, q) ensures x != root + [last] {
        DirMatchesIff(root, init, q, x);
      }
      var tail := if IsMatch(last, q) then [root + [last]] else [];
      NoDuplicatesAppend(DirMatches(root, init, q), tail);
    }
  }

  lemma {:induction false} TreeMatchesDistinct(p: Path, d: Dir, q: string)
    requires WellFormed(d)
    ensures NoDuplicates(TreeMatches(p, d, q))
    decreases d
  {
    match d
    case Unlisted(_) =>
    case Listed(_, cs) =>
      var vs := Visible(cs);
      VisibleDistinct(cs);
      var ns := Names(vs);
      DirMatchesDistinct(p, ns, q);
      ForestMatchesDistinct(p, cs, q);
      forall x | x in DirMatches(p, ns, q) ensures x !in ForestMatches(p, cs, q) {
        DirMatchesIff(p, ns, q, x);
        ForestMatchesIff(p, cs, q, x);
      }
      NoDuplicatesAppend(DirMatches(p, ns, q), ForestMatches(p, cs, q));
  }

  lemma {:induction false} ForestMatchesDistinct(p: Path, cs: seq<Dir>, q: string)
    requires DistinctNames(cs)
    requires forall c :: c in cs ==> WellFormed(c)
    ensures NoDuplicates(ForestMatches(p, cs, q))
    decreases cs
  {
    if cs != [] {
      var c0, rest := cs[0], cs[1..];
      assert DistinctNames(rest);
      ForestMatchesDistinct(p, rest, q);
      var first := if Hidden(c0.name) then [] else TreeMatches(p + [c0.name], c0, q);
      if !Hidden(c0.name) {
        TreeMatchesDistinct(p + [c0.name], c0, q);
        forall x | x in first ensures x !in ForestMatches(p, rest, q) {
          SiblingMatchesDisjoint(p, cs, q, x);
        }
      }
      NoDuplicatesAppend(first, ForestMatches(p, rest, q));
    }
  }

  /** A match below the child `d` at `p + [d.name]` has that name as its component after `p`. */
  lemma TreeMatchHead(p: Path, d: Dir, q: string, x: Path)
    requires x in TreeMatches(p + [d.name], d, q)
    ensures |x| > |p| && x[|p|] == d.name
  {
    TreeMatchesIff(p + [d.name], d, q, x);
    assert x[..|p| + 1][|p|] == x[|p|];
  }

  /** A match below one of the directories `cs` at `p` has one of their names after `p`. */
  lemma ForestMatchHead(p: Path, cs: seq<Dir>, q: string, x: Path)
    ensures x in ForestMatches(p, cs, q) ==> |x| > |p| && exists k :: 0 <= k < |cs| && cs[k].name == x[|p|]
  {
    ForestMatchesIff(p, cs, q, x);
    if x in ForestMatches(p, cs, q) {
      var c :| c in cs && c.name == x[|p|..][0] && Reaches(c, x[|p|..][1..]);
      var k :| 0 <= k < |cs| && cs[k] == c;
    }
  }

  /** A match below the first child is never a match below a later sibling. */
  lemma SiblingMatchesDisjoint(p: Path, cs: seq<Dir>, q: string, x: Path)
    requires DistinctNames(cs) && cs != []
    requires x in TreeMatches(p + [cs[0].name], cs[0], q)
    ensures x !in ForestMatches(p, cs[1..], q)
  {
    TreeMatchHead(p, cs[0], q, x);
    ForestMatchHead(p, cs[1..], q, x);
    forall k | 0 <= k < |cs| - 1 ensures cs[1..][k].name != x[|p|] {
      assert cs[1..][k] == cs[k + 1];
    }
  }

  // ---------------------------------------------------------------------------
  // What find_matching_dirs returns.

  /** The result is the beginning of the full match sequence: matches come in walk order. */
  lemma MatchingDirsPrefix(home: Path, tree: Dir, query: string, abortAfter: Option<nat>)
    ensures MatchingDirs(home, tree, query, abortAfter) <= AllMatches(home, tree, query)
  {
    var steps := Walk(home, tree);
    var entered := Entered(home, tree, abortAfter);
    assert steps == entered + steps[|entered|..];
    MatchesAppend(entered, steps[|entered|..], Lower(query));
  }

  /**
   * Every returned path lies strictly below home, is reached only through
   * non-hidden directories the walk enters, and its last component contains
   * the query, ignoring case.
   */
  lemma MatchingDirsSound(home: Path, tree: Dir, query: string, abortAfter: Option<nat>, x: Path)
    requires x in MatchingDirs(home, tree, query, abortAfter)
    ensures |x| > |home| && x[..|home|] == home
    ensures Reaches(tree, x[|home|..])
    ensures forall i :: |home| <= i < |x| ==> !Hidden(x[i])
    ensures IsMatch(x[|x| - 1], Lower(query))
  {
    MatchingDirsPrefix(home, tree, query, abortAfter);
    AllMatchesIff(home, tree, query, x);
    ReachesNotHidden(tree, x[|home|..]);
    forall i | |home| <= i < |x| ensures !Hidden(x[i]) {
      assert x[i] == x[|home|..][i - |home|];
    }
  }

  /** In a well-formed tree no path is returned twice. */
  lemma MatchingDirsDistinct(home: Path, tree: Dir, query: string, abortAfter: Option<nat>)
    requires WellFormed(tree)
    ensures NoDuplicates(MatchingDirs(home, tree, query, abortAfter))
  {
    var r := MatchingDirs(home, tree, query, abortAfter);
    var all := AllMatches(home, tree, query);
    MatchingDirsPrefix(home, tree, query, abortAfter);
    WalkMatches(home, tree, Lower(query));
    TreeMatchesDistinct(home, tree, Lower(query));
    forall i, j | 0 <= i < j < |r| ensures r[i] != r[j] {
      assert r[i] == all[i] && r[j] == all[j];
    }
  }

  /**
   * A walk that raises nothing returns `Limit` paths if there are that many
   * matches, and otherwise every matching directory.
   */
  lemma MatchingDirsComplete(home: Path, tree: Dir, query: string, x: Path)
    ensures |AllMatches(home, tree, query)| >= Limit ==> |MatchingDirs(home, tree, query, None)| == Limit
    ensures |MatchingDirs(home, tree, query, None)| < Limit &&
            |x| > |home| && x[..|home|] == home && Reaches(tree, x[|home|..]) && IsMatch(x[|x| - 1], Lower(query))
            ==> x in MatchingDirs(home, tree, query, None)
  {
    AllMatchesIff(home, tree, query, x);
  }

  /** An empty query matches every name, so it returns the first directories the walk finds. */
  lemma EmptyQueryMatchesAll(home: Path, tree: Dir, x: Path)
    ensures x in AllMatches(home, tree, "") <==> |x| > |home| && x[..|home|] == home && Reaches(tree, x[|home|..])
  {
    AllMatchesIff(home, tree, "", x);
    assert Lower("") == "";
    if |x| > 0 {
      ContainsEmpty(Lower(x[|x| - 1]));
    }
  }

  // ---------------------------------------------------------------------------
  // The imperative walk.

  /** A directory on the walk's stack: its path and its entry. */
  datatype Frame = Frame(path: Path, dir: Dir)

  /** The directories still to be entered from a stack whose top is its last element. */
  function StackWalk(stack: seq<Frame>): seq<Step>
  {
    if stack == [] then []
    else Walk(stack[|stack| - 1].path, stack[|stack| - 1].dir) + StackWalk(stack[..|stack| - 1])
  }

  lemma WalkChildrenVisible(p: Path, cs: seq<Dir>)
    ensures WalkChildren(p, Visible(cs)) == WalkChildren(p, cs)
  {
    if cs != [] && !Hidden(cs[0].name) {
      assert Visible(cs) == [cs[0]] + Visible(cs[1..]);
      assert (Visible(cs))[1..] == Visible(cs[1..]);
    }
  }

  lemma TakeOfPrefix(a: seq<Path>, b: seq<Path>, n: nat)
    requires a <= b && |a| >= n
    ensures Take(a, n) == Take(b, n)
  {
    assert a[..n] == b[..n];
  }

  /** The early `return matches` at the cap gives the same as the capped full walk. */
  lemma CapReached(home: Path, tree: Dir, query: string, abortAfter: Option<nat>,
                   done: seq<Step>, s: Step, rest: seq<Step>, found: seq<Path>)
    requires Walk(home, tree) == done + [s] + rest
    requires abortAfter.Some? ==> abortAfter.value > |done|
    requires found == Matches(done, Lower(query))
    requires |found + DirMatches(s.root, s.dirs, Lower(query))| >= Limit
    ensures Take(found + DirMatches(s.root, s.dirs, Lower(query)), Limit) == MatchingDirs(home, tree, query, abortAfter)
  {
    var q := Lower(query);
    var pre := done + [s];
    var entered := Entered(home, tree, abortAfter);
    assert pre <= entered;
    assert entered == pre + entered[|pre|..];
    MatchesAppend(pre, entered[|pre|..], q);
    MatchesAppend(done, [s], q);
    MatchesSingle(s, q);
    TakeOfPrefix(Matches(pre, q), Matches(entered, q), Limit);
  }

  /** Entering a listed directory: its step comes first, then its pushed children, then the rest of the stack. */
  lemma EnterListed(walk: seq<Step>, done: seq<Step>, stack: seq<Frame>, frame: Frame)
    requires walk == done + StackWalk(stack + [frame])
    requires frame.dir.Listed?
    ensures var dirs := Visible(frame.dir.children);
      walk == done + [Step(frame.path, Names(dirs))] + StackWalk(PushChildren(stack, frame.path, dirs))
  {
    var cs := frame.dir.children;
    var s := Step(frame.path, Names(Visible(cs)));
    var kids := WalkChildren(frame.path, cs);
    var below := StackWalk(stack);
    StackWalkPush(stack, frame);
    assert Walk(frame.path, frame.dir) == [s] + kids;
    PushVisible(stack, frame.path, cs);
    ConcatRegroup(done, [s], kids, below);
  }

  lemma ConcatRegroup(a: seq<Step>, b: seq<Step>, c: seq<Step>, d: seq<Step>)
    ensures a + ((b + c) + d) == a + b + (c + d)
  {
  }

  lemma PushVisible(stack: seq<Frame>, root: Path, cs: seq<Dir>)
    ensures StackWalk(PushChildren(stack, root, Visible(cs))) == WalkChildren(root, cs) + StackWalk(stack)
  {
    PushChildrenWalk(stack, root, Visible(cs));
    WalkChildrenVisible(root, cs);
  }

  /** Popping a directory the walk cannot enter contributes nothing. */
  lemma SkipUnlisted(walk: seq<Step>, done: seq<Step>, stack: seq<Frame>, frame: Frame)
    requires walk == done + StackWalk(stack + [frame])
    requires frame.dir.Unlisted?
    ensures walk == done + StackWalk(stack)
  {
    StackWalkPush(stack, frame);
  }

  /** The exception out of the walk, or its end, returns the matches collected so far. */
  lemma WalkStopped(home: Path, tree: Dir, query: string, abortAfter: Option<nat>,
                    done: seq<Step>, stack: seq<Frame>, matches: seq<Path>)
    requires Walk(home, tree) == done + StackWalk(stack)
    requires abortAfter == Some(|done|) || (stack == [] && (abortAfter.Some? ==> abortAfter.value >= |done|))
    requires matches == Matches(done, Lower(query)) && |matches| < Limit
    ensures matches == MatchingDirs(home, tree, query, abortAfter)
  {
    var steps := Walk(home, tree);
    if abortAfter == Some(|done|) && |done| < |steps| {
      assert steps[..|done|] == done;
    } else {
      assert |StackWalk(stack)| == 0;
      assert steps == done;
    }
    assert Entered(home, tree, abortAfter) == done;
  }

  /**
   * The walk's `for dirname in reversed(dirs): stack.append(join(top, dirname))`:
   * the children are pushed last to first, so the first one is on top.
   */
  function PushChildren(stack: seq<Frame>, root: Path, dirs: seq<Dir>): (r: seq<Frame>)
    ensures |r| == |stack| + |dirs|
  {
    if dirs == [] then stack
    else PushChildren(stack, root, dirs[1..]) + [Frame(root + [dirs[0].name], dirs[0])]
  }

  /** After the push, the children are walked in listing order, then what lay below. */
  lemma {:induction false} PushChildrenWalk(stack: seq<Frame>, root: Path, dirs: seq<Dir>)
    requires forall d :: d in dirs ==> !Hidden(d.name)
    ensures StackWalk(PushChildren(stack, root, dirs)) == WalkChildren(root, dirs) + StackWalk(stack)
  {
    if dirs != [] {
      assert dirs[0] in dirs;
      PushChildrenWalk(stack, root, dirs[1..]);
      StackWalkPush(PushChildren(stack, root, dirs[1..]), Frame(root + [dirs[0].name], dirs[0]));
    }
  }

  lemma StackWalkPush(stack: seq<Frame>, top: Frame)
    ensures StackWalk(stack + [top]) == Walk(top.path, top.dir) + StackWalk(stack)
  {
    assert (stack + [top])[..|stack|] == stack;
  }


  /**
   * The inner loop of `find_matching_dirs` over one directory's remaining
   * children: append `root / n` for each name `n` that matches, and stop
   * as soon as `Limit` paths are held. `full` reports that early return.
   */
  method ScanChildren(root: Path, names: seq<Name>, q: string, found: seq<Path>)
    returns (matches: seq<Path>, full: bool)
    requires |found| < Limit
    ensures full <==> |found + DirMatches(root, names, q)| >= Limit
    ensures matches == Take(found + DirMatches(root, names, q), Limit)
  {
    matches := found;
    var j := 0;
    while j < |names|
      invariant 0 <= j <= |names|
      invariant matches == found + DirMatches(root, names[..j], q)
      invariant |matches| < Limit
    {
      DirMatchesNext(root, names, j, q);
      if IsMatch(names[j], q) {
        matches := matches + [root + [names[j]]];
        if |matches| >= Limit {
          ScanCapped(root, names, j, q, found, matches);
          return matches, true;
        }
      }
      j := j + 1;
    }
    assert names[..j] == names;
    full := false;
  }

  lemma DirMatchesNext(root: Path, ns: seq<Name>, j: nat, q: string)
    requires j < |ns|
    ensures DirMatches(root, ns[..j + 1], q)
         == DirMatches(root, ns[..j], q) + (if IsMatch(ns[j], q) then [root + [ns[j]]] else [])
  {
    assert ns[..j + 1][..j] == ns[..j];
  }

  lemma ScanCapped(root: Path, ns: seq<Name>, j: nat, q: string, found: seq<Path>, matches: seq<Path>)
    requires j < |ns|
    requires matches == found + DirMatches(root, ns[..j + 1], q) && |matches| == Limit
    ensures |found + DirMatches(root, ns, q)| >= Limit
    ensures matches == Take(found + DirMatches(root, ns, q), Limit)
  {
    assert ns == ns[..j + 1] + ns[j + 1..];
    DirMatchesAppend(root, ns[..j + 1], ns[j + 1..], q);
    assert matches <= found + DirMatches(root, ns, q);
    TakeOfPrefix(matches, found + DirMatches(root, ns, q), Limit);
  }

  /** Below the cap, processing one more directory extends the collected matches by its own. */
  lemma Advance(walk: seq<Step>, done: seq<Step>, s: Step, rest: seq<Step>,
                prev: seq<Path>, matches: seq<Path>, q: string)
    requires walk == done + [s] + rest
    requires prev == Matches(done, q)
    requires |prev + DirMatches(s.root, s.dirs, q)| < Limit
    requires matches == Take(prev + DirMatches(s.root, s.dirs, q), Limit)
    ensures walk == (done + [s]) + rest
    ensures matches == Matches(done + [s], q) && |matches| < Limit
  {
    MatchesAppend(done, [s], q);
    MatchesSingle(s, q);
  }

  lemma SplitLast(stack: seq<Frame>)
    requires |stack| > 0
    ensures stack == stack[..|stack| - 1] + [stack[|stack| - 1]]
  {
  }

  /**
   * One directory the walk yields as `(root, dirs, _)`: drop the hidden
   * children from `dirs` in place, test the rest in order, and, unless the
   * cap was reached, push them for the walk to enter, last first.
   */
  method EnterDirectory(frame: Frame, below: seq<Frame>, q: string, found: seq<Path>)
    returns (matches: seq<Path>, full: bool, stack: seq<Frame>)
    requires frame.dir.Listed? && |found| < Limit
    ensures var dirs := Visible(frame.dir.children);
      && (full <==> |found + DirMatches(frame.path, Names(dirs), q)| >= Limit)
      && matches == Take(found + DirMatches(frame.path, Names(dirs), q), Limit)
      && (!full ==> stack == PushChildren(below, frame.path, dirs))
  {
    var dirs := Visible(frame.dir.children);       // dirs[:] = [d for d in dirs if ...]
    matches, full := ScanChildren(frame.path, Names(dirs), q, found);
    stack := below;
    if !full {
      stack := PushChildren(below, frame.path, dirs);
    }
  }

  /** `find_matching_dirs(query)`, over the home directory `tree` at path `home`. */
  method FindMatchingDirs(home: Path, tree: Dir, query: string, abortAfter: Option<nat>)
    returns (matches: seq<Path>)
    ensures matches == MatchingDirs(home, tree, query, abortAfter)
  {
    var q := Lower(query);
    matches := [];
    var stack := [Frame(home, tree)];
    var entered: nat := 0;
    ghost var walk := Walk(home, tree);
    ghost var done: seq<Step> := [];
    StackWalkPush([], Frame(home, tree));
    assert [] + [Frame(home, tree)] == stack;
    while stack != []
      invariant walk == done + StackWalk(stack)
      invariant entered == |done|
      invariant abortAfter.Some? ==> abortAfter.value >= entered
      invariant matches == Matches(done, q) && |matches| < Limit
      decreases |walk| - entered, |stack|
    {
      if abortAfter == Some(entered) {
        // the walk raises instead of entering its next directory
        WalkStopped(home, tree, query, abortAfter, done, stack, matches);
        return;
      }
      assert abortAfter.Some? ==> abortAfter.value > |done|;
      var frame := stack[|stack| - 1];
      var below := stack[..|stack| - 1];
      SplitLast(stack);
      stack := below;
      if frame.dir.Unlisted? {
        // listing fails, or a link that is not followed: the walk moves on
        SkipUnlisted(walk, done, stack, frame);
      } else {
        ghost var s := Step(frame.path, Names(Visible(frame.dir.children)));
        EnterListed(walk, done, stack, frame);
        ghost var rest := StackWalk(PushChildren(stack, frame.path, Visible(frame.dir.children)));
        ghost var prev := matches;
        var full, next;
        matches, full, next := EnterDirectory(frame, stack, q, matches);
        if full {
          CapReached(home, tree, query, abortAfter, done, s, rest, prev);
          return;
        }
        Advance(walk, done, s, rest, prev, matches, q);
        done := done + [s];
        entered := entered + 1;
        stack := next;
      }
    }
    WalkStopped(home, tree, query, abortAfter, done, stack, matches);
  }
}
