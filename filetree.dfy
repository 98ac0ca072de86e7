/**
 * The directory tree that the matcher walks, and the paths it returns.
 * A path is the sequence of its components below the filesystem root.
 */
module FileTree {

  type Name = string
  type Path = seq<Name>

  /**
   * One directory entry as the walk sees it, with its sub-directories in
   * listing order. `Unlisted` is a directory that its parent lists but the
   * walk never enters: listing it fails (the walk ignores the error), or it
   * is a symbolic link, which the walk does not follow.
   */
  datatype Dir = Listed(name: Name, children: seq<Dir>) | Unlisted(name: Name)

  /** A hidden name, `d.startswith('.')`: the name begins with the string ".". */
  predicate Hidden(n: Name)
  {
    |n| > 0 && n[0] == '.'
  }

  /** `Hidden` is exactly `startswith('.')`: the one-character string "." is a prefix of the name. */
  lemma HiddenStartsWith(n: Name)
    ensures Hidden(n) <==> "." <= n
  {
  }

  /** The children kept by `dirs[:] = [d for d in dirs if not d.startswith('.')]`, in order. */
  function Visible(cs: seq<Dir>): (vs: seq<Dir>)
    ensures forall v :: v in vs <==> v in cs && !Hidden(v.name)
  {
    if cs == [] then []
    else if Hidden(cs[0].name) then Visible(cs[1..])
    else [cs[0]] + Visible(cs[1..])
  }

  /** Filtering a listing in two parts filters each part, keeping their order. */
  lemma {:induction false} VisibleAppend(a: seq<Dir>, b: seq<Dir>)
    ensures Visible(a + b) == Visible(a) + Visible(b)
  {
    if a == [] {
      assert a + b == b;
    } else {
      assert (a + b)[0] == a[0];
      assert (a + b)[1..] == a[1..] + b;
      VisibleAppend(a[1..], b);
    }
  }

  /** A single entry is kept exactly when its name is not hidden. */
  lemma VisibleOne(c: Dir)
    ensures Visible([c]) == if Hidden(c.name) then [] else [c]
  {
    assert [c][1..] == [];
  }

  /** A list without hidden names is kept whole. */
  lemma {:induction false} VisibleKeepsAll(cs: seq<Dir>)
    requires forall i :: 0 <= i < |cs| ==> !Hidden(cs[i].name)
    ensures Visible(cs) == cs
  {
    if cs != [] {
      VisibleKeepsAll(cs[1..]);
      assert [cs[0]] + cs[1..] == cs;
    }
  }

  function Names(cs: seq<Dir>): (ns: seq<Name>)
    ensures |ns| == |cs|
    ensures forall i :: 0 <= i < |cs| ==> ns[i] == cs[i].name
  {
    seq(|cs|, i requires 0 <= i < |cs| => cs[i].name)
  }

  /** `str(p)` for an absolute path: "/" for the root, otherwise "/a/b/...". */
  function Render(p: Path): (r: string)
    ensures |r| > 0 && r[0] == '/'
  {
    if p == [] then "/" else RenderParts(p)
  }

  /** The components of `p`, each preceded by "/". */
  function RenderParts(p: Path): (r: string)
    ensures p != [] ==> |r| > 0 && r[0] == '/'
    ensures |r| >= |p|
  {
    if p == [] then "" else "/" + p[0] + RenderParts(p[1..])
  }

  /** `p / n` renders as `p`'s components followed by "/n", also when `p` is the root. */
  lemma {:induction false} RenderJoin(p: Path, n: Name)
    ensures Render(p + [n]) == RenderParts(p) + "/" + n
  {
    if p == [] {
      assert [] + [n] == [n];
      assert RenderParts([n]) == "/" + n + RenderParts([]);
    } else {
      assert (p + [n])[1..] == p[1..] + [n];
      RenderJoin(p[1..], n);
    }
  }

  predicate DistinctNames(cs: seq<Dir>)
  {
    forall i, j :: 0 <= i < j < |cs| ==> cs[i].name != cs[j].name
  }

  /** A real directory never lists two entries with the same name. */
  ghost predicate WellFormed(d: Dir)
  {
    match d
    case Unlisted(_) => true
    case Listed(_, cs) => DistinctNames(cs) && forall c :: c in cs ==> WellFormed(c)
  }

  /**
   * `rel` leads from directory `d` down to one of its descendants, going only
   * through directories the walk enters and never through a hidden name.
   */
  ghost predicate Reaches(d: Dir, rel: Path)
    decreases |rel|
  {
    && |rel| > 0
    && d.Listed?
    && !Hidden(rel[0])
    && exists c :: c in d.children && c.name == rel[0] && (|rel| == 1 || Reaches(c, rel[1..]))
  }

  /** No component of a reachable path is hidden. */
  lemma {:induction false} ReachesNotHidden(d: Dir, rel: Path)
    requires Reaches(d, rel)
    ensures forall i :: 0 <= i < |rel| ==> !Hidden(rel[i])
    decreases |rel|
  {
    var c :| c in d.children && c.name == rel[0] && (|rel| == 1 || Reaches(c, rel[1..]));
    if |rel| > 1 {
      ReachesNotHidden(c, rel[1..]);
      forall i | 1 <= i < |rel| ensures !Hidden(rel[i]) {
        assert rel[i] == rel[1..][i - 1];
      }
    }
  }

  /** Filtering hidden children keeps sibling names distinct. */
  lemma {:induction false} VisibleDistinct(cs: seq<Dir>)
    requires DistinctNames(cs)
    ensures DistinctNames(Visible(cs))
  {
    if cs != [] {
      assert DistinctNames(cs[1..]);
      VisibleDistinct(cs[1..]);
      if !Hidden(cs[0].name) {
        var vs := Visible(cs[1..]);
        forall j | 0 <= j < |vs| ensures vs[j].name != cs[0].name {
          assert vs[j] in cs[1..];
        }
        assert Visible(cs) == [cs[0]] + vs;
      }
    }
  }
}
