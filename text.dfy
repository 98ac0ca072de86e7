/**
 * The string operations main.py relies on: `str.lower()`, the substring test
 * `q in s`, `str.startswith('.')` and `str.replace(old, new)`.
 */
module Text {

  /** ASCII case folding of one character (the model's stand-in for `str.lower()`). */
  function LowerChar(c: char): char
  {
    if 'A' <= c <= 'Z' then (c as int + 32) as char else c
  }

  /** `s.lower()`, character by character. */
  function Lower(s: string): (r: string)
    ensures |r| == |s|
    ensures forall i :: 0 <= i < |s| && 'A' <= s[i] <= 'Z' ==> r[i] as int == s[i] as int + 32
    ensures forall i :: 0 <= i < |s| && !('A' <= s[i] <= 'Z') ==> r[i] == s[i]
    ensures forall i :: 0 <= i < |r| ==> !('A' <= r[i] <= 'Z')
  {
    seq(|s|, i requires 0 <= i < |s| => LowerChar(s[i]))
  }

  /** Lower-casing twice is lower-casing once. */
  lemma LowerIdempotent(s: string)
    ensures Lower(Lower(s)) == Lower(s)
  {
  }

  /** `pat` occurs in `s` starting at index `i`. */
  predicate OccursAt(s: string, pat: string, i: int)
  {
    0 <= i && i + |pat| <= |s| && s[i..i + |pat|] == pat
  }

  lemma OccursAtShift(s: string, pat: string, i: int)
    requires |s| > 0 && 0 <= i
    ensures OccursAt(s, pat, i + 1) <==> OccursAt(s[1..], pat, i)
  {
    if 0 <= i && i + 1 + |pat| <= |s| {
      assert s[1..][i..i + |pat|] == s[i + 1..i + 1 + |pat|];
    }
  }

  /** When `pat` does not start `s`, it occurs in `s` exactly when it occurs in `s[1..]`. */
  lemma OccursInTail(s: string, pat: string)
    requires |s| > 0 && !OccursAt(s, pat, 0)
    ensures (exists i :: OccursAt(s, pat, i)) <==> (exists i :: OccursAt(s[1..], pat, i))
  {
    if exists i :: OccursAt(s[1..], pat, i) {
      var i :| OccursAt(s[1..], pat, i);
      OccursAtShift(s, pat, i);
    }
    if exists i :: OccursAt(s, pat, i) {
      var i :| OccursAt(s, pat, i);
      OccursAtShift(s, pat, i - 1);
    }
  }

  /**
   * Python's `needle in hay` on strings: a left-to-right search for `needle`,
   * which succeeds exactly when `needle` occurs at some index.
   */
  function Contains(hay: string, needle: string): (b: bool)
    ensures b <==> exists i :: OccursAt(hay, needle, i)
    decreases |hay|
  {
    if needle <= hay then
      assert OccursAt(hay, needle, 0);
      true
    else if |hay| == 0 then
      assert forall i :: !OccursAt(hay, needle, i);
      false
    else
      OccursInTail(hay, needle);
      Contains(hay[1..], needle)
  }

  /** A needle whose first character never appears in the haystack is not found. */
  lemma {:induction false} FirstCharAbsent(hay: string, needle: string)
    requires |needle| > 0 && needle[0] !in hay
    ensures !Contains(hay, needle)
    decreases |hay|
  {
    if |hay| > 0 {
      assert hay[0] in hay;
      FirstCharAbsent(hay[1..], needle);
    }
  }

  /** Neither case of a letter in `s` means the lower-case letter is not in `Lower(s)`. */
  lemma LowerOmits(s: string, c: char)
    requires 'a' <= c <= 'z'
    requires c !in s && (c as int - 32) as char !in s
    ensures c !in Lower(s)
  {
    forall i | 0 <= i < |s| ensures Lower(s)[i] != c {
      assert s[i] in s;
    }
  }

  /** `pat` cannot start at a character that differs from its own first one. */
  lemma FirstCharMismatch(s: string, pat: string, i: int)
    requires 0 <= i < |s| && |pat| > 0 && s[i] != pat[0]
    ensures !OccursAt(s, pat, i)
  {
  }

  /** The empty string is contained in every string (an empty query matches every name). */
  lemma ContainsEmpty(hay: string)
    ensures Contains(hay, "")
  {
    assert OccursAt(hay, "", 0);
  }

  /**
   * `s.replace(pat, rep)`: scanning left to right, every occurrence of `pat`
   * that does not overlap an earlier replaced one is replaced by `rep`.
   */
  function ReplaceAll(s: string, pat: string, rep: string): string
    requires |pat| > 0
    decreases |s|
  {
    if s == [] then []
    else if pat <= s then rep + ReplaceAll(s[|pat|..], pat, rep)
    else [s[0]] + ReplaceAll(s[1..], pat, rep)
  }

  /** A string in which `pat` does not occur is left unchanged. */
  lemma {:induction false} ReplaceAbsent(s: string, pat: string, rep: string)
    requires |pat| > 0
    requires forall i :: !OccursAt(s, pat, i)
    ensures ReplaceAll(s, pat, rep) == s
    decreases |s|
  {
    if s != [] {
      assert !OccursAt(s, pat, 0);
      forall i | 0 <= i ensures !OccursAt(s[1..], pat, i) {
        OccursAtShift(s, pat, i);
      }
      ReplaceAbsent(s[1..], pat, rep);
    }
  }

  /** A string that starts with `pat` has its first occurrence replaced. */
  lemma ReplaceAtStart(b: string, pat: string, rep: string)
    requires |pat| > 0
    ensures ReplaceAll(pat + b, pat, rep) == rep + ReplaceAll(b, pat, rep)
  {
    var s := pat + b;
    assert pat <= s && s[|pat|..] == b;
  }

  /** A string that does not start with `pat` keeps its first character. */
  lemma ReplaceSkip(c: char, t: string, pat: string, rep: string)
    requires |pat| > 0 && !(pat <= [c] + t)
    ensures ReplaceAll([c] + t, pat, rep) == [c] + ReplaceAll(t, pat, rep)
  {
    assert ([c] + t)[1..] == t;
  }

  /**
   * The leftmost occurrence is the one replaced: if `pat` first occurs in
   * `a + pat + b` right after `a`, the result is `a`, then `rep`, then the
   * replacement applied to the rest `b`.
   */
  lemma {:induction false} ReplaceLeftmost(a: string, b: string, pat: string, rep: string)
    requires |pat| > 0
    requires forall i :: 0 <= i < |a| ==> !OccursAt(a + pat + b, pat, i)
    ensures ReplaceAll(a + pat + b, pat, rep) == a + rep + ReplaceAll(b, pat, rep)
    decreases |a|
  {
    var s := a + pat + b;
    var rest := ReplaceAll(b, pat, rep);
    if a == [] {
      assert s == pat + b;
      ReplaceAtStart(b, pat, rep);
    } else {
      var t := a[1..] + pat + b;
      assert s == [a[0]] + t;
      assert !OccursAt(s, pat, 0);
      forall i | 0 <= i < |a| - 1 ensures !OccursAt(t, pat, i) {
        OccursAtShift(s, pat, i);
      }
      ReplaceLeftmost(a[1..], b, pat, rep);
      ReplaceSkip(a[0], t, pat, rep);
      assert [a[0]] + (a[1..] + rep + rest) == a + rep + rest;
    }
  }
}
