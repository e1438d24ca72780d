/** Splitting a string at the first occurrence of a separator character.

    Used twice: the top-level entry of a relative path is everything before
    its first '/', and an asset name splits into an architecture token and an
    OS token at the first '-' after the tool prefix. */
module Text {

  /** `c` does not occur in `s`. */
  predicate Lacks(s: string, c: char) {
    forall i :: 0 <= i < |s| ==> s[i] != c
  }

  /** `t` is a suffix of `s`. */
  predicate EndsWith(s: string, t: string) {
    |t| <= |s| && s[|s| - |t|..] == t
  }

  /** A suffix of the tail is a suffix of the whole, and the tail decides
      suffixes no longer than itself. */
  lemma EndsWithAppend(h: string, s: string, t: string)
    requires |t| <= |s|
    ensures EndsWith(h + s, t) <==> EndsWith(s, t)
  {
    assert (h + s)[|h + s| - |t|..] == s[|s| - |t|..];
  }

  /** Everything before the first `c` in `s` (all of `s` when there is none). */
  function Before(s: string, c: char): (r: string)
    ensures r <= s
    ensures Lacks(r, c)
    ensures |r| < |s| ==> s[|r|] == c
  {
    if |s| == 0 || s[0] == c then ""
    else
      var rest := Before(s[1..], c);
      assert [s[0]] + rest <= s by {
        assert s == [s[0]] + s[1..];
      }
      [s[0]] + rest
  }

  /** Everything after the first `c` in `s` (empty when there is none). */
  function After(s: string, c: char): string {
    var b := Before(s, c);
    if |b| < |s| then s[|b| + 1..] else ""
  }

  /** A string without `c` is its own part before `c`. */
  lemma BeforeOfLacking(s: string, c: char)
    requires Lacks(s, c)
    ensures Before(s, c) == s
  {
    var r := Before(s, c);
    if |r| < |s| {
      assert false;
    }
  }

  /** Splitting `a + [c] + b` at the first `c` gives back `a` and `b` when
      `a` has no `c` of its own. */
  lemma SplitJoined(a: string, c: char, b: string)
    requires Lacks(a, c)
    ensures Before(a + [c] + b, c) == a
    ensures After(a + [c] + b, c) == b
  {
    var s := a + [c] + b;
    var r := Before(s, c);
    assert s[|a|] == c;
    assert |r| <= |a|;
    if |r| < |a| {
      assert false;
    }
    assert r == s[..|a|];
    assert s[..|a|] == a;
    assert s[|a| + 1..] == b;
  }

  /** A string that contains `c` is its part before, `c`, and its part after. */
  lemma JoinSplit(s: string, c: char)
    requires !Lacks(s, c)
    ensures s == Before(s, c) + [c] + After(s, c)
  {
    var r := Before(s, c);
    if |r| == |s| {
      assert false;
    }
    assert s[|r|] == c;
    assert s == s[..|r|] + [s[|r|]] + s[|r| + 1..];
  }
}
