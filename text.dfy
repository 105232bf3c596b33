/**
  The Python string operations the entry store relies on, with the meaning
  Python gives them: `s.endswith(suffix)`, the substring test `q in s`, and
  the ordering `a <= b` that `sorted` uses (code point by code point).
  All of them are case-sensitive: characters are compared as they are.
 */
module Text {

  /** `s.endswith(suffix)`: `s` is some prefix of itself followed by `suffix`. */
  function EndsWith(s: string, suffix: string): (b: bool)
    ensures b <==> exists k :: 0 <= k <= |s| && s[k..] == suffix
  {
    |suffix| <= |s| && s[|s| - |suffix|..] == suffix
  }

  /** `q` occurs in `s` starting at index `i`. */
  ghost predicate OccursAt(q: string, s: string, i: int) {
    0 <= i && i + |q| <= |s| && s[i..i + |q|] == q
  }

  /** Reference meaning of `q in s`: some slice of `s` equals `q`. */
  ghost predicate IsSubstring(q: string, s: string) {
    exists i :: OccursAt(q, s, i)
  }

  /** How `IsSubstring` looks at the first start position of `s`. */
  lemma SubstringAtStart(s: string, q: string)
    ensures |q| > |s| ==> !IsSubstring(q, s)
    ensures |q| <= |s| && s[..|q|] == q ==> IsSubstring(q, s)
    ensures |q| <= |s| && s[..|q|] != q ==> (IsSubstring(q, s) <==> IsSubstring(q, s[1..]))
  {
    if |q| <= |s| && s[..|q|] == q {
      assert OccursAt(q, s, 0);
    }
    if |q| <= |s| && s[..|q|] != q {
      if IsSubstring(q, s[1..]) {
        var i :| OccursAt(q, s[1..], i);
        assert s[1..][i..i + |q|] == s[i + 1..i + 1 + |q|];
        assert OccursAt(q, s, i + 1);
      }
      if IsSubstring(q, s) {
        var j :| OccursAt(q, s, j);
        assert j != 0;
        assert s[1..][j - 1..j - 1 + |q|] == s[j..j + |q|];
        assert OccursAt(q, s[1..], j - 1);
      }
    }
  }

  /** `q in s`, computed by trying every start position from the left. It
      holds exactly when some slice of `s` equals `q`. */
  function Contains(s: string, q: string): (b: bool)
    ensures b <==> IsSubstring(q, s)
    decreases |s|
  {
    SubstringAtStart(s, q);
    if |q| > |s| then false
    else if s[..|q|] == q then true
    else Contains(s[1..], q)
  }

  /** Python's `a <= b` on strings: the first differing character decides,
      and a proper prefix comes first. */
  function LexLe(a: string, b: string): (r: bool)
    ensures |a| <= |b| && b[..|a|] == a ==> r
    ensures |b| < |a| && a[..|b|] == b ==> !r
    decreases |a|
  {
    if a == [] then true
    else if b == [] then false
    else if a[0] != b[0] then a[0] < b[0]
    else LexLe(a[1..], b[1..])
  }

  /** The first position where two strings differ decides their order, by
      comparing the code points there. */
  lemma {:induction false} LexLeFirstDifference(a: string, b: string, k: nat)
    requires k < |a| && k < |b| && a[..k] == b[..k] && a[k] != b[k]
    ensures LexLe(a, b) <==> a[k] < b[k]
    decreases k
  {
    if k > 0 {
      assert a[0] == a[..k][0] == b[..k][0] == b[0];
      assert a[1..][..k - 1] == a[1..k] == b[1..k] == b[1..][..k - 1];
      LexLeFirstDifference(a[1..], b[1..], k - 1);
    }
  }

  lemma {:induction false} LexLeReflexive(a: string)
    ensures LexLe(a, a)
    decreases |a|
  {
    if a != [] {
      LexLeReflexive(a[1..]);
    }
  }

  /** Any two strings are comparable. */
  lemma {:induction false} LexLeTotal(a: string, b: string)
    ensures LexLe(a, b) || LexLe(b, a)
    decreases |a|
  {
    if a != [] && b != [] && a[0] == b[0] {
      LexLeTotal(a[1..], b[1..]);
    }
  }

  lemma {:induction false} LexLeTransitive(a: string, b: string, c: string)
    requires LexLe(a, b) && LexLe(b, c)
    ensures LexLe(a, c)
    decreases |a|
  {
    if a != [] && b != [] && c != [] && a[0] == b[0] && b[0] == c[0] {
      LexLeTransitive(a[1..], b[1..], c[1..]);
    }
  }

  /** Two strings that are each `<=` the other are the same string. */
  lemma {:induction false} LexLeAntisymmetric(a: string, b: string)
    requires LexLe(a, b) && LexLe(b, a)
    ensures a == b
    decreases |a|
  {
    if a != [] && b != [] {
      LexLeAntisymmetric(a[1..], b[1..]);
      assert a == [a[0]] + a[1..];
      assert b == [b[0]] + b[1..];
    }
  }
}
