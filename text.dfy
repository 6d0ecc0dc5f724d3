/** Python's `str.replace(old, new)`: every non-overlapping occurrence, scanning left to right. */
module Text {

  /** `pat` occurs in `s` at position `i`. */
  predicate OccursAt(s: string, pat: string, i: nat) {
    i + |pat| <= |s| && s[i..i + |pat|] == pat
  }

  predicate Occurs(s: string, pat: string) {
    exists i: nat | i <= |s| :: OccursAt(s, pat, i)
  }

  /** `s.replace(pat, rep)`. For an empty `pat` Python inserts `rep` before every character and
      at the end: `"ab".replace("", "-") == "-a-b-"`. */
  function ReplaceAll(s: string, pat: string, rep: string): string
    decreases |s|
  {
    if pat == [] then
      if s == [] then rep else rep + [s[0]] + ReplaceAll(s[1..], pat, rep)
    else if |s| < |pat| then
      s
    else if s[..|pat|] == pat then
      rep + ReplaceAll(s[|pat|..], pat, rep)
    else
      [s[0]] + ReplaceAll(s[1..], pat, rep)
  }

  /** A string without an occurrence of a non-empty `pat` is returned unchanged. */
  lemma {:induction false} ReplaceAbsent(s: string, pat: string, rep: string)
    requires pat != [] && !Occurs(s, pat)
    ensures ReplaceAll(s, pat, rep) == s
    decreases |s|
  {
    if |s| >= |pat| {
      assert !OccursAt(s, pat, 0);
      assert s[..|pat|] != pat;
      assert !Occurs(s[1..], pat) by {
        forall i: nat | i <= |s[1..]| && OccursAt(s[1..], pat, i) ensures OccursAt(s, pat, i + 1) {
          assert s[1..][i..i + |pat|] == s[i + 1..i + 1 + |pat|];
        }
      }
      ReplaceAbsent(s[1..], pat, rep);
    }
  }

  /** Replacing a pattern by itself changes nothing. */
  lemma {:induction false} ReplaceSelf(s: string, pat: string)
    ensures ReplaceAll(s, pat, pat) == s
    decreases |s|
  {
    if pat == [] {
      if s != [] {
        ReplaceSelf(s[1..], pat);
        assert s == [s[0]] + s[1..];
      }
    } else if |s| >= |pat| {
      if s[..|pat|] == pat {
        ReplaceSelf(s[|pat|..], pat);
        assert s == s[..|pat|] + s[|pat|..];
      } else {
        ReplaceSelf(s[1..], pat);
        assert s == [s[0]] + s[1..];
      }
    }
  }

  /** Occurrences are taken leftmost first and do not overlap: `"aaa".replace("aa", "b") == "ba"`. */
  lemma LeftmostNonOverlapping()
    ensures ReplaceAll("aaa", "aa", "b") == "ba"
  {
    assert "aaa"[..2] == "aa";
    assert "aaa"[2..] == "a";
  }

  /** Text in front that holds no character starting the pattern is copied unchanged, and the
      scan goes on from where that text ends. */
  lemma {:induction false} ReplaceAfterPrefix(pre: string, t: string, pat: string, rep: string)
    requires pat != [] && pat[0] !in pre
    ensures ReplaceAll(pre + t, pat, rep) == pre + ReplaceAll(t, pat, rep)
    decreases |pre|
  {
    if pre == [] {
      assert pre + t == t;
    } else {
      var s := pre + t;
      assert s[0] == pre[0] && s[1..] == pre[1..] + t;
      if |s| < |pat| {
        assert ReplaceAll(t, pat, rep) == t;
      } else {
        assert s[..|pat|][0] != pat[0];
        ReplaceAfterPrefix(pre[1..], t, pat, rep);
        assert [pre[0]] + pre[1..] == pre;
      }
    }
  }

  /** Text behind that holds no character ending the pattern cannot complete an occurrence, so it
      is copied unchanged after the replaced text. */
  lemma {:induction false} ReplaceBeforeSuffix(t: string, post: string, pat: string, rep: string)
    requires pat != [] && pat[|pat| - 1] !in post
    ensures ReplaceAll(t + post, pat, rep) == ReplaceAll(t, pat, rep) + post
    decreases |t|
  {
    var s := t + post;
    if t == [] {
      assert s == post;
      assert !Occurs(post, pat) by {
        forall i: nat | i <= |post| ensures !OccursAt(post, pat, i) {
          if i + |pat| <= |post| {
            assert post[i..i + |pat|][|pat| - 1] == post[i + |pat| - 1];
          }
        }
      }
      ReplaceAbsent(post, pat, rep);
      assert ReplaceAll(t, pat, rep) == [];
    } else if |s| < |pat| {
      assert ReplaceAll(t, pat, rep) == t;
    } else if s[..|pat|] == pat {
      assert |pat| <= |t| by {
        assert forall j :: |t| <= j < |s| ==> s[j] == post[j - |t|];
        assert s[|pat| - 1] == pat[|pat| - 1];
      }
      assert t[..|pat|] == pat;
      assert s[|pat|..] == t[|pat|..] + post;
      ReplaceBeforeSuffix(t[|pat|..], post, pat, rep);
    } else {
      assert s[1..] == t[1..] + post;
      ReplaceBeforeSuffix(t[1..], post, pat, rep);
      if |t| < |pat| {
        assert ReplaceAll(t, pat, rep) == t;
        assert ReplaceAll(t[1..], pat, rep) == t[1..];
        assert [t[0]] + t[1..] == t;
      } else {
        assert t[..|pat|] == s[..|pat|];
      }
    }
  }

  /** Replacing inside a slot: surrounding text that holds neither the first nor the last
      character of the pattern passes through unchanged on both sides. */
  lemma ReplaceInside(pre: string, mid: string, post: string, pat: string, rep: string)
    requires pat != [] && pat[0] !in pre && pat[|pat| - 1] !in post
    ensures ReplaceAll(pre + mid + post, pat, rep) == pre + ReplaceAll(mid, pat, rep) + post
  {
    assert pre + mid + post == (pre + mid) + post;
    ReplaceBeforeSuffix(pre + mid, post, pat, rep);
    ReplaceAfterPrefix(pre, mid, pat, rep);
  }

  /** A pattern at the front is replaced and the scan continues after it. */
  lemma ReplaceFront(pat: string, t: string, rep: string)
    requires pat != []
    ensures ReplaceAll(pat + t, pat, rep) == rep + ReplaceAll(t, pat, rep)
  {
    var s := pat + t;
    assert s[..|pat|] == pat;
    assert s[|pat|..] == t;
  }

  /** A string that is exactly the pattern becomes the replacement. */
  lemma ReplaceWhole(pat: string, rep: string)
    requires pat != []
    ensures ReplaceAll(pat, pat, rep) == rep
  {
    ReplaceFront(pat, "", rep);
    assert pat + "" == pat;
    assert rep + ReplaceAll("", pat, rep) == rep + "";
  }
}
