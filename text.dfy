/**
 * The two JavaScript string operations the shell options rely on:
 * `String.prototype.includes`, and `String.prototype.replace` with a
 * string pattern, which replaces only the FIRST occurrence.
 */
module Text {
  import opened Wrappers

  /** `pat` occurs in `s` starting at index `i`. */
  predicate IsAt(s: string, i: int, pat: string) {
    0 <= i && i + |pat| <= |s| && forall j | 0 <= j < |pat| :: s[i + j] == pat[j]
  }

  /** `s.includes(pat)`: `pat` is a substring of `s`; the empty pattern is in every string. */
  predicate Contains(s: string, pat: string): (r: bool)
    ensures r ==> |pat| <= |s|
    ensures |pat| == 0 ==> r
  {
    assert |pat| == 0 ==> IsAt(s, 0, pat);
    exists i | 0 <= i <= |s| - |pat| :: IsAt(s, i, pat)
  }

  /** The slice of `s` of `pat`'s length starting at `i` is `pat`. */
  predicate SliceIs(s: string, i: int, pat: string) {
    0 <= i <= |s| - |pat| && s[i..i + |pat|] == pat
  }

  /** `Contains` holds exactly when some slice of `s` equals `pat`. */
  lemma ContainsIsSubstring(s: string, pat: string)
    ensures Contains(s, pat) <==> exists i :: SliceIs(s, i, pat)
  {
    forall i ensures IsAt(s, i, pat) <==> SliceIs(s, i, pat) {
      if SliceIs(s, i, pat) {
        forall j | 0 <= j < |pat| ensures s[i + j] == pat[j] {
          assert s[i..i + |pat|][j] == s[i + j];
        }
      }
      if IsAt(s, i, pat) {
        assert s[i..i + |pat|] == pat;
      }
    }
  }



  /** The first index at or after `from` where `pat` occurs in `s`. */
  function FirstFrom(s: string, pat: string, from: nat): (r: Option<nat>)
    ensures r.Some? ==> from <= r.value && IsAt(s, r.value, pat)
    ensures r.Some? ==> forall j :: from <= j < r.value ==> !IsAt(s, j, pat)
    ensures r.None? ==> forall j :: from <= j ==> !IsAt(s, j, pat)
    decreases |s| - from
  {
    if from + |pat| > |s| then None
    else if IsAt(s, from, pat) then Some(from)
    else FirstFrom(s, pat, from + 1)
  }

  /** The first index where `pat` occurs in `s`, if any. */
  function First(s: string, pat: string): (r: Option<nat>)
    ensures r.None? <==> !Contains(s, pat)
    ensures r.Some? ==> IsAt(s, r.value, pat) && forall j :: 0 <= j < r.value ==> !IsAt(s, j, pat)
  {
    FirstFrom(s, pat, 0)
  }

  /** `s.replace(pat, rep)` for a string `pat` and a `rep` without `$` patterns. */
  function ReplaceFirst(s: string, pat: string, rep: string): (r: string)
    ensures !Contains(s, pat) ==> r == s
    ensures Contains(s, pat) ==> exists i :: IsAt(s, i, pat) && (forall j :: 0 <= j < i ==> !IsAt(s, j, pat))
                                          && r == s[..i] + rep + s[i + |pat|..]
  {
    match First(s, pat)
    case None => s
    case Some(i) => s[..i] + rep + s[i + |pat|..]
  }

  /** If `pat` first occurs at `i`, replacing it splices `rep` in at `i`. */
  lemma {:induction false} ReplaceFirstAt(s: string, pat: string, rep: string, i: nat)
    requires IsAt(s, i, pat)
    requires forall j :: 0 <= j < i ==> !IsAt(s, j, pat)
    ensures ReplaceFirst(s, pat, rep) == s[..i] + rep + s[i + |pat|..]
  {
    assert Contains(s, pat);
    var f := First(s, pat);
    assert f.Some?;
    assert f.value <= i;
    assert f.value >= i;
  }

  /**
   * A same-length replacement is spent on an occurrence at or before `k`,
   * so a later occurrence at `p`, clear of the one at `k`, survives it.
   */
  lemma ReplaceFirstKeepsLater(s: string, pat: string, rep: string, k: nat, p: nat)
    requires |rep| == |pat| && IsAt(s, k, pat) && IsAt(s, p, pat) && k + |pat| <= p
    ensures var r := ReplaceFirst(s, pat, rep); |r| == |s| && IsAt(r, p, pat)
  {
    assert Contains(s, pat);
    var i := First(s, pat).value;
    assert i <= k;
    var r := s[..i] + rep + s[i + |pat|..];
    assert forall j :: i + |pat| <= j < |s| ==> r[j] == s[j];
  }

  /** A two-character pattern occurs where its two characters do. */
  lemma IsAtTwo(s: string, i: int, pat: string)
    requires |pat| == 2
    ensures IsAt(s, i, pat) <==> 0 <= i && i + 2 <= |s| && s[i] == pat[0] && s[i + 1] == pat[1]
  {
    if IsAt(s, i, pat) {
      assert s[i + 0] == pat[0] && s[i + 1] == pat[1];
    }
  }

  /** An occurrence inside a part of a string is an occurrence in the whole. */
  lemma {:induction false} ContainsInConcat(a: string, b: string, pat: string)
    ensures Contains(a, pat) ==> Contains(a + b, pat)
    ensures Contains(b, pat) ==> Contains(a + b, pat)
  {
    if Contains(a, pat) {
      var i :| 0 <= i <= |a| - |pat| && IsAt(a, i, pat);
      assert forall j | 0 <= j < |pat| :: (a + b)[i + j] == pat[j];
      assert IsAt(a + b, i, pat);
    }
    if Contains(b, pat) {
      var i :| 0 <= i <= |b| - |pat| && IsAt(b, i, pat);
      assert forall j | 0 <= j < |pat| :: (a + b)[|a| + i + j] == pat[j];
      assert IsAt(a + b, |a| + i, pat);
    }
  }

  /** A string that contains `p + q` contains `p`. */
  lemma {:induction false} ContainsPrefixOfPattern(s: string, p: string, q: string)
    requires Contains(s, p + q)
    ensures Contains(s, p)
  {
    var i :| 0 <= i <= |s| - |p + q| && IsAt(s, i, p + q);
    assert forall j | 0 <= j < |p| :: s[i + j] == (p + q)[j] == p[j];
    assert IsAt(s, i, p);
  }

  /** A pattern whose first character never appears in `s` does not occur in it. */
  lemma {:induction false} AbsentFirstChar(s: string, pat: string)
    requires |pat| > 0 && pat[0] !in s
    ensures !Contains(s, pat)
  {
  }

  /** Two strings that differ at some index are different. */
  lemma DiffersAt(a: string, b: string, i: nat)
    requires i < |a| && i < |b| && a[i] != b[i]
    ensures a != b
  {
  }
}
