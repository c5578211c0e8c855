/** The string operations of Python's `str` that the removal planner relies on. */
module Text {

  /** `s.startswith(p)`. */
  predicate IsPrefix(p: string, s: string) {
    |p| <= |s| && s[..|p|] == p
  }

  /** Python's `sub in s`: `sub` occurs in `s` at some offset; the empty string occurs in every string. */
  predicate Contains(s: string, sub: string)
    decreases |s|
  {
    IsPrefix(sub, s) || (s != [] && Contains(s[1..], sub))
  }

  /** `sub` occurs in `s` starting at offset `i`. */
  ghost predicate OccursAt(s: string, sub: string, i: int) {
    0 <= i && i + |sub| <= |s| && s[i..i + |sub|] == sub
  }

  /** `Contains` agrees with the textbook definition of a substring occurrence. */
  lemma {:induction false} ContainsIffOccurs(s: string, sub: string)
    ensures Contains(s, sub) <==> exists i :: OccursAt(s, sub, i)
    decreases |s|
  {
    assert OccursAt(s, sub, 0) <==> IsPrefix(sub, s);
    if s != [] {
      ContainsIffOccurs(s[1..], sub);
      forall i | OccursAt(s[1..], sub, i)
        ensures OccursAt(s, sub, i + 1)
      {
        assert s[1..][i..i + |sub|] == s[i + 1..i + 1 + |sub|];
      }
      forall i | OccursAt(s, sub, i) && i > 0
        ensures OccursAt(s[1..], sub, i - 1)
      {
        assert s[1..][i - 1..i - 1 + |sub|] == s[i..i + |sub|];
      }
    }
  }

  /** A string cannot contain a longer one. */
  lemma ContainsNeedsRoom(s: string, sub: string)
    requires |sub| > |s|
    ensures !Contains(s, sub)
  {
    ContainsIffOccurs(s, sub);
  }

  /** Every string ends with itself, so `s in p + s` holds. */
  lemma {:induction false} ContainsSuffix(p: string, s: string)
    ensures Contains(p + s, s)
    decreases |p|
  {
    if p == [] {
      assert p + s == s;
    } else {
      assert (p + s)[1..] == p[1..] + s;
      ContainsSuffix(p[1..], s);
    }
  }

  /**
   * `s.replace(pat, rep)`: every non-overlapping occurrence of `pat`, taken from the left, is replaced
   * by `rep`. With an empty `pat`, Python puts `rep` before every character and at the end.
   */
  function ReplaceAll(s: string, pat: string, rep: string): string
    decreases |s|
  {
    if pat == [] then
      rep + (if s == [] then [] else [s[0]] + ReplaceAll(s[1..], pat, rep))
    else if IsPrefix(pat, s) then
      rep + ReplaceAll(s[|pat|..], pat, rep)
    else if s == [] then
      []
    else
      [s[0]] + ReplaceAll(s[1..], pat, rep)
  }

  /** A string in which the pattern does not occur is left as it is. */
  lemma {:induction false} ReplaceAllAbsent(s: string, pat: string, rep: string)
    requires pat != [] && !Contains(s, pat)
    ensures ReplaceAll(s, pat, rep) == s
    decreases |s|
  {
    if s != [] {
      ReplaceAllAbsent(s[1..], pat, rep);
      assert [s[0]] + s[1..] == s;
    }
  }

  /** A leading occurrence of the pattern becomes the replacement. */
  lemma ReplaceAllAtMatch(pat: string, t: string, rep: string)
    requires pat != []
    ensures ReplaceAll(pat + t, pat, rep) == rep + ReplaceAll(t, pat, rep)
  {
    assert (pat + t)[..|pat|] == pat;
    assert (pat + t)[|pat|..] == t;
  }

  /** The first two characters of `pat` do not both match `p` at offset `k`. */
  predicate NoMatchStartsAt(p: string, pat: string, k: int)
    requires 0 <= k < |p| && |pat| >= 2
  {
    p[k] != pat[0] || (k + 1 < |p| && p[k + 1] != pat[1])
  }

  /** A string whose first two characters do not both match those of `pat` does not start with `pat`. */
  lemma NotPrefixWhenHeadDiffers(pat: string, s: string)
    requires |pat| >= 2 && |s| >= 1
    requires s[0] != pat[0] || (|s| >= 2 && s[1] != pat[1])
    ensures !IsPrefix(pat, s)
  {
    if |pat| <= |s| {
      assert s[..|pat|][0] == s[0];
      assert s[..|pat|][1] == s[1];
    }
  }

  /**
   * A prefix none of whose positions can start an occurrence of the pattern (its first two characters
   * never both match there) is copied unchanged.
   */
  lemma {:induction false} ReplaceAllCopies(p: string, t: string, pat: string, rep: string)
    requires |pat| >= 2
    requires forall k :: 0 <= k < |p| ==> NoMatchStartsAt(p, pat, k)
    ensures ReplaceAll(p + t, pat, rep) == p + ReplaceAll(t, pat, rep)
    decreases |p|
  {
    if p != [] {
      assert (p + t)[0] == p[0];
      assert |p| > 1 ==> (p + t)[1] == p[1];
      assert NoMatchStartsAt(p, pat, 0);
      NotPrefixWhenHeadDiffers(pat, p + t);
      assert (p + t)[1..] == p[1..] + t;
      forall k | 0 <= k < |p[1..]|
        ensures NoMatchStartsAt(p[1..], pat, k)
      {
        assert NoMatchStartsAt(p, pat, k + 1);
      }
      ReplaceAllCopies(p[1..], t, pat, rep);
      assert ReplaceAll(p + t, pat, rep) == [p[0]] + ReplaceAll(p[1..] + t, pat, rep);
      assert p == [p[0]] + p[1..];
    } else {
      assert p + t == t;
    }
  }

  /** The header name derived from a kernel image name: `linux-image-V` becomes `linux-headers-V'`. */
  lemma ImageNameToHeadersName(v: string)
    ensures ReplaceAll("linux-image-" + v, "image", "headers") == "linux-headers-" + ReplaceAll(v, "image", "headers")
  {
    var pat, rep := "image", "headers";
    var w := ReplaceAll(v, pat, rep);
    assert ReplaceAll("-" + v, pat, rep) == "-" + w by {
      assert NoMatchStartsAt("-", pat, 0);
      ReplaceAllCopies("-", v, pat, rep);
    }
    assert ReplaceAll(pat + ("-" + v), pat, rep) == rep + ("-" + w) by {
      ReplaceAllAtMatch(pat, "-" + v, rep);
    }
    assert ReplaceAll("linux-" + (pat + ("-" + v)), pat, rep) == "linux-" + (rep + ("-" + w)) by {
      assert forall k :: 0 <= k < 6 ==> NoMatchStartsAt("linux-", pat, k) by {
        assert "linux-"[0] != 'i' && "linux-"[1] != 'm' && "linux-"[2] != 'i';
        assert "linux-"[3] != 'i' && "linux-"[4] != 'i' && "linux-"[5] != 'i';
      }
      ReplaceAllCopies("linux-", pat + ("-" + v), pat, rep);
    }
    assert "linux-image-" + v == "linux-" + (pat + ("-" + v));
    assert "linux-headers-" + w == "linux-" + (rep + ("-" + w));
  }

  /** Hence a kernel image name whose version part does not mention `image` maps to `linux-headers-` and the same version. */
  lemma PlainImageNameToHeadersName(v: string)
    requires !Contains(v, "image")
    ensures ReplaceAll("linux-image-" + v, "image", "headers") == "linux-headers-" + v
  {
    ImageNameToHeadersName(v);
    ReplaceAllAbsent(v, "image", "headers");
  }
}
