/**
 * The handful of Go `strings` and `sort` operations the collector relies on,
 * stated once and shared by every other module.
 */
module Strings {

  /** An octet of a byte stream. */
  type byte = b: int | 0 <= b < 0x100

  predicate StartsWith(s: string, prefix: string)
  {
    |prefix| <= |s| && s[..|prefix|] == prefix
  }

  predicate EndsWith(s: string, suffix: string)
  {
    |suffix| <= |s| && s[|s| - |suffix|..] == suffix
  }

  /** `pat` appears in `s` starting at index `i`. */
  predicate OccursAt(s: string, pat: string, i: int)
  {
    0 <= i && i + |pat| <= |s| && s[i..i + |pat|] == pat
  }

  predicate Occurs(s: string, pat: string)
  {
    exists i | 0 <= i <= |s| :: OccursAt(s, pat, i)
  }

  lemma {:induction false} OccursInTail(s: string, pat: string, i: int)
    requires |s| > 0 && OccursAt(s[1..], pat, i)
    ensures OccursAt(s, pat, i + 1)
  {
    assert s[1..][i..i + |pat|] == s[i + 1..i + 1 + |pat|];
  }

  /**
   * `strings.Replace(s, pat, sub, n)` with `n` at least the number of
   * occurrences (the source passes -1 or `len(s)`), for a non-empty `pat`:
   * occurrences are found left to right and never overlap.
   */
  function ReplaceAll(s: string, pat: string, sub: string): string
    requires |pat| > 0
    decreases |s|
  {
    if |s| < |pat| then s
    else if s[..|pat|] == pat then sub + ReplaceAll(s[|pat|..], pat, sub)
    else [s[0]] + ReplaceAll(s[1..], pat, sub)
  }

  /** A string with no occurrence of the pattern is returned unchanged. */
  lemma {:induction false} ReplaceAllIdle(s: string, pat: string, sub: string)
    requires |pat| > 0 && !Occurs(s, pat)
    ensures ReplaceAll(s, pat, sub) == s
    decreases |s|
  {
    if |s| >= |pat| {
      assert !OccursAt(s, pat, 0);
      assert !Occurs(s[1..], pat) by {
        forall i | 0 <= i <= |s[1..]|
          ensures !OccursAt(s[1..], pat, i)
        {
          if OccursAt(s[1..], pat, i) {
            OccursInTail(s, pat, i);
            assert false;
          }
        }
      }
      ReplaceAllIdle(s[1..], pat, sub);
      assert s == [s[0]] + s[1..];
    }
  }

  /** A pattern whose first character is absent from `s` does not occur in it. */
  lemma {:induction false} HeadAbsent(s: string, pat: string)
    requires |pat| > 0 && pat[0] !in s
    ensures !Occurs(s, pat)
  {
    forall i | 0 <= i <= |s|
      ensures !OccursAt(s, pat, i)
    {
      if i + |pat| <= |s| {
        assert s[i..i + |pat|][0] == s[i] != pat[0];
      }
    }
  }

  /** An occurrence at the front is substituted and the scan resumes after it. */
  lemma {:induction false} ReplaceAllAtHead(pat: string, t: string, sub: string)
    requires |pat| > 0
    ensures ReplaceAll(pat + t, pat, sub) == sub + ReplaceAll(t, pat, sub)
  {
    var s := pat + t;
    assert s[..|pat|] == pat;
    assert s[|pat|..] == t;
  }

  /** When the pattern does not start at the front, the first character is kept. */
  lemma {:induction false} ReplaceAllSkipHead(c: char, t: string, pat: string, sub: string)
    requires |pat| > 0
    requires !StartsWith([c] + t, pat)
    ensures ReplaceAll([c] + t, pat, sub) == [c] + ReplaceAll(t, pat, sub)
  {
    var s := [c] + t;
    assert s[1..] == t;
  }

  /** A prefix without the pattern's first character is kept, and the scan goes on after it. */
  lemma {:induction false} ReplaceAllSkipPlain(p: string, t: string, pat: string, sub: string)
    requires |pat| > 0 && pat[0] !in p
    ensures ReplaceAll(p + t, pat, sub) == p + ReplaceAll(t, pat, sub)
    decreases |p|
  {
    if |p| > 0 {
      assert p + t == [p[0]] + (p[1..] + t);
      assert !StartsWith([p[0]] + (p[1..] + t), pat) by {
        assert ([p[0]] + (p[1..] + t))[0] == p[0];
      }
      ReplaceAllSkipHead(p[0], p[1..] + t, pat, sub);
      ReplaceAllSkipPlain(p[1..], t, pat, sub);
      assert p == [p[0]] + p[1..];
    } else {
      assert p + t == t;
    }
  }

  /** A replacement that substitutes the pattern by itself changes nothing. */
  lemma {:induction false} ReplaceAllBySelf(s: string, pat: string)
    requires |pat| > 0
    ensures ReplaceAll(s, pat, pat) == s
    decreases |s|
  {
    if |s| < |pat| {
    } else if s[..|pat|] == pat {
      ReplaceAllBySelf(s[|pat|..], pat);
      assert s == s[..|pat|] + s[|pat|..];
    } else {
      ReplaceAllBySelf(s[1..], pat);
      assert s == [s[0]] + s[1..];
    }
  }

  /** A replacement never introduces a character found neither in the input nor in the substitute. */
  lemma {:induction false} ReplaceAllAddsNoChar(s: string, pat: string, sub: string, c: char)
    requires |pat| > 0 && c !in s && c !in sub
    ensures c !in ReplaceAll(s, pat, sub)
    decreases |s|
  {
    if |s| >= |pat| {
      if s[..|pat|] == pat {
        assert forall i :: 0 <= i < |s[|pat|..]| ==> s[|pat|..][i] == s[i + |pat|];
        ReplaceAllAddsNoChar(s[|pat|..], pat, sub, c);
      } else {
        assert forall i :: 0 <= i < |s[1..]| ==> s[1..][i] == s[i + 1];
        ReplaceAllAddsNoChar(s[1..], pat, sub, c);
      }
    }
  }

  /** Every occurrence of `c` in `s` replaced by `d`, character by character. */
  function MapChar(s: string, c: char, d: char): (r: string)
    ensures |r| == |s|
    ensures forall i :: 0 <= i < |s| ==> r[i] == (if s[i] == c then d else s[i])
  {
    if |s| == 0 then [] else [if s[0] == c then d else s[0]] + MapChar(s[1..], c, d)
  }

  /** For a one-character pattern, replace-all is the character map. */
  lemma {:induction false} ReplaceCharIsMapChar(s: string, c: char, d: char)
    ensures ReplaceAll(s, [c], [d]) == MapChar(s, c, d)
    decreases |s|
  {
    if |s| == 0 {
    } else {
      ReplaceCharIsMapChar(s[1..], c, d);
      if s[..1] == [c] {
        assert s[1..] == s[|[c]|..];
      }
    }
  }

  /**
   * A prefix none of whose characters occurs in the pattern is copied
   * through untouched: no occurrence can start inside it.
   */
  lemma {:induction false} ReplaceAllKeepsPrefix(p: string, t: string, pat: string, sub: string)
    requires |pat| > 0
    requires forall i :: 0 <= i < |p| ==> p[i] !in pat
    ensures ReplaceAll(p + t, pat, sub) == p + ReplaceAll(t, pat, sub)
    decreases |p|
  {
    var s := p + t;
    if |p| == 0 {
      assert s == t;
    } else if |s| >= |pat| {
      assert s[..|pat|][0] == p[0] != pat[0];
      assert s[1..] == p[1..] + t;
      ReplaceAllKeepsPrefix(p[1..], t, pat, sub);
      assert p == [p[0]] + p[1..];
    }
  }

  /** A character absent from the pattern splits the replacement: no occurrence can straddle it. */
  lemma {:induction false} ReplaceAllSplits(a: string, c: char, b: string, pat: string, sub: string)
    requires |pat| > 0 && c !in pat
    ensures ReplaceAll(a + [c] + b, pat, sub) == ReplaceAll(a, pat, sub) + [c] + ReplaceAll(b, pat, sub)
    decreases |a|
  {
    var s := a + [c] + b;
    if |a| < |pat| {
      ReplaceAllShort(a, pat, sub);
      if |s| < |pat| {
        ReplaceAllShort(b, pat, sub);
      } else {
        assert s[..|pat|][|a|] == c;
        if |a| == 0 {
          assert s == [c] + b;
        } else {
          assert s[1..] == a[1..] + [c] + b;
          ReplaceAllSplits(a[1..], c, b, pat, sub);
          ReplaceAllShort(a[1..], pat, sub);
          assert a == [a[0]] + a[1..];
        }
      }
    } else {
      assert s[..|pat|] == a[..|pat|];
      if a[..|pat|] == pat {
        assert s[|pat|..] == a[|pat|..] + [c] + b;
        ReplaceAllSplits(a[|pat|..], c, b, pat, sub);
      } else {
        assert s[1..] == a[1..] + [c] + b;
        ReplaceAllSplits(a[1..], c, b, pat, sub);
      }
    }
  }

  /** A string shorter than the pattern is returned as it is. */
  lemma {:induction false} ReplaceAllShort(s: string, pat: string, sub: string)
    requires 0 < |pat| && |s| < |pat|
    ensures ReplaceAll(s, pat, sub) == s
  {
  }

  // ---------------------------------------------------------------------------
  // Byte-wise lexicographic order, as `sort.Strings` uses. UTF-8 preserves the
  // order of code points, so comparing characters compares the encoded bytes.

  /** `a` sorts no later than `b`. */
  predicate NoLater(a: string, b: string)
    decreases |a|
  {
    |a| == 0 || (|b| > 0 && (a[0] < b[0] || (a[0] == b[0] && NoLater(a[1..], b[1..]))))
  }

  lemma {:induction false} NoLaterTotal(a: string, b: string)
    ensures NoLater(a, b) || NoLater(b, a)
    decreases |a|
  {
    if |a| > 0 && |b| > 0 && a[0] == b[0] {
      NoLaterTotal(a[1..], b[1..]);
    }
  }

  lemma {:induction false} NoLaterTransitive(a: string, b: string, c: string)
    requires NoLater(a, b) && NoLater(b, c)
    ensures NoLater(a, c)
    decreases |a|
  {
    if |a| > 0 && a[0] == b[0] && b[0] == c[0] {
      NoLaterTransitive(a[1..], b[1..], c[1..]);
    }
  }

  lemma {:induction false} NoLaterAntisymmetric(a: string, b: string)
    requires NoLater(a, b) && NoLater(b, a)
    ensures a == b
    decreases |a|
  {
    if |a| > 0 {
      NoLaterAntisymmetric(a[1..], b[1..]);
      assert a == [a[0]] + a[1..] && b == [b[0]] + b[1..];
    }
  }

  predicate Sorted(s: seq<string>)
  {
    forall i, j :: 0 <= i < j < |s| ==> NoLater(s[i], s[j])
  }

  /** A lower bound of every element of `t` and of `x` bounds every element of a permutation of both. */
  lemma {:induction false} BoundCarries(h: string, t: seq<string>, x: string, rest: seq<string>)
    requires forall k :: 0 <= k < |t| ==> NoLater(h, t[k])
    requires NoLater(h, x) && multiset(rest) == multiset(t) + multiset{x}
    ensures forall j :: 0 <= j < |rest| ==> NoLater(h, rest[j])
  {
    forall j | 0 <= j < |rest|
      ensures NoLater(h, rest[j])
    {
      assert rest[j] in multiset(rest);
      if rest[j] != x {
        assert rest[j] in multiset(t);
        var k :| 0 <= k < |t| && t[k] == rest[j];
      }
    }
  }

  /** A sorted sequence stays sorted under a lower bound of all its elements. */
  lemma {:induction false} SortedCons(h: string, rest: seq<string>)
    requires Sorted(rest) && forall j :: 0 <= j < |rest| ==> NoLater(h, rest[j])
    ensures Sorted([h] + rest)
  {
    var r := [h] + rest;
    forall i, j | 0 <= i < j < |r|
      ensures NoLater(r[i], r[j])
    {
      assert r[j] == rest[j - 1];
      if i > 0 {
        assert r[i] == rest[i - 1];
      }
    }
  }

  lemma {:induction false} SortedTail(s: seq<string>)
    requires |s| > 0 && Sorted(s)
    ensures Sorted(s[1..])
  {
    var t := s[1..];
    forall i, j | 0 <= i < j < |t|
      ensures NoLater(t[i], t[j])
    {
      assert t[i] == s[i + 1] && t[j] == s[j + 1];
    }
  }

  function Insert(x: string, s: seq<string>): (r: seq<string>)
    requires Sorted(s)
    ensures Sorted(r)
    ensures multiset(r) == multiset(s) + multiset{x}
    decreases |s|
  {
    if |s| == 0 then [x]
    else if NoLater(x, s[0]) then
      assert forall j :: 0 <= j < |s| ==> NoLater(x, s[j]) by {
        forall j | 0 <= j < |s|
          ensures NoLater(x, s[j])
        {
          if j > 0 { NoLaterTransitive(x, s[0], s[j]); }
        }
      }
      SortedCons(x, s);
      [x] + s
    else
      NoLaterTotal(x, s[0]);
      var t := s[1..];
      SortedTail(s);
      var rest := Insert(x, t);
      assert forall k :: 0 <= k < |t| ==> NoLater(s[0], t[k]) by {
        forall k | 0 <= k < |t|
          ensures NoLater(s[0], t[k])
        {
          assert t[k] == s[k + 1];
        }
      }
      BoundCarries(s[0], t, x, rest);
      SortedCons(s[0], rest);
      assert s == [s[0]] + t;
      [s[0]] + rest
  }

  /** `sort.Strings`: ascending byte-wise order, as a permutation of the input. */
  function SortStrings(s: seq<string>): (r: seq<string>)
    ensures Sorted(r)
    ensures multiset(r) == multiset(s)
    decreases |s|
  {
    if |s| == 0 then []
    else
      assert s == [s[0]] + s[1..];
      Insert(s[0], SortStrings(s[1..]))
  }
}
