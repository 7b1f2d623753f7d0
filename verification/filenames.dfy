/**
 * `NormalizeFileName` (file.go): both slash kinds become the platform path
 * separator, then surrounding white space is trimmed. The separator is a
 * parameter: `/` on Unix-like systems, `\` on Windows.
 */
module FileNames {
  import opened Strings

  /** `unicode.IsSpace`, which `strings.TrimSpace` trims. */
  predicate IsSpace(c: char)
  {
    var n := c as int;
    (0x09 <= n <= 0x0D) || n == 0x20 || n == 0x85 || n == 0xA0 || n == 0x1680
    || (0x2000 <= n <= 0x200A) || n == 0x2028 || n == 0x2029 || n == 0x202F
    || n == 0x205F || n == 0x3000
  }

  /** The index of the first non-space character at or after `k`, or `|s|`. */
  function SpanStart(s: string, k: nat): (lo: nat)
    requires k <= |s|
    ensures k <= lo <= |s|
    ensures forall i | k <= i < lo :: IsSpace(s[i])
    ensures lo < |s| ==> !IsSpace(s[lo])
    decreases |s| - k
  {
    if k < |s| && IsSpace(s[k]) then SpanStart(s, k + 1) else k
  }

  /** The index just past the last non-space character at or after `lo`, scanning down from `k`. */
  function SpanEnd(s: string, lo: nat, k: nat): (hi: nat)
    requires lo <= k <= |s|
    ensures lo <= hi <= k
    ensures forall i | hi <= i < k :: IsSpace(s[i])
    ensures hi > lo ==> !IsSpace(s[hi - 1])
    decreases k
  {
    if k > lo && IsSpace(s[k - 1]) then SpanEnd(s, lo, k - 1) else k
  }

  /** `strings.TrimSpace`: white space removed from both ends. */
  function TrimSpace(s: string): (r: string)
    ensures |r| <= |s|
  {
    var lo := SpanStart(s, 0);
    s[lo..SpanEnd(s, lo, |s|)]
  }

  /**
   * The trimmed string is a slice of the input that starts and ends with
   * non-space, and everything outside that slice is white space.
   */
  lemma {:induction false} TrimSpaceSpec(s: string)
    ensures var r := TrimSpace(s);
      |r| > 0 ==> !IsSpace(r[0]) && !IsSpace(r[|r| - 1])
    ensures var r := TrimSpace(s);
      SpanStart(s, 0) + |r| <= |s| && r == s[SpanStart(s, 0)..SpanStart(s, 0) + |r|]
    ensures forall i | 0 <= i < SpanStart(s, 0) :: IsSpace(s[i])
    ensures forall i | SpanStart(s, 0) + |TrimSpace(s)| <= i < |s| :: IsSpace(s[i])
  {
    var lo := SpanStart(s, 0);
    var hi := SpanEnd(s, lo, |s|);
    assert TrimSpace(s) == s[lo..hi];
  }

  /** Spans depend only on which positions hold white space. */
  lemma {:induction false} StartsAgree(a: string, b: string, k: nat)
    requires |a| == |b| && k <= |a|
    requires forall i | 0 <= i < |a| :: IsSpace(a[i]) == IsSpace(b[i])
    ensures SpanStart(a, k) == SpanStart(b, k)
    decreases |a| - k
  {
    if k < |a| && IsSpace(a[k]) {
      StartsAgree(a, b, k + 1);
    }
  }

  lemma {:induction false} EndsAgree(a: string, b: string, lo: nat, k: nat)
    requires |a| == |b| && lo <= k <= |a|
    requires forall i | 0 <= i < |a| :: IsSpace(a[i]) == IsSpace(b[i])
    ensures SpanEnd(a, lo, k) == SpanEnd(b, lo, k)
    decreases k
  {
    if k > lo && IsSpace(a[k - 1]) {
      EndsAgree(a, b, lo, k - 1);
    }
  }

  /** Trimming what is already trimmed changes nothing. */
  lemma {:induction false} TrimSpaceTrimmed(s: string)
    requires |s| == 0 || (!IsSpace(s[0]) && !IsSpace(s[|s| - 1]))
    ensures TrimSpace(s) == s
  {
  }

  /** The separator a slash of either kind becomes. */
  function Unify(c: char, sep: char): char
  {
    if c == '/' || c == '\\' then sep else c
  }

  function UnifySlashes(s: string, sep: char): (r: string)
    ensures |r| == |s|
  {
    if |s| == 0 then [] else UnifySlashes(s[..|s| - 1], sep) + [Unify(s[|s| - 1], sep)]
  }

  /** Each character is kept, except that a slash of either kind becomes the separator. */
  lemma {:induction false} UnifySlashesAt(s: string, sep: char)
    ensures forall i | 0 <= i < |s| :: UnifySlashes(s, sep)[i] == Unify(s[i], sep)
    decreases |s|
  {
    if |s| > 0 {
      var init := s[..|s| - 1];
      UnifySlashesAt(init, sep);
      forall i | 0 <= i < |s|
        ensures UnifySlashes(s, sep)[i] == Unify(s[i], sep)
      {
        if i < |init| {
          assert s[i] == init[i];
        }
      }
    }
  }

  /** `NormalizeFileName`: replace every `/`, then every `\`, by the separator, then trim. */
  function Normalize(name: string, sep: char): (r: string)
    requires sep == '/' || sep == '\\'
  {
    TrimSpace(ReplaceAll(ReplaceAll(name, "/", [sep]), "\\", [sep]))
  }

  /** The two replacements together unify the slashes. */
  lemma {:induction false} ReplacementsUnify(name: string, sep: char)
    ensures ReplaceAll(ReplaceAll(name, "/", [sep]), "\\", [sep]) == UnifySlashes(name, sep)
  {
    ReplaceCharIsMapChar(name, '/', sep);
    var m1 := MapChar(name, '/', sep);
    ReplaceCharIsMapChar(m1, '\\', sep);
    var m2 := MapChar(m1, '\\', sep);
    UnifySlashesAt(name, sep);
    forall i | 0 <= i < |name|
      ensures m2[i] == UnifySlashes(name, sep)[i]
    {
    }
  }

  lemma {:induction false} SpaceUnaffected(c: char, sep: char)
    requires sep == '/' || sep == '\\'
    ensures IsSpace(Unify(c, sep)) == IsSpace(c)
  {
  }

  /** Unifying slashes never creates or removes white space, so the spans of the two strings agree. */
  lemma {:induction false} UnifyKeepsSpans(name: string, sep: char)
    requires sep == '/' || sep == '\\'
    ensures SpanStart(UnifySlashes(name, sep), 0) == SpanStart(name, 0)
    ensures SpanEnd(UnifySlashes(name, sep), SpanStart(name, 0), |name|) == SpanEnd(name, SpanStart(name, 0), |name|)
  {
    var u := UnifySlashes(name, sep);
    UnifySlashesAt(name, sep);
    forall i | 0 <= i < |name|
      ensures IsSpace(u[i]) == IsSpace(name[i])
    {
      SpaceUnaffected(name[i], sep);
    }
    StartsAgree(u, name, 0);
    EndsAgree(u, name, SpanStart(name, 0), |name|);
  }

  /** Unifying the slashes of a slice is slicing the unified string. */
  lemma {:induction false} UnifySlice(s: string, sep: char, lo: nat, hi: nat)
    requires lo <= hi <= |s|
    ensures UnifySlashes(s[lo..hi], sep) == UnifySlashes(s, sep)[lo..hi]
  {
    var u := UnifySlashes(s, sep);
    var t := s[lo..hi];
    UnifySlashesAt(s, sep);
    UnifySlashesAt(t, sep);
    forall i | 0 <= i < hi - lo
      ensures u[lo..hi][i] == UnifySlashes(t, sep)[i]
    {
      assert u[lo..hi][i] == u[lo + i];
      assert t[i] == s[lo + i];
    }
  }

  /** Hence trimming commutes with unifying the slashes. */
  lemma {:induction false} TrimCommutes(name: string, sep: char)
    requires sep == '/' || sep == '\\'
    ensures TrimSpace(UnifySlashes(name, sep)) == UnifySlashes(TrimSpace(name), sep)
  {
    UnifyKeepsSpans(name, sep);
    var lo := SpanStart(name, 0);
    var hi := SpanEnd(name, lo, |name|);
    UnifySlice(name, sep, lo, hi);
  }

  /**
   * Normalising is unifying the slashes of the trimmed name: nothing but
   * white space at the ends is removed, no other character changes (the
   * case of letters included), and the result is never longer.
   */
  lemma {:induction false} NormalizeSpec(name: string, sep: char)
    requires sep == '/' || sep == '\\'
    ensures Normalize(name, sep) == UnifySlashes(TrimSpace(name), sep)
    ensures |Normalize(name, sep)| <= |name|
    ensures forall i | 0 <= i < |Normalize(name, sep)| ::
      Normalize(name, sep)[i] == '/' || Normalize(name, sep)[i] == '\\' ==> Normalize(name, sep)[i] == sep
  {
    ReplacementsUnify(name, sep);
    TrimCommutes(name, sep);
    UnifySlashesAt(TrimSpace(name), sep);
  }

  /** Unifying slashes twice is unifying them once. */
  lemma {:induction false} UnifyIdempotent(s: string, sep: char)
    requires sep == '/' || sep == '\\'
    ensures UnifySlashes(UnifySlashes(s, sep), sep) == UnifySlashes(s, sep)
  {
    var u := UnifySlashes(s, sep);
    UnifySlashesAt(s, sep);
    UnifySlashesAt(u, sep);
    forall i | 0 <= i < |u|
      ensures UnifySlashes(u, sep)[i] == u[i]
    {
    }
  }

  /** A trimmed name with unified slashes is already trimmed. */
  lemma {:induction false} UnifiedTrimmed(name: string, sep: char)
    requires sep == '/' || sep == '\\'
    ensures TrimSpace(UnifySlashes(TrimSpace(name), sep)) == UnifySlashes(TrimSpace(name), sep)
  {
    var t := TrimSpace(name);
    var r := UnifySlashes(t, sep);
    TrimSpaceSpec(name);
    UnifySlashesAt(t, sep);
    if |r| > 0 {
      SpaceUnaffected(t[0], sep);
      SpaceUnaffected(t[|t| - 1], sep);
    }
    TrimSpaceTrimmed(r);
  }

  /** Normalising twice is normalising once. */
  lemma {:induction false} NormalizeIdempotent(name: string, sep: char)
    requires sep == '/' || sep == '\\'
    ensures Normalize(Normalize(name, sep), sep) == Normalize(name, sep)
  {
    var r := Normalize(name, sep);
    NormalizeSpec(name, sep);
    NormalizeSpec(r, sep);
    UnifiedTrimmed(name, sep);
    UnifyIdempotent(TrimSpace(name), sep);
  }
}
