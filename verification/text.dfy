/** Python's string operations as the office-name normaliser and the coordinate cleaner use
    them: whitespace, strip, non-overlapping replace, substring test and ASCII lower-casing. */
module Text {

  /** Python's whitespace (str.isspace, and `\s` in a str regular expression). */
  predicate IsSpace(c: char) {
    var n := c as int;
    || 0x09 <= n <= 0x0D || 0x1C <= n <= 0x20 || n == 0x85 || n == 0xA0 || n == 0x1680
    || 0x2000 <= n <= 0x200A || n == 0x2028 || n == 0x2029 || n == 0x202F || n == 0x205F
    || n == 0x3000
  }

  predicate AllSpace(s: string) {
    forall k :: 0 <= k < |s| ==> IsSpace(s[k])
  }

  /** `s.lstrip()`. */
  function TrimStart(s: string): (r: string)
    ensures |r| <= |s| && r == s[|s| - |r|..]
    ensures AllSpace(s[..|s| - |r|])
    ensures r == [] || !IsSpace(r[0])
  {
    if s != [] && IsSpace(s[0]) then TrimStart(s[1..]) else s
  }

  /** `s.rstrip()`. */
  function TrimEnd(s: string): (r: string)
    ensures |r| <= |s| && r == s[..|r|]
    ensures AllSpace(s[|r|..])
    ensures r == [] || !IsSpace(r[|r| - 1])
  {
    if s != [] && IsSpace(s[|s| - 1]) then TrimEnd(s[..|s| - 1]) else s
  }

  /** `s.strip()`: s with its leading and trailing whitespace removed. */
  function Strip(s: string): (r: string)
    ensures r == [] || (!IsSpace(r[0]) && !IsSpace(r[|r| - 1]))
  {
    var a := TrimStart(s);
    var r := TrimEnd(a);
    assert r != [] ==> r[0] == a[0];
    r
  }

  /** Strip removes whitespace only: what it keeps is a contiguous slice of s whose
      surroundings are all whitespace. */
  lemma StripIsSlice(s: string)
    ensures var r := Strip(s);
            exists i :: 0 <= i <= i + |r| <= |s| && r == s[i..i + |r|] && AllSpace(s[..i]) && AllSpace(s[i + |r|..])
  {
    var i := |s| - |TrimStart(s)|;
    StripSlice(s);
    StripTrailingSpace(s);
    assert AllSpace(s[..i]);
  }

  /** What rstrip removed after the kept slice is whitespace. */
  lemma StripTrailingSpace(s: string)
    ensures var i := |s| - |TrimStart(s)|;
            i + |Strip(s)| <= |s| && AllSpace(s[i + |Strip(s)|..])
  {
    var a := TrimStart(s);
    var r := TrimEnd(a);
    var i := |s| - |a|;
    SuffixOfSuffix(s, i, |r|);
    SpaceTransfer(a[|r|..], s[i + |r|..]);
  }

  lemma SpaceTransfer(x: string, y: string)
    requires AllSpace(x) && x == y
    ensures AllSpace(y)
  {
  }

  /** Strip(s) is the slice of s that starts where lstrip stops. */
  lemma StripSlice(s: string)
    ensures var i := |s| - |TrimStart(s)|;
            i + |Strip(s)| <= |s| && Strip(s) == s[i..i + |Strip(s)|]
  {
    var a := TrimStart(s);
    var r := TrimEnd(a);
    var i := |s| - |a|;
    assert a == s[i..];
    assert r == a[..|r|];
    SliceOfSuffix(s, i, |r|);
    assert Strip(s) == r;
  }

  /** A suffix of a suffix is a suffix. */
  lemma SuffixOfSuffix(s: string, i: nat, n: nat)
    requires i + n <= |s|
    ensures s[i..][n..] == s[i + n..]
  {
  }

  /** A prefix of a suffix is a slice. */
  lemma SliceOfSuffix(s: string, i: nat, n: nat)
    requires i + n <= |s|
    ensures s[i..][..n] == s[i..i + n]
  {
  }

  /** Strip adds no character. */
  lemma StripKeeps(s: string)
    ensures forall c :: c in Strip(s) ==> c in s
  {
    var r := Strip(s);
    var i := |s| - |TrimStart(s)|;
    StripSlice(s);
    forall k | 0 <= k < |r|
      ensures r[k] in s
    {
      assert r[k] == s[i + k];
    }
  }

  /** pat occurs in s starting at position i. */
  predicate OccursAt(s: string, pat: string, i: nat) {
    i + |pat| <= |s| && s[i..i + |pat|] == pat
  }

  /** pat occurs in s (`pat in s`). */
  predicate Contains(s: string, pat: string) {
    exists i: nat | i <= |s| :: OccursAt(s, pat, i)
  }

  /** `s.replace(pat, rep)`: every non-overlapping occurrence of pat, scanning from the
      left, replaced by rep in a single pass. */
  function ReplaceAll(s: string, pat: string, rep: string): (r: string)
    requires |pat| > 0
    ensures |rep| <= |pat| ==> |r| <= |s|
    ensures |rep| == |pat| ==> |r| == |s|
  {
    if |s| < |pat| then s
    else if s[..|pat|] == pat then rep + ReplaceAll(s[|pat|..], pat, rep)
    else [s[0]] + ReplaceAll(s[1..], pat, rep)
  }

  /** Replacing a pattern that does not occur leaves the string unchanged. */
  lemma {:induction false} ReplaceAbsent(s: string, pat: string, rep: string)
    requires |pat| > 0 && !Contains(s, pat)
    ensures ReplaceAll(s, pat, rep) == s
  {
    if |s| >= |pat| {
      assert s[0..|pat|] == s[..|pat|];
      assert !OccursAt(s, pat, 0);
      assert !Contains(s[1..], pat) by {
        forall i: nat | i + |pat| <= |s| - 1
          ensures !OccursAt(s[1..], pat, i)
        {
          assert !OccursAt(s, pat, i + 1);
          assert s[1..][i..i + |pat|] == s[i + 1..i + 1 + |pat|];
        }
      }
      ReplaceAbsent(s[1..], pat, rep);
    }
  }

  /** The scan is leftmost-first: when the first occurrence of pat in s starts right after a,
      a is kept, that occurrence becomes rep, and the scan resumes after it. */
  lemma {:induction false} ReplaceLeftmost(a: string, pat: string, b: string, rep: string)
    requires |pat| > 0
    requires forall i: nat :: i < |a| ==> !OccursAt(a + pat + b, pat, i)
    ensures ReplaceAll(a + pat + b, pat, rep) == a + rep + ReplaceAll(b, pat, rep)
  {
    var s := a + pat + b;
    if a == [] {
      assert s[..|pat|] == pat && s[|pat|..] == b;
    } else {
      var t := a[1..] + pat + b;
      var rb := ReplaceAll(b, pat, rep);
      assert s[1..] == t && s[0] == a[0];
      assert !OccursAt(s, pat, 0);
      ReplaceKeepsFirst(s, pat, rep);
      NoOccurrenceBeforeShift(a, pat, b);
      ReplaceLeftmost(a[1..], pat, b, rep);
      assert ReplaceAll(t, pat, rep) == a[1..] + rep + rb;
      ConsAssociates(a, rep, rb);
    }
  }

  /** Splitting off the first character of a commutes with appending to a. */
  lemma ConsAssociates(a: string, u: string, v: string)
    requires a != []
    ensures [a[0]] + (a[1..] + u + v) == a + u + v
  {
    assert [a[0]] + a[1..] == a;
  }

  /** Where pat does not start at position 0, the first character is copied as it is. */
  lemma ReplaceKeepsFirst(s: string, pat: string, rep: string)
    requires |pat| > 0 && |s| >= |pat| && !OccursAt(s, pat, 0)
    ensures ReplaceAll(s, pat, rep) == [s[0]] + ReplaceAll(s[1..], pat, rep)
  {
    assert s[0..|pat|] == s[..|pat|];
  }

  /** No occurrence before the one after a stays so once the first character of a is gone. */
  lemma NoOccurrenceBeforeShift(a: string, pat: string, b: string)
    requires a != []
    requires forall i: nat :: i < |a| ==> !OccursAt(a + pat + b, pat, i)
    ensures forall i: nat :: i < |a[1..]| ==> !OccursAt(a[1..] + pat + b, pat, i)
  {
    var s := a + pat + b;
    var t := a[1..] + pat + b;
    forall i: nat | i < |a[1..]|
      ensures !OccursAt(t, pat, i)
    {
      assert !OccursAt(s, pat, i + 1);
      assert s[i + 1..i + 1 + |pat|] == t[i..i + |pat|];
    }
  }

  /** Replacing a single character by a single character rewrites exactly the positions
      holding it. */
  lemma {:induction false} ReplaceCharPointwise(s: string, c: char, d: char)
    ensures |ReplaceAll(s, [c], [d])| == |s|
    ensures forall k :: 0 <= k < |s| ==> ReplaceAll(s, [c], [d])[k] == (if s[k] == c then d else s[k])
  {
    if |s| >= 1 {
      ReplaceCharPointwise(s[1..], c, d);
    }
  }

  /** The string with every occurrence of c deleted. */
  function Without(s: string, c: char): (r: string)
    ensures c !in r
    ensures forall x :: x != c ==> (x in r <==> x in s)
  {
    if s == [] then [] else (if s[0] == c then [] else [s[0]]) + Without(s[1..], c)
  }

  /** Replacing a single character by the empty string deletes every occurrence of it. */
  lemma {:induction false} ReplaceCharByNothing(s: string, c: char)
    ensures ReplaceAll(s, [c], []) == Without(s, c)
  {
    if |s| >= 1 {
      ReplaceCharByNothing(s[1..], c);
      assert s[..1] == [s[0]];
    }
  }

  /** Replace is one pass: text that a replacement brings together is not rescanned,
      so the pattern can survive ("ببال" becomes "بال"). */
  lemma ReplaceIsSinglePass()
    ensures ReplaceAll("ببال", "بال", "ال") == "بال"
  {
    assert "ببال"[..3][1] != "بال"[1];
    assert "ببال"[1..] == "بال";
    assert "بال"[3..] == [];
  }

  /** `s.lower()` on ASCII letters; other characters are kept. */
  function Lower(s: string): (r: string)
    ensures |r| == |s|
    ensures forall k :: 0 <= k < |s| ==> r[k] == (if 'A' <= s[k] <= 'Z' then (s[k] as int + 32) as char else s[k])
  {
    seq(|s|, k requires 0 <= k < |s| => if 'A' <= s[k] <= 'Z' then (s[k] as int + 32) as char else s[k])
  }
}
