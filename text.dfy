/** The Python `str` operations the triage code calls, stated over Dafny
    strings: `isspace`/`strip`, `lower`, the `in` substring test and
    `replace`. Two stand-ins sit beside them: the search for the last
    occurrence of a marker, which is how `split(...)[-1]` is read, and line
    splitting and joining, which state the line layout of the
    patient-record template. */
module Text {
  import opened Optional

  /** Python's `str.isspace` for one character: the characters `strip()`
      removes from both ends. */
  predicate IsSpace(c: char) {
    c == ' ' || ('\t' <= c <= '\r') || ('\U{1C}' <= c <= '\U{1F}')
    || c == '\U{85}' || c == '\U{A0}' || c == '\U{1680}'
    || ('\U{2000}' <= c <= '\U{200A}') || c == '\U{2028}' || c == '\U{2029}'
    || c == '\U{202F}' || c == '\U{205F}' || c == '\U{3000}'
  }

  /** Number of whitespace characters at the front of `s`. */
  function LeadingSpace(s: string): (n: nat)
    ensures n <= |s|
    ensures forall i :: 0 <= i < n ==> IsSpace(s[i])
    ensures n < |s| ==> !IsSpace(s[n])
  {
    if s == [] || !IsSpace(s[0]) then 0 else 1 + LeadingSpace(s[1..])
  }

  /** Number of whitespace characters at the back of `s`. */
  function TrailingSpace(s: string): (n: nat)
    ensures n <= |s|
    ensures forall i :: |s| - n <= i < |s| ==> IsSpace(s[i])
    ensures n < |s| ==> !IsSpace(s[|s| - 1 - n])
  {
    if s == [] || !IsSpace(s[|s| - 1]) then 0 else 1 + TrailingSpace(s[..|s| - 1])
  }

  /** Where `strip()` starts keeping characters. */
  function StripStart(s: string): nat {
    LeadingSpace(s)
  }

  /** Where `strip()` stops keeping characters (exclusive). */
  function StripEnd(s: string): (e: nat)
    ensures StripStart(s) <= e <= |s|
    ensures forall i :: e <= i < |s| ==> IsSpace(s[i])
    ensures StripStart(s) < e ==> !IsSpace(s[e - 1])
  {
    var a := LeadingSpace(s);
    a + |s[a..]| - TrailingSpace(s[a..])
  }

  /** Python's `str.strip()`: `s` without whitespace at either end. */
  function Strip(s: string): (r: string)
    ensures r == [] || (!IsSpace(r[0]) && !IsSpace(r[|r| - 1]))
    ensures |r| <= |s|
  {
    s[StripStart(s)..StripEnd(s)]
  }

  /** Python's `str.lower()` on one character, for the ASCII letters. */
  function LowerChar(c: char): char {
    if 'A' <= c <= 'Z' then (c as int + 32) as char else c
  }

  /** Python's `str.lower()`, character by character. */
  function Lower(s: string): (r: string)
    ensures |r| == |s|
  {
    seq(|s|, i requires 0 <= i < |s| => LowerChar(s[i]))
  }

  /** `sub` occurs in `s` starting at index `i`. */
  predicate OccursAt(s: string, sub: string, i: nat) {
    i + |sub| <= |s| && s[i..i + |sub|] == sub
  }

  /** Python's `sub in s`. */
  predicate Contains(s: string, sub: string) {
    exists i: nat :: i <= |s| && OccursAt(s, sub, i)
  }

  /** The largest index `j <= i` at which `m` occurs in `s`, if any. */
  function LastOccurrenceUpTo(s: string, m: string, i: nat): (r: Option<nat>)
    ensures r.Some? ==> r.value <= i && OccursAt(s, m, r.value)
    ensures r.Some? ==> forall j: nat :: r.value < j <= i ==> !OccursAt(s, m, j)
    ensures r.None? ==> forall j: nat :: j <= i ==> !OccursAt(s, m, j)
  {
    if OccursAt(s, m, i) then Some(i)
    else if i == 0 then None
    else LastOccurrenceUpTo(s, m, i - 1)
  }

  /** Python's `s.rfind(m)`, with `None` for -1. */
  function LastIndexOf(s: string, m: string): (r: Option<nat>)
    ensures r.None? <==> !Contains(s, m)
    ensures r.Some? ==> OccursAt(s, m, r.value)
    ensures r.Some? ==> forall j: nat :: r.value < j ==> !OccursAt(s, m, j)
  {
    LastOccurrenceUpTo(s, m, |s|)
  }

  /** Python's `s.replace(pat, rep)`: left to right, without overlaps. */
  function Replace(s: string, pat: string, rep: string): string
    requires pat != []
    decreases |s|
  {
    if s == [] then []
    else if OccursAt(s, pat, 0) then rep + Replace(s[|pat|..], pat, rep)
    else [s[0]] + Replace(s[1..], pat, rep)
  }

  /** Python's `s.split("\n")`. */
  function SplitLines(s: string): (r: seq<string>)
    ensures |r| >= 1
  {
    if s == [] then [""]
    else if s[0] == '\n' then [""] + SplitLines(s[1..])
    else
      var rest := SplitLines(s[1..]);
      [[s[0]] + rest[0]] + rest[1..]
  }

  /** Python's `"\n".join(lines)`. */
  function JoinLines(lines: seq<string>): string {
    if |lines| == 0 then ""
    else if |lines| == 1 then lines[0]
    else lines[0] + "\n" + JoinLines(lines[1..])
  }

  // ---------------------------------------------------------------------
  // Facts about these operations.

  /** `Strip` keeps exactly the middle of `s`: whitespace goes, the rest stays. */
  lemma StripBounds(s: string)
    ensures Strip(s) == s[StripStart(s)..StripEnd(s)]
    ensures forall i :: 0 <= i < StripStart(s) ==> IsSpace(s[i])
    ensures forall i :: StripEnd(s) <= i < |s| ==> IsSpace(s[i])
  {
  }

  /** A slice of a slice is a slice of the original. */
  lemma SliceOfSlice(s: string, a: nat, e: nat, i: nat, n: nat)
    requires a <= e <= |s| && i + n <= e - a
    ensures s[a..e][i..i + n] == s[a + i..a + i + n]
  {
    var t, u := s[a..e][i..i + n], s[a + i..a + i + n];
    assert forall k :: 0 <= k < n ==> t[k] == u[k];
  }

  /** Stripping neither creates nor destroys an occurrence of a marker that
      neither starts nor ends with whitespace. */
  lemma StripKeepsContains(s: string, m: string)
    requires m != [] && !IsSpace(m[0]) && !IsSpace(m[|m| - 1])
    ensures Contains(Strip(s), m) <==> Contains(s, m)
  {
    if Contains(Strip(s), m) {
      StripIsInfix(s, m);
    }
    if Contains(s, m) {
      var i: nat :| i <= |s| && OccursAt(s, m, i);
      OccurrenceSurvivesStrip(s, m, i);
    }
  }

  /** An occurrence of such a marker lies inside the part `strip()` keeps. */
  lemma OccurrenceSurvivesStrip(s: string, m: string, i: nat)
    requires m != [] && !IsSpace(m[0]) && !IsSpace(m[|m| - 1])
    requires OccursAt(s, m, i)
    ensures Contains(Strip(s), m)
  {
    var a, e := StripStart(s), StripEnd(s);
    assert s[i] == m[0];
    assert s[i + |m| - 1] == m[|m| - 1];
    assert a <= i;
    assert i + |m| <= e;
    SliceOfSlice(s, a, e, i - a, |m|);
    assert OccursAt(Strip(s), m, i - a);
  }

  /** A string with no whitespace at either end is its own `strip()`. */
  lemma StripUnchanged(s: string)
    requires s != [] && !IsSpace(s[0]) && !IsSpace(s[|s| - 1])
    ensures Strip(s) == s
  {
    assert LeadingSpace(s) == 0;
    assert TrailingSpace(s) == 0;
  }

  /** One whitespace character in front of a trimmed string is all that
      `strip()` removes. */
  lemma StripSpaceInFront(c: char, s: string)
    requires IsSpace(c)
    requires s != [] && !IsSpace(s[0]) && !IsSpace(s[|s| - 1])
    ensures Strip([c] + s) == s
  {
    var cs := [c] + s;
    assert cs[1..] == s;
    assert LeadingSpace(s) == 0;
    assert LeadingSpace(cs) == 1;
    assert TrailingSpace(s) == 0;
    assert StripEnd(cs) == |cs|;
  }

  /** `strip()` cannot bring in a marker the original lacks. */
  lemma StripKeepsAbsent(s: string, m: string)
    requires !Contains(s, m)
    ensures !Contains(Strip(s), m)
  {
    if Contains(Strip(s), m) {
      StripIsInfix(s, m);
    }
  }

  /** A stripped string occurs inside the original. */
  lemma StripIsInfix(s: string, m: string)
    requires Contains(Strip(s), m)
    ensures Contains(s, m)
  {
    var a, e := StripStart(s), StripEnd(s);
    var i: nat :| i <= |Strip(s)| && OccursAt(Strip(s), m, i);
    SliceOfSlice(s, a, e, i, |m|);
    assert OccursAt(s, m, a + i);
  }

  /** Containment is transitive: an occurrence of `k` brings along every
      substring of `k`. */
  lemma ContainsTransitive(s: string, k: string, m: string)
    requires Contains(s, k) && Contains(k, m)
    ensures Contains(s, m)
  {
    var i: nat :| i <= |s| && OccursAt(s, k, i);
    var j: nat :| j <= |k| && OccursAt(k, m, j);
    SliceOfSlice(s, i, i + |k|, j, |m|);
    assert OccursAt(s, m, i + j);
  }

  /** A string cannot contain a marker that has a character it lacks. */
  lemma MissingCharExcludes(s: string, m: string, c: char)
    requires c in m && c !in s
    ensures !Contains(s, m)
  {
  }

  /** Every string contains itself. */
  lemma ContainsSelf(s: string)
    ensures Contains(s, s)
  {
    assert OccursAt(s, s, 0);
  }

  /** A string contains whatever sits between two other strings in it. */
  lemma ContainsMiddle(a: string, m: string, b: string)
    ensures Contains(a + m + b, m)
  {
    assert (a + m + b)[|a|..|a| + |m|] == m;
    assert OccursAt(a + m + b, m, |a|);
  }

  /** Whatever a string contains, so does any string it starts. */
  lemma ContainsInPrefix(a: string, b: string, m: string)
    requires Contains(a, m)
    ensures Contains(a + b, m)
  {
    var i: nat :| i <= |a| && OccursAt(a, m, i);
    assert (a + b)[i..i + |m|] == a[i..i + |m|];
    assert OccursAt(a + b, m, i);
  }

  /** Whatever a string contains, so does any string it ends. */
  lemma ContainsInSuffix(a: string, b: string, m: string)
    requires Contains(b, m)
    ensures Contains(a + b, m)
  {
    var i: nat :| i <= |b| && OccursAt(b, m, i);
    assert (a + b)[|a| + i..|a| + i + |m|] == b[i..i + |m|];
    assert OccursAt(a + b, m, |a| + i);
  }

  /** Lower-casing changes no whitespace, so it commutes with `Strip`. */
  lemma LowerStripCommute(s: string)
    ensures Lower(Strip(s)) == Strip(Lower(s))
  {
    LowerKeepsSpace(s);
  }

  lemma {:induction false} LowerKeepsSpace(s: string)
    ensures StripStart(Lower(s)) == StripStart(s)
    ensures StripEnd(Lower(s)) == StripEnd(s)
  {
    LeadingSpaceLower(s);
    var a := StripStart(s);
    assert Lower(s)[a..] == Lower(s[a..]);
    TrailingSpaceLower(s[a..]);
  }

  lemma {:induction false} LeadingSpaceLower(s: string)
    ensures LeadingSpace(Lower(s)) == LeadingSpace(s)
    decreases |s|
  {
    if s != [] {
      assert Lower(s)[1..] == Lower(s[1..]);
      LeadingSpaceLower(s[1..]);
    }
  }

  lemma {:induction false} TrailingSpaceLower(s: string)
    ensures TrailingSpace(Lower(s)) == TrailingSpace(s)
    decreases |s|
  {
    if s != [] {
      assert Lower(s)[..|s| - 1] == Lower(s[..|s| - 1]);
      TrailingSpaceLower(s[..|s| - 1]);
    }
  }

  /** Lower-casing twice is lower-casing once. */
  lemma LowerIdempotent(s: string)
    ensures Lower(Lower(s)) == Lower(s)
  {
  }

  /** `replace` never leaves an occurrence of a one-character `pat`, as long
      as the replacement does not bring it back. */
  lemma {:induction false} ReplaceRemoves(s: string, c: char, rep: string)
    requires c !in rep
    ensures c !in Replace(s, [c], rep)
    decreases |s|
  {
    if s != [] {
      ReplaceRemoves(s[1..], c, rep);
    }
  }

  /** `replace` leaves a string without the pattern as it is. */
  lemma {:induction false} ReplaceUnchanged(s: string, pat: string, rep: string)
    requires pat != []
    requires !Contains(s, pat)
    ensures Replace(s, pat, rep) == s
    decreases |s|
  {
    if s != [] {
      assert !OccursAt(s, pat, 0);
      forall j: nat | OccursAt(s[1..], pat, j)
        ensures OccursAt(s, pat, j + 1)
      {
        SliceOfSlice(s, 1, |s|, j, |pat|);
      }
      ReplaceUnchanged(s[1..], pat, rep);
      assert [s[0]] + s[1..] == s;
    }
  }

  /** `replace` brings in no character that neither the input nor the
      replacement has. */
  lemma {:induction false} ReplaceKeepsAbsent(s: string, pat: string, rep: string, c: char)
    requires pat != []
    requires c !in s && c !in rep
    ensures c !in Replace(s, pat, rep)
    decreases |s|
  {
    if s != [] {
      if OccursAt(s, pat, 0) {
        ReplaceKeepsAbsent(s[|pat|..], pat, rep, c);
      } else {
        ReplaceKeepsAbsent(s[1..], pat, rep, c);
      }
    }
  }

  /** A line without a line break splits into itself. */
  lemma {:induction false} SplitSingleLine(a: string)
    requires '\n' !in a
    ensures SplitLines(a) == [a]
    decreases |a|
  {
    if a != [] {
      SplitSingleLine(a[1..]);
      assert [a[0]] + a[1..] == a;
    }
  }

  /** A line break after a line without line breaks ends that line. */
  lemma {:induction false} SplitFirstLine(a: string, b: string)
    requires '\n' !in a
    ensures SplitLines(a + "\n" + b) == [a] + SplitLines(b)
    decreases |a|
  {
    if a == [] {
      assert a + "\n" + b == "\n" + b;
      assert ("\n" + b)[1..] == b;
    } else {
      assert (a + "\n" + b)[1..] == a[1..] + "\n" + b;
      SplitFirstLine(a[1..], b);
      assert [a[0]] + a[1..] == a;
    }
  }

  /** Splitting joined lines that hold no line break gives the lines back. */
  lemma {:induction false} SplitJoinLines(lines: seq<string>)
    requires |lines| >= 1
    requires forall i :: 0 <= i < |lines| ==> '\n' !in lines[i]
    ensures SplitLines(JoinLines(lines)) == lines
    decreases |lines|
  {
    if |lines| == 1 {
      SplitSingleLine(lines[0]);
    } else {
      SplitFirstLine(lines[0], JoinLines(lines[1..]));
      SplitJoinLines(lines[1..]);
    }
  }
}
