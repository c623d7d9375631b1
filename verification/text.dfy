/** String search and rewriting with the semantics of Python's `str` methods
    `in`, `find`, `split`, `join` and `replace`. */
module Text {
  import opened Wrappers

  /** `pat` occurs in `s` starting at index `i`. */
  predicate OccursAt(s: string, pat: string, i: nat) {
    i + |pat| <= |s| && s[i..i + |pat|] == pat
  }

  /** Python's `pat in s`. */
  predicate Contains(s: string, pat: string) {
    exists i :: 0 <= i <= |s| && OccursAt(s, pat, i)
  }

  /** No character of `a` appears anywhere in `b`. */
  predicate SharesNoChar(a: string, b: string) {
    forall c :: c in a ==> c !in b
  }

  /** Occurrences inside a slice are exactly the occurrences in the whole
      string that fit inside the slice. */
  lemma OccursInSlice(s: string, lo: nat, hi: nat, pat: string, j: nat)
    requires lo <= hi <= |s|
    ensures OccursAt(s[lo..hi], pat, j) <==> lo + j + |pat| <= hi && OccursAt(s, pat, lo + j)
  {
    if lo + j + |pat| <= hi {
      var a := s[lo..hi][j..j + |pat|];
      var b := s[lo + j..lo + j + |pat|];
      assert |a| == |b|;
      forall k | 0 <= k < |a|
        ensures a[k] == b[k]
      {
      }
      assert a == b;
    }
  }

  /** A slice of a string that does not contain `pat` does not contain it either. */
  lemma SliceKeepsAbsence(s: string, lo: nat, hi: nat, pat: string)
    requires lo <= hi <= |s|
    requires !Contains(s, pat)
    ensures !Contains(s[lo..hi], pat)
  {
    forall j: nat | j <= hi - lo
      ensures !OccursAt(s[lo..hi], pat, j)
    {
      OccursInSlice(s, lo, hi, pat, j);
    }
  }

  /** The text before `lo` and the text from `hi` on inherit the absence of `q`. */
  lemma AbsentOutsideWindow(s: string, lo: nat, hi: nat, q: string)
    requires lo <= hi <= |s|
    requires !Contains(s, q)
    ensures !Contains(s[..lo], q) && !Contains(s[hi..], q)
  {
    SliceKeepsAbsence(s, 0, lo, q);
    assert s[..lo] == s[0..lo];
    SliceKeepsAbsence(s, hi, |s|, q);
    assert s[hi..] == s[hi..|s|];
  }

  /** The first index at or after `from` at which `pat` occurs, if any. */
  function IndexFrom(s: string, pat: string, from: nat): (r: Option<nat>)
    requires from <= |s| + 1
    ensures r.Some? ==> from <= r.value && OccursAt(s, pat, r.value)
    ensures r.Some? ==> forall j: nat :: from <= j < r.value ==> !OccursAt(s, pat, j)
    ensures r.None? <==> forall j: nat :: from <= j <= |s| ==> !OccursAt(s, pat, j)
    decreases |s| + 1 - from
  {
    if from > |s| then None
    else if OccursAt(s, pat, from) then Some(from)
    else IndexFrom(s, pat, from + 1)
  }

  /** Python's `s.find(pat)`: the first index at which `pat` occurs, if any. */
  function IndexOf(s: string, pat: string): (r: Option<nat>)
    ensures r.Some? ==> OccursAt(s, pat, r.value)
    ensures r.Some? ==> forall j: nat :: j < r.value ==> !OccursAt(s, pat, j)
    ensures r.None? <==> !Contains(s, pat)
  {
    IndexFrom(s, pat, 0)
  }

  /** The text before the first occurrence of `pat` holds no occurrence of it. */
  lemma PrefixBeforeFirstIsFree(s: string, pat: string, i: nat)
    requires |pat| > 0 && i <= |s|
    requires forall j: nat :: j < i ==> !OccursAt(s, pat, j)
    ensures !Contains(s[..i], pat)
  {
    assert s[..i] == s[0..i];
    forall j: nat | j <= i
      ensures !OccursAt(s[..i], pat, j)
    {
      OccursInSlice(s, 0, i, pat, j);
    }
  }

  /** Python's `sep.join(parts)`. */
  function Join(parts: seq<string>, sep: string): string
    decreases |parts|
  {
    if |parts| == 0 then []
    else if |parts| == 1 then parts[0]
    else parts[0] + sep + Join(parts[1..], sep)
  }

  /** Python's `s.split(sep)` for a non-empty separator: the pieces between the
      occurrences of `sep` found scanning left to right. */
  function Split(s: string, sep: string): (parts: seq<string>)
    requires |sep| > 0
    ensures |parts| >= 1
    ensures Join(parts, sep) == s
    ensures forall k :: 0 <= k < |parts| ==> !Contains(parts[k], sep)
    decreases |s|
  {
    match IndexOf(s, sep)
    case None => [s]
    case Some(i) =>
      var rest := Split(s[i + |sep|..], sep);
      PrefixBeforeFirstIsFree(s, sep, i);
      assert ([s[..i]] + rest)[1..] == rest;
      assert s == s[..i] + sep + s[i + |sep|..] by {
        assert s[i..i + |sep|] == sep;
      }
      [s[..i]] + rest
  }

  /** Python's `s.replace(pat, rep)` for a non-empty pattern: every occurrence
      found scanning left to right is replaced, and the scan resumes after the
      replaced occurrence, so the replacement text is never rescanned. */
  function ReplaceAll(s: string, pat: string, rep: string): string
    requires |pat| > 0
    decreases |s|
  {
    match IndexOf(s, pat)
    case None => s
    case Some(i) => s[..i] + rep + ReplaceAll(s[i + |pat|..], pat, rep)
  }

  /** A string holding no occurrence of the pattern is left unchanged. */
  lemma ReplaceWithoutOccurrence(s: string, pat: string, rep: string)
    requires |pat| > 0 && !Contains(s, pat)
    ensures ReplaceAll(s, pat, rep) == s
  {
  }

  /** One step of the scan: the text up to the first occurrence is kept, the
      occurrence becomes `rep`, and the scan continues after it. */
  lemma {:induction false} ReplaceAllAt(s: string, pat: string, rep: string, i: nat)
    requires |pat| > 0 && IndexOf(s, pat) == Some(i)
    ensures ReplaceAll(s, pat, rep) == s[..i] + rep + ReplaceAll(s[i + |pat|..], pat, rep)
  {
  }

  /** `s.replace(pat, rep) == rep.join(s.split(pat))`: the replacement keeps
      exactly the pieces of `s` between occurrences of `pat`. */
  lemma {:induction false} ReplaceAllIsJoinOfSplit(s: string, pat: string, rep: string)
    requires |pat| > 0
    ensures ReplaceAll(s, pat, rep) == Join(Split(s, pat), rep)
    decreases |s|
  {
    match IndexOf(s, pat)
    case None =>
    case Some(i) =>
      var tail := s[i + |pat|..];
      ReplaceAllIsJoinOfSplit(tail, pat, rep);
      var parts := [s[..i]] + Split(tail, pat);
      assert Split(s, pat) == parts;
      assert parts[1..] == Split(tail, pat);
  }

  /** Replacing a pattern by itself gives back the original string. */
  lemma ReplaceBySelfIsIdentity(s: string, pat: string)
    requires |pat| > 0
    ensures ReplaceAll(s, pat, pat) == s
  {
    ReplaceAllIsJoinOfSplit(s, pat, pat);
  }

  /** A string that is exactly the pattern becomes exactly the replacement. */
  lemma ReplaceWholePattern(pat: string, rep: string)
    requires |pat| > 0
    ensures ReplaceAll(pat, pat, rep) == rep
  {
  }

  /** Gluing two strings free of `q` with a non-empty middle that shares no
      character with `q` cannot create an occurrence of `q`. */
  lemma NoOccurrenceAcross(a: string, m: string, b: string, q: string)
    requires !Contains(a, q) && !Contains(b, q)
    requires |m| > 0 && SharesNoChar(m, q)
    ensures !Contains(a + m + b, q)
  {
    var w := a + m + b;
    assert |q| > 0 by {
      assert |q| == 0 ==> OccursAt(a, q, 0);
    }
    forall i | 0 <= i <= |w|
      ensures !OccursAt(w, q, i)
    {
      if i + |q| > |w| {
      } else if i + |q| <= |a| {
        assert w[i..i + |q|] == a[i..i + |q|];
        assert !OccursAt(a, q, i);
      } else if i >= |a| + |m| {
        var i' := i - |a| - |m|;
        assert w[i..i + |q|] == b[i'..i' + |q|];
        assert !OccursAt(b, q, i');
      } else {
        // the window overlaps the middle, whose characters are foreign to q
        var p := if i < |a| then |a| else i;
        assert w[p] == m[p - |a|];
        assert m[p - |a|] in m;
        assert q[p - i] in q;
        assert w[i..i + |q|][p - i] == w[p];
        assert w[i..i + |q|][p - i] != q[p - i];
      }
    }
  }

  /** With a non-empty replacement that shares no character with the pattern,
      no occurrence of the pattern is left. */
  lemma {:induction false} ReplaceRemovesPattern(s: string, pat: string, rep: string)
    requires |pat| > 0 && |rep| > 0 && SharesNoChar(rep, pat)
    ensures !Contains(ReplaceAll(s, pat, rep), pat)
    decreases |s|
  {
    match IndexOf(s, pat)
    case None =>
    case Some(i) =>
      var tail := s[i + |pat|..];
      var rest := ReplaceAll(tail, pat, rep);
      assert !Contains(s[..i] + rep + rest, pat) by {
        ReplaceRemovesPattern(tail, pat, rep);
        PrefixBeforeFirstIsFree(s, pat, i);
        NoOccurrenceAcross(s[..i], rep, rest, pat);
      }
      ReplaceAllAt(s, pat, rep, i);
  }

  /** Replacing `pat` by text that shares no character with `q` does not
      introduce `q` into a string that did not contain it. */
  lemma {:induction false} ReplaceKeepsAbsence(s: string, pat: string, rep: string, q: string)
    requires |pat| > 0 && |rep| > 0 && SharesNoChar(rep, q)
    requires !Contains(s, q)
    ensures !Contains(ReplaceAll(s, pat, rep), q)
    decreases |s|
  {
    match IndexOf(s, pat)
    case None =>
    case Some(i) =>
      var tail := s[i + |pat|..];
      var rest := ReplaceAll(tail, pat, rep);
      assert !Contains(s[..i] + rep + rest, q) by {
        AbsentOutsideWindow(s, i, i + |pat|, q);
        ReplaceKeepsAbsence(tail, pat, rep, q);
        NoOccurrenceAcross(s[..i], rep, rest, q);
      }
      ReplaceAllAt(s, pat, rep, i);
  }

  /** When the text before an occurrence of `pat` lacks the first character
      of `pat`, that occurrence is the first one and is the one replaced. */
  lemma ReplaceAfterFreePrefix(a: string, pat: string, b: string, rep: string)
    requires |pat| > 0 && pat[0] !in a
    ensures ReplaceAll(a + pat + b, pat, rep) == a + rep + ReplaceAll(b, pat, rep)
  {
    var s := a + pat + b;
    assert s[|a|..|a| + |pat|] == pat;
    forall j: nat | j < |a|
      ensures !OccursAt(s, pat, j)
    {
      assert s[j] == a[j] != pat[0];
      if j + |pat| <= |s| {
        assert s[j..j + |pat|][0] == s[j];
      }
    }
    assert OccursAt(s, pat, |a|);
    assert IndexOf(s, pat) == Some(|a|);
    assert s[..|a|] == a;
    assert s[|a| + |pat|..] == b;
  }

  /** A string whose only possible occurrences of `pat` would start in a part
      lacking the first character of `pat` or run past the end holds none. */
  lemma NoOccurrenceInShortTail(a: string, c: string, pat: string)
    requires |pat| > 0 && pat[0] !in a && |c| < |pat|
    ensures !Contains(a + c, pat)
  {
    var s := a + c;
    forall j | 0 <= j <= |s|
      ensures !OccursAt(s, pat, j)
    {
      if j < |a| {
        assert s[j] == a[j] != pat[0];
        if j + |pat| <= |s| {
          assert s[j..j + |pat|][0] == s[j];
        }
      }
    }
  }

  /** ASCII case folding of one character. */
  function LowerChar(c: char): char {
    if 'A' <= c <= 'Z' then (c as int + 32) as char else c
  }

  /** Python's `s.lower()`, restricted to ASCII letters. */
  function Lower(s: string): (r: string)
    ensures |r| == |s|
    ensures forall i :: 0 <= i < |s| ==> r[i] == LowerChar(s[i])
  {
    seq(|s|, i requires 0 <= i < |s| => LowerChar(s[i]))
  }

  /** ASCII upper-casing of one character, the inverse view of `LowerChar`. */
  function UpperChar(c: char): char {
    if 'a' <= c <= 'z' then (c as int - 32) as char else c
  }

  /** Every character of `pat` is an ASCII lower-case letter. */
  predicate LowerLetters(pat: string) {
    forall k :: 0 <= k < |pat| ==> 'a' <= pat[k] <= 'z'
  }

  /** `w` spells `pat` with any mix of upper- and lower-case letters. */
  predicate MatchesIgnoringCase(w: string, pat: string) {
    |w| == |pat| && forall k :: 0 <= k < |w| ==> w[k] == pat[k] || w[k] == UpperChar(pat[k])
  }

  /** A character lower-cases to a lower-case letter exactly when it is that
      letter or its upper-case form. */
  lemma LowerCharMatches(c: char, p: char)
    requires 'a' <= p <= 'z'
    ensures LowerChar(c) == p <==> c == p || c == UpperChar(p)
  {
  }

  /** A window of the lower-cased string reads `pat` exactly when the same
      window of the original spells `pat` ignoring case. */
  lemma WindowLowerMatches(s: string, pat: string, i: nat)
    requires LowerLetters(pat) && i + |pat| <= |s|
    ensures Lower(s)[i..i + |pat|] == pat <==> MatchesIgnoringCase(s[i..i + |pat|], pat)
  {
    var lw := Lower(s)[i..i + |pat|];
    var w := s[i..i + |pat|];
    forall k | 0 <= k < |pat|
      ensures lw[k] == pat[k] <==> (w[k] == pat[k] || w[k] == UpperChar(pat[k]))
    {
      assert lw[k] == LowerChar(s[i + k]) && w[k] == s[i + k];
      LowerCharMatches(s[i + k], pat[k]);
    }
    if MatchesIgnoringCase(w, pat) {
      assert forall k :: 0 <= k < |pat| ==> lw[k] == pat[k];
      assert lw == pat;
    }
  }

  /** `pat` occurs at index `i` of `s` up to the case of its letters. */
  predicate MatchesIgnoringCaseAt(s: string, pat: string, i: nat) {
    i + |pat| <= |s| && MatchesIgnoringCase(s[i..i + |pat|], pat)
  }

  /** A case-insensitive `pat in s` for a lower-case `pat`. */
  predicate ContainsIgnoringCase(s: string, pat: string) {
    exists i :: 0 <= i <= |s| && MatchesIgnoringCaseAt(s, pat, i)
  }

  /** Searching the lower-cased string for a lower-case word is a
      case-insensitive search of the original string. */
  lemma ContainsLowerIgnoresCase(s: string, pat: string)
    requires LowerLetters(pat)
    ensures Contains(Lower(s), pat) <==> ContainsIgnoringCase(s, pat)
  {
    if Contains(Lower(s), pat) {
      var i :| 0 <= i <= |Lower(s)| && OccursAt(Lower(s), pat, i);
      WindowLowerMatches(s, pat, i);
      assert MatchesIgnoringCaseAt(s, pat, i);
    }
    if ContainsIgnoringCase(s, pat) {
      var i :| 0 <= i <= |s| && MatchesIgnoringCaseAt(s, pat, i);
      WindowLowerMatches(s, pat, i);
      assert OccursAt(Lower(s), pat, i);
    }
  }
}
