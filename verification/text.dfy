/**
 The string primitives the merge script relies on, over `string` (a `seq<char>`):
 JavaScript's `includes` with a start position, `split`/`join` on a one-character
 separator, and a global replace of a literal pattern.
 */
module Text {

  /** `pat` occurs in `s` starting exactly at index `i`. */
  predicate OccursAt(s: string, pat: string, i: nat) {
    i + |pat| <= |s| && s[i..i + |pat|] == pat
  }

  /** JavaScript's `s.includes(pat, from)`: some occurrence of `pat` starts at or
      after `from`, the start position being clamped to the length of `s`. */
  function IncludesFrom(s: string, pat: string, from: nat): (b: bool)
    ensures b <==> exists i: nat :: (if from <= |s| then from else |s|) <= i && OccursAt(s, pat, i)
    decreases |s| - from
  {
    if from >= |s| then
      assert OccursAt(s, [], |s|);
      pat == []
    else
      OccursAt(s, pat, from) || IncludesFrom(s, pat, from + 1)
  }

  /** JavaScript's `s.includes(pat)`: the search starts at index 0. */
  predicate Includes(s: string, pat: string) {
    IncludesFrom(s, pat, 0)
  }

  /** An occurrence in the left operand of a concatenation is one in the whole. */
  lemma OccursInLeft(a: string, b: string, pat: string, i: nat)
    requires OccursAt(a, pat, i)
    ensures OccursAt(a + b, pat, i)
  {
    assert (a + b)[i..i + |pat|] == a[i..i + |pat|];
  }

  /** An occurrence in the right operand of a concatenation is one in the whole, shifted by `|a|`. */
  lemma OccursInRight(a: string, b: string, pat: string, i: nat)
    requires OccursAt(b, pat, i)
    ensures OccursAt(a + b, pat, |a| + i)
  {
    assert (a + b)[|a| + i..|a| + i + |pat|] == b[i..i + |pat|];
  }

  /** Searching from a later position finds no more than searching from an earlier one. */
  lemma IncludesFromEarlier(s: string, pat: string, from: nat, earlier: nat)
    requires earlier <= from
    requires IncludesFrom(s, pat, from)
    ensures IncludesFrom(s, pat, earlier)
  {
    var i: nat :| (if from <= |s| then from else |s|) <= i && OccursAt(s, pat, i);
    assert (if earlier <= |s| then earlier else |s|) <= i;
  }

  /** A string that contains `big` also contains every prefix of `big`, at the same position. */
  lemma IncludesPrefixOf(s: string, big: string, small: string, from: nat)
    requires |small| <= |big| && big[..|small|] == small
    requires IncludesFrom(s, big, from)
    ensures IncludesFrom(s, small, from)
  {
    var i: nat :| (if from <= |s| then from else |s|) <= i && OccursAt(s, big, i);
    assert s[i..i + |small|] == s[i..i + |big|][..|small|];
    assert OccursAt(s, small, i);
  }

  /** A string that contains `big` contains every infix `big[d..d + |small|]`, `d` places further on. */
  lemma IncludesInfixOf(s: string, big: string, small: string, d: nat, from: nat)
    requires d + |small| <= |big| && big[d..d + |small|] == small
    requires IncludesFrom(s, big, from)
    ensures IncludesFrom(s, small, from)
  {
    var i: nat :| (if from <= |s| then from else |s|) <= i && OccursAt(s, big, i);
    forall m | 0 <= m < |small|
      ensures s[i + d + m] == small[m]
    {
      assert s[i + d + m] == s[i..i + |big|][d + m];
      assert small[m] == big[d..d + |small|][m];
    }
    assert s[i + d..i + d + |small|] == small;
    assert OccursAt(s, small, i + d);
  }

  /** A string whose part from `from` on lacks some character of `pat` does not contain
      `pat` from `from` on. */
  lemma MissingCharExcludes(s: string, pat: string, d: nat, from: nat)
    requires d < |pat| && from <= |s| && pat[d] !in s[from..]
    ensures !IncludesFrom(s, pat, from)
  {
    forall i: nat | from <= i && i + |pat| <= |s|
      ensures !OccursAt(s, pat, i)
    {
      assert s[i..i + |pat|][d] == s[i + d] == s[from..][i + d - from];
    }
  }

  /** An occurrence inside either operand of a concatenation is an occurrence in the whole. */
  lemma IncludesInConcat(a: string, b: string, pat: string)
    requires Includes(a, pat) || Includes(b, pat)
    ensures Includes(a + b, pat)
  {
    if Includes(a, pat) {
      var i: nat :| OccursAt(a, pat, i);
      OccursInLeft(a, b, pat, i);
    } else {
      var i: nat :| OccursAt(b, pat, i);
      OccursInRight(a, b, pat, i);
    }
  }

  // ---------------------------------------------------------------------------
  // split / join on a one-character separator
  // ---------------------------------------------------------------------------

  /** JavaScript's `s.split(sep)` for a one-character separator: the maximal
      separator-free pieces between separators, always at least one piece. */
  function Split(s: string, sep: char): (parts: seq<string>)
    ensures |parts| >= 1
    ensures forall k :: 0 <= k < |parts| ==> sep !in parts[k]
    decreases |s|
  {
    if |s| == 0 then [""]
    else
      var rest := Split(s[1..], sep);
      if s[0] == sep then [""] + rest
      else [[s[0]] + rest[0]] + rest[1..]
  }

  /** JavaScript's `parts.join(sep)` for a one-character separator. */
  function Join(parts: seq<string>, sep: char): string
    decreases |parts|
  {
    if |parts| == 0 then ""
    else if |parts| == 1 then parts[0]
    else parts[0] + [sep] + Join(parts[1..], sep)
  }

  /** Prepending text to the first piece prepends it to the joined string. */
  lemma JoinExtendFirst(h: string, parts: seq<string>, sep: char)
    requires |parts| >= 1
    ensures Join([h + parts[0]] + parts[1..], sep) == h + Join(parts, sep)
  {
    var q := [h + parts[0]] + parts[1..];
    if |parts| > 1 {
      assert q[1..] == parts[1..];
    }
  }

  /** Joining the pieces of a split gives back the original string. */
  lemma {:induction false} JoinSplit(s: string, sep: char)
    ensures Join(Split(s, sep), sep) == s
    decreases |s|
  {
    if |s| > 0 {
      var rest := Split(s[1..], sep);
      JoinSplit(s[1..], sep);
      if s[0] == sep {
        assert ([""] + rest)[1..] == rest;
      } else {
        JoinExtendFirst([s[0]], rest, sep);
      }
      assert [s[0]] + s[1..] == s;
    }
  }

  /** A separator-free string splits into itself. */
  lemma {:induction false} SplitWithoutSep(s: string, sep: char)
    requires sep !in s
    ensures Split(s, sep) == [s]
    decreases |s|
  {
    if |s| > 0 {
      SplitWithoutSep(s[1..], sep);
      assert [s[0]] + s[1..] == s;
    }
  }

  /** A separator-free prefix is glued onto the first piece of what follows it. */
  lemma {:induction false} SplitFreePrefix(a: string, t: string, sep: char)
    requires sep !in a
    ensures Split(a + t, sep) == [a + Split(t, sep)[0]] + Split(t, sep)[1..]
    decreases |a|
  {
    if |a| == 0 {
      var parts := Split(t, sep);
      assert a + t == t;
      assert a + parts[0] == parts[0];
      assert [parts[0]] + parts[1..] == parts;
    } else {
      assert (a + t)[1..] == a[1..] + t;
      SplitFreePrefix(a[1..], t, sep);
      assert [a[0]] + (a[1..] + Split(t, sep)[0]) == a + Split(t, sep)[0];
    }
  }

  /** Splitting the join of separator-free pieces gives back the pieces. */
  lemma {:induction false} SplitJoin(parts: seq<string>, sep: char)
    requires |parts| >= 1
    requires forall k :: 0 <= k < |parts| ==> sep !in parts[k]
    ensures Split(Join(parts, sep), sep) == parts
    decreases |parts|
  {
    if |parts| == 1 {
      SplitWithoutSep(parts[0], sep);
    } else {
      var tail := Join(parts[1..], sep);
      SplitJoin(parts[1..], sep);
      assert ([sep] + tail)[1..] == tail;
      assert Split([sep] + tail, sep) == [""] + parts[1..];
      assert parts[0] + [sep] + tail == parts[0] + ([sep] + tail);
      SplitFreePrefix(parts[0], [sep] + tail, sep);
      assert parts[0] + "" == parts[0];
      assert [parts[0]] + parts[1..] == parts;
    }
  }

  /** Every piece of a join is contained in the joined string, so whatever a piece contains, the whole contains. */
  lemma {:induction false} IncludesInJoin(parts: seq<string>, sep: char, k: nat, pat: string)
    requires k < |parts|
    requires Includes(parts[k], pat)
    ensures Includes(Join(parts, sep), pat)
    decreases |parts|
  {
    if |parts| > 1 {
      var tail := Join(parts[1..], sep);
      assert Join(parts, sep) == parts[0] + ([sep] + tail);
      if k == 0 {
        IncludesInConcat(parts[0], [sep] + tail, pat);
      } else {
        IncludesInJoin(parts[1..], sep, k - 1, pat);
        IncludesInConcat([sep], tail, pat);
        IncludesInConcat(parts[0], [sep] + tail, pat);
      }
    }
  }

  // ---------------------------------------------------------------------------
  // global replace of a literal pattern
  // ---------------------------------------------------------------------------

  /** JavaScript's `s.replace(/pat/g, rep)` for a regular expression that is a plain
      literal and a replacement without `$` patterns: scanning left to right, every
      occurrence of `pat` that does not overlap an earlier replaced one becomes `rep`. */
  function ReplaceAll(s: string, pat: string, rep: string): string
    requires |pat| > 0
    decreases |s|
  {
    if |s| == 0 then ""
    else if OccursAt(s, pat, 0) then rep + ReplaceAll(s[|pat|..], pat, rep)
    else [s[0]] + ReplaceAll(s[1..], pat, rep)
  }

  /** The leftmost occurrence of the pattern is replaced and the scan resumes right
      after it: the text before it is kept as it is. */
  lemma {:induction false} ReplaceAllLeftmost(a: string, pat: string, rep: string, b: string)
    requires |pat| > 0
    requires forall i :: 0 <= i < |a| ==> !OccursAt(a + pat + b, pat, i)
    ensures ReplaceAll(a + pat + b, pat, rep) == a + rep + ReplaceAll(b, pat, rep)
    decreases |a|
  {
    var s := a + pat + b;
    if |a| == 0 {
      assert s == pat + b;
      assert s[..|pat|] == pat && s[|pat|..] == b;
    } else {
      assert !OccursAt(s, pat, 0);
      var t := a[1..] + pat + b;
      assert s[1..] == t;
      forall i | 0 <= i < |a[1..]|
        ensures !OccursAt(t, pat, i)
      {
        assert !OccursAt(s, pat, i + 1);
        if i + |pat| <= |t| {
          assert t[i..i + |pat|] == s[i + 1..i + 1 + |pat|];
        }
      }
      ReplaceAllLeftmost(a[1..], pat, rep, b);
      assert [a[0]] + a[1..] == a;
    }
  }

  /** A text without the pattern is left unchanged. */
  lemma {:induction false} ReplaceAllAbsent(s: string, pat: string, rep: string)
    requires |pat| > 0
    requires !Includes(s, pat)
    ensures ReplaceAll(s, pat, rep) == s
    decreases |s|
  {
    if |s| > 0 {
      assert !OccursAt(s, pat, 0);
      assert [s[0]] + s[1..] == s;
      if Includes(s[1..], pat) {
        var i: nat :| OccursAt(s[1..], pat, i);
        OccursInRight([s[0]], s[1..], pat, i);
        assert false;
      }
      ReplaceAllAbsent(s[1..], pat, rep);
    }
  }

  /** A replacement no longer than the pattern never lengthens the text. */
  lemma {:induction false} ReplaceAllShrinks(s: string, pat: string, rep: string)
    requires |pat| > 0 && |rep| <= |pat|
    ensures |ReplaceAll(s, pat, rep)| <= |s|
    decreases |s|
  {
    if |s| > 0 {
      if OccursAt(s, pat, 0) {
        ReplaceAllShrinks(s[|pat|..], pat, rep);
      } else {
        ReplaceAllShrinks(s[1..], pat, rep);
      }
    }
  }
}
