/**
 * The few string operations the bot's message handling relies on:
 * `startsWith`, searching, ASCII lower-casing and the two `split` calls
 * (on a single character, and on runs of spaces).
 */
module Strings {
  import opened Wrappers

  /** `s.startsWith(p)`. */
  predicate StartsWith(s: string, p: string): (b: bool)
    ensures b ==> |p| <= |s| && s == p + s[|p|..]
    ensures forall rest :: s == p + rest ==> b
  {
    |p| <= |s| && s[..|p|] == p
  }

  /** Index of the first `c` in `s`, or `|s|` when `s` has none. */
  function IndexOf(s: string, c: char): (i: nat)
    ensures i <= |s|
    ensures c !in s[..i]
    ensures i < |s| ==> s[i] == c
  {
    if s == [] then 0
    else if s[0] == c then 0
    else
      var j := IndexOf(s[1..], c);
      assert s[..j + 1] == [s[0]] + s[1..][..j];
      j + 1
  }

  /** Searching past a stretch free of `c` adds that stretch's length. */
  lemma {:induction false} IndexOfAppend(a: string, b: string, c: char)
    requires c !in a
    ensures IndexOf(a + b, c) == |a| + IndexOf(b, c)
  {
    if a == [] {
      assert a + b == b;
    } else {
      assert (a + b)[0] == a[0];
      assert (a + b)[1..] == a[1..] + b;
      IndexOfAppend(a[1..], b, c);
    }
  }

  /** `sep` occurs in `s` starting at index `k`. */
  predicate OccursAt(s: string, sep: string, k: nat)
  {
    k + |sep| <= |s| && s[k..k + |sep|] == sep
  }

  /** The index of the first occurrence of `sep` in `s`, if any. */
  function Find(s: string, sep: string): (r: Option<nat>)
    requires sep != []
    ensures r.Some? ==> OccursAt(s, sep, r.value)
    ensures r.Some? ==> forall k :: 0 <= k < r.value ==> !OccursAt(s, sep, k)
    ensures r.None? ==> forall k :: 0 <= k ==> !OccursAt(s, sep, k)
    decreases |s|
  {
    if |s| < |sep| then None
    else if s[..|sep|] == sep then Some(0)
    else
      var r := Find(s[1..], sep);
      forall k | 1 <= k
        ensures OccursAt(s, sep, k) <==> OccursAt(s[1..], sep, k - 1)
      {
        if k + |sep| <= |s| {
          assert s[1..][k - 1..k - 1 + |sep|] == s[k..k + |sep|];
        }
      }
      if r.None? then None else Some(r.value + 1)
  }

  /** The text before and after the first occurrence of `sep`, if `sep` occurs. */
  function SplitAt(s: string, sep: string): Option<(string, string)>
    requires sep != []
  {
    match Find(s, sep)
    case None => None
    case Some(i) => Some((s[..i], s[i + |sep|..]))
  }

  /** When the first character of `sep` does not occur in `a`, splitting `a + sep + b` at `sep` gives back `a` and `b`. */
  lemma {:induction false} SplitAtJoined(a: string, sep: string, b: string)
    requires sep != [] && sep[0] !in a
    ensures SplitAt(a + sep + b, sep) == Some((a, b))
  {
    var s := a + sep + b;
    assert OccursAt(s, sep, |a|) by {
      assert s[|a|..|a| + |sep|] == sep;
    }
    forall k | 0 <= k < |a|
      ensures !OccursAt(s, sep, k)
    {
      assert s[k] == a[k];
    }
    assert Find(s, sep) == Some(|a|);
    assert s[..|a|] == a;
    assert s[|a| + |sep|..] == b;
  }

  /** The KELVIN SIGN, the one character outside ASCII that lower-cases to an ASCII letter (`k`). */
  const KelvinSign: char := '\U{212A}'

  function LowerChar(c: char): char
  {
    if 'A' <= c <= 'Z' then (c as int + 32) as char
    else if c == KelvinSign then 'k'
    else c
  }

  function UpperChar(c: char): char
  {
    if 'a' <= c <= 'z' then (c as int - 32) as char else c
  }

  /** `s.toLocaleLowerCase()` for the characters that lower-case to one ASCII letter: the ASCII capitals and the KELVIN SIGN. */
  function Lower(s: string): (r: string)
    ensures |r| == |s|
    ensures forall i :: 0 <= i < |s| ==> r[i] == LowerChar(s[i])
  {
    if s == [] then [] else [LowerChar(s[0])] + Lower(s[1..])
  }

  predicate IsLowerWord(w: string)
  {
    forall i :: 0 <= i < |w| ==> 'a' <= w[i] <= 'z'
  }

  /** `t[i]` is the letter `l` in either case; a `k` may also be written as the KELVIN SIGN. */
  predicate SameLetterAt(t: string, i: nat, l: char)
    requires i < |t|
  {
    t[i] == l || t[i] == UpperChar(l) || (l == 'k' && t[i] == KelvinSign)
  }

  /** `t` spells the lower-case word `w` with each letter in either case. */
  predicate SpellsIgnoringCase(t: string, w: string)
  {
    |t| == |w| && forall i :: 0 <= i < |w| ==> SameLetterAt(t, i, w[i])
  }

  /** Lower-casing `t` gives the lower-case word `w` exactly when `t` spells `w` in any mix of cases. */
  lemma LowerIsWordIff(t: string, w: string)
    requires IsLowerWord(w)
    ensures Lower(t) == w <==> SpellsIgnoringCase(t, w)
  {
    if Lower(t) == w {
      forall i | 0 <= i < |w|
        ensures SameLetterAt(t, i, w[i])
      {
        assert LowerChar(t[i]) == w[i];
      }
    }
    if SpellsIgnoringCase(t, w) {
      assert forall i :: 0 <= i < |w| ==> Lower(t)[i] == w[i];
    }
  }

  /** `s` with its leading spaces removed. */
  function SkipSpaces(s: string): (r: string)
    ensures |r| <= |s| && r == s[|s| - |r|..]
    ensures r == [] || r[0] != ' '
    ensures s != [] && s[0] == ' ' ==> |r| < |s|
  {
    if s != [] && s[0] == ' ' then SkipSpaces(s[1..]) else s
  }

  /** The part of `s` before its first space. */
  function FirstWord(s: string): string
  {
    s[..IndexOf(s, ' ')]
  }

  /** A space-free word followed by a space and anything is that word's first word, and so is the word itself. */
  lemma FirstWordBeforeSpace(word: string, rest: string)
    requires ' ' !in word
    ensures FirstWord(word + " " + rest) == word == FirstWord(word)
  {
    assert word + " " + rest == word + (" " + rest);
    IndexOfAppend(word, " " + rest, ' ');
    IndexOfAppend(word, [], ' ');
    assert word + [] == word;
    assert (word + (" " + rest))[..|word|] == word;
  }

  /** `s.split(/ +/)`: the pieces of `s` between maximal runs of spaces. */
  function SplitSpaces(s: string): (r: seq<string>)
    ensures |r| >= 1
    ensures r[0] == FirstWord(s)
    ensures forall k :: 0 <= k < |r| ==> ' ' !in r[k]
    decreases |s|
  {
    var i := IndexOf(s, ' ');
    if i == |s| then [s] else [s[..i]] + SplitSpaces(SkipSpaces(s[i..]))
  }

  /** `s.split(c)`: the pieces of `s` between occurrences of `c`. */
  function SplitOn(s: string, c: char): (r: seq<string>)
    ensures |r| >= 1
    ensures r[0] == s[..IndexOf(s, c)]
    ensures forall k :: 0 <= k < |r| ==> c !in r[k]
    decreases |s|
  {
    var i := IndexOf(s, c);
    if i == |s| then [s] else [s[..i]] + SplitOn(s[i + 1..], c)
  }

  /** `parts.join(sep)`. */
  function Join(parts: seq<string>, sep: string): string
  {
    if parts == [] then []
    else if |parts| == 1 then parts[0]
    else parts[0] + sep + Join(parts[1..], sep)
  }

  /** Splitting on a character loses nothing: joining the pieces with it restores the text. */
  lemma {:induction false} JoinSplitOn(s: string, c: char)
    ensures Join(SplitOn(s, c), [c]) == s
    decreases |s|
  {
    var i := IndexOf(s, c);
    if i < |s| {
      JoinSplitOn(s[i + 1..], c);
      assert s == s[..i] + [c] + s[i + 1..];
    }
  }

  /** Two spaces in a row start at index `k` of `s`. */
  predicate DoubleSpaceAt(s: string, k: nat)
    requires k + 1 < |s|
  {
    s[k] == ' ' && s[k + 1] == ' '
  }

  predicate NoDoubleSpace(s: string)
  {
    forall k :: 0 <= k < |s| - 1 ==> !DoubleSpaceAt(s, k)
  }

  /** A single space at the front is all `SkipSpaces` removes when no second space follows it. */
  lemma SkipSingleSpace(s: string)
    requires s != [] && s[0] == ' '
    requires |s| == 1 || s[1] != ' '
    ensures SkipSpaces(s) == s[1..]
  {
  }

  /** A suffix of a text without double spaces has none either. */
  lemma NoDoubleSpaceSuffix(s: string, j: nat)
    requires NoDoubleSpace(s) && j <= |s|
    ensures NoDoubleSpace(s[j..])
  {
    var t := s[j..];
    forall k | 0 <= k < |t| - 1
      ensures !DoubleSpaceAt(t, k)
    {
      assert !DoubleSpaceAt(s, j + k);
    }
  }

  lemma JoinCons(a: string, rest: seq<string>, sep: string)
    requires rest != []
    ensures Join([a] + rest, sep) == a + sep + Join(rest, sep)
  {
    assert ([a] + rest)[1..] == rest;
  }

  /** Where the first space is not followed by another, the split continues right after it. */
  lemma SplitSpacesAtSingleSpace(s: string)
    requires IndexOf(s, ' ') + 1 < |s| ==> s[IndexOf(s, ' ') + 1] != ' '
    requires IndexOf(s, ' ') < |s|
    ensures SplitSpaces(s) == [FirstWord(s)] + SplitSpaces(s[IndexOf(s, ' ') + 1..])
  {
    var i := IndexOf(s, ' ');
    SkipSingleSpace(s[i..]);
    assert s[i..][1..] == s[i + 1..];
  }

  /** In a text without double spaces, the first space is followed by a non-space or ends the text. */
  lemma FirstSpaceIsSingle(s: string)
    requires NoDoubleSpace(s)
    ensures IndexOf(s, ' ') + 1 < |s| ==> s[IndexOf(s, ' ') + 1] != ' '
  {
    var i := IndexOf(s, ' ');
    if i + 1 < |s| {
      assert !DoubleSpaceAt(s, i);
    }
  }

  lemma AroundIndex(s: string, i: nat)
    requires i < |s|
    ensures s[..i] + [s[i]] + s[i + 1..] == s
  {
  }

  /** A text is its first word, the space after it, and the rest. */
  lemma AroundFirstSpace(s: string)
    requires IndexOf(s, ' ') < |s|
    ensures FirstWord(s) + " " + s[IndexOf(s, ' ') + 1..] == s
  {
    var i := IndexOf(s, ' ');
    AroundIndex(s, i);
    assert [s[i]] == " ";
  }

  /** Splitting on runs of spaces loses nothing when every run is a single space. */
  lemma {:induction false} JoinSplitSpaces(s: string)
    requires NoDoubleSpace(s)
    ensures Join(SplitSpaces(s), " ") == s
    decreases |s|
  {
    var i := IndexOf(s, ' ');
    if i < |s| {
      FirstSpaceIsSingle(s);
      SplitSpacesAtSingleSpace(s);
      var tail := s[i + 1..];
      NoDoubleSpaceSuffix(s, i + 1);
      JoinSplitSpaces(tail);
      JoinCons(FirstWord(s), SplitSpaces(tail), " ");
      AroundFirstSpace(s);
    }
  }
}
