/** The Python string operations the table code relies on: str.strip(), str.endswith() and str.replace(pat, ''). */
module Strings {
  import opened Seqs

  /** Python's str.isspace() on one character: exactly the characters str.strip() with no argument removes. */
  predicate IsSpace(c: char) {
    || c == ' '
    || ('\t' <= c <= '\r')
    || ('\U{1C}' <= c <= '\U{1F}')
    || c == '\U{85}' || c == '\U{A0}' || c == '\U{1680}'
    || ('\U{2000}' <= c <= '\U{200A}')
    || c == '\U{2028}' || c == '\U{2029}' || c == '\U{202F}' || c == '\U{205F}' || c == '\U{3000}'
  }

  /** Neither end of `s` is whitespace. */
  predicate IsTrimmed(s: string) {
    s == [] || (!IsSpace(s[0]) && !IsSpace(s[|s| - 1]))
  }

  /** Removes the maximal run of leading whitespace. */
  function TrimStart(s: string): (r: string)
    ensures |r| <= |s| && r == s[|s| - |r|..]
    ensures forall i :: 0 <= i < |s| - |r| ==> IsSpace(s[i])
    ensures r == [] || !IsSpace(r[0])
  {
    if s != [] && IsSpace(s[0]) then TrimStart(s[1..]) else s
  }

  /** Removes the maximal run of trailing whitespace. */
  function TrimEnd(s: string): (r: string)
    ensures |r| <= |s| && r == s[..|r|]
    ensures forall i :: |r| <= i < |s| ==> IsSpace(s[i])
    ensures r == [] || !IsSpace(r[|r| - 1])
  {
    if s != [] && IsSpace(s[|s| - 1]) then TrimEnd(s[..|s| - 1]) else s
  }

  /** Python's s.strip(): the contiguous middle of `s` left once whitespace is removed from both ends. */
  function Strip(s: string): (r: string)
    ensures IsTrimmed(r)
    ensures var i := |s| - |TrimStart(s)|;
            && i + |r| <= |s| && r == s[i..i + |r|]
            && (forall k :: 0 <= k < i ==> IsSpace(s[k]))
            && (forall k :: i + |r| <= k < |s| ==> IsSpace(s[k]))
  {
    var t := TrimStart(s);
    var r := TrimEnd(t);
    StripParts(s, t, r);
    r
  }

  lemma {:induction false} StripParts(s: string, t: string, r: string)
    requires t == TrimStart(s) && r == TrimEnd(t)
    ensures IsTrimmed(r)
    ensures var i := |s| - |t|;
            && i + |r| <= |s| && r == s[i..i + |r|]
            && (forall k :: 0 <= k < i ==> IsSpace(s[k]))
            && (forall k :: i + |r| <= k < |s| ==> IsSpace(s[k]))
  {
    assert r != [] ==> r[0] == t[0];
    PrefixOfSuffix(s, t, r);
    forall k | |s| - |t| + |r| <= k < |s| ensures IsSpace(s[k]) {
      SuffixTailIsSpace(s, t, r, k);
    }
  }

  /** A prefix of a suffix of `s` is a slice of `s`. */
  lemma PrefixOfSuffix(s: string, t: string, r: string)
    requires |t| <= |s| && t == s[|s| - |t|..] && |r| <= |t| && r == t[..|r|]
    ensures |s| - |t| + |r| <= |s| && r == s[|s| - |t|..|s| - |t| + |r|]
  {
    var i := |s| - |t|;
    assert s[i..][..|r|] == s[i..i + |r|];
  }

  /** What follows the prefix `r` inside the suffix `t` of `s` is whitespace in `s` too. */
  lemma SuffixTailIsSpace(s: string, t: string, r: string, k: int)
    requires |t| <= |s| && t == s[|s| - |t|..] && |r| <= |t|
    requires forall j :: |r| <= j < |t| ==> IsSpace(t[j])
    requires |s| - |t| + |r| <= k < |s|
    ensures IsSpace(s[k])
  {
    var i := |s| - |t|;
    assert t[k - i] == s[k];
  }

  /** A string whose ends are not whitespace is its own strip. */
  lemma StripTrimmed(s: string)
    requires IsTrimmed(s)
    ensures Strip(s) == s
  {
  }

  /** Appending a character to a string with a non-blank part appends it to the trimmed start. */
  lemma {:induction false} TrimStartAppend(s: string, c: char)
    requires TrimStart(s) != []
    ensures TrimStart(s + [c]) == TrimStart(s) + [c]
    decreases |s|
  {
    assert (s + [c])[0] == s[0];
    if IsSpace(s[0]) {
      assert (s + [c])[1..] == s[1..] + [c];
      TrimStartAppend(s[1..], c);
    }
  }

  /** One more whitespace character at the end does not change the strip. */
  lemma StripTrailingSpace(s: string, c: char)
    requires IsSpace(c)
    ensures Strip(s + [c]) == Strip(s)
  {
    var u := TrimStart(s + [c]);
    if TrimStart(s) == [] {
      assert forall k :: 0 <= k < |s| ==> IsSpace(s[k]);
      assert forall k :: 0 <= k < |s + [c]| ==> IsSpace((s + [c])[k]);
      assert TrimEnd(u) == [];
    } else {
      TrimStartAppend(s, c);
      assert u[..|u| - 1] == TrimStart(s);
    }
  }

  /** Python's s.endswith(suffix). */
  predicate EndsWith(s: string, suffix: string) {
    |suffix| <= |s| && s[|s| - |suffix|..] == suffix
  }

  /** Python's s.replace(pat, ''): occurrences are found left to right and never overlap. */
  function RemoveAll(s: string, pat: string): (r: string)
    requires pat != []
    ensures |r| <= |s|
    decreases |s|
  {
    if |pat| <= |s| && s[..|pat|] == pat then RemoveAll(s[|pat|..], pat)
    else if s == [] then []
    else [s[0]] + RemoveAll(s[1..], pat)
  }

  /** A string that does not start with the pattern's first character keeps its first character. */
  lemma RemoveAllKeepsHead(s: string, pat: string)
    requires pat != [] && s != [] && s[0] != pat[0]
    ensures RemoveAll(s, pat) == [s[0]] + RemoveAll(s[1..], pat)
  {
    if |pat| <= |s| {
      assert s[..|pat|][0] != pat[0];
    }
  }

  /** Removal only deletes characters; everything else stays, in order. */
  lemma {:induction false} RemoveAllKeepsOrder(s: string, pat: string)
    requires pat != []
    ensures IsSubsequence(RemoveAll(s, pat), s)
    decreases |s|
  {
    var r := RemoveAll(s, pat);
    if |pat| <= |s| && s[..|pat|] == pat {
      RemoveAllKeepsOrder(s[|pat|..], pat);
      SubsequenceOfSuffix(r, s, |pat|);
    } else if s != [] {
      RemoveAllKeepsOrder(s[1..], pat);
      assert r[0] == s[0] && r[1..] == RemoveAll(s[1..], pat);
    }
  }

  /** A prefix that never contains the pattern's first character passes through untouched. */
  lemma {:induction false} RemoveAllSkipsPrefix(a: string, b: string, pat: string)
    requires pat != [] && pat[0] !in a
    ensures RemoveAll(a + b, pat) == a + RemoveAll(b, pat)
    decreases |a|
  {
    if a != [] {
      RemoveAllKeepsHead(a + b, pat);
      assert (a + b)[1..] == a[1..] + b;
      RemoveAllSkipsPrefix(a[1..], b, pat);
    } else {
      assert a + b == b;
    }
  }

  /**
   * `r` is what is left of `s` once some whole occurrences of `pat` are deleted: scanning `s`
   * from the left, each step either drops a complete copy of `pat` or keeps one character.
   */
  ghost predicate DeletesOnly(r: string, s: string, pat: string)
    requires pat != []
    decreases |s|
  {
    if s == [] then r == []
    else
      || (|pat| <= |s| && s[..|pat|] == pat && DeletesOnly(r, s[|pat|..], pat))
      || (r != [] && r[0] == s[0] && DeletesOnly(r[1..], s[1..], pat))
  }

  /** `s.replace(pat, '')` deletes whole occurrences of `pat` and keeps every other character. */
  lemma {:induction false} RemoveAllDeletesOnly(s: string, pat: string)
    requires pat != []
    ensures DeletesOnly(RemoveAll(s, pat), s, pat)
    decreases |s|
  {
    var r := RemoveAll(s, pat);
    if |pat| <= |s| && s[..|pat|] == pat {
      RemoveAllDeletesOnly(s[|pat|..], pat);
    } else if s != [] {
      RemoveAllDeletesOnly(s[1..], pat);
      assert r[0] == s[0] && r[1..] == RemoveAll(s[1..], pat);
    }
  }
}
