/**
 * Cleaning the extractor's reply before it is parsed as JSON:
 * `res.text.strip().replace('```json', '').replace('```', '')`.
 */
module Fences {
  import opened Seqs
  import opened Strings

  /** The Markdown code-fence delimiter. */
  const Fence: string := "```"

  /** The opening delimiter of a JSON code block. */
  const JsonFence: string := "```json"

  /** A code-fence delimiter starts at position `i` of `s`. */
  predicate FenceAt(s: string, i: int) {
    0 <= i && i + 3 <= |s| && s[i] == '`' && s[i + 1] == '`' && s[i + 2] == '`'
  }

  /** The cleaned reply text: no code-fence delimiter is left in it anywhere. */
  function StripFences(reply: string): (r: string)
    ensures forall i :: !FenceAt(r, i)
  {
    var unopened := RemoveAll(Strip(reply), JsonFence);
    NoFenceAfterRemoval(unopened);
    RemoveAll(unopened, Fence)
  }

  /** The reply with its backticks left out. */
  function WithoutBackticks(s: string): string {
    if s == [] then [] else (if s[0] == '`' then [] else [s[0]]) + WithoutBackticks(s[1..])
  }

  /**
   * A string that starts with one backtick but not with a whole delimiter: what removal keeps of
   * its tail does not start with two backticks.
   */
  lemma LoneBacktickNotExtended(s: string)
    requires s != [] && s[0] == '`' && !(|s| >= 3 && s[..3] == Fence)
    ensures var rt := RemoveAll(s[1..], Fence); |rt| < 2 || rt[0] != '`' || rt[1] != '`'
  {
    var t := s[1..];
    var rt := RemoveAll(t, Fence);
    if t == [] {
      assert rt == [];
    } else if t[0] != '`' {
      RemoveAllKeepsHead(t, Fence);
    } else {
      if |s| >= 3 {
        assert s[..3] == [s[0], s[1], s[2]];
        assert s[2] != '`';
      }
      assert |t| < 2 || t[1] != '`';
      if |t| >= 3 {
        assert t[..3][1] == t[1];
      }
      assert !(|t| >= 3 && t[..3] == Fence);
      assert rt == [t[0]] + RemoveAll(t[1..], Fence);
      var u := t[1..];
      if u != [] {
        RemoveAllKeepsHead(u, Fence);
      }
    }
  }

  /** After the fence delimiters are removed left to right, no delimiter is left anywhere. */
  lemma {:induction false} NoFenceAfterRemoval(s: string)
    ensures forall i :: !FenceAt(RemoveAll(s, Fence), i)
    decreases |s|
  {
    var r := RemoveAll(s, Fence);
    if |s| >= 3 && s[..3] == Fence {
      NoFenceAfterRemoval(s[3..]);
    } else if s != [] {
      var t := s[1..];
      var rt := RemoveAll(t, Fence);
      NoFenceAfterRemoval(t);
      assert r == [s[0]] + rt;
      forall i | 1 <= i ensures !FenceAt(r, i) {
        assert FenceAt(r, i) ==> FenceAt(rt, i - 1);
      }
      if s[0] == '`' {
        LoneBacktickNotExtended(s);
      }
      assert !FenceAt(r, 0);
    }
  }

  /** Cleaning only deletes characters: what is left appears in the reply, in the same order. */
  lemma CleaningKeepsOrder(reply: string)
    ensures IsSubsequence(StripFences(reply), reply)
  {
    var s := Strip(reply);
    var a := RemoveAll(s, JsonFence);
    var r := RemoveAll(a, Fence);
    assert StripFences(reply) == r;
    RemoveAllKeepsOrder(a, Fence);
    RemoveAllKeepsOrder(s, JsonFence);
    SubsequenceTransitive(r, a, s);
    StripKeepsOrder(reply);
    SubsequenceTransitive(r, s, reply);
  }

  /** Stripping only deletes characters at either end. */
  lemma StripKeepsOrder(reply: string)
    ensures IsSubsequence(Strip(reply), reply)
  {
    var s := Strip(reply);
    var i := |reply| - |TrimStart(reply)|;
    assert s == reply[i..i + |s|];
    SubsequenceOfSlice(s, reply, i, i + |s|);
  }

  /** A reply without backticks is only stripped. */
  lemma PlainReplyIsOnlyStripped(reply: string)
    requires '`' !in reply
    ensures StripFences(reply) == Strip(reply)
  {
    var s := Strip(reply);
    StripKeepsNoBacktick(reply);
    NoBacktickUntouched(s);
    CleaningSteps(reply, s, s);
  }

  /** Stripping a text without backticks leaves none. */
  lemma StripKeepsNoBacktick(reply: string)
    requires '`' !in reply
    ensures '`' !in Strip(reply)
  {
    var s := Strip(reply);
    var i := |reply| - |TrimStart(reply)|;
    forall k | 0 <= k < |s| ensures s[k] != '`' {
      assert s[k] == reply[i + k];
    }
  }

  /** Neither delimiter can be found in a text without backticks. */
  lemma NoBacktickUntouched(s: string)
    requires '`' !in s
    ensures RemoveAll(s, JsonFence) == s && RemoveAll(s, Fence) == s
  {
    RemoveAllSkipsPrefix(s, [], JsonFence);
    RemoveAllSkipsPrefix(s, [], Fence);
    assert s + [] == s;
  }

  /** Text shorter than the pattern cannot contain it. */
  lemma {:induction false} RemoveAllShort(s: string, pat: string)
    requires pat != [] && |s| < |pat|
    ensures RemoveAll(s, pat) == s
    decreases |s|
  {
    if s != [] {
      RemoveAllShort(s[1..], pat);
    }
  }

  /** A JSON code block around a body without backticks yields exactly the body. */
  lemma FencedReplyYieldsBody(body: string)
    requires '`' !in body
    ensures StripFences(JsonFence + body + Fence) == body
  {
    FencedReplyIsTrimmed(body);
    StripJsonOpening(body);
    StripClosingFence(body);
  }

  lemma FencedReplyIsTrimmed(body: string)
    ensures Strip(JsonFence + body + Fence) == JsonFence + body + Fence
  {
    var reply := JsonFence + body + Fence;
    assert reply[0] == '`' && reply[|reply| - 1] == '`';
    StripTrimmed(reply);
  }

  lemma StripClosingFence(body: string)
    requires '`' !in body
    ensures RemoveAll(body + Fence, Fence) == body
  {
    RemoveAllSkipsPrefix(body, Fence, Fence);
    assert Fence[..3] == Fence && Fence[3..] == [];
    assert RemoveAll(Fence, Fence) == [];
    assert body + [] == body;
  }

  lemma StripJsonOpening(body: string)
    requires '`' !in body
    ensures RemoveAll(JsonFence + body + Fence, JsonFence) == body + Fence
  {
    var reply := JsonFence + body + Fence;
    assert reply[..|JsonFence|] == JsonFence;
    assert reply[|JsonFence|..] == body + Fence;
    RemoveAllSkipsPrefix(body, Fence, JsonFence);
    RemoveAllShort(Fence, JsonFence);
  }

  /** Removing the delimiters loses backticks only: every other character stays, in order. */
  lemma {:induction false} FenceRemovalKeepsOtherCharacters(s: string)
    ensures WithoutBackticks(RemoveAll(s, Fence)) == WithoutBackticks(s)
    decreases |s|
  {
    if |s| >= 3 && s[..3] == Fence {
      FenceRemovalKeepsOtherCharacters(s[3..]);
      assert s[0] == '`' && s[1] == '`' && s[2] == '`' by { assert s[..3][0] == s[0] && s[..3][1] == s[1] && s[..3][2] == s[2]; }
      assert s[1..][1..] == s[2..] && s[2..][1..] == s[3..];
      assert WithoutBackticks(s) == WithoutBackticks(s[1..]) == WithoutBackticks(s[2..]) == WithoutBackticks(s[3..]);
    } else if s != [] {
      FenceRemovalKeepsOtherCharacters(s[1..]);
      var r := RemoveAll(s, Fence);
      assert r == [s[0]] + RemoveAll(s[1..], Fence);
      assert r[0] == s[0] && r[1..] == RemoveAll(s[1..], Fence);
    }
  }

  /**
   * Cleaning deletes only whole "```json" occurrences from the stripped reply and then only whole
   * "```" occurrences; the second step loses no character but backticks.
   */
  lemma CleaningDeletesOnlyFences(reply: string)
    ensures var unopened := RemoveAll(Strip(reply), JsonFence);
            && DeletesOnly(unopened, Strip(reply), JsonFence)
            && DeletesOnly(StripFences(reply), unopened, Fence)
            && WithoutBackticks(StripFences(reply)) == WithoutBackticks(unopened)
  {
    var unopened := RemoveAll(Strip(reply), JsonFence);
    RemoveAllDeletesOnly(Strip(reply), JsonFence);
    RemoveAllDeletesOnly(unopened, Fence);
    FenceRemovalKeepsOtherCharacters(unopened);
  }

  /** Text before the code block survives: "pre```json body```" cleans to "pre body" when neither has a backtick. */
  lemma FencedReplyWithPreamble(pre: string, body: string)
    requires '`' !in pre && '`' !in body && (pre == [] || !IsSpace(pre[0]))
    ensures StripFences(pre + JsonFence + body + Fence) == pre + body
  {
    PreambleReplyIsTrimmed(pre, body);
    PreambleJsonOpening(pre, body);
    PreambleClosingFence(pre, body);
    CleaningTrimmed(pre + JsonFence + body + Fence, pre + body + Fence, pre + body);
  }

  /** `StripFences` is its three steps, stated for given intermediate results. */
  lemma CleaningSteps(reply: string, unopened: string, r: string)
    requires RemoveAll(Strip(reply), JsonFence) == unopened && RemoveAll(unopened, Fence) == r
    ensures StripFences(reply) == r
  {
  }

  /** A reply with no whitespace at either end is cleaned by the two removals alone. */
  lemma CleaningTrimmed(reply: string, unopened: string, r: string)
    requires IsTrimmed(reply) && RemoveAll(reply, JsonFence) == unopened && RemoveAll(unopened, Fence) == r
    ensures StripFences(reply) == r
  {
    StripTrimmed(reply);
  }

  lemma PreambleClosingFence(pre: string, body: string)
    requires '`' !in pre && '`' !in body
    ensures RemoveAll(pre + body + Fence, Fence) == pre + body
  {
    var t := pre + body;
    forall k | 0 <= k < |t| ensures t[k] != '`' {
      if k < |pre| { assert t[k] == pre[k]; } else { assert t[k] == body[k - |pre|]; }
    }
    StripClosingFence(t);
  }

  lemma PreambleReplyIsTrimmed(pre: string, body: string)
    requires pre == [] || !IsSpace(pre[0])
    ensures IsTrimmed(pre + JsonFence + body + Fence)
  {
    var reply := pre + JsonFence + body + Fence;
    assert reply[|reply| - 1] == '`';
    if pre == [] {
      assert reply[0] == '`';
    } else {
      assert reply[0] == pre[0];
    }
  }

  lemma PreambleJsonOpening(pre: string, body: string)
    requires '`' !in pre && '`' !in body
    ensures RemoveAll(pre + JsonFence + body + Fence, JsonFence) == pre + body + Fence
  {
    assert pre + JsonFence + body + Fence == pre + (JsonFence + body + Fence);
    RemoveAllSkipsPrefix(pre, JsonFence + body + Fence, JsonFence);
    StripJsonOpening(body);
    assert pre + (body + Fence) == pre + body + Fence;
  }

  /** Every JSON code block whose body has no backtick cleans to its body. */
  lemma CodeBlocksCleanToBody()
    ensures forall body :: '`' !in body ==> StripFences(JsonFence + body + Fence) == body
  {
    forall body | '`' !in body ensures StripFences(JsonFence + body + Fence) == body {
      FencedReplyYieldsBody(body);
    }
  }
}
