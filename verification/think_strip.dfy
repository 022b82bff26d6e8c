/** Facts about `strip_thinking_tokens` (utils.py, `Utils.StripThinking`)
    and the substring searches under it, on replies built from `<`-free
    pieces and the two tags. */
module ThinkStrip {
  import opened Text
  import opened Utils

  /** A search for a pattern that starts with `<` passes over `n`
      characters none of which is `<`. */
  lemma {:induction false} SkipChars(t: string, p: string, from: nat, n: nat)
    requires |p| > 0 && p[0] == '<' && from + n <= |t|
    requires forall i :: from <= i < from + n ==> t[i] != '<'
    ensures Find(t, p, from) == Find(t, p, from + n)
    decreases n
  {
    if n > 0 {
      if from + |p| <= |t| {
        assert t[from..from + |p|][0] == t[from];
      }
      SkipChars(t, p, from + 1, n - 1);
    }
  }

  /** The same over a `<`-free stretch given as a string. */
  lemma SkipPlain(t: string, p: string, from: nat, part: string)
    requires |p| > 0 && p[0] == '<' && Lacks(part, '<')
    requires from + |part| <= |t| && t[from..from + |part|] == part
    ensures Find(t, p, from) == Find(t, p, from + |part|)
  {
    forall i | from <= i < from + |part|
      ensures t[i] != '<'
    {
      assert t[i] == part[i - from];
    }
    SkipChars(t, p, from, |part|);
  }

  /** A pattern starting with `<` is not found in a `<`-free rest. */
  lemma FindNoneInPlain(t: string, p: string, from: nat)
    requires |p| > 0 && p[0] == '<' && from <= |t| && Lacks(t[from..], '<')
    ensures Find(t, p, from) == -1
  {
    SkipPlain(t, p, from, t[from..]);
  }

  /** Where the text from `from` on is `part + p + ...` with no `<` in
      `part`, a pattern `p` that starts with `<` is found right after
      `part`. */
  lemma FindAfterPlain(t: string, from: nat, part: string, p: string)
    requires |p| > 0 && p[0] == '<' && Lacks(part, '<')
    requires from + |part| + |p| <= |t|
    requires t[from..from + |part|] == part && t[from + |part|..from + |part| + |p|] == p
    ensures Find(t, p, from) == from + |part|
  {
    SkipPlain(t, p, from, part);
  }

  /** From an opening tag at `s`, a closing tag is sought from the
      character after it. */
  lemma CloseNotAtOpen(t: string, s: nat)
    requires OccursAt(t, OpenTag, s)
    ensures Find(t, CloseTag, s) == Find(t, CloseTag, s + 1)
  {
    if s + |CloseTag| <= |t| {
      assert t[s..s + |CloseTag|][1] == t[s + 1] == t[s..s + |OpenTag|][1];
    }
  }

  /** From an opening tag at `s` followed by a `<`-free thought, the
      closing tag is found right after the thought. */
  lemma FindCloseAfterThought(t: string, s: nat, thought: string)
    requires Lacks(thought, '<')
    requires s + |OpenTag| + |thought| + |CloseTag| <= |t|
    requires t[s..s + |OpenTag|] == OpenTag
    requires t[s + |OpenTag|..s + |OpenTag| + |thought|] == thought
    requires t[s + |OpenTag| + |thought|..s + |OpenTag| + |thought| + |CloseTag|] == CloseTag
    ensures Find(t, CloseTag, s) == s + |OpenTag| + |thought|
  {
    var q := OpenTag[1..] + thought;
    assert t[s + 1..s + 1 + |q|] == q;
    CloseNotAtOpen(t, s);
    LacksJoin(OpenTag[1..], thought);
    SkipPlain(t, CloseTag, s + 1, q);
  }

  /** A text whose rest from `from` on is `x + y` holds `x` there and
      `y` after it. */
  lemma PieceAt(t: string, from: nat, x: string, y: string)
    requires from <= |t| && t[from..] == x + y
    ensures from + |x| <= |t| && t[from..from + |x|] == x && t[from + |x|..] == y
  {
    assert t[from..from + |x|] == (x + y)[..|x|];
    assert t[from + |x|..] == (x + y)[|x|..];
  }

  /** A text `x + y` holds `x` first and `y` after it. */
  lemma Split(t: string, x: string, y: string)
    requires t == x + y
    ensures t[0..|x|] == x && t[..|x|] == x && t[|x|..] == y
  {
  }

  /** Where the text from `from` on is a `<`-free plain part, a block with
      a `<`-free thought, and any rest, the searches find that block. */
  lemma BlockAt(t: string, from: nat, plain: string, b: string, rest: string)
    requires Lacks(plain, '<') && Lacks(b, '<')
    requires from <= |t| && t[from..] == plain + (OpenTag + (b + (CloseTag + rest)))
    ensures Find(t, OpenTag, from) == from + |plain|
    ensures Find(t, CloseTag, from + |plain|) == from + |plain| + |OpenTag| + |b|
    ensures t[from..from + |plain|] == plain
    ensures t[from + |plain| + |OpenTag| + |b| + |CloseTag|..] == rest
  {
    var s := from + |plain|;
    var c := s + |OpenTag| + |b|;
    PieceAt(t, from, plain, OpenTag + (b + (CloseTag + rest)));
    PieceAt(t, s, OpenTag, b + (CloseTag + rest));
    PieceAt(t, s + |OpenTag|, b, CloseTag + rest);
    PieceAt(t, c, CloseTag, rest);
    FindAfterPlain(t, from, plain, OpenTag);
    FindCloseAfterThought(t, s, b);
  }

  /** Two `<`-free strings join into one. */
  lemma LacksJoin(a: string, b: string)
    requires Lacks(a, '<') && Lacks(b, '<')
    ensures Lacks(a + b, '<')
  {
    forall i | 0 <= i < |a + b|
      ensures (a + b)[i] != '<'
    {
      if i >= |a| {
        assert (a + b)[i] == b[i - |a|];
      }
    }
  }

  /** Cutting `y[s..e]` out of `x + y` cuts it out of `y`. */
  lemma CutAfterLead(x: string, y: string, s: nat, e: nat)
    requires s <= e <= |y|
    ensures (x + y)[..|x| + s] + (x + y)[|x| + e..] == x + (y[..s] + y[e..])
  {
    assert (x + y)[..|x| + s] == x + y[..s];
    assert (x + y)[|x| + e..] == y[e..];
  }

  /** Behind a `<`-free lead, the searches of `strip_thinking_tokens`
      find what they find in the rest, shifted by the lead. */
  lemma FindsAfterLead(x: string, y: string)
    requires Lacks(x, '<')
    ensures Find(y, OpenTag, 0) == -1 ==> Find(x + y, OpenTag, 0) == -1
    ensures Find(y, OpenTag, 0) != -1 ==> Find(x + y, OpenTag, 0) == |x| + Find(y, OpenTag, 0)
  {
    var t := x + y;
    Split(t, x, y);
    SkipPlain(t, OpenTag, 0, x);
    FindShift(t, OpenTag, |x|, 0);
  }

  lemma CloseAfterLead(x: string, y: string, s: nat)
    requires s <= |y|
    ensures Find(y, CloseTag, s) == -1 ==> Find(x + y, CloseTag, |x| + s) == -1
    ensures Find(y, CloseTag, s) != -1 ==> Find(x + y, CloseTag, |x| + s) == |x| + Find(y, CloseTag, s)
  {
    var t := x + y;
    Split(t, x, y);
    FindShift(t, CloseTag, |x|, s);
  }

  /** `strip_thinking_tokens` passes over a `<`-free lead. */
  lemma {:induction false} StripLead(x: string, y: string)
    requires Lacks(x, '<')
    ensures StripThinking(x + y) == x + StripThinking(y)
    decreases |y|
  {
    FindsAfterLead(x, y);
    var s := Find(y, OpenTag, 0);
    if s == -1 {
      StripThinkingKeepsTagless(y);
      StripThinkingKeepsTagless(x + y);
    } else {
      CloseAfterLead(x, y, s);
      var c := Find(y, CloseTag, s);
      if c == -1 {
        StripUnclosed(y);
        StripUnclosed(x + y);
      } else {
        var y2 := y[..s] + y[c + |CloseTag|..];
        StripLeadCut(x, y, s, c);
        StripPass(y, s, c);
        StripLead(x, y2);
      }
    }
  }

  /** The pass of `strip_thinking_tokens` behind a lead is the pass on
      the rest. */
  lemma StripLeadCut(x: string, y: string, s: nat, c: nat)
    requires s <= c && c + |CloseTag| <= |y|
    requires Find(x + y, OpenTag, 0) == |x| + s && Find(x + y, CloseTag, |x| + s) == |x| + c
    ensures StripThinking(x + y) == StripThinking(x + (y[..s] + y[c + |CloseTag|..]))
  {
    var t := x + y;
    StripPass(t, |x| + s, |x| + c);
    CutAfterLead(x, y, s, c + |CloseTag|);
  }

  /** One pass of `strip_thinking_tokens` cuts the block the searches
      find. */
  lemma StripPass(t: string, s: nat, c: nat)
    requires Find(t, OpenTag, 0) == s && Find(t, CloseTag, s) == c
    ensures StripThinking(t) == StripThinking(t[..s] + t[c + |CloseTag|..])
  {
    var start := Find(t, OpenTag, 0);
    var close := Find(t, CloseTag, start);
    assert StripThinking(t) == StripThinking(t[..start] + t[close + |CloseTag|..]);
  }

  /** An opening tag without a closing tag after it stops
      `strip_thinking_tokens`. */
  lemma StripUnclosed(t: string)
    requires Find(t, OpenTag, 0) != -1 && Find(t, CloseTag, Find(t, OpenTag, 0)) == -1
    ensures StripThinking(t) == t
  {
  }

  /** A reply that opens with a block with a `<`-free thought loses that
      block to one pass of `strip_thinking_tokens`. */
  lemma StripFirstBlock(b: string, rest: string)
    requires Lacks(b, '<')
    ensures StripThinking(OpenTag + (b + (CloseTag + rest))) == StripThinking(rest)
  {
    var u := OpenTag + (b + (CloseTag + rest));
    assert u[0..] == u == "" + u;
    BlockAt(u, 0, "", b, rest);
    assert u[..0] + u[|OpenTag| + |b| + |CloseTag|..] == rest;
    StripPass(u, 0, |OpenTag| + |b|);
  }

  /** `strip_thinking_tokens` keeps a `<`-free text as it is. */
  lemma StripPlain(t: string)
    requires Lacks(t, '<')
    ensures StripThinking(t) == t
  {
    assert t[0..] == t;
    FindNoneInPlain(t, OpenTag, 0);
    StripThinkingKeepsTagless(t);
  }

  /** An opening tag followed by `<`-free text has no closing tag. */
  lemma UnclosedFinds(rest: string)
    requires Lacks(rest, '<')
    ensures Find(OpenTag + rest, OpenTag, 0) == 0
    ensures Find(OpenTag + rest, CloseTag, 0) == -1
  {
    var u := OpenTag + rest;
    Split(u, OpenTag, rest);
    CloseNotAtOpen(u, 0);
    assert u[1..] == OpenTag[1..] + rest;
    LacksJoin(OpenTag[1..], rest);
    FindNoneInPlain(u, CloseTag, 1);
  }

  /** The searches in a reply that opens with a four-character `<...`
      and then a block: the stray `<` starts no opening tag. */
  lemma JoinedFinds(t: string, a: string, x: string, rest: string)
    requires |a| == 4 && a[0] == '<' && Lacks(a[1..], '<') && Lacks(x, '<')
    requires t == a + (OpenTag + (x + (CloseTag + rest)))
    ensures Find(t, OpenTag, 0) == 4 && Find(t, CloseTag, 4) == 4 + |OpenTag| + |x|
    ensures t[..4] == a && t[0..4] == a && t[4 + |OpenTag| + |x| + |CloseTag|..] == rest
  {
    Split(t, a, OpenTag + (x + (CloseTag + rest)));
    assert t[4..] == "" + (OpenTag + (x + (CloseTag + rest)));
    BlockAt(t, 4, "", x, rest);
    assert t[..|OpenTag|][4] == t[4] == t[4..][0] == '<';
    assert Find(t, OpenTag, 0) == Find(t, OpenTag, 1);
    assert t[1..4] == a[1..];
    SkipPlain(t, OpenTag, 1, a[1..]);
  }

  /** A closing tag holds no opening tag. */
  lemma NoOpenInClose(t: string, p0: nat)
    requires p0 <= |t| && t[p0..] == CloseTag
    ensures Find(t, OpenTag, p0) == -1
  {
    assert t[p0..p0 + |OpenTag|][1] == t[p0 + 1] == t[p0..][1];
    assert Find(t, OpenTag, p0) == Find(t, OpenTag, p0 + 1);
    assert t[p0 + 1..] == CloseTag[1..];
    FindNoneInPlain(t, OpenTag, p0 + 1);
  }

  /** `<`-free text and a closing tag hold no opening tag. */
  lemma JoinedTail(t: string, from: nat, c: string)
    requires Lacks(c, '<') && from <= |t| && t[from..] == c + CloseTag
    ensures Find(t, OpenTag, from) == -1
  {
    PieceAt(t, from, c, CloseTag);
    SkipPlain(t, OpenTag, from, c);
    NoOpenInClose(t, from + |c|);
  }

  /** A stray `<` and three characters, a block, then text that completes
      the stray start into an opening tag: the stream shows the block
      that follows, which `strip_thinking_tokens` cuts too. */
  predicate JoinedShape(t: string, a: string, x: string, c: string, y: string) {
    && |a| == 4 && a[0] == '<' && Lacks(a[1..], '<')
    && Lacks(x, '<') && Lacks(c, '<') && Lacks(y, '<') && a + c == OpenTag
    && t == a + (OpenTag + (x + (CloseTag + (c + y + CloseTag))))
  }

  lemma Regroup(a: string, c: string, y: string, z: string)
    ensures a + (c + y + z) == a + c + y + z
  {
  }

  lemma Regroup2(o: string, y: string, z: string)
    ensures o + y + z == o + (y + (z + ""))
  {
  }

  lemma JoinedStripped(t: string, a: string, x: string, c: string, y: string)
    requires JoinedShape(t, a, x, c, y)
    ensures StripThinking(t) == ""
  {
    JoinedFinds(t, a, x, c + y + CloseTag);
    StripPass(t, 4, 4 + |OpenTag| + |x|);
    Regroup(a, c, y, CloseTag);
    Regroup2(OpenTag, y, CloseTag);
    StripFirstBlock(y, "");
    StripPlain("");
  }
}
