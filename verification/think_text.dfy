/** Two replies on which the streaming view of summarizer.py
    (`Summarizer.Visible`) and `strip_thinking_tokens` (utils.py,
    `Utils.StripThinking`) differ. */
module ThinkText {
  import opened Text
  import opened Utils
  import opened Summarizer
  import opened ThinkStrip

  /** Otherwise they can differ: an opening tag without a closing tag hides
      the rest of the stream, but `strip_thinking_tokens` keeps it. */
  lemma UnclosedTagDiffers(plain: string, rest: string)
    requires Lacks(plain, '<') && Lacks(rest, '<')
    ensures Visible(plain + (OpenTag + rest)) == plain
    ensures StripThinking(plain + (OpenTag + rest)) == plain + (OpenTag + rest)
  {
    var u := OpenTag + rest;
    var t := plain + u;
    UnclosedFinds(rest);
    FindsAfterLead(plain, u);
    CloseAfterLead(plain, u, 0);
    StripUnclosed(u);
    StripLead(plain, u);
    Split(t, plain, u);
    assert VisibleFrom(t, 0) == t[0..|plain|];
  }

  lemma JoinedVisible(t: string, a: string, x: string, c: string, y: string)
    requires JoinedShape(t, a, x, c, y)
    ensures Visible(t) == OpenTag + y + CloseTag
  {
    var e := 4 + |OpenTag| + |x| + |CloseTag|;
    JoinedFinds(t, a, x, c + y + CloseTag);
    LacksJoin(c, y);
    JoinedTail(t, e, c + y);
    VisiblePastBlock(t, 0);
    VisibleWithoutOpen(t, e);
    Regroup(a, c, y, CloseTag);
  }

  /** Without an opening tag ahead the stream shows the rest. */
  lemma VisibleWithoutOpen(t: string, from: nat)
    requires from <= |t| && Find(t, OpenTag, from) == -1
    ensures VisibleFrom(t, from) == t[from..]
  {
  }

  /** And a tag that forms where a block is cut out is stripped by
      `strip_thinking_tokens`, while the stream shows it: cutting
      `<think>x</think>` out of `<thi<think>x</think>nk>` joins a new
      opening tag. */
  lemma JoinedTagDiffers(t: string, a: string, x: string, c: string, y: string)
    requires a == "<thi" && x == "x" && c == "nk>" && Lacks(y, '<')
    requires t == a + (OpenTag + (x + (CloseTag + (c + y + CloseTag))))
    ensures Visible(t) == OpenTag + y + CloseTag
    ensures StripThinking(t) == ""
  {
    assert JoinedShape(t, a, x, c, y);
    JoinedVisible(t, a, x, c, y);
    JoinedStripped(t, a, x, c, y);
  }
}
