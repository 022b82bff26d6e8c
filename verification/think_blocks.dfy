/** Where the streaming view of a reply (summarizer.py's
    `_flush_visible`, `Summarizer.Visible` here) and `strip_thinking_tokens`
    (utils.py, `Utils.StripThinking`) agree. */
module ThinkBlocks {
  import opened Text
  import opened Utils
  import opened Summarizer
  import opened ThinkStrip

  /** A reply woven from a plain part and, for each think block, its
      thought and the plain part that follows the block. */
  function Woven(plain: string, blocks: seq<(string, string)>): string
    decreases |blocks|
  {
    if |blocks| == 0 then plain
    else plain + OpenTag + blocks[0].0 + CloseTag + Woven(blocks[0].1, blocks[1..])
  }

  /** The plain parts of a woven reply, joined. */
  function PlainOf(plain: string, blocks: seq<(string, string)>): string
    decreases |blocks|
  {
    if |blocks| == 0 then plain else plain + PlainOf(blocks[0].1, blocks[1..])
  }

  /** No part holds a `<`, so every tag of the woven reply is one of its
      block delimiters: each opening tag is closed and no tag can form
      where a block is cut out. */
  predicate TagsOnly(plain: string, blocks: seq<(string, string)>) {
    Lacks(plain, '<') && forall i :: 0 <= i < |blocks| ==> Lacks(blocks[i].0, '<') && Lacks(blocks[i].1, '<')
  }

  /** The parts after the first block are `<`-free too. */
  lemma TagsOnlyTail(plain: string, blocks: seq<(string, string)>)
    requires |blocks| > 0 && TagsOnly(plain, blocks)
    ensures TagsOnly(blocks[0].1, blocks[1..])
    ensures Lacks(blocks[0].0, '<')
  {
    assert Lacks(blocks[0].0, '<') && Lacks(blocks[0].1, '<');
    forall i | 0 <= i < |blocks[1..]|
      ensures Lacks(blocks[1..][i].0, '<') && Lacks(blocks[1..][i].1, '<')
    {
      assert blocks[1..][i] == blocks[i + 1];
    }
  }

  /** A woven reply with a block is its plain part, the block and the
      woven rest. */
  lemma WovenLayout(plain: string, blocks: seq<(string, string)>)
    requires |blocks| > 0
    ensures Woven(plain, blocks)
            == plain + (OpenTag + (blocks[0].0 + (CloseTag + Woven(blocks[0].1, blocks[1..]))))
  {
  }

  /** The streaming view of a woven reply is its plain parts. */
  lemma {:induction false} VisibleOfWoven(t: string, from: nat, plain: string, blocks: seq<(string, string)>)
    requires TagsOnly(plain, blocks)
    requires from <= |t| && t[from..] == Woven(plain, blocks)
    ensures VisibleFrom(t, from) == PlainOf(plain, blocks)
    decreases |blocks|
  {
    if |blocks| == 0 {
      FindNoneInPlain(t, OpenTag, from);
    } else {
      var b, rest := blocks[0].0, Woven(blocks[0].1, blocks[1..]);
      WovenLayout(plain, blocks);
      TagsOnlyTail(plain, blocks);
      BlockAt(t, from, plain, b, rest);
      var next := from + |plain| + |OpenTag| + |b| + |CloseTag|;
      VisiblePastBlock(t, from);
      VisibleOfWoven(t, next, blocks[0].1, blocks[1..]);
    }
  }

  /** `strip_thinking_tokens` of a woven reply is its plain parts. */
  lemma {:induction false} StripWoven(plain: string, blocks: seq<(string, string)>)
    requires TagsOnly(plain, blocks)
    ensures StripThinking(Woven(plain, blocks)) == PlainOf(plain, blocks)
    decreases |blocks|
  {
    if |blocks| == 0 {
      StripPlain(plain);
    } else {
      var b, rest := blocks[0].0, Woven(blocks[0].1, blocks[1..]);
      WovenLayout(plain, blocks);
      TagsOnlyTail(plain, blocks);
      StripLead(plain, OpenTag + (b + (CloseTag + rest)));
      StripFirstBlock(b, rest);
      StripWoven(blocks[0].1, blocks[1..]);
    }
  }

  /** When every opening tag is closed and no tag can form where a block
      is cut out, the streaming view and `strip_thinking_tokens` agree:
      both leave the plain parts. */
  lemma VisibleIsStripped(plain: string, blocks: seq<(string, string)>)
    requires TagsOnly(plain, blocks)
    ensures Visible(Woven(plain, blocks)) == PlainOf(plain, blocks)
    ensures StripThinking(Woven(plain, blocks)) == PlainOf(plain, blocks)
  {
    var t := Woven(plain, blocks);
    assert t[0..] == t;
    VisibleOfWoven(t, 0, plain, blocks);
    StripWoven(plain, blocks);
  }
}
