/**
  `respond_to_summons`: go through the bot's username mentions in the order
  the inbox gives them; for each one still flagged new, reply to the
  mentioning comment through the self-reply guard, then mark the mention
  read. The remote effects are recorded as a trace of inbox actions.
 */
module Summons {
  import opened RedditModel
  import Responder

  /** A username mention: the comment that mentions the bot, and whether it
      is still unread. */
  datatype Mention = Mention(comment: Comment, isNew: bool)

  /** A remote effect of handling mentions, in the order it happens. */
  datatype InboxAction = Posted(reply: Reply) | MarkedRead(id: Id)

  function AsPosted(rs: seq<Reply>): (acts: seq<InboxAction>)
    ensures |acts| == |rs|
    ensures forall i :: 0 <= i < |rs| ==> acts[i] == Posted(rs[i])
  {
    if rs == [] then [] else [Posted(rs[0])] + AsPosted(rs[1..])
  }

  /** The effects of handling one mention: nothing for a read one; for a new
      one, the meme reply unless the comment is the bot's own, and then
      marking it read in either case. */
  function MentionActions(m: Mention): (acts: seq<InboxAction>)
    ensures !m.isNew ==> acts == []
    ensures m.isNew && Responder.IsOwnComment(m.comment) ==> acts == [MarkedRead(m.comment.id)]
    ensures m.isNew && !Responder.IsOwnComment(m.comment) ==>
      acts == [Posted(Reply(m.comment.id, REPLY_MESSAGE)), MarkedRead(m.comment.id)]
  {
    if m.isNew then AsPosted(Responder.ReplyWithMeme(m.comment)) + [MarkedRead(m.comment.id)] else []
  }

  /** The effects of handling a list of mentions, one mention after another. */
  function SummonsActions(ms: seq<Mention>): seq<InboxAction>
  {
    if ms == [] then [] else SummonsActions(ms[..|ms| - 1]) + MentionActions(ms[|ms| - 1])
  }

  function CountNew(ms: seq<Mention>): nat
  {
    if ms == [] then 0 else CountNew(ms[..|ms| - 1]) + if ms[|ms| - 1].isNew then 1 else 0
  }

  function CountMarked(acts: seq<InboxAction>): nat
  {
    if acts == [] then 0 else (if acts[0].MarkedRead? then 1 else 0) + CountMarked(acts[1..])
  }

  lemma {:induction false} CountMarkedAppend(a: seq<InboxAction>, b: seq<InboxAction>)
    ensures CountMarked(a + b) == CountMarked(a) + CountMarked(b)
    decreases |a|
  {
    if a != [] {
      assert (a + b)[1..] == a[1..] + b;
      CountMarkedAppend(a[1..], b);
    } else {
      assert a + b == b;
    }
  }

  /** Handling mentions marks exactly as many mentions read as there are new
      ones: each new mention once, whether the self-reply guard let a reply
      through or not. */
  lemma {:induction false} EachNewMentionMarkedReadOnce(ms: seq<Mention>)
    ensures CountMarked(SummonsActions(ms)) == CountNew(ms)
    decreases |ms|
  {
    if ms != [] {
      var m := ms[|ms| - 1];
      EachNewMentionMarkedReadOnce(ms[..|ms| - 1]);
      CountMarkedAppend(SummonsActions(ms[..|ms| - 1]), MentionActions(m));
      if m.isNew {
        var acts := MentionActions(m);
        if Responder.IsOwnComment(m.comment) {
          assert CountMarked(acts) == 1 + CountMarked([]);
        } else {
          assert acts[1..] == [MarkedRead(m.comment.id)];
          assert CountMarked(acts) == 0 + CountMarked(acts[1..]);
        }
      }
    }
  }

  /** Handling a list in two parts is handling the first part, then the second. */
  lemma {:induction false} SummonsActionsAppend(a: seq<Mention>, b: seq<Mention>)
    ensures SummonsActions(a + b) == SummonsActions(a) + SummonsActions(b)
    decreases |b|
  {
    if b != [] {
      var b' := b[..|b| - 1];
      assert (a + b)[..|a + b| - 1] == a + b';
      assert (a + b)[|a + b| - 1] == b[|b| - 1];
      SummonsActionsAppend(a, b');
    } else {
      assert a + b == a;
    }
  }

  /** Mentions are handled strictly in inbox order: whatever comes before
      and after it, a mention's reply and mark-read come together, after
      the effects of every earlier mention and before those of every later
      one. */
  lemma InboxOrder(before: seq<Mention>, m: Mention, after: seq<Mention>)
    ensures SummonsActions(before + [m] + after) ==
      SummonsActions(before) + MentionActions(m) + SummonsActions(after)
  {
    SummonsActionsAppend(before + [m], after);
    SummonsActionsAppend(before, [m]);
    assert [m][..0] == [];
  }

  /** A mention is marked read exactly when it was new: read mentions leave
      no trace. */
  lemma {:induction false} MarkedReadIffNew(ms: seq<Mention>, id: Id)
    ensures MarkedRead(id) in SummonsActions(ms) <==>
      exists i :: 0 <= i < |ms| && ms[i].isNew && ms[i].comment.id == id
    decreases |ms|
  {
    if ms != [] {
      var init, m := ms[..|ms| - 1], ms[|ms| - 1];
      MarkedReadIffNew(init, id);
      if exists i :: 0 <= i < |init| && init[i].isNew && init[i].comment.id == id {
        var i :| 0 <= i < |init| && init[i].isNew && init[i].comment.id == id;
        assert ms[i] == init[i];
      }
      if exists i :: 0 <= i < |ms| && ms[i].isNew && ms[i].comment.id == id {
        var i :| 0 <= i < |ms| && ms[i].isNew && ms[i].comment.id == id;
        if i < |init| { assert init[i] == ms[i]; }
      }
    }
  }

  /** Every reply the summons responder posts answers a new mention whose
      comment is not the bot's own, with the meme text. */
  lemma {:induction false} RepliesOnlyToNewForeignMentions(ms: seq<Mention>, r: Reply)
    requires Posted(r) in SummonsActions(ms)
    ensures r.text == REPLY_MESSAGE
    ensures exists i :: (0 <= i < |ms| && ms[i].isNew && !Responder.IsOwnComment(ms[i].comment) &&
                         r.target == ms[i].comment.id)
    decreases |ms|
  {
    var init, m := ms[..|ms| - 1], ms[|ms| - 1];
    if Posted(r) in MentionActions(m) {
      assert ms[|ms| - 1] == m;
    } else {
      RepliesOnlyToNewForeignMentions(init, r);
      var i :| 0 <= i < |init| && init[i].isNew && !Responder.IsOwnComment(init[i].comment) &&
        r.target == init[i].comment.id;
      assert ms[i] == init[i];
    }
  }

  /** The loop of `respond_to_summons` over the mentions the inbox returned.
      `after` is the mentions' read state afterwards: every new one is now
      read, every read one is left as it was. */
  method RespondToSummons(mentions: seq<Mention>) returns (after: seq<Mention>, actions: seq<InboxAction>)
    ensures |after| == |mentions|
    ensures forall i :: 0 <= i < |mentions| && mentions[i].isNew ==> after[i] == mentions[i].(isNew := false)
    ensures forall i :: 0 <= i < |mentions| && !mentions[i].isNew ==> after[i] == mentions[i]
    ensures actions == SummonsActions(mentions)
  {
    after, actions := [], [];
    var n := 0;
    while n < |mentions|
      invariant 0 <= n <= |mentions|
      invariant |after| == n
      invariant forall i :: 0 <= i < n ==> after[i] == mentions[i].(isNew := false)
      invariant actions == SummonsActions(mentions[..n])
    {
      var m := mentions[n];
      ghost var done := actions;
      if m.isNew {
        actions := actions + AsPosted(Responder.ReplyWithMeme(m.comment));
        actions := actions + [MarkedRead(m.comment.id)];
      }
      after := after + [m.(isNew := false)];
      assert actions == done + MentionActions(m);
      assert SummonsActions(mentions[..n + 1]) == SummonsActions(mentions[..n]) + MentionActions(m) by {
        assert mentions[..n + 1][..n] == mentions[..n];
        assert mentions[..n + 1][n] == m;
      }
      n := n + 1;
    }
    assert mentions[..n] == mentions;
  }
}
