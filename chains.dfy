/**
  Chain detection in `break_chains`: a streamed comment starts a chain when
  it and its nearest ancestors, `MIN_CHAIN_LEN` comments in all, are
  comments whose bodies are each equal to the body of the comment below
  them. The walk looks no further up than that, so a run longer than the
  threshold triggers at every comment of it ("at least" the threshold).
 */
module Chains {
  import opened RedditModel
  import Summary
  import Responder

  /** The chain check as a recursive definition: a run of `len` comments
      starting at `c`, each one's parent a comment with the same body. */
  function IsChain(g: CommentGraph, c: Comment, len: nat): (r: bool)
    ensures r ==> AllMatchOriginal(g, c, len)
    decreases len
  {
    len <= 1 ||
    match ParentOf(g, c)
    case None => false
    case Some(p) => p.body == c.body && IsChain(g, p, len - 1)
  }

  /** The `k`-th comment on the walk up from `c` (`c` itself for 0), or None
      when a parent on the way is not a comment. */
  function Ancestor(g: CommentGraph, c: Comment, k: nat): Option<Comment>
    decreases k
  {
    if k == 0 then Some(c)
    else match ParentOf(g, c)
      case None => None
      case Some(p) => Ancestor(g, p, k - 1)
  }

  /** Each of the first `len` comments up from `c` exists and has `c`'s body. */
  ghost predicate AllMatchOriginal(g: CommentGraph, c: Comment, len: nat)
  {
    forall k :: 0 <= k < len ==> Ancestor(g, c, k).Some? && Ancestor(g, c, k).value.body == c.body
  }

  /** Each of the first `len` comments up from `c` exists, and each but `c`
      has the body of the comment below it. */
  ghost predicate EachMatchesChild(g: CommentGraph, c: Comment, len: nat)
  {
    (forall k :: 0 <= k < len ==> Ancestor(g, c, k).Some?) &&
    forall k :: 0 < k < len ==> Ancestor(g, c, k).value.body == Ancestor(g, c, k - 1).value.body
  }

  /** One step further up is the parent of where the walk stands. */
  lemma {:induction false} AncestorStep(g: CommentGraph, c: Comment, k: nat)
    requires Ancestor(g, c, k).Some?
    ensures Ancestor(g, c, k + 1) == ParentOf(g, Ancestor(g, c, k).value)
    decreases k
  {
    if k > 0 {
      var p := ParentOf(g, c).value;
      AncestorStep(g, p, k - 1);
    }
  }

  /** Walking up from `c` past its parent `p` is walking up from `p`. */
  lemma AncestorThroughParent(g: CommentGraph, c: Comment, p: Comment, len: nat)
    requires ParentOf(g, c) == Some(p)
    ensures forall k :: 0 < k <= len ==> Ancestor(g, c, k) == Ancestor(g, p, k - 1)
  {
  }

  /** The chain check succeeds exactly when the comment and the ancestors it
      looks at are comments, each with the body of the comment below it. */
  lemma {:induction false} ChainIffEachMatchesChild(g: CommentGraph, c: Comment, len: nat)
    ensures IsChain(g, c, len) <==> EachMatchesChild(g, c, len)
    decreases len
  {
    if len <= 1 {
      assert forall k :: 0 <= k < len ==> k == 0 && Ancestor(g, c, k) == Some(c);
    } else {
      match ParentOf(g, c)
      case None =>
        assert Ancestor(g, c, 1).None?;
      case Some(p) =>
        ChainIffEachMatchesChild(g, p, len - 1);
        AncestorThroughParent(g, c, p, len);
        assert Ancestor(g, c, 0) == Some(c) && Ancestor(g, c, 1) == Some(p);
        if EachMatchesChild(g, c, len) {
          forall k | 0 <= k < len - 1 ensures Ancestor(g, p, k).Some? {
            assert Ancestor(g, c, k + 1) == Ancestor(g, p, k);
          }
          forall k | 0 < k < len - 1
            ensures Ancestor(g, p, k).value.body == Ancestor(g, p, k - 1).value.body
          {
            assert Ancestor(g, c, k + 1) == Ancestor(g, p, k);
            assert Ancestor(g, c, k) == Ancestor(g, p, k - 1);
          }
          assert Ancestor(g, c, 1).value.body == Ancestor(g, c, 0).value.body;
        }
        if p.body == c.body && EachMatchesChild(g, p, len - 1) {
          forall k | 0 <= k < len ensures Ancestor(g, c, k).Some? {
            if k > 0 { assert Ancestor(g, c, k) == Ancestor(g, p, k - 1); }
          }
          forall k | 1 < k < len
            ensures Ancestor(g, c, k).value.body == Ancestor(g, c, k - 1).value.body
          {
            assert Ancestor(g, c, k - 1) == Ancestor(g, p, k - 2);
          }
        }
    }
  }

  /** Link-by-link equality carries back to the first comment: every comment
      of a run has the original comment's body. */
  lemma {:induction false} EachMatchesChildKeepsOriginalBody(g: CommentGraph, c: Comment, len: nat, k: nat)
    requires EachMatchesChild(g, c, len) && k < len
    ensures Ancestor(g, c, k).Some? && Ancestor(g, c, k).value.body == c.body
    decreases k
  {
    if k > 0 {
      EachMatchesChildKeepsOriginalBody(g, c, len, k - 1);
    }
  }

  /** The chain check succeeds exactly when the comment and its first
      `len - 1` ancestors are all comments with the original comment's body. */
  lemma ChainIffAllMatchOriginal(g: CommentGraph, c: Comment, len: nat)
    ensures IsChain(g, c, len) <==> AllMatchOriginal(g, c, len)
  {
    ChainIffEachMatchesChild(g, c, len);
    if EachMatchesChild(g, c, len) {
      forall k | 0 <= k < len
        ensures Ancestor(g, c, k).Some? && Ancestor(g, c, k).value.body == c.body
      {
        EachMatchesChildKeepsOriginalBody(g, c, len, k);
      }
    }
  }

  /** A parent that is not a comment (the submission, or nothing that can
      be fetched) met before the run is long enough means "not a chain". */
  lemma NonCommentParentBreaksChain(g: CommentGraph, c: Comment, len: nat, k: nat)
    requires k + 1 < len
    requires Ancestor(g, c, k).Some? && ParentOf(g, Ancestor(g, c, k).value).None?
    ensures !IsChain(g, c, len)
  {
    AncestorStep(g, c, k);
    ChainIffAllMatchOriginal(g, c, len);
  }

  /** The threshold is a lower bound: a run that is a chain of some length
      is a chain of every shorter length, so nothing above the threshold
      can stop a reply. */
  lemma {:induction false} ChainOfAtLeast(g: CommentGraph, c: Comment, len: nat, shorter: nat)
    requires IsChain(g, c, len) && shorter <= len
    ensures IsChain(g, c, shorter)
    decreases len
  {
    if shorter > 1 {
      var p := ParentOf(g, c).value;
      ChainOfAtLeast(g, p, len - 1, shorter - 1);
    }
  }

  /** The walk of `break_chains`: from `comment`, fetch parents while the run
      is shorter than `minLen`, and stop with "not a chain" at the first
      parent that is not a comment or whose body differs from the cursor's.
      Besides the verdict it returns where the walk stopped: the run length,
      the cursor, and how many parents were fetched. */
  method DetectChain(g: CommentGraph, comment: Comment, minLen: nat)
    returns (isChain: bool, chainLen: nat, cursor: Comment, fetches: nat)
    ensures isChain == IsChain(g, comment, minLen)
    ensures 1 <= chainLen <= if minLen == 0 then 1 else minLen
    ensures isChain <==> chainLen >= minLen
    ensures Ancestor(g, comment, chainLen - 1) == Some(cursor)
    ensures fetches == if isChain then chainLen - 1 else chainLen
    ensures fetches < minLen || fetches == 0
    ensures !isChain ==> ParentOf(g, cursor).None? || ParentOf(g, cursor).value.body != cursor.body
  {
    cursor := comment;
    isChain := true;
    chainLen := 1;
    fetches := 0;
    while chainLen < minLen
      invariant 1 <= chainLen <= if minLen == 0 then 1 else minLen
      invariant Ancestor(g, comment, chainLen - 1) == Some(cursor)
      invariant IsChain(g, comment, minLen) == IsChain(g, cursor, minLen - chainLen + 1)
      invariant fetches == chainLen - 1
      decreases minLen - chainLen
    {
      var parent := ParentOf(g, cursor);
      fetches := fetches + 1;
      if parent.None? || parent.value.body != cursor.body {
        isChain := false;
        break;
      }
      AncestorStep(g, comment, chainLen - 1);
      chainLen := chainLen + 1;
      cursor := parent.value;
    }
  }

  /** What handling one streamed comment posts: the meme reply to the
      streamed comment itself when it starts a chain, nothing otherwise. */
  function ChainReplies(g: CommentGraph, c: Comment): (posted: seq<Reply>)
    ensures |posted| <= 1
    ensures posted != [] <==> IsChain(g, c, MIN_CHAIN_LEN) && c.author != Some(BOT_NAME)
    ensures forall r :: r in posted ==> r == Reply(c.id, REPLY_MESSAGE)
  {
    if IsChain(g, c, MIN_CHAIN_LEN) then Responder.ReplyWithMeme(c) else []
  }

  /** The replies for a finite prefix of the comment stream, in stream order. */
  function StreamReplies(g: CommentGraph, stream: seq<Comment>): seq<Reply>
  {
    if stream == [] then []
    else StreamReplies(g, stream[..|stream| - 1]) + ChainReplies(g, stream[|stream| - 1])
  }

  /** Every reply for a stream prefix goes to a streamed comment that starts
      a chain and is not the bot's own, and carries the meme text. */
  lemma {:induction false} StreamRepliesTargetChainStarts(g: CommentGraph, stream: seq<Comment>, r: Reply)
    requires r in StreamReplies(g, stream)
    ensures exists i :: (0 <= i < |stream| && r.target == stream[i].id &&
                         IsChain(g, stream[i], MIN_CHAIN_LEN) && stream[i].author != Some(BOT_NAME))
    ensures r.text == REPLY_MESSAGE
    decreases |stream|
  {
    var last := stream[|stream| - 1];
    var init := stream[..|stream| - 1];
    if r in ChainReplies(g, last) {
      assert stream[|stream| - 1] == last;
    } else {
      StreamRepliesTargetChainStarts(g, init, r);
      var i :| 0 <= i < |init| && r.target == init[i].id &&
        IsChain(g, init[i], MIN_CHAIN_LEN) && init[i].author != Some(BOT_NAME);
      assert stream[i] == init[i];
    }
  }

  /** One pass of the `break_chains` loop over a streamed comment: the
      summary it logs, then the chain walk, then the reply. The reply goes to
      the streamed comment, not to the ancestor the walk ended on. */
  method HandleStreamedComment(g: CommentGraph, comment: Comment)
    returns (summary: string, replies: seq<Reply>)
    ensures summary == Summary.Summarize(comment.body, COMMENT_SUMMARY_LEN)
    ensures replies == ChainReplies(g, comment)
    ensures forall r :: r in replies ==> r.target == comment.id
    ensures replies != [] <==> IsChain(g, comment, MIN_CHAIN_LEN) && comment.author != Some(BOT_NAME)
  {
    summary := Summary.Summarize(comment.body, COMMENT_SUMMARY_LEN);
    var originalComment := comment;
    var isChain, chainLen, cursor, fetches := DetectChain(g, comment, MIN_CHAIN_LEN);
    replies := [];
    if isChain {
      replies := Responder.ReplyWithMeme(originalComment);
    }
  }

  /** `break_chains` over a finite prefix of the comment stream: every
      comment is summarised and checked in turn, and the replies are posted
      in stream order. */
  method BreakChains(g: CommentGraph, stream: seq<Comment>)
    returns (summaries: seq<string>, replies: seq<Reply>)
    ensures |summaries| == |stream|
    ensures forall i :: 0 <= i < |stream| ==> summaries[i] == Summary.Summarize(stream[i].body, COMMENT_SUMMARY_LEN)
    ensures replies == StreamReplies(g, stream)
  {
    summaries, replies := [], [];
    var n := 0;
    while n < |stream|
      invariant 0 <= n <= |stream|
      invariant |summaries| == n
      invariant forall i :: 0 <= i < n ==> summaries[i] == Summary.Summarize(stream[i].body, COMMENT_SUMMARY_LEN)
      invariant replies == StreamReplies(g, stream[..n])
    {
      var summary, posted := HandleStreamedComment(g, stream[n]);
      summaries := summaries + [summary];
      replies := replies + posted;
      assert stream[..n + 1][..n] == stream[..n];
      n := n + 1;
    }
    assert stream[..n] == stream;
  }

  /** Four comments with the same body, each replying to the next, the last
      to the submission: "a" is the newest, "d" the top-level comment. */
  function FourInARow(body: string): CommentGraph
  {
    map[
      "a" := Comment("a", body, Some("user1"), ParentComment("b")),
      "b" := Comment("b", body, Some("user2"), ParentComment("c")),
      "c" := Comment("c", body, Some("user3"), ParentComment("d")),
      "d" := Comment("d", body, Some("user4"), SubmissionRoot)]
  }

  /** With no look-ahead past the third comment, a run of four triggers a
      reply at "a" and again at "b", not only at the comment that completes
      a run of exactly three. */
  lemma RunLongerThanThresholdTriggersTwice(body: string)
    ensures var g := FourInARow(body);
      ChainReplies(g, g["a"]) == [Reply("a", REPLY_MESSAGE)] &&
      ChainReplies(g, g["b"]) == [Reply("b", REPLY_MESSAGE)] &&
      ChainReplies(g, g["c"]) == []
  {
  }
}
