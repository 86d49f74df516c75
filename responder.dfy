/**
  The reply step shared by the chain breaker and the summons responder:
  reply to a comment with the meme, unless the comment is the bot's own.
 */
module Responder {
  import opened RedditModel

  /** True when the comment was written by the bot's own account. A comment
      by a deleted account (no author) is never the bot's. */
  predicate IsOwnComment(c: Comment)
  {
    c.author == Some(BOT_NAME)
  }

  /** The replies `reply_with_meme(c)` posts: none to the bot's own comment,
      otherwise exactly one, with the meme text, to `c` itself. */
  function ReplyWithMeme(c: Comment): (posted: seq<Reply>)
    ensures |posted| <= 1
    ensures posted == [] <==> c.author == Some(BOT_NAME)
    ensures forall r :: r in posted ==> r.target == c.id && r.text == REPLY_MESSAGE
  {
    if !IsOwnComment(c) then [Reply(c.id, REPLY_MESSAGE)] else []
  }
}
