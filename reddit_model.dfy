/**
  The data the bot reads from the Reddit API, as values.

  Every remote call the decision rules depend on is replaced by given data:
  the parent fetch of a comment is a lookup in a finite comment graph, and
  the bot's configuration constants are module constants with the values
  the bot class declares.
 */
module RedditModel {

  datatype Option<+T> = None | Some(value: T)

  type Id = string

  /** What a comment's parent link points at: another comment, the
      submission the thread hangs from, or nothing that can be fetched. */
  datatype ParentLink = ParentComment(id: Id) | SubmissionRoot | Unresolvable

  /** A comment as the bot sees it. `author` is None for a deleted account. */
  datatype Comment = Comment(id: Id, body: string, author: Option<string>, parent: ParentLink)

  /** The comments that parent links can be resolved against, by id. */
  type CommentGraph = map<Id, Comment>

  /** A reply the bot posts: the comment replied to and the reply's text. */
  datatype Reply = Reply(target: Id, text: string)

  // Configuration constants of the bot class.
  const BOT_NAME: string := "RequiemPowerBot"
  const REPLY_MESSAGE: string := "This is... the power of [Requiem](https://youtu.be/qs3t2pE4ZsE?t=100)."
  const MIN_CHAIN_LEN: nat := 3
  const COMMENT_SUMMARY_LEN: nat := 50

  /** The result of `comment.parent()` when it is a Comment; None when the
      parent is the submission, cannot be resolved, or is not in the graph. */
  function ParentOf(g: CommentGraph, c: Comment): (p: Option<Comment>)
    ensures p.Some? <==> c.parent.ParentComment? && c.parent.id in g
    ensures p.Some? ==> p.value == g[c.parent.id]
  {
    match c.parent
    case ParentComment(id) => if id in g then Some(g[id]) else None
    case SubmissionRoot => None
    case Unresolvable => None
  }
}
