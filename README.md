# RequiemPowerBot decision rules, in Dafny

RequiemPowerBot is a Reddit bot that watches the comment stream of a set of
target subreddits, and replies with a fixed meme when it finds a comment chain:
a comment whose nearest ancestors are comments with the same body. It also
answers username mentions and keeps its list of target subreddits up to date.
This project models the sequential decision rules of `bot.py`, with every
Reddit API call replaced by given data:

- `reddit_model.dfy` (module `RedditModel`): comments, the three kinds of parent
  link (another comment, the submission, unresolvable), the comment graph that
  `comment.parent()` is looked up in, replies, and the bot's constants
  (`BOT_NAME`, `REPLY_MESSAGE`, `MIN_CHAIN_LEN = 3`, `COMMENT_SUMMARY_LEN = 50`).
- `summary.dfy` (module `Summary`): the one-line log summary of a comment body.
- `responder.dfy` (module `Responder`): `reply_with_meme` and its self-reply guard.
- `chains.dfy` (module `Chains`): the chain check as a recursive function
  (`IsChain`), the walk of `break_chains` as a method with a cursor, a run
  length and a flag (`DetectChain`), proved equal to it, and the handling of a
  finite prefix of the comment stream.
- `summons.dfy` (module `Summons`): `respond_to_summons` over the mentions the
  inbox returned, with the replies and mark-reads recorded as a trace.
- `target_subs.dfy` (module `TargetSubs`): the prune and selection steps of
  `expand_target_subs`, as methods of a class holding the target, banned and
  ignored subreddit sets.

The chain check replies when a run is AT LEAST `MIN_CHAIN_LEN` comments long:
the walk stops once the run reaches the threshold and never looks at the
ancestor above it. The TODO at `bot.py:19` proposes a strict length, which the
code does not have, and the model follows the code.
`Chains.RunLongerThanThresholdTriggersTwice` shows the effect: a run of four
equal comments triggers replies at the two newest comments.

## Model

| member | source | states |
|---|---|---|
| Summary.ReplaceNewlines | bot.py:68 | `replace('\n', ' ')` keeps the length, turns each line break into a space, keeps every other character in place, and leaves no line break |
| Summary.Summarize | bot.py:68-70 | the summary has no line break and at most `maxLen + 3` characters; its first characters are the body's with line breaks flattened; it is `maxLen + 3` long and ends in "..." exactly when the body is longer than `maxLen`, and otherwise has the body's length |
| Summary.ShortPlainBodyIsItsOwnSummary | bot.py:68-70 | a body that fits and has no line break is logged unchanged |
| Summary.TruncatedSummaryExtendsPrefix | bot.py:68-70 | the summary of a cut-off body is the summary of its first `maxLen` characters followed by "..." |
| Responder.ReplyWithMeme | bot.py:132-137 | no reply to a comment by `BOT_NAME`; otherwise exactly one reply, to that comment, with `REPLY_MESSAGE` |
| RedditModel.ParentOf | bot.py:78-79 | `comment.parent()` with the type test: a comment exactly when the link names a comment present in the graph, and then that comment; the submission root, an unresolvable link and an id missing from the graph all give "not a Comment" |
| Chains.IsChain | bot.py:73-83 | the chain verdict: when it holds, the comment and its first `len - 1` ancestors are all comments with the original comment's body |
| Chains.ChainReplies | bot.py:86-87 | at most one reply, posted exactly when the streamed comment starts a chain and is not the bot's own, and it is the meme reply to that streamed comment |
| Chains.AncestorStep | bot.py:78-83 | one more step up the walk is the parent of the comment the walk stands on |
| Chains.ChainIffEachMatchesChild | bot.py:73-83 | the chain check succeeds iff the comment and its first `MIN_CHAIN_LEN - 1` ancestors are all comments, each with the body of the comment below it |
| Chains.EachMatchesChildKeepsOriginalBody | bot.py:79 | by transitivity, every comment of such a run has the original comment's body |
| Chains.ChainIffAllMatchOriginal | bot.py:73-83 | the chain check succeeds iff the comment and its first `MIN_CHAIN_LEN - 1` ancestors are all comments with the original comment's body |
| Chains.NonCommentParentBreaksChain | bot.py:79-81 | a parent that is the submission or unresolvable, met before the run reaches the threshold, makes the result "not a chain" |
| Chains.ChainOfAtLeast | bot.py:77-83 | a chain of some length is a chain of every shorter length: the threshold is a lower bound only |
| Chains.DetectChain | bot.py:74-83 | the loop's flag equals `IsChain`; it ends with `1 <= chain_len <= MIN_CHAIN_LEN`, the flag set iff the run reached the threshold, the cursor the (`chain_len - 1`)-th ancestor, at most `MIN_CHAIN_LEN - 1` parents fetched, and on a break the cursor's parent is not a comment or has another body |
| Chains.RunLongerThanThresholdTriggersTwice | bot.py:19 | with no look-ahead, a run of four equal comments under a submission gets a reply at its newest and its second-newest comment, and none at the third |
| Chains.HandleStreamedComment | bot.py:67-87 | one pass of the stream loop logs the summary of the body and replies, to the streamed comment and not to the ancestor the walk ended on, iff it starts a chain and is not the bot's own |
| Chains.StreamRepliesTargetChainStarts | bot.py:67-87 | every reply for a stream prefix goes to a streamed comment that starts a chain and is not the bot's, with the meme text |
| Chains.BreakChains | bot.py:67-87 | over a finite stream prefix, every comment's summary is logged in order and the replies are those of each comment in stream order |
| Summons.MentionActions | bot.py:95-99 | a read mention causes nothing; a new one is replied to (unless the comment is the bot's own) and then marked read |
| Summons.EachNewMentionMarkedReadOnce | bot.py:94-99 | exactly as many mark-reads happen as there are new mentions, whether the self-reply guard let a reply through or not |
| Summons.MarkedReadIffNew | bot.py:95-99 | a mention is marked read iff it was new |
| Summons.RepliesOnlyToNewForeignMentions | bot.py:95-98 | every reply answers a new mention whose comment is not the bot's own, with the meme text |
| Summons.InboxOrder | bot.py:94-99 | mentions are handled in inbox order, each new mention's reply and mark-read together, between the effects of earlier and later mentions |
| Summons.RespondToSummons | bot.py:94-99 | the loop's trace equals the specification; afterwards every new mention is read and every read mention is unchanged |
| TargetSubs.KarmaOf | bot.py:109 | `karma_dict.get(sub, 1)`: the subreddit's comment karma when it has an entry, 1 otherwise |
| TargetSubs.PrunePartitionsTargets | bot.py:107-111 | the kept and the dropped targets are disjoint and make up the old targets |
| TargetSubs.KeptIffKarmaAtLeastOne | bot.py:109 | a target is kept iff it has no karma entry or karma at least 1, and dropped iff its karma entry is below 1 |
| TargetSubs.PruneIdempotent | bot.py:106-111 | pruning again with the same karma changes nothing |
| TargetSubs.PickNewSub | bot.py:115-119 | the pick is the first drawn subreddit that is neither banned nor ignored; every earlier draw was banned or ignored; None only when the draws run out |
| TargetSubs.RequiemPowerBot.PruneTargets | bot.py:106-111 | the targets become the kept ones, the ignored set gains exactly the dropped ones, the banned set is unchanged |
| TargetSubs.RequiemPowerBot.ExpandTargetSubs | bot.py:104-121 | one round prunes, then adds the first drawn subreddit that is neither banned nor ignored (counting the ones just pruned); it adds nothing only when no draw is eligible; nothing else changes |

## Left out

- The Reddit client: comment streaming, `comment.parent()`, `reddit.comment`, `inbox.mentions`, `user.karma`, `random_subreddit`, posting replies and marking mentions read. Their results are given data (a comment graph, a mention sequence, a karma map from subreddit name to the bot's comment karma there as one integer, a finite sequence of random draws) and their effects are returned as replies or a trace.
- Failing replies: the model assumes every `comment.reply` succeeds. In the source an exception from it escapes `reply_with_meme`; in `respond_to_summons` that skips `m.mark_read()` for that mention and ends the pass, and in `break_chains` it ends the stream loop.
- A parent fetch that raises an exception is not modelled; a parent link whose id is not in the comment graph is treated like an unresolvable parent, that is, as "not a Comment".
- The unbounded `while True` loops and the stream `for` loop: a single round or a finite prefix is modelled.
- TargetSubs.PickNewSub: the source draws random subreddits until one is eligible, possibly forever; the model draws from a finite sequence and returns None when it runs out.
- TargetSubs.RequiemPowerBot.PruneTargets: iterates over a snapshot of the targets; the effect of removing from the multireddit while iterating over its subreddit list is not modelled.
- Responder.ReplyWithMeme: the author is compared with `BOT_NAME` by exact string equality; the Reddit client's own comparison of an author object with a string (which ignores case) is not part of this model.
- Threads, daemon start-up, `time.sleep` and the cache update at the end of each round (bot.py:57-59, 123-129): scheduling and I/O.
- The cache wrapper, environment variables, JSON and the loading of the subreddit sets in the constructor (bot.py:25-55): I/O plumbing. The class's constructor takes the three sets as given.
- Logging calls other than the summary string they format.
- The constants are referred to without `self.` in the source, and the calls to `reply_with_meme`, `respond_to_summons`, `expand_target_subs` and `break_chains` likewise; the model uses them as evidently intended, as class constants and methods.
- `logger.log(...)` at bot.py:117 and bot.py:120 is called without a level, so as written it raises `TypeError` on the first draw and the selection step never adds a subreddit; the model treats these calls as if they logged, like the missing `self.`.
