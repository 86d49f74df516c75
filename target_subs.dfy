/**
  One round of `expand_target_subs`: drop from the targets every subreddit
  where the bot's comment karma is below 1 and remember it as ignored, then
  draw random subreddits until one is neither banned nor ignored, and add
  it to the targets.

  Subreddits are identified by their display names. The karma map and the
  random draws are given data; a finite sequence of draws stands for the
  endless `random_subreddit()` calls.
 */
module TargetSubs {
  import opened RedditModel

  /** `karma_dict.get(sub, 1)`: a subreddit without an entry counts as 1. */
  function KarmaOf(karma: map<string, int>, sub: string): (k: int)
    ensures sub in karma ==> k == karma[sub]
    ensures sub !in karma ==> k == 1
  {
    if sub in karma then karma[sub] else 1
  }

  /** The targets that survive the prune. */
  function Kept(targets: set<string>, karma: map<string, int>): set<string>
  {
    set sub | sub in targets && KarmaOf(karma, sub) >= 1
  }

  /** The targets the prune moves to the ignored subreddits. */
  function Dropped(targets: set<string>, karma: map<string, int>): set<string>
  {
    set sub | sub in targets && KarmaOf(karma, sub) < 1
  }

  /** Prune splits the targets: what is kept and what is dropped are
      disjoint and together make up the old targets. */
  lemma PrunePartitionsTargets(targets: set<string>, karma: map<string, int>)
    ensures Kept(targets, karma) + Dropped(targets, karma) == targets
    ensures Kept(targets, karma) * Dropped(targets, karma) == {}
  {
  }

  /** A target with karma 1 or more, or with no karma entry, is kept. */
  lemma KeptIffKarmaAtLeastOne(targets: set<string>, karma: map<string, int>, sub: string)
    requires sub in targets
    ensures sub in Kept(targets, karma) <==> sub !in karma || karma[sub] >= 1
    ensures sub in Dropped(targets, karma) <==> sub in karma && karma[sub] < 1
  {
  }

  /** Pruning twice with the same karma prunes nothing more. */
  lemma PruneIdempotent(targets: set<string>, karma: map<string, int>)
    ensures Kept(Kept(targets, karma), karma) == Kept(targets, karma)
    ensures Dropped(Kept(targets, karma), karma) == {}
  {
  }

  /** A subreddit the selection step may add: neither banned nor ignored. */
  predicate Eligible(sub: string, banned: set<string>, ignored: set<string>)
  {
    sub !in banned && sub !in ignored
  }

  /** The selection loop: draw subreddits in turn until one is eligible.
      `tries` is how many were drawn; the pick is the first eligible draw.
      None means the given draws ran out without an eligible one. */
  method PickNewSub(draws: seq<string>, banned: set<string>, ignored: set<string>)
    returns (pick: Option<string>, tries: nat)
    ensures tries <= |draws|
    ensures pick.Some? ==> 0 < tries && pick.value == draws[tries - 1] && Eligible(pick.value, banned, ignored)
    ensures pick.None? ==> tries == |draws|
    ensures forall i :: 0 <= i < tries && (pick.None? || i < tries - 1) ==> !Eligible(draws[i], banned, ignored)
  {
    pick, tries := None, 0;
    while tries < |draws|
      invariant tries <= |draws|
      invariant forall i :: 0 <= i < tries ==> !Eligible(draws[i], banned, ignored)
    {
      var newSub := draws[tries];
      tries := tries + 1;
      if newSub !in banned && newSub !in ignored {
        pick := Some(newSub);
        return;
      }
    }
  }

  /** The subreddit sets the bot keeps: where it looks for chains, where it
      is banned, and where it has stopped looking. */
  class RequiemPowerBot {
    var targetSubs: set<string>
    var bannedSubs: set<string>
    var ignoredSubs: set<string>

    constructor (targets: set<string>, banned: set<string>, ignored: set<string>)
      ensures targetSubs == targets && bannedSubs == banned && ignoredSubs == ignored
    {
      targetSubs, bannedSubs, ignoredSubs := targets, banned, ignored;
    }

    /** The prune step, over a snapshot of the targets taken before the loop:
        each target with karma below 1 leaves the targets and joins the
        ignored subreddits; nothing else changes. */
    method PruneTargets(karma: map<string, int>)
      modifies this
      ensures targetSubs == Kept(old(targetSubs), karma)
      ensures ignoredSubs == old(ignoredSubs) + Dropped(old(targetSubs), karma)
      ensures bannedSubs == old(bannedSubs)
    {
      var snapshot := targetSubs;
      var pending := snapshot;
      while pending != {}
        invariant pending <= snapshot
        invariant bannedSubs == old(bannedSubs)
        invariant forall sub :: sub in targetSubs <==>
          sub in snapshot && (sub in pending || KarmaOf(karma, sub) >= 1)
        invariant forall sub :: sub in ignoredSubs <==>
          sub in old(ignoredSubs) || (sub in snapshot && sub !in pending && KarmaOf(karma, sub) < 1)
        decreases pending
      {
        var sub :| sub in pending;
        if KarmaOf(karma, sub) < 1 {
          targetSubs := targetSubs - {sub};
          ignoredSubs := ignoredSubs + {sub};
        }
        pending := pending - {sub};
      }
    }

    /** One round of `expand_target_subs`: prune, then pick and add a new
        target. The added subreddit is the first draw that is neither banned
        nor ignored, counting the subreddits this round's prune has just
        ignored; nothing is added only when no draw is eligible. */
    method ExpandTargetSubs(karma: map<string, int>, draws: seq<string>) returns (added: Option<string>)
      modifies this
      ensures bannedSubs == old(bannedSubs)
      ensures ignoredSubs == old(ignoredSubs) + Dropped(old(targetSubs), karma)
      ensures added.None? ==> targetSubs == Kept(old(targetSubs), karma)
      ensures added.Some? ==> targetSubs == Kept(old(targetSubs), karma) + {added.value}
      ensures added.Some? ==> added.value in draws && Eligible(added.value, bannedSubs, ignoredSubs)
      ensures added.Some? ==> exists t :: (0 <= t < |draws| && added.value == draws[t] &&
                                           forall i :: 0 <= i < t ==> !Eligible(draws[i], bannedSubs, ignoredSubs))
      ensures added.None? ==> forall d :: d in draws ==> !Eligible(d, bannedSubs, ignoredSubs)
    {
      PruneTargets(karma);
      var tries;
      added, tries := PickNewSub(draws, bannedSubs, ignoredSubs);
      if added.Some? {
        targetSubs := targetSubs + {added.value};
      }
    }
  }
}
