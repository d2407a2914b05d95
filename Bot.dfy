/**
 * Handling one incoming comment: classify it, answer a question about the bot itself with the
 * fixed text, and otherwise fetch (or reuse) the target's history, score it and compose the
 * reply, which is both queued and posted.
 */
module Bot {
  import opened Trigger
  import opened History
  import opened Scoring
  import opened Reply

  datatype Option<T> = None | Some(value: T)

  /** An incoming comment: its text and its author's name. */
  datatype Comment = Comment(body: string, author: string)

  /** The reply the bot gives to `c`, if any, when the cache holds `entries` at time `now` and
      a remote search would turn out as `outcomes` says. */
  function Answer(c: Comment, parentAuthor: string, lexicon: set<string>,
                  entries: map<string, Entry>, now: real, outcomes: seq<Attempt>): Option<string>
    requires MaxAttempts <= |outcomes|
  {
    match Classify(c.body, c.author, parentAuthor)
    case NoTrigger => None
    case BotSelfQuery => Some(BotInfo)
    case Check(_, user) => Some(ReplyText(c.body, user, ScoreOf(HistoryFor(entries, user, now, outcomes), lexicon)))
  }

  /** A comment is answered exactly when it passes the trigger gate. */
  lemma AnsweredIffTriggered(c: Comment, parentAuthor: string, lexicon: set<string>,
                             entries: map<string, Entry>, now: real, outcomes: seq<Attempt>)
    requires MaxAttempts <= |outcomes|
    ensures Answer(c, parentAuthor, lexicon, entries, now, outcomes).Some? <==> IsTriggered(c.body)
  {
  }

  /** When the bot is the target it answers with the fixed text whatever the cache holds and
      whatever the remote search would return. */
  lemma SelfQueryIgnoresHistory(c: Comment, parentAuthor: string, lexicon: set<string>,
                                entries: map<string, Entry>, now: real, outcomes: seq<Attempt>)
    requires MaxAttempts <= |outcomes|
    requires IsTriggered(c.body)
    requires SameUserName(ResolveTarget(c.body, c.author, parentAuthor).1, BotName)
    ensures Answer(c, parentAuthor, lexicon, entries, now, outcomes) == Some(BotInfo)
  {
  }

  /** A scored reply is in the second person exactly when the target was chosen by
      `!uwucheckself`, and otherwise names the target user in the third person. */
  lemma ReplyPersonFollowsRoute(c: Comment, parentAuthor: string, lexicon: set<string>,
                                entries: map<string, Entry>, now: real, outcomes: seq<Attempt>)
    requires MaxAttempts <= |outcomes|
    requires Classify(c.body, c.author, parentAuthor).Check?
    ensures var o, a := Classify(c.body, c.author, parentAuthor), Answer(c, parentAuthor, lexicon, entries, now, outcomes);
      && a.Some?
      && (YourIntro <= a.value <==> o.route == SelfCommandRoute)
      && (o.route != SelfCommandRoute ==> TheirIntro(o.user) <= a.value)
  {
    var o := Classify(c.body, c.author, parentAuthor);
    ReplyPerson(c.body, o.user, ScoreOf(HistoryFor(entries, o.user, now, outcomes), lexicon));
  }

  /** The count in a scored reply is the score of the history the cache or the remote search
      provides for the target user. */
  lemma ReplyReportsScore(c: Comment, parentAuthor: string, lexicon: set<string>,
                          entries: map<string, Entry>, now: real, outcomes: seq<Attempt>)
    requires MaxAttempts <= |outcomes|
    requires Classify(c.body, c.author, parentAuthor).Check?
    ensures var user, a := Classify(c.body, c.author, parentAuthor).user, Answer(c, parentAuthor, lexicon, entries, now, outcomes);
      && a.Some?
      && |Intro(c.body, user)| <= |a.value|
      && ReportedCount(a.value, |Intro(c.body, user)|) == ScoreOf(HistoryFor(entries, user, now, outcomes), lexicon).total
  {
    var user := Classify(c.body, c.author, parentAuthor).user;
    ReplyReportsTotal(c.body, user, ScoreOf(HistoryFor(entries, user, now, outcomes), lexicon));
  }

  /** The running bot: the word list, the history cache, the replies queued in
      `comments_to_reply`, and the replies actually posted with `reply()`. */
  class WholesomeBot {
    const lexicon: set<string>
    const cache: HistoryCache
    var queued: seq<(Comment, string)>
    var posted: seq<(Comment, string)>

    constructor (lexicon: set<string>)
      ensures this.lexicon == lexicon
      ensures fresh(cache) && cache.entries == map[]
      ensures queued == [] && posted == []
    {
      this.lexicon := lexicon;
      cache := new HistoryCache();
      queued := [];
      posted := [];
    }

    /** Handle one comment from the stream. `parentAuthor` is the author of the comment it
        answers, `now` the clock reading for the freshness test, `storedAt` the reading taken
        when a refreshed history is stored, and `outcomes` what the remote search attempts
        would produce. */
    method Handle(c: Comment, parentAuthor: string, now: real, storedAt: real, outcomes: seq<Attempt>)
      requires MaxAttempts <= |outcomes|
      modifies this, cache
      ensures var a := Answer(c, parentAuthor, lexicon, old(cache.entries), now, outcomes);
        queued == old(queued) + (if a.Some? then [(c, a.value)] else [])
      ensures var o, a := Classify(c.body, c.author, parentAuthor), Answer(c, parentAuthor, lexicon, old(cache.entries), now, outcomes);
        posted == old(posted) + (if o.Check? then [(c, a.value)] else [])
      ensures var o := Classify(c.body, c.author, parentAuthor);
        cache.entries == if o.Check? then CacheAfter(old(cache.entries), o.user, now, storedAt, outcomes) else old(cache.entries)
    {
      var o := Classify(c.body, c.author, parentAuthor);
      if o.BotSelfQuery? {
        queued := queued + [(c, BotInfo)];
      } else if o.Check? {
        var fetched := cache.Fetch(o.user, now, storedAt, outcomes);
        var score := CountWholesome(fetched.comments, lexicon);
        var text := ReplyText(c.body, o.user, score);
        queued := queued + [(c, text)];
        posted := posted + [(c, text)];
      }
    }
  }
}
