/**
 * Which incoming comments the bot answers and whose history it scores: the trigger gate on the
 * lower-cased body, then the target user by precedence (`!uwucheckself`, the `[self]` marker,
 * the parent comment's author), then the special case of the bot being asked about itself.
 */
module Trigger {
  import opened Text

  /** The bot's own account name. */
  const BotName: string := "wholesome-counter"

  /** Phrases whose presence in the lower-cased body makes the bot answer. */
  const TriggerPhrases: seq<string> := ["!wholesomenesscheck", "!wholesomecheck", "!uwucheck", "!uwucheckself"]

  /** Asks for the author's own score, phrased in the second person. */
  const SelfCommand: string := "!uwucheckself"

  /** Asks for the author's own score, phrased in the third person; matched case-sensitively. */
  const SelfMarker: string := "[self]"

  /** Which rule chose the target user. */
  datatype Route = SelfCommandRoute | SelfMarkerRoute | ParentRoute

  datatype Outcome =
    | NoTrigger                             // the comment is ignored
    | BotSelfQuery                          // the target is the bot: fixed explanatory reply
    | Check(route: Route, user: string)     // score `user`'s recent history

  /** `any(phrase in body.lower() for phrase in trigger_phrases)` */
  predicate IsTriggered(body: string) {
    exists p :: p in TriggerPhrases && Contains(Lower(body), p)
  }

  /** `a.lower() == b.lower()` */
  predicate SameUserName(a: string, b: string) {
    Lower(a) == Lower(b)
  }

  /** The target user and the rule that chose it, for a comment that passed the gate. */
  function ResolveTarget(body: string, author: string, parentAuthor: string): (Route, string)
  {
    if Contains(Lower(body), SelfCommand) then (SelfCommandRoute, author)
    else if Contains(body, SelfMarker) then (SelfMarkerRoute, author)
    else (ParentRoute, parentAuthor)
  }

  /** The decision taken for one incoming comment. */
  function Classify(body: string, author: string, parentAuthor: string): (o: Outcome)
    ensures o == NoTrigger <==> !IsTriggered(body)
    ensures o == BotSelfQuery <==> IsTriggered(body) && SameUserName(ResolveTarget(body, author, parentAuthor).1, BotName)
    ensures o.Check? ==> o.user in {author, parentAuthor} && !SameUserName(o.user, BotName)
  {
    if !IsTriggered(body) then NoTrigger
    else
      var (route, user) := ResolveTarget(body, author, parentAuthor);
      if SameUserName(user, BotName) then BotSelfQuery else Check(route, user)
  }

  /** The gate: the comment is answered exactly when its lower-cased body contains one of the
      first three phrases; `!uwucheckself` adds nothing, since it contains `!uwucheck`. */
  lemma TriggerGate(body: string, author: string, parentAuthor: string)
    ensures Classify(body, author, parentAuthor) != NoTrigger <==>
              Contains(Lower(body), "!wholesomenesscheck") || Contains(Lower(body), "!wholesomecheck")
              || Contains(Lower(body), "!uwucheck")
  {
    var l := Lower(body);
    assert TriggerPhrases[0] == "!wholesomenesscheck" && TriggerPhrases[1] == "!wholesomecheck";
    assert TriggerPhrases[2] == "!uwucheck" && TriggerPhrases[3] == "!uwucheckself";
    if Contains(l, SelfCommand) {
      ContainsPrefixOf(l, SelfCommand, "!uwucheck");
    }
  }

  /** `!uwucheckself` in any letter case always targets the comment's own author. */
  lemma SelfCommandFirst(body: string, author: string, parentAuthor: string)
    requires Contains(Lower(body), SelfCommand)
    ensures Classify(body, author, parentAuthor) ==
              if SameUserName(author, BotName) then BotSelfQuery else Check(SelfCommandRoute, author)
  {
    assert SelfCommand in TriggerPhrases;
  }

  /** Without `!uwucheckself`, the exact marker `[self]` targets the comment's own author. */
  lemma SelfMarkerSecond(body: string, author: string, parentAuthor: string)
    requires IsTriggered(body)
    requires !Contains(Lower(body), SelfCommand) && Contains(body, SelfMarker)
    ensures Classify(body, author, parentAuthor) ==
              if SameUserName(author, BotName) then BotSelfQuery else Check(SelfMarkerRoute, author)
  {
  }

  /** Otherwise the parent comment's author is the target. */
  lemma ParentOtherwise(body: string, author: string, parentAuthor: string)
    requires IsTriggered(body)
    requires !Contains(Lower(body), SelfCommand) && !Contains(body, SelfMarker)
    ensures Classify(body, author, parentAuthor) ==
              if SameUserName(parentAuthor, BotName) then BotSelfQuery else Check(ParentRoute, parentAuthor)
  {
  }

  /** Lower-casing the example body of `MarkerIsCaseSensitive`. */
  lemma LowerOfUpperMarker(body: string)
    requires body == "!wholesomecheck [SELF]"
    ensures Lower(body) == "!wholesomecheck [self]"
  {
    var lower := "!wholesomecheck [self]";
    forall i | 0 <= i < |body| ensures Lower(body)[i] == lower[i] {
      if 16 < i < 21 {
        assert IsUpper(body[i]);
      }
    }
  }

  /** The example body of `MarkerIsCaseSensitive` has no `f`; its lower-cased form has no `u` and
      starts with `!wholesomecheck`. */
  lemma UpperMarkerLetters(body: string, lower: string)
    requires body == "!wholesomecheck [SELF]" && lower == "!wholesomecheck [self]"
    ensures 'f' !in body && 'u' !in lower
    ensures TriggerPhrases[1] <= lower
  {
  }

  /** The `[self]` marker is case-sensitive: with `[SELF]` the target is still the parent's author. */
  lemma MarkerIsCaseSensitive(body: string, author: string, parentAuthor: string)
    requires body == "!wholesomecheck [SELF]"
    ensures Classify(body, author, parentAuthor) ==
              if SameUserName(parentAuthor, BotName) then BotSelfQuery else Check(ParentRoute, parentAuthor)
  {
    var lower := Lower(body);
    LowerOfUpperMarker(body);
    UpperMarkerLetters(body, lower);
    ContainsNeedsEveryChar(lower, SelfCommand, 'u');
    ContainsNeedsEveryChar(body, SelfMarker, 'f');
    assert TriggerPhrases[1] in TriggerPhrases;
    ParentOtherwise(body, author, parentAuthor);
  }
}
