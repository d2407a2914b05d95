/**
 * The reply texts: the fixed text when the bot is asked about itself, and otherwise the count
 * followed by a Markdown table with one `| word | count |` row per counted word, in the
 * second person for `!uwucheckself` and in the third person naming the user otherwise.
 */
module Reply {
  import opened Text
  import opened Trigger
  import opened Scoring

  /** The reply when the target user is the bot itself. */
  const BotInfo: string :=
    "This is the Reddit wholesome counter bot. Leave a comment with a username to get their wholesome count!"

  /** The words both templates start with. */
  const Lead: string := "The number of wholesome occurrences in "

  const YourIntro: string := Lead + "your recent 500 comments is "

  function TheirIntro(user: string): string {
    Lead + "the recent 500 comments of u/" + user + " is "
  }

  /** What follows the count, up to the table rows. */
  const TableHeader: string := ".\n\n| Word | Count |\n| --- | --- |\n"

  /** What follows the table rows; note that it starts with ` |`. */
  const Closing: string :=
    " |\n\nStay wholesome!  \n\nWanna do something even more wholesome? Leave a \U{2B50} at the [GitHub repository](https://github.com/MeowthyVoyager/reddit-wholesome-counter)."

  /** `f"| {word} | {count} |"` */
  function Row(word: string, count: nat): string {
    "| " + word + " | " + Decimal(count) + " |"
  }

  /** One row per counted word, in the counter's order. */
  function Rows(c: Counter): (rows: seq<string>)
    requires WellFormed(c)
    ensures |rows| == |c.keys|
    ensures forall k :: 0 <= k < |rows| ==> rows[k] == Row(c.keys[k], c.counts[c.keys[k]])
  {
    seq(|c.keys|, k requires 0 <= k < |c.keys| => Row(c.keys[k], c.counts[c.keys[k]]))
  }

  /** `"\n".join(table_rows)` */
  function Table(c: Counter): string
    requires WellFormed(c)
  {
    Join(Rows(c), "\n")
  }

  /** The template is chosen by the same test as the `!uwucheckself` target rule. */
  function Intro(body: string, user: string): string {
    if Contains(Lower(body), SelfCommand) then YourIntro else TheirIntro(user)
  }

  /** The reply for a scored user. */
  function ReplyText(body: string, user: string, score: ScoreResult): string
    requires WellFormed(score.counter)
  {
    Intro(body, user) + (Decimal(score.total) + (TableHeader + Table(score.counter) + Closing))
  }

  /** An empty counter gives an empty table; otherwise splitting the table at line breaks gives
      back exactly one row per counted word, in first-seen order. */
  lemma TableLines(c: Counter)
    requires WellFormed(c)
    requires forall k :: 0 <= k < |c.keys| ==> '\n' !in c.keys[k]
    ensures c.keys == [] ==> Table(c) == []
    ensures c.keys != [] ==> SplitOn(Table(c), '\n') == Rows(c)
  {
    var rows := Rows(c);
    forall k | 0 <= k < |rows| ensures '\n' !in rows[k] {
      var d := Decimal(c.counts[c.keys[k]]);
      assert rows[k] == "| " + c.keys[k] + " | " + d + " |";
      assert '\n' !in d;
    }
    if rows != [] {
      SplitOnJoin(rows, '\n');
    }
  }

  /** The scorer's counter always satisfies the precondition of `TableLines`. */
  lemma CountedWordsHaveNoLineBreak(comments: seq<History.CommentRecord>, lexicon: set<string>)
    ensures var c := ScoreOf(comments, lexicon).counter;
      forall k :: 0 <= k < |c.keys| ==> '\n' !in c.keys[k]
  {
    var c := ScoreOf(comments, lexicon).counter;
    forall k | 0 <= k < |c.keys| ensures '\n' !in c.keys[k] {
      assert c.keys[k] in c.counts;
      assert IsToken(c.keys[k]);
    }
  }

  /** No text that starts with the third-person introduction starts with the second-person one. */
  lemma IntrosDiffer(user: string, rest: string)
    ensures !(YourIntro <= TheirIntro(user) + rest)
  {
    var their := "the recent 500 comments of u/" + user + " is ";
    assert TheirIntro(user) + rest == Lead + (their + rest);
    assert (Lead + (their + rest))[|Lead|] == 't';
    assert YourIntro[|Lead|] == 'y';
  }

  /** The reply is in the second person exactly when the lower-cased body contains
      `!uwucheckself`, and otherwise in the third person naming the user. */
  lemma ReplyPerson(body: string, user: string, score: ScoreResult)
    requires WellFormed(score.counter)
    ensures YourIntro <= ReplyText(body, user, score) <==> Contains(Lower(body), SelfCommand)
    ensures !Contains(Lower(body), SelfCommand) ==> TheirIntro(user) <= ReplyText(body, user, score)
  {
    var rest := Decimal(score.total) + (TableHeader + Table(score.counter) + Closing);
    var intro := Intro(body, user);
    assert ReplyText(body, user, score) == intro + rest;
    assert intro <= intro + rest;
    if !Contains(Lower(body), SelfCommand) {
      IntrosDiffer(user, rest);
    }
  }

  /** The number written right after the introduction, read up to the first non-digit. */
  function ReportedCount(r: string, from: nat): nat
    requires from <= |r|
  {
    var n := DigitRun(r[from..]);
    DigitsValue(r[from..][..n])
  }

  /** A number written in decimal and followed by a non-digit can be read back. */
  lemma ReadBack(intro: string, n: nat, t: string)
    requires t != [] && !IsDigit(t[0])
    ensures |intro| <= |intro + (Decimal(n) + t)|
    ensures ReportedCount(intro + (Decimal(n) + t), |intro|) == n
  {
    assert (intro + (Decimal(n) + t))[|intro|..] == Decimal(n) + t;
    DigitRunOfDecimal(n, t);
    DecimalRoundTrip(n);
  }

  /** The count can be read back from the reply. */
  lemma ReplyReportsTotal(body: string, user: string, score: ScoreResult)
    requires WellFormed(score.counter)
    ensures |Intro(body, user)| <= |ReplyText(body, user, score)|
    ensures ReportedCount(ReplyText(body, user, score), |Intro(body, user)|) == score.total
  {
    var t := TableHeader + Table(score.counter) + Closing;
    assert ReplyText(body, user, score) == Intro(body, user) + (Decimal(score.total) + t);
    assert t[0] == '.';
    ReadBack(Intro(body, user), score.total, t);
  }

  /** The reply ends with the header, the table and the closing text, so the closing text's
      leading ` |` lands right after the last row. */
  lemma ReplyEmbedsTable(body: string, user: string, score: ScoreResult)
    requires WellFormed(score.counter)
    ensures var r, tail := ReplyText(body, user, score), TableHeader + Table(score.counter) + Closing;
      |tail| <= |r| && r[|r| - |tail|..] == tail
  {
  }

}
