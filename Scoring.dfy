/**
 * The wholesome score of a history: every comment body is cleaned of punctuation, lower-cased
 * and split on whitespace; every token found in the lexicon adds one to the total and one to
 * that word's entry in a counter that remembers the order in which words were first seen.
 */
module Scoring {
  import opened Text
  import opened History

  /** A token as the scorer sees it: non-empty, lower-case word characters only. */
  predicate IsToken(w: string) {
    w != [] && forall i :: 0 <= i < |w| ==> IsLowerWordChar(w[i])
  }

  /** `re.sub(r'[^\w\s]', '', body).lower().split()` */
  function Tokens(body: string): seq<string> {
    Words(Lower(StripPunctuation(body)))
  }

  /** Every token is non-empty and made of lower-case word characters. */
  lemma TokensAreTokens(body: string)
    ensures forall k :: 0 <= k < |Tokens(body)| ==> IsToken(Tokens(body)[k])
  {
    WordsOfCleanText(Lower(StripPunctuation(body)));
  }

  /** The tokens of all bodies, comment after comment. */
  function AllTokens(comments: seq<CommentRecord>): seq<string> {
    if comments == [] then []
    else AllTokens(comments[..|comments| - 1]) + Tokens(comments[|comments| - 1].body)
  }

  lemma {:induction false} AllTokensAreTokens(comments: seq<CommentRecord>)
    ensures forall k :: 0 <= k < |AllTokens(comments)| ==> IsToken(AllTokens(comments)[k])
  {
    if comments != [] {
      AllTokensAreTokens(comments[..|comments| - 1]);
      TokensAreTokens(comments[|comments| - 1].body);
    }
  }

  /** The tokens that are in the lexicon, in the order they occur. */
  function Hits(tokens: seq<string>, lexicon: set<string>): seq<string> {
    if tokens == [] then []
    else Hits(tokens[..|tokens| - 1], lexicon) + (if tokens[|tokens| - 1] in lexicon then [tokens[|tokens| - 1]] else [])
  }

  /** How many times `w` occurs in `ws`. */
  function Occurrences(ws: seq<string>, w: string): (n: nat)
    ensures n <= |ws|
    ensures n > 0 <==> w in ws
  {
    if ws == [] then 0
    else
      assert ws == ws[..|ws| - 1] + [ws[|ws| - 1]];
      Occurrences(ws[..|ws| - 1], w) + (if ws[|ws| - 1] == w then 1 else 0)
  }

  /** A `collections.Counter`: its keys in insertion order, and the count of each. */
  datatype Counter = Counter(keys: seq<string>, counts: map<string, nat>)

  /** The keys are distinct and are exactly the words that have a count. */
  ghost predicate WellFormed(c: Counter) {
    && (forall i, j :: 0 <= i < j < |c.keys| ==> c.keys[i] != c.keys[j])
    && (forall w :: w in c.counts <==> w in c.keys)
  }

  /** `counter[w] += 1`: a missing word starts at zero and is appended to the keys. */
  function Increment(c: Counter, w: string): Counter {
    if w in c.counts then Counter(c.keys, c.counts[w := c.counts[w] + 1])
    else Counter(c.keys + [w], c.counts[w := 1])
  }

  /** The counter after incrementing it once for every word of `hs`, in order. */
  function CounterOf(hs: seq<string>): Counter {
    if hs == [] then Counter([], map[]) else Increment(CounterOf(hs[..|hs| - 1]), hs[|hs| - 1])
  }

  /** `sum(counter.values())` */
  function SumCounts(keys: seq<string>, counts: map<string, nat>): nat {
    if keys == [] then 0
    else SumCounts(keys[..|keys| - 1], counts) + (if keys[|keys| - 1] in counts then counts[keys[|keys| - 1]] else 0)
  }

  /** The position of the first occurrence of `w` in `ws`. */
  function FirstIndex(ws: seq<string>, w: string): (k: nat)
    requires w in ws
    ensures k < |ws| && ws[k] == w
    ensures forall j :: 0 <= j < k ==> ws[j] != w
  {
    if ws[0] == w then 0 else 1 + FirstIndex(ws[1..], w)
  }

  /** The counter's keys are the distinct words of `hs`, each once. */
  lemma {:induction false} CounterKeys(hs: seq<string>)
    ensures WellFormed(CounterOf(hs))
    ensures forall w :: w in CounterOf(hs).counts <==> w in hs
  {
    if hs != [] {
      var prefix := hs[..|hs| - 1];
      CounterKeys(prefix);
      assert hs == prefix + [hs[|hs| - 1]];
    }
  }

  /** Each word's count is the number of times it occurs in `hs`. */
  lemma {:induction false} CounterCounts(hs: seq<string>)
    ensures forall w :: w in CounterOf(hs).counts ==> CounterOf(hs).counts[w] == Occurrences(hs, w)
  {
    if hs != [] {
      CounterCounts(hs[..|hs| - 1]);
      CounterKeys(hs[..|hs| - 1]);
    }
    CounterKeys(hs);
  }

  lemma {:induction false} SumCountsOther(keys: seq<string>, counts: map<string, nat>, w: string, v: nat)
    requires w !in keys
    ensures SumCounts(keys, counts[w := v]) == SumCounts(keys, counts)
  {
    if keys != [] {
      SumCountsOther(keys[..|keys| - 1], counts, w, v);
    }
  }

  lemma {:induction false} SumCountsBump(keys: seq<string>, counts: map<string, nat>, w: string)
    requires w in counts && w in keys
    requires forall i, j :: 0 <= i < j < |keys| ==> keys[i] != keys[j]
    ensures SumCounts(keys, counts[w := counts[w] + 1]) == SumCounts(keys, counts) + 1
  {
    var prefix, last := keys[..|keys| - 1], keys[|keys| - 1];
    if last == w {
      assert w !in prefix;
      SumCountsOther(prefix, counts, w, counts[w] + 1);
    } else {
      assert w in prefix;
      SumCountsBump(prefix, counts, w);
    }
  }

  /** The counts add up to the number of words counted. */
  lemma {:induction false} CounterSum(hs: seq<string>)
    ensures SumCounts(CounterOf(hs).keys, CounterOf(hs).counts) == |hs|
  {
    if hs != [] {
      var prefix, w := hs[..|hs| - 1], hs[|hs| - 1];
      var c := CounterOf(prefix);
      CounterSum(prefix);
      CounterKeys(prefix);
      assert hs == prefix + [w];
      CounterOfStep(prefix, w);
      if w in c.counts {
        SumCountsBump(c.keys, c.counts, w);
      } else {
        SumCountsOther(c.keys, c.counts, w, 1);
        assert (c.keys + [w])[..|c.keys|] == c.keys;
      }
    }
  }

  /** Keys listed earlier first occur earlier in `hs`. */
  ghost predicate FirstSeenOrder(keys: seq<string>, hs: seq<string>) {
    forall i, j :: 0 <= i < j < |keys| ==>
      keys[i] in hs && keys[j] in hs && FirstIndex(hs, keys[i]) < FirstIndex(hs, keys[j])
  }

  /** The keys are in first-seen order. */
  lemma {:induction false} CounterFirstSeen(hs: seq<string>)
    ensures FirstSeenOrder(CounterOf(hs).keys, hs)
  {
    if hs != [] {
      var prefix, w := hs[..|hs| - 1], hs[|hs| - 1];
      assert hs == prefix + [w];
      CounterFirstSeen(prefix);
      CounterKeys(prefix);
      var before, keys := CounterOf(prefix).keys, CounterOf(hs).keys;
      forall i, j | 0 <= i < j < |keys|
        ensures keys[i] in hs && keys[j] in hs && FirstIndex(hs, keys[i]) < FirstIndex(hs, keys[j])
      {
        FirstSeenStep(prefix, w, before, keys, i, j);
      }
    }
  }

  lemma FirstSeenStep(prefix: seq<string>, w: string, before: seq<string>, keys: seq<string>, i: nat, j: nat)
    requires FirstSeenOrder(before, prefix)
    requires forall v :: v in before <==> v in prefix
    requires keys == before || (w !in prefix && keys == before + [w])
    requires i < j < |keys|
    ensures keys[i] in prefix + [w] && keys[j] in prefix + [w]
    ensures FirstIndex(prefix + [w], keys[i]) < FirstIndex(prefix + [w], keys[j])
  {
    assert keys[i] == before[i];
    FirstIndexExtend(prefix, w, keys[i]);
    FirstIndexExtend(prefix, w, keys[j]);
    if j < |before| {
      assert keys[j] == before[j];
    }
  }

  lemma FirstIndexExtend(prefix: seq<string>, w: string, v: string)
    requires v in prefix + [w]
    ensures v in prefix ==> FirstIndex(prefix + [w], v) == FirstIndex(prefix, v)
    ensures v !in prefix ==> FirstIndex(prefix + [w], v) == |prefix|
  {
    var s := prefix + [w];
    var k := FirstIndex(s, v);
    if v in prefix {
      var k0 := FirstIndex(prefix, v);
      assert s[k0] == v;
      assert k <= k0;
      assert prefix[k] == v;
    }
  }

  /** What one score computation produces: the total and the per-word counter. */
  datatype ScoreResult = ScoreResult(total: nat, counter: Counter)

  /** The score of a history against a lexicon. */
  function ScoreOf(comments: seq<CommentRecord>, lexicon: set<string>): (r: ScoreResult)
    ensures WellFormed(r.counter)
    ensures r.total == SumCounts(r.counter.keys, r.counter.counts)
    ensures forall w :: w in r.counter.counts ==> w in lexicon && IsToken(w)
  {
    var ts := AllTokens(comments);
    var hs := Hits(ts, lexicon);
    CounterKeys(hs);
    CounterSum(hs);
    AllTokensAreTokens(comments);
    assert forall w :: w in hs ==> w in lexicon && w in ts by {
      forall w ensures w in hs ==> w in lexicon && w in ts {
        HitsOccurrences(ts, lexicon, w);
      }
    }
    ScoreResult(|hs|, CounterOf(hs))
  }

  lemma OccurrencesStep(ws: seq<string>, x: string, w: string)
    ensures Occurrences(ws + [x], w) == Occurrences(ws, w) + if x == w then 1 else 0
  {
    assert (ws + [x])[..|ws|] == ws;
  }

  lemma HitsStep(prefix: seq<string>, t: string, lexicon: set<string>)
    ensures Hits(prefix + [t], lexicon) == Hits(prefix, lexicon) + (if t in lexicon then [t] else [])
  {
    assert (prefix + [t])[..|prefix|] == prefix;
  }

  /** Filtering by the lexicon neither adds nor drops occurrences of a lexicon word. */
  lemma {:induction false} HitsOccurrences(tokens: seq<string>, lexicon: set<string>, w: string)
    ensures Occurrences(Hits(tokens, lexicon), w) == if w in lexicon then Occurrences(tokens, w) else 0
  {
    if tokens != [] {
      var prefix, t := tokens[..|tokens| - 1], tokens[|tokens| - 1];
      assert tokens == prefix + [t];
      HitsOccurrences(prefix, lexicon, w);
      HitsStep(prefix, t, lexicon);
      OccurrencesStep(prefix, t, w);
      var hs := Hits(prefix, lexicon);
      if t in lexicon {
        OccurrencesStep(hs, t, w);
      } else {
        assert hs + [] == hs;
      }
    }
  }

  /** Filtering by the lexicon keeps the order in which lexicon words are first seen. */
  lemma {:induction false} HitsKeepFirstSeen(tokens: seq<string>, lexicon: set<string>, u: string, v: string)
    requires u in Hits(tokens, lexicon) && v in Hits(tokens, lexicon)
    requires FirstIndex(Hits(tokens, lexicon), u) < FirstIndex(Hits(tokens, lexicon), v)
    ensures u in tokens && v in tokens && FirstIndex(tokens, u) < FirstIndex(tokens, v)
  {
    var prefix, t := tokens[..|tokens| - 1], tokens[|tokens| - 1];
    assert tokens == prefix + [t];
    HitsStep(prefix, t, lexicon);
    var hs := Hits(prefix, lexicon);
    var hs' := Hits(tokens, lexicon);
    OccurrencesMember(hs, u, lexicon, prefix);
    OccurrencesMember(hs, v, lexicon, prefix);
    if u in hs && v in hs {
      FirstIndexExtend(hs, t, u);
      FirstIndexExtend(hs, t, v);
      assert hs' == hs || hs' == hs + [t];
      if hs' == hs {
        assert hs' == hs + [];
      }
      HitsKeepFirstSeen(prefix, lexicon, u, v);
      FirstIndexExtend(prefix, t, u);
      FirstIndexExtend(prefix, t, v);
    } else if u in hs {
      assert hs' == hs + [t] && v == t;
      FirstIndexExtend(prefix, t, u);
      FirstIndexExtend(prefix, t, v);
    } else {
      FirstIndexExtend(hs, t, u);
      FirstIndexExtend(hs, t, v);
    }
  }

  lemma OccurrencesMember(hs: seq<string>, w: string, lexicon: set<string>, tokens: seq<string>)
    requires hs == Hits(tokens, lexicon)
    ensures w in hs <==> w in lexicon && w in tokens
  {
    HitsOccurrences(tokens, lexicon, w);
  }

  /** A word is counted exactly when it is in the lexicon and occurs among the history's tokens,
      and its count is its number of occurrences there. */
  lemma ScoreCounts(comments: seq<CommentRecord>, lexicon: set<string>)
    ensures var c, ts := ScoreOf(comments, lexicon).counter, AllTokens(comments);
      forall w :: (w in c.counts <==> w in lexicon && w in ts)
                  && (w in c.counts ==> c.counts[w] == Occurrences(ts, w))
  {
    var ts := AllTokens(comments);
    var hs := Hits(ts, lexicon);
    CounterKeys(hs);
    CounterCounts(hs);
    forall w {
      HitsOccurrences(ts, lexicon, w);
    }
  }

  /** The counter lists its words in the order they are first seen in the history. */
  lemma ScoreFirstSeen(comments: seq<CommentRecord>, lexicon: set<string>)
    ensures FirstSeenOrder(ScoreOf(comments, lexicon).counter.keys, AllTokens(comments))
  {
    var ts := AllTokens(comments);
    var hs := Hits(ts, lexicon);
    var keys := CounterOf(hs).keys;
    CounterFirstSeen(hs);
    forall i, j | 0 <= i < j < |keys|
      ensures keys[i] in ts && keys[j] in ts && FirstIndex(ts, keys[i]) < FirstIndex(ts, keys[j])
    {
      HitsKeepFirstSeen(ts, lexicon, keys[i], keys[j]);
    }
  }

  /** Punctuation is removed before lookup: inserting it anywhere changes no token. */
  lemma TokensIgnorePunctuation(a: string, p: string, b: string)
    requires forall i :: 0 <= i < |p| ==> !IsKept(p[i])
    ensures Tokens(a + p + b) == Tokens(a + b)
  {
    StripIgnoresPunctuation(a, p, b);
  }

  /** An empty history scores zero with an empty counter. */
  lemma EmptyHistory(lexicon: set<string>)
    ensures ScoreOf([], lexicon) == ScoreResult(0, Counter([], map[]))
  {
  }

  /** The lexicon is not lower-cased, so a lexicon entry with an upper-case letter never counts. */
  lemma UpperCaseEntryNeverCounts(comments: seq<CommentRecord>, lexicon: set<string>, w: string, i: nat)
    requires i < |w| && IsUpper(w[i])
    ensures w !in ScoreOf(comments, lexicon).counter.counts
  {
  }

  /** Punctuation goes before lower-casing: `Kind!` is the token `kind`. */
  lemma KindExample(body: string)
    requires body == "Kind!"
    ensures Tokens(body) == ["kind"]
  {
    assert body == "Kind" + "!" + [] && "Kind" + [] == "Kind";
    StripIgnoresPunctuation("Kind", "!", []);
    StripKeepsClean("Kind");
    assert Lower("Kind") == Join(["kind"], " ");
    WordsOfJoin(["kind"]);
  }

  lemma AllTokensStep(comments: seq<CommentRecord>, i: nat)
    requires i < |comments|
    ensures AllTokens(comments[..i + 1]) == AllTokens(comments[..i]) + Tokens(comments[i].body)
  {
    assert comments[..i + 1][..i] == comments[..i];
  }

  lemma CounterOfStep(hs: seq<string>, w: string)
    ensures CounterOf(hs + [w]) == Increment(CounterOf(hs), w)
  {
    assert (hs + [w])[..|hs|] == hs;
  }

  /** The inner scoring loop over one body's tokens, continuing the count of the tokens `done`
      seen before them. */
  method CountTokens(tokens: seq<string>, lexicon: set<string>, ghost done: seq<string>,
                     total0: nat, keys0: seq<string>, counts0: map<string, nat>)
    returns (total: nat, keys: seq<string>, counts: map<string, nat>)
    requires total0 == |Hits(done, lexicon)| && Counter(keys0, counts0) == CounterOf(Hits(done, lexicon))
    ensures total == |Hits(done + tokens, lexicon)| && Counter(keys, counts) == CounterOf(Hits(done + tokens, lexicon))
  {
    total, keys, counts := total0, keys0, counts0;
    ghost var seen, hits := done, Hits(done, lexicon);
    assert done + tokens[..0] == done;
    var j := 0;
    while j < |tokens|
      invariant 0 <= j <= |tokens|
      invariant seen == done + tokens[..j]
      invariant hits == Hits(seen, lexicon)
      invariant total == |hits| && Counter(keys, counts) == CounterOf(hits)
    {
      var token := tokens[j];
      assert tokens[..j + 1] == tokens[..j] + [token];
      assert done + tokens[..j + 1] == seen + [token];
      HitsStep(seen, token, lexicon);
      seen := seen + [token];
      if token in lexicon {
        CounterOfStep(hits, token);
        hits := hits + [token];
        total := total + 1;
        if token in counts {
          counts := counts[token := counts[token] + 1];
        } else {
          keys := keys + [token];
          counts := counts[token := 1];
        }
      } else {
        assert hits + [] == hits;
      }
      j := j + 1;
    }
    assert tokens[..j] == tokens;
  }

  /** The scoring loop over the history; each body's tokens go through `CountTokens`. */
  method CountWholesome(comments: seq<CommentRecord>, lexicon: set<string>) returns (r: ScoreResult)
    ensures r == ScoreOf(comments, lexicon)
    ensures r.total == SumCounts(r.counter.keys, r.counter.counts)
  {
    var total: nat := 0;
    var keys: seq<string> := [];
    var counts: map<string, nat> := map[];
    var i := 0;
    while i < |comments|
      invariant 0 <= i <= |comments|
      invariant total == |Hits(AllTokens(comments[..i]), lexicon)|
      invariant Counter(keys, counts) == CounterOf(Hits(AllTokens(comments[..i]), lexicon))
    {
      var tokens := Tokens(comments[i].body);
      AllTokensStep(comments, i);
      total, keys, counts := CountTokens(tokens, lexicon, AllTokens(comments[..i]), total, keys, counts);
      i := i + 1;
    }
    assert comments[..i] == comments;
    r := ScoreResult(total, Counter(keys, counts));
  }
}
