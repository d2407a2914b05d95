/**
 * The string operations the bot relies on: Python's `str.lower`, `re.sub(r'[^\w\s]', '', ...)`,
 * `str.split()`, `'\n'.join(...)`, `str(n)` and the `in` substring test, all restricted to ASCII
 * character classes; plus splitting at one character and reading a number back, the inverses
 * used to state what the joined table and the written count contain.
 */
module Text {

  /** ASCII upper-case letter. */
  predicate IsUpper(c: char) {
    'A' <= c <= 'Z'
  }

  /** ASCII decimal digit. */
  predicate IsDigit(c: char) {
    '0' <= c <= '9'
  }

  /** The ASCII part of the regular-expression class `\w`: letters, digits and underscore. */
  predicate IsWordChar(c: char) {
    'a' <= c <= 'z' || IsUpper(c) || IsDigit(c) || c == '_'
  }

  /** The ASCII characters that `\s` and `str.split()` treat as whitespace. */
  predicate IsSpace(c: char) {
    c == ' ' || c == '\t' || c == '\n' || c == '\r' || c == '\U{B}' || c == '\U{C}'
    || ('\U{1C}' <= c <= '\U{1F}')
  }

  /** A character that `[^\w\s]` does not match, so that `re.sub` keeps it. */
  predicate IsKept(c: char) {
    IsWordChar(c) || IsSpace(c)
  }

  function LowerChar(c: char): (d: char)
    ensures !IsUpper(d)
    ensures !IsUpper(c) ==> d == c
    ensures IsUpper(c) ==> 'a' <= d <= 'z' && d as int == c as int + 32
  {
    if IsUpper(c) then (c as int + 32) as char else c
  }

  /** `s.lower()` on ASCII letters; every other character is left as it is. */
  function Lower(s: string): (r: string)
    ensures |r| == |s|
    ensures forall i :: 0 <= i < |s| ==> r[i] == LowerChar(s[i])
  {
    seq(|s|, i requires 0 <= i < |s| => LowerChar(s[i]))
  }

  predicate NoUpper(s: string) {
    forall i :: 0 <= i < |s| ==> !IsUpper(s[i])
  }

  lemma LowerIsLower(s: string)
    ensures NoUpper(Lower(s))
    ensures Lower(Lower(s)) == Lower(s)
  {
  }

  /** `p` occurs in `s` starting at index `i`. */
  predicate OccursAt(s: string, p: string, i: int) {
    0 <= i && i + |p| <= |s| && s[i..i + |p|] == p
  }

  /** Python's `p in s` for strings: is `p` a substring of `s`? */
  predicate Contains(s: string, p: string)
    decreases |s|
  {
    p <= s || (s != [] && Contains(s[1..], p))
  }

  /** An occurrence in the tail of `s` is an occurrence in `s` one position later. */
  lemma OccursInTail(s: string, p: string, i: nat)
    requires s != []
    ensures OccursAt(s[1..], p, i) <==> OccursAt(s, p, i + 1)
  {
    if i + 1 + |p| <= |s| {
      assert s[1..][i..i + |p|] == s[i + 1..i + 1 + |p|];
    }
  }

  /** `Contains` holds exactly when there is a position where `p` occurs. */
  lemma {:induction false} ContainsIff(s: string, p: string)
    ensures Contains(s, p) <==> exists i :: OccursAt(s, p, i)
    decreases |s|
  {
    if p <= s {
      assert OccursAt(s, p, 0);
    } else if s == [] {
      forall i ensures !OccursAt(s, p, i) {}
    } else {
      ContainsIff(s[1..], p);
      if Contains(s[1..], p) {
        var j :| OccursAt(s[1..], p, j);
        OccursInTail(s, p, j);
      }
      if exists i :: OccursAt(s, p, i) {
        var i :| OccursAt(s, p, i);
        if i > 0 {
          OccursInTail(s, p, i - 1);
        }
      }
    }
  }

  /** A string lacking one of the characters of `p` does not contain `p`. */
  lemma ContainsNeedsEveryChar(s: string, p: string, c: char)
    requires c in p && c !in s
    ensures !Contains(s, p)
  {
    ContainsIff(s, p);
  }

  /** A string that contains a longer string contains every prefix of it. */
  lemma ContainsPrefixOf(s: string, p: string, q: string)
    requires q <= p
    requires Contains(s, p)
    ensures Contains(s, q)
  {
    ContainsIff(s, p);
    ContainsIff(s, q);
    var i :| OccursAt(s, p, i);
    assert s[i..i + |q|] == s[i..i + |p|][..|q|];
    assert OccursAt(s, q, i);
  }

  /** `re.sub(r'[^\w\s]', '', s)`: every character that is neither a word character nor whitespace is deleted. */
  function StripPunctuation(s: string): (r: string)
    ensures |r| <= |s|
    ensures forall i :: 0 <= i < |r| ==> IsKept(r[i])
    decreases |s|
  {
    if s == [] then [] else (if IsKept(s[0]) then [s[0]] else []) + StripPunctuation(s[1..])
  }

  lemma {:induction false} StripAppend(a: string, b: string)
    ensures StripPunctuation(a + b) == StripPunctuation(a) + StripPunctuation(b)
    decreases |a|
  {
    if a != [] {
      assert (a + b)[0] == a[0];
      assert (a + b)[1..] == a[1..] + b;
      StripAppend(a[1..], b);
    } else {
      assert a + b == b;
    }
  }

  /** Text made only of punctuation disappears entirely. */
  lemma {:induction false} StripPunctuationOnly(p: string)
    requires forall i :: 0 <= i < |p| ==> !IsKept(p[i])
    ensures StripPunctuation(p) == []
    decreases |p|
  {
    if p != [] {
      StripPunctuationOnly(p[1..]);
    }
  }

  /** Text made only of word characters and whitespace is left unchanged. */
  lemma {:induction false} StripKeepsClean(s: string)
    requires forall i :: 0 <= i < |s| ==> IsKept(s[i])
    ensures StripPunctuation(s) == s
    decreases |s|
  {
    if s != [] {
      StripKeepsClean(s[1..]);
    }
  }

  /** Inserting punctuation anywhere does not change the stripped text. */
  lemma StripIgnoresPunctuation(a: string, p: string, b: string)
    requires forall i :: 0 <= i < |p| ==> !IsKept(p[i])
    ensures StripPunctuation(a + p + b) == StripPunctuation(a + b)
  {
    StripAppend(a + p, b);
    StripAppend(a, p);
    StripAppend(a, b);
    StripPunctuationOnly(p);
  }

  /** A token produced by `str.split()`: non-empty and free of whitespace. */
  predicate IsWord(w: string) {
    w != [] && forall i :: 0 <= i < |w| ==> !IsSpace(w[i])
  }

  /** Length of the run of non-whitespace characters at the start of `s`. */
  function WordLength(s: string): (n: nat)
    ensures n <= |s|
    ensures forall i :: 0 <= i < n ==> !IsSpace(s[i])
    ensures n == |s| || IsSpace(s[n])
    decreases |s|
  {
    if s == [] || IsSpace(s[0]) then 0 else 1 + WordLength(s[1..])
  }

  /** `s.split()`: the maximal runs of non-whitespace characters, in order. */
  function Words(s: string): (ws: seq<string>)
    ensures forall k :: 0 <= k < |ws| ==> IsWord(ws[k])
    decreases |s|
  {
    if s == [] then []
    else if IsSpace(s[0]) then Words(s[1..])
    else
      var n := WordLength(s);
      [s[..n]] + Words(s[n..])
  }

  /** `sep.join(parts)`. */
  function Join(parts: seq<string>, sep: string): string
    decreases |parts|
  {
    if parts == [] then []
    else if |parts| == 1 then parts[0]
    else parts[0] + sep + Join(parts[1..], sep)
  }

  lemma WordLengthOfWord(w: string, t: string)
    requires IsWord(w)
    requires t == [] || IsSpace(t[0])
    ensures WordLength(w + t) == |w|
  {
    var s := w + t;
    assert forall i :: 0 <= i < |w| ==> s[i] == w[i];
    assert t != [] ==> s[|w|] == t[0];
  }

  lemma {:induction false} WordsOfSpaceLed(t: string)
    requires t != [] && IsSpace(t[0])
    ensures Words(t) == Words(t[1..])
  {
  }

  /** `str.split()` on text with no whitespace: the whole text is one word, or none if empty. */
  lemma WordsOfWord(w: string)
    ensures w == [] ==> Words(w) == []
    ensures IsWord(w) ==> Words(w) == [w]
  {
    if IsWord(w) {
      WordLengthOfWord(w, []);
      assert w + [] == w;
    }
  }

  /** A word followed by whitespace, or by nothing, is the first word of the split. */
  lemma WordsOfWordThen(w: string, t: string)
    requires IsWord(w)
    requires t == [] || IsSpace(t[0])
    ensures Words(w + t) == [w] + Words(t)
  {
    WordLengthOfWord(w, t);
    var s := w + t;
    assert s[..|w|] == w && s[|w|..] == t;
  }

  lemma AppendAssoc<T>(a: seq<T>, b: seq<T>, c: seq<T>)
    ensures a + (b + c) == (a + b) + c
  {
  }

  /** The step of `WordsSplitAtSpace` for a text that starts with a word `w`: `after` is the
      rest of the text, which starts with whitespace and splits into the words of `rest` and `b`. */
  lemma WordsSplitAfterWord(w: string, rest: string, after: string, b: string)
    requires IsWord(w)
    requires rest == [] || IsSpace(rest[0])
    requires after != [] && IsSpace(after[0])
    requires Words(after) == Words(rest) + Words(b)
    ensures Words(w + after) == Words(w + rest) + Words(b)
  {
    var x, y := Words(rest), Words(b);
    assert Words(w + rest) == [w] + x by { WordsOfWordThen(w, rest); }
    assert Words(w + after) == [w] + (x + y) by { WordsOfWordThen(w, after); }
    AppendAssoc([w], x, y);
  }

  /** The step of `WordsSplitAtSpace` for a text that starts with whitespace. */
  lemma WordsSplitAfterSpace(a: string, c: char, b: string)
    requires a != [] && IsSpace(a[0])
    requires Words(a[1..] + [c] + b) == Words(a[1..]) + Words(b)
    ensures Words(a + [c] + b) == Words(a) + Words(b)
  {
    var s := a + [c] + b;
    assert s[0] == a[0] && s[1..] == a[1..] + [c] + b;
  }

  /** Every whitespace character separates words: `str.split()` of a text with a whitespace
      character in it is the split of the text before it followed by the split of the text after it. */
  lemma {:induction false} WordsSplitAtSpace(a: string, c: char, b: string)
    requires IsSpace(c)
    ensures Words(a + [c] + b) == Words(a) + Words(b)
    decreases |a|
  {
    if a == [] {
      assert a + [c] + b == [c] + b && ([c] + b)[1..] == b;
    } else if IsSpace(a[0]) {
      WordsSplitAtSpace(a[1..], c, b);
      WordsSplitAfterSpace(a, c, b);
    } else {
      var n := WordLength(a);
      var w, rest := a[..n], a[n..];
      var after := rest + [c] + b;
      assert a == w + rest && a + [c] + b == w + after;
      assert after[0] == if rest == [] then c else rest[0];
      WordsSplitAtSpace(rest, c, b);
      WordsSplitAfterWord(w, rest, after, b);
    }
  }

  /** `str.split()` recovers words that were joined with single spaces. */
  lemma {:induction false} WordsOfJoin(ws: seq<string>)
    requires forall k :: 0 <= k < |ws| ==> IsWord(ws[k])
    ensures Words(Join(ws, " ")) == ws
    decreases |ws|
  {
    if ws != [] {
      var w := ws[0];
      var t := if |ws| == 1 then [] else " " + Join(ws[1..], " ");
      assert Join(ws, " ") == w + t;
      WordLengthOfWord(w, t);
      var s := w + t;
      assert s[..|w|] == w;
      assert s[|w|..] == t;
      if |ws| == 1 {
        assert Words(s) == [w];
      } else {
        WordsOfJoin(ws[1..]);
        assert t[1..] == Join(ws[1..], " ");
        WordsOfSpaceLed(t);
        assert Words(s) == [w] + ws[1..];
      }
    }
  }

  /** The words of a sequence written one after the other, with nothing between them. */
  function Concat(ws: seq<string>): string
    decreases |ws|
  {
    if ws == [] then [] else ws[0] + Concat(ws[1..])
  }

  /** `s` with every whitespace character deleted. */
  function DropSpaces(s: string): (r: string)
    ensures forall i :: 0 <= i < |r| ==> !IsSpace(r[i])
    decreases |s|
  {
    if s == [] then []
    else (if IsSpace(s[0]) then [] else [s[0]]) + DropSpaces(s[1..])
  }

  lemma {:induction false} DropSpacesOfWord(w: string, t: string)
    requires forall i :: 0 <= i < |w| ==> !IsSpace(w[i])
    ensures DropSpaces(w + t) == w + DropSpaces(t)
    decreases |w|
  {
    if w != [] {
      assert (w + t)[0] == w[0];
      assert (w + t)[1..] == w[1..] + t;
      DropSpacesOfWord(w[1..], t);
      assert [w[0]] + (w[1..] + DropSpaces(t)) == w + DropSpaces(t);
    } else {
      assert w + t == t;
    }
  }

  /** `str.split()` loses only whitespace: its words, written one after the other, are the text
      with every whitespace character deleted. */
  lemma {:induction false} WordsCoverText(s: string)
    ensures Concat(Words(s)) == DropSpaces(s)
    decreases |s|
  {
    if s != [] {
      if IsSpace(s[0]) {
        WordsCoverText(s[1..]);
      } else {
        var n := WordLength(s);
        var ws := Words(s);
        assert ws == [s[..n]] + Words(s[n..]);
        assert ws[1..] == Words(s[n..]);
        WordsCoverText(s[n..]);
        DropSpacesOfWord(s[..n], s[n..]);
        assert s[..n] + s[n..] == s;
      }
    }
  }

  /** A word character that is not an upper-case letter. */
  predicate IsLowerWordChar(c: char) {
    IsWordChar(c) && !IsUpper(c)
  }

  /** Splitting text made of lower-case word characters and whitespace yields words made of
      lower-case word characters only. */
  lemma {:induction false} WordsOfCleanText(s: string)
    requires forall i :: 0 <= i < |s| ==> IsKept(s[i]) && !IsUpper(s[i])
    ensures forall k, i :: 0 <= k < |Words(s)| && 0 <= i < |Words(s)[k]| ==> IsLowerWordChar(Words(s)[k][i])
    decreases |s|
  {
    if s != [] {
      if IsSpace(s[0]) {
        WordsOfCleanText(s[1..]);
      } else {
        var n := WordLength(s);
        WordsOfCleanText(s[n..]);
      }
    }
  }

  /** `s.split(sep)` for a single separator character: always at least one part. */
  function SplitOn(s: string, sep: char): (parts: seq<string>)
    ensures |parts| >= 1
    ensures forall k :: 0 <= k < |parts| ==> sep !in parts[k]
    decreases |s|
  {
    if s == [] then [[]]
    else
      var rest := SplitOn(s[1..], sep);
      if s[0] == sep then [[]] + rest else [[s[0]] + rest[0]] + rest[1..]
  }

  lemma {:induction false} SplitOnPlain(w: string, t: string, sep: char)
    requires sep !in w
    ensures SplitOn(w + t, sep) == [w + SplitOn(t, sep)[0]] + SplitOn(t, sep)[1..]
    decreases |w|
  {
    if w != [] {
      assert (w + t)[0] == w[0];
      assert (w + t)[1..] == w[1..] + t;
      SplitOnPlain(w[1..], t, sep);
      var r := SplitOn(t, sep);
      assert [w[0]] + (w[1..] + r[0]) == w + r[0];
    } else {
      var r := SplitOn(t, sep);
      assert w + t == t && w + r[0] == r[0];
      assert [r[0]] + r[1..] == r;
    }
  }

  /** Splitting on `sep` undoes joining with `sep`, provided no part contains `sep`. */
  lemma {:induction false} SplitOnJoin(parts: seq<string>, sep: char)
    requires |parts| >= 1
    requires forall k :: 0 <= k < |parts| ==> sep !in parts[k]
    ensures SplitOn(Join(parts, [sep]), sep) == parts
    decreases |parts|
  {
    var w := parts[0];
    if |parts| == 1 {
      SplitOnPlain(w, [], sep);
      assert w + [] == w;
    } else {
      var rest := Join(parts[1..], [sep]);
      assert Join(parts, [sep]) == w + ([sep] + rest);
      SplitOnPlain(w, [sep] + rest, sep);
      assert ([sep] + rest)[1..] == rest;
      SplitOnJoin(parts[1..], sep);
      assert w + [] == w;
    }
  }

  function DigitChar(d: nat): (c: char)
    requires d < 10
    ensures IsDigit(c)
  {
    ('0' as int + d) as char
  }

  predicate AllDigits(s: string) {
    forall i :: 0 <= i < |s| ==> IsDigit(s[i])
  }

  /** `str(n)` for a non-negative integer: decimal digits, no leading zero. */
  function Decimal(n: nat): (s: string)
    ensures |s| >= 1 && AllDigits(s)
    ensures s[0] == '0' ==> n == 0 && s == "0"
    decreases n
  {
    if n < 10 then [DigitChar(n)] else Decimal(n / 10) + [DigitChar(n % 10)]
  }

  /** The number a string of decimal digits denotes. */
  function DigitsValue(s: string): nat
    requires AllDigits(s)
    decreases |s|
  {
    if s == [] then 0 else 10 * DigitsValue(s[..|s| - 1]) + (s[|s| - 1] as int - '0' as int)
  }

  /** Reading back a rendered count gives the count. */
  lemma {:induction false} DecimalRoundTrip(n: nat)
    ensures DigitsValue(Decimal(n)) == n
    decreases n
  {
    if n >= 10 {
      DecimalRoundTrip(n / 10);
      var s := Decimal(n);
      assert s[..|s| - 1] == Decimal(n / 10);
    }
  }

  /** Length of the run of decimal digits at the start of `s`. */
  function DigitRun(s: string): (n: nat)
    ensures n <= |s|
    ensures AllDigits(s[..n])
    ensures n == |s| || !IsDigit(s[n])
    decreases |s|
  {
    if s == [] || !IsDigit(s[0]) then 0
    else
      var m := DigitRun(s[1..]);
      assert s[..m + 1] == [s[0]] + s[1..][..m];
      1 + m
  }

  /** A rendered count followed by a non-digit is read back as exactly that count. */
  lemma DigitRunOfDecimal(n: nat, t: string)
    requires t == [] || !IsDigit(t[0])
    ensures DigitRun(Decimal(n) + t) == |Decimal(n)|
    ensures (Decimal(n) + t)[..|Decimal(n)|] == Decimal(n)
  {
    var d := Decimal(n);
    var s := d + t;
    assert forall i :: 0 <= i < |d| ==> s[i] == d[i];
    assert t != [] ==> s[|d|] == t[0];
  }
}
