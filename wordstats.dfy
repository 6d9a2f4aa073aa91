/** Repeated-word analysis over the translated titles: each title is
    lowercased and split into ASCII-letter runs, stop words and tokens of
    at most two letters are dropped, the remaining tokens of all titles are
    counted, and the words counted more than twice are returned with their
    counts. */
module WordStats {
  import opened PyText

  /** The English function words the analysis ignores. */
  const StopWords: set<string> := {
    "the", "a", "an", "and", "or", "but", "in", "on", "at", "to",
    "for", "of", "with", "by", "from", "is", "it", "its", "this",
    "that", "are", "was", "be", "as", "he", "she", "we", "they",
    "i", "you", "his", "her", "my", "our", "their", "have", "has",
    "had", "not", "no", "so", "if", "do", "did", "will", "can",
    "more", "up", "out", "what", "who", "how", "all", "about",
    "into", "than", "after", "over", "your"
  }

  /** A token is kept only when it is longer than this. */
  const MinWordLength := 2

  /** A word is reported only when it is counted more than this many times. */
  const RepeatThreshold := 2

  /** The character class `[a-zA-Z]`. */
  predicate IsLetter(c: char) {
    'a' <= c <= 'z' || 'A' <= c <= 'Z'
  }

  /** A non-empty run of letters: one match of `[a-zA-Z]+`. */
  predicate IsRun(w: string) {
    w != [] && forall k :: 0 <= k < |w| ==> IsLetter(w[k])
  }

  /** The length of the letter run `s` starts with. */
  function RunLength(s: string): (n: nat)
    requires s != [] && IsLetter(s[0])
    ensures 1 <= n <= |s|
  {
    if |s| > 1 && IsLetter(s[1]) then 1 + RunLength(s[1..]) else 1
  }

  /** The run is all letters and stops at a non-letter or at the end. */
  lemma {:induction false} RunLengthIsMaximal(s: string)
    requires s != [] && IsLetter(s[0])
    ensures forall k :: 0 <= k < RunLength(s) ==> IsLetter(s[k])
    ensures RunLength(s) < |s| ==> !IsLetter(s[RunLength(s)])
  {
    if |s| > 1 && IsLetter(s[1]) {
      RunLengthIsMaximal(s[1..]);
      forall k | 0 <= k < RunLength(s)
        ensures IsLetter(s[k])
      {
        if k > 0 {
          assert s[k] == s[1..][k - 1];
        }
      }
    }
  }

  /** `re.findall(r"[a-zA-Z]+", s)`: the maximal letter runs of `s`, in order. */
  function Words(s: string): seq<string>
    decreases |s|
  {
    if s == [] then []
    else if !IsLetter(s[0]) then Words(s[1..])
    else
      var n := RunLength(s);
      [s[..n]] + Words(s[n..])
  }

  /** Every match is a non-empty run of letters. */
  lemma {:induction false} WordsAreRuns(s: string)
    ensures forall w :: w in Words(s) ==> IsRun(w)
    decreases |s|
  {
    if s != [] {
      if !IsLetter(s[0]) {
        WordsAreRuns(s[1..]);
      } else {
        var n := RunLength(s);
        RunLengthIsMaximal(s);
        WordsAreRuns(s[n..]);
      }
    }
  }

  /** The letters of `s`, in order. */
  function Letters(s: string): string {
    if s == [] then []
    else if IsLetter(s[0]) then [s[0]] + Letters(s[1..])
    else Letters(s[1..])
  }

  /** `parts` concatenated. */
  function Concat(parts: seq<string>): string {
    if parts == [] then [] else parts[0] + Concat(parts[1..])
  }

  /** Letters at the front of `s` are its first letters. */
  lemma {:induction false} LettersOfRun(s: string, n: nat)
    requires n <= |s|
    requires forall k :: 0 <= k < n ==> IsLetter(s[k])
    ensures Letters(s) == s[..n] + Letters(s[n..])
  {
    if n == 0 {
      assert s[..0] == [] && s[0..] == s;
    } else {
      LettersOfRun(s[1..], n - 1);
      assert s[1..][n - 1..] == s[n..];
      assert [s[0]] + s[1..][..n - 1] == s[..n];
    }
  }

  /** The matches hold every letter of `s` in order, and nothing else. */
  lemma {:induction false} WordsCoverLetters(s: string)
    ensures Concat(Words(s)) == Letters(s)
    decreases |s|
  {
    if s != [] {
      if !IsLetter(s[0]) {
        WordsCoverLetters(s[1..]);
      } else {
        var n := RunLength(s);
        RunLengthIsMaximal(s);
        WordsCoverLetters(s[n..]);
        LettersOfRun(s, n);
        assert Words(s) == [s[..n]] + Words(s[n..]);
        assert Concat(Words(s)) == s[..n] + Concat(Words(s[n..]));
      }
    }
  }

  /** A run of letters is a single match. */
  lemma WordsOfRun(w: string)
    requires IsRun(w)
    ensures Words(w) == [w]
  {
    RunLengthFull(w);
    assert w[..|w|] == w;
  }

  /** In an all-letter string the run extends to the end. */
  lemma {:induction false} RunLengthFull(w: string)
    requires IsRun(w)
    ensures RunLength(w) == |w|
  {
    if |w| > 1 {
      assert IsRun(w[1..]) by {
        assert forall k :: 0 <= k < |w| - 1 ==> w[1..][k] == w[k + 1];
      }
      RunLengthFull(w[1..]);
    }
  }

  /** A string without letters has no match. */
  lemma {:induction false} WordsOfNonLetters(s: string)
    requires forall k :: 0 <= k < |s| ==> !IsLetter(s[k])
    ensures Words(s) == []
    decreases |s|
  {
    if s != [] {
      assert forall k :: 0 <= k < |s| - 1 ==> s[1..][k] == s[k + 1];
      WordsOfNonLetters(s[1..]);
    }
  }

  /** A letter run that is followed by a non-letter ends where it ended alone. */
  lemma {:induction false} RunLengthBefore(a: string, t: string)
    requires a != [] && IsLetter(a[0]) && t != [] && !IsLetter(t[0])
    ensures RunLength(a + t) == RunLength(a)
  {
    if |a| > 1 && IsLetter(a[1]) {
      assert (a + t)[1..] == a[1..] + t;
      RunLengthBefore(a[1..], t);
    } else if |a| == 1 {
      assert (a + t)[1] == t[0];
    }
  }

  /** A non-letter separates matches: those of the text on either side of
      it, in order, and no match spans it. */
  lemma {:induction false} WordsSplit(a: string, c: char, b: string)
    requires !IsLetter(c)
    ensures Words(a + [c] + b) == Words(a) + Words(b)
    decreases |a|
  {
    var s := a + [c] + b;
    if a == [] {
      assert s[1..] == b;
    } else if !IsLetter(a[0]) {
      assert s[1..] == a[1..] + [c] + b;
      WordsSplit(a[1..], c, b);
    } else {
      var m := RunLength(a);
      RunLengthBefore(a, [c] + b);
      assert s == a + ([c] + b);
      assert a == a[..m] + a[m..];
      assert s == a[..m] + (a[m..] + [c] + b);
      assert s[..m] == a[..m];
      assert s[m..] == a[m..] + [c] + b;
      WordsSplit(a[m..], c, b);
    }
  }

  /** A token survives the filter: not a stop word and longer than two characters. */
  predicate Kept(w: string) {
    w !in StopWords && |w| > MinWordLength
  }

  /** `[w for w in words if w not in STOP_WORDS and len(w) > 2]`. */
  function Filtered(words: seq<string>): seq<string> {
    if words == [] then []
    else if Kept(words[0]) then [words[0]] + Filtered(words[1..])
    else Filtered(words[1..])
  }

  /** The filter keeps exactly the tokens that pass, each as often as it occurs. */
  lemma {:induction false} FilteredCounts(words: seq<string>, w: string)
    ensures multiset(Filtered(words))[w] == if Kept(w) then multiset(words)[w] else 0
  {
    if words != [] {
      FilteredCounts(words[1..], w);
      assert words == [words[0]] + words[1..];
    }
  }

  /** The tokens one title contributes. */
  function TitleTokens(title: string): seq<string> {
    Filtered(Words(Lower(title)))
  }

  /** The tokens of all titles, title by title. */
  function AllTokens(titles: seq<string>): seq<string> {
    if titles == [] then []
    else AllTokens(titles[..|titles| - 1]) + TitleTokens(titles[|titles| - 1])
  }

  /** Tokens of consecutive title lists follow each other. */
  lemma {:induction false} AllTokensConcat(a: seq<string>, b: seq<string>)
    ensures AllTokens(a + b) == AllTokens(a) + AllTokens(b)
  {
    if b == [] {
      assert a + b == a;
    } else {
      var b' := b[..|b| - 1];
      assert (a + b)[..|a + b| - 1] == a + b';
      assert (a + b)[|a + b| - 1] == b[|b| - 1];
      AllTokensConcat(a, b');
    }
  }

  /** `{word: count for word, count in Counter(tokens).items() if count > 2}`. */
  function Repeated(tokens: seq<string>): map<string, nat> {
    var counts := multiset(tokens);
    map w | w in tokens && counts[w] > RepeatThreshold :: counts[w]
  }

  /** `analyze_repeated_words`, without its console output. */
  method AnalyzeRepeatedWords(titles: seq<string>) returns (repeated: map<string, nat>)
    ensures repeated == Repeated(AllTokens(titles))
  {
    var allWords: seq<string> := [];
    for i := 0 to |titles|
      invariant allWords == AllTokens(titles[..i])
    {
      var words := Words(Lower(titles[i]));
      var filtered := Filtered(words);
      allWords := allWords + filtered;
      assert titles[..i + 1][..i] == titles[..i];
    }
    assert titles[..|titles|] == titles;
    var counts := multiset(allWords);
    repeated := map w | w in allWords && counts[w] > RepeatThreshold :: counts[w];
  }

  /** The result holds exactly the tokens counted more than twice, each
      mapped to its count. */
  lemma RepeatedIsThreshold(tokens: seq<string>, w: string)
    ensures w in Repeated(tokens) <==> multiset(tokens)[w] > RepeatThreshold
    ensures w in Repeated(tokens) ==> Repeated(tokens)[w] == multiset(tokens)[w]
  {
  }

  /** When no token occurs more than twice, the result is empty. */
  lemma NoRepeatsEmpty(tokens: seq<string>)
    requires forall w :: w in tokens ==> multiset(tokens)[w] <= RepeatThreshold
    ensures Repeated(tokens) == map[]
  {
  }

  /** A token is a lowercase ASCII word of at least three letters that is not a stop word. */
  predicate IsToken(w: string) {
    && |w| > MinWordLength
    && w !in StopWords
    && forall k :: 0 <= k < |w| ==> 'a' <= w[k] <= 'z'
  }

  /** The characters of a match are characters of the string. */
  lemma {:induction false} WordsChars(s: string)
    ensures forall w, k :: w in Words(s) && 0 <= k < |w| ==> w[k] in s
    decreases |s|
  {
    if s != [] {
      if !IsLetter(s[0]) {
        WordsChars(s[1..]);
      } else {
        var n := RunLength(s);
        WordsChars(s[n..]);
        forall w, k | w in Words(s) && 0 <= k < |w|
          ensures w[k] in s
        {
          if w == s[..n] {
            assert w[k] == s[k];
          } else {
            assert w in Words(s[n..]);
            assert w[k] in s[n..];
          }
        }
      }
    }
  }

  /** The filter keeps only tokens that pass. */
  lemma {:induction false} FilteredKept(words: seq<string>)
    ensures forall w :: w in Filtered(words) ==> w in words && Kept(w)
  {
    if words != [] {
      FilteredKept(words[1..]);
    }
  }

  /** Every token of a title is lowercase letters, has at least three letters
      and is not a stop word. */
  lemma TitleTokensShape(title: string)
    ensures forall w :: w in TitleTokens(title) ==> IsToken(w)
  {
    var s := Lower(title);
    WordsAreRuns(s);
    WordsChars(s);
    FilteredKept(Words(s));
    forall w | w in TitleTokens(title)
      ensures IsToken(w)
    {
      assert w in Words(s) && Kept(w);
      forall k | 0 <= k < |w|
        ensures 'a' <= w[k] <= 'z'
      {
        assert IsLetter(w[k]);
        assert w[k] in s;
      }
    }
  }

  /** Every token of every title has that shape. */
  lemma {:induction false} AllTokensShape(titles: seq<string>)
    ensures forall w :: w in AllTokens(titles) ==> IsToken(w)
  {
    if titles != [] {
      AllTokensShape(titles[..|titles| - 1]);
      TitleTokensShape(titles[|titles| - 1]);
    }
  }

  /** Every reported word is a lowercase ASCII word of at least three letters
      that is not a stop word, counted more than twice across the titles. */
  lemma RepeatedWordsShape(titles: seq<string>)
    ensures forall w :: w in Repeated(AllTokens(titles)) ==>
      IsToken(w) && Repeated(AllTokens(titles))[w] > RepeatThreshold
  {
    AllTokensShape(titles);
  }

  /** The result depends on how often each token occurs, not on their order. */
  lemma RepeatedOfCounts(x: seq<string>, y: seq<string>)
    requires multiset(x) == multiset(y)
    ensures Repeated(x) == Repeated(y)
  {
    assert forall w :: w in x <==> w in multiset(x);
    assert forall w :: w in y <==> w in multiset(y);
  }

  /** The analysis depends on the titles, not on their order. */
  lemma TitleOrderIrrelevant(a: seq<string>, b: seq<string>)
    ensures Repeated(AllTokens(a + b)) == Repeated(AllTokens(b + a))
  {
    AllTokensConcat(a, b);
    AllTokensConcat(b, a);
    var x, y := AllTokens(a), AllTokens(b);
    assert multiset(x + y) == multiset(y + x);
    RepeatedOfCounts(x + y, y + x);
  }

  /** A title's tokens are counted once per occurrence, on top of the others'. */
  lemma CountsAdd(titles: seq<string>, title: string, w: string)
    ensures multiset(AllTokens(titles + [title]))[w] ==
      multiset(AllTokens(titles))[w] + (if Kept(w) then multiset(Words(Lower(title)))[w] else 0)
  {
    assert (titles + [title])[..|titles|] == titles;
    FilteredCounts(Words(Lower(title)), w);
  }
}
