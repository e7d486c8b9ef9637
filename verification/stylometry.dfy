/** Corpus preparation for the stylometry tests: tokens become lower-case words,
    each author gets a word list, and the tests cut every list to the length of the
    shortest corpus. Tokenisation is outside the model: a corpus is given as its
    token list. */
module Stylometry {
  import opened Collections

  type Token = string

  predicate IsUpper(c: char) { 'A' <= c <= 'Z' }
  predicate IsLowerLetter(c: char) { 'a' <= c <= 'z' }
  predicate IsLetter(c: char) { IsUpper(c) || IsLowerLetter(c) }

  /** `str.isalpha()`: at least one character, and all of them letters. */
  predicate IsAlpha(t: Token) {
    |t| > 0 && forall i | 0 <= i < |t| :: IsLetter(t[i])
  }

  /** A word as the filter produces it: non-empty, lower-case letters only. */
  predicate IsWord(w: string) {
    |w| > 0 && forall i | 0 <= i < |w| :: IsLowerLetter(w[i])
  }

  function LowerChar(c: char): (d: char)
    ensures IsLetter(c) ==> IsLowerLetter(d)
    ensures IsLowerLetter(c) ==> d == c
  {
    if IsUpper(c) then (c as int - 'A' as int + 'a' as int) as char else c
  }

  /** `str.lower()`, character by character. */
  function Lower(t: Token): (w: string)
    ensures |w| == |t|
    ensures forall i | 0 <= i < |t| :: w[i] == LowerChar(t[i])
  {
    seq(|t|, i requires 0 <= i < |t| => LowerChar(t[i]))
  }

  /** `[token.lower() for token in tokens if token.isalpha()]`. */
  function Words(tokens: seq<Token>): (ws: seq<string>)
    ensures |ws| <= |tokens|
    ensures forall i | 0 <= i < |ws| :: IsWord(ws[i])
  {
    if tokens == [] then []
    else
      var rest := Words(tokens[..|tokens| - 1]);
      var t := tokens[|tokens| - 1];
      if IsAlpha(t) then rest + [Lower(t)] else rest
  }

  /** The filter keeps order: filtering two pieces and joining the results is
      filtering the joined tokens. */
  lemma {:induction false} WordsAppend(a: seq<Token>, b: seq<Token>)
    ensures Words(a + b) == Words(a) + Words(b)
    decreases |b|
  {
    if b != [] {
      var b' := b[..|b| - 1];
      WordsAppend(a, b');
      assert (a + b)[..|a + b| - 1] == a + b';
      assert (a + b)[|a + b| - 1] == b[|b| - 1];
    } else {
      assert a + b == a;
    }
  }

  /** A word is kept exactly when it is the lower-cased form of an alphabetic token. */
  lemma {:induction false} WordsMembership(tokens: seq<Token>, w: string)
    ensures w in Words(tokens) <==> exists t | t in tokens :: IsAlpha(t) && Lower(t) == w
  {
    if tokens != [] {
      var init := tokens[..|tokens| - 1];
      WordsMembership(init, w);
      assert tokens == init + [tokens[|tokens| - 1]];
      if exists t | t in tokens :: IsAlpha(t) && Lower(t) == w {
        var t :| t in tokens && IsAlpha(t) && Lower(t) == w;
        if t != tokens[|tokens| - 1] {
          assert t in init;
        }
      }
    }
  }

  /** Filtering a word list a second time changes nothing. */
  lemma {:induction false} WordsIdempotent(tokens: seq<Token>)
    ensures Words(Words(tokens)) == Words(tokens)
  {
    if tokens != [] {
      var init := tokens[..|tokens| - 1];
      var t := tokens[|tokens| - 1];
      WordsIdempotent(init);
      if IsAlpha(t) {
        var w := Lower(t);
        WordsAppend(Words(init), [w]);
        assert [w][..0] == [];
        assert Words([w]) == Words([]) + [Lower(w)];
        assert Lower(w) == w;
      }
    }
  }

  // ---------------------------------------------------------------------
  // Per-author dictionaries.

  /** `make_word_dict`: the same authors in the same order, each with the word list
      of its tokens. */
  method MakeWordDict(stringsByAuthor: seq<Entry<string, seq<Token>>>)
    returns (wordsByAuthor: seq<Entry<string, seq<string>>>)
    requires IsDict(stringsByAuthor)
    ensures Keys(wordsByAuthor) == Keys(stringsByAuthor)
    ensures forall i | 0 <= i < |wordsByAuthor| ::
              wordsByAuthor[i].value == Words(stringsByAuthor[i].value)
  {
    wordsByAuthor := [];
    var i := 0;
    while i < |stringsByAuthor|
      invariant 0 <= i <= |stringsByAuthor|
      invariant |wordsByAuthor| == i
      invariant forall j | 0 <= j < i ::
                  wordsByAuthor[j] == Entry(stringsByAuthor[j].key, Words(stringsByAuthor[j].value))
    {
      var author := stringsByAuthor[i].key;
      assert author !in Keys(wordsByAuthor) by {
        forall j | 0 <= j < i ensures Keys(wordsByAuthor)[j] != author {
          assert Keys(stringsByAuthor)[j] != Keys(stringsByAuthor)[i];
        }
      }
      PutNewKey(wordsByAuthor, author, Words(stringsByAuthor[i].value));
      wordsByAuthor := Put(wordsByAuthor, author, Words(stringsByAuthor[i].value));
      i := i + 1;
    }
    SameKeys(wordsByAuthor, stringsByAuthor);
  }

  /** `min(word_count)`. */
  function MinOf(s: seq<nat>): (m: nat)
    requires |s| > 0
    ensures m in s
    ensures forall i | 0 <= i < |s| :: m <= s[i]
  {
    if |s| == 1 then s[0]
    else
      var m := MinOf(s[..|s| - 1]);
      if s[|s| - 1] < m then s[|s| - 1] else m
  }

  /** `find_shortest_corpus` as written: the `return` sits inside the `for` loop, so
      the function returns after the first author with that author's word count
      (None, Python's implicit result, when there are no authors). */
  method FindShortestCorpus(wordsByAuthor: seq<Entry<string, seq<string>>>) returns (len: Option<nat>)
    ensures len == if wordsByAuthor == [] then None else Some(|wordsByAuthor[0].value|)
  {
    var wordCount: seq<nat> := [];
    for i := 0 to |wordsByAuthor|
      invariant wordCount == [] && i == 0
    {
      wordCount := wordCount + [|wordsByAuthor[i].value|];
      return Some(MinOf(wordCount));
    }
    return None;
  }

  /** The length of the shortest corpus, as the documentation of
      `find_shortest_corpus` promises: the minimum over all authors. */
  method FindShortestCorpusFixed(wordsByAuthor: seq<Entry<string, seq<string>>>) returns (len: Option<nat>)
    ensures len.None? <==> wordsByAuthor == []
    ensures len.Some? ==> (exists i | 0 <= i < |wordsByAuthor| :: len.value == |wordsByAuthor[i].value|) &&
                          forall i | 0 <= i < |wordsByAuthor| :: len.value <= |wordsByAuthor[i].value|
  {
    var wordCount: seq<nat> := [];
    for i := 0 to |wordsByAuthor|
      invariant |wordCount| == i
      invariant forall j | 0 <= j < i :: wordCount[j] == |wordsByAuthor[j].value|
    {
      wordCount := wordCount + [|wordsByAuthor[i].value|];
    }
    if wordCount == [] {
      return None;
    }
    var m := MinOf(wordCount);
    assert exists j | 0 <= j < |wordCount| :: wordCount[j] == m;
    return Some(m);
  }

  /** With a longer first corpus the function as written does not return the
      shortest length: here it returns 2 where the shortest corpus has 1 word. */
  method ShortestCorpusCounterexample() returns (asWritten: Option<nat>, fixed: Option<nat>)
    ensures asWritten == Some(2) && fixed == Some(1)
  {
    var d := [Entry("doyle", ["a", "b"]), Entry("unknown", ["c"])];
    asWritten := FindShortestCorpus(d);
    fixed := FindShortestCorpusFixed(d);
    assert |d[1].value| == 1;
  }

  // ---------------------------------------------------------------------
  // The word lists of the stylometry tests.

  /** `[len(word) for word in words[:len_shortest_corpus]]`. */
  function WordLengths(words: seq<string>, lenShortest: nat): (lens: seq<nat>)
    ensures |lens| == if lenShortest < |words| then lenShortest else |words|
    ensures forall i | 0 <= i < |lens| :: lens[i] == |words[i]|
  {
    var ws := Take(words, lenShortest);
    seq(|ws|, i requires 0 <= i < |ws| => |ws[i]|)
  }

  /** Every word the filter produced has at least one letter. */
  lemma WordLengthsPositive(tokens: seq<Token>, lenShortest: nat)
    ensures forall l | l in WordLengths(Words(tokens), lenShortest) :: l >= 1
  {
    var lens := WordLengths(Words(tokens), lenShortest);
    forall l | l in lens ensures l >= 1 {
      var i :| 0 <= i < |lens| && lens[i] == l;
      assert IsWord(Words(tokens)[i]);
    }
  }

  /** `[w for w in words if w in stop_words]`. */
  function KeepStopwords(words: seq<string>, stopWords: set<string>): (r: seq<string>)
    ensures |r| <= |words|
    ensures forall i | 0 <= i < |r| :: r[i] in stopWords
  {
    if words == [] then []
    else
      var rest := KeepStopwords(words[..|words| - 1], stopWords);
      if words[|words| - 1] in stopWords then rest + [words[|words| - 1]] else rest
  }

  /** The stop-word list of one author: the stop words among the first
      `len_shortest_corpus` words, in order. */
  function StopwordsOf(words: seq<string>, lenShortest: nat, stopWords: set<string>): seq<string> {
    KeepStopwords(Take(words, lenShortest), stopWords)
  }

  /** A stop word occurs in the result as often as in the words it came from; any
      other word does not occur at all. */
  lemma {:induction false} KeepStopwordsCount(words: seq<string>, stopWords: set<string>, w: string)
    ensures Count(KeepStopwords(words, stopWords), w) == if w in stopWords then Count(words, w) else 0
  {
    if words != [] {
      var init := words[..|words| - 1];
      KeepStopwordsCount(init, stopWords, w);
      var rest := KeepStopwords(init, stopWords);
      if words[|words| - 1] in stopWords {
        assert (rest + [words[|words| - 1]])[..|rest|] == rest;
      }
    }
  }

  /** Keeping stop words from joined lists is keeping them from each list, so the
      result is a subsequence in the original order. */
  lemma {:induction false} KeepStopwordsAppend(a: seq<string>, b: seq<string>, stopWords: set<string>)
    ensures KeepStopwords(a + b, stopWords) == KeepStopwords(a, stopWords) + KeepStopwords(b, stopWords)
    decreases |b|
  {
    if b != [] {
      var b' := b[..|b| - 1];
      KeepStopwordsAppend(a, b', stopWords);
      assert (a + b)[..|a + b| - 1] == a + b';
      assert (a + b)[|a + b| - 1] == b[|b| - 1];
    } else {
      assert a + b == a;
    }
  }

  /** The stop-word list of an author counts each stop word as often as it occurs
      in the author's first `len_shortest_corpus` words. */
  lemma StopwordsOfCount(words: seq<string>, lenShortest: nat, stopWords: set<string>, w: string)
    requires w in stopWords
    ensures Count(StopwordsOf(words, lenShortest, stopWords), w) == Count(Take(words, lenShortest), w)
  {
    KeepStopwordsCount(Take(words, lenShortest), stopWords, w);
  }
}
