/**
 * The keyword retriever of the manuscript service: every chunk is scored by the
 * long query words it contains (plus a bonus for the first chunk when the query
 * asks about the author), the chunks are ordered by score, descending and stably,
 * those below the threshold are dropped and the first `topK` are returned.
 */
module Retriever {
  import opened Text

  const DEFAULT_TOP_K: nat := 2
  const MIN_SCORE_THRESHOLD: int := 4
  /** Points for every query word found in a chunk. */
  const WORD_POINTS: int := 2
  /** Points for the first chunk when the query asks about the author. */
  const AUTHOR_BONUS: int := 5
  /** Query words of this length or shorter are ignored. */
  const SHORT_WORD_LENGTH: nat := 3

  /** "كاتب" and "مؤلف" (writer, author) and "author". */
  const AUTHOR_KEYWORDS: seq<string> :=
    ["\U{0643}\U{0627}\U{062A}\U{0628}", "\U{0645}\U{0624}\U{0644}\U{0641}", "author"]

  // ---------------------------------------------------------------- query words

  /** The words longer than three characters, in order, duplicates kept. */
  function LongWords(ws: seq<string>): (r: seq<string>)
    ensures |r| <= |ws|
    ensures forall w :: multiset(r)[w] == if |w| > SHORT_WORD_LENGTH then multiset(ws)[w] else 0
  {
    if ws == [] then []
    else
      var rest := LongWords(ws[1..]);
      assert ws == [ws[0]] + ws[1..];
      assert multiset(ws) == multiset{ws[0]} + multiset(ws[1..]);
      if |ws[0]| > SHORT_WORD_LENGTH then [ws[0]] + rest else rest
  }

  /** A word is kept exactly when it is in the list and longer than three characters. */
  lemma LongWordsMember(ws: seq<string>, w: string)
    ensures w in LongWords(ws) <==> w in ws && |w| > SHORT_WORD_LENGTH
  {
    var r := LongWords(ws);
    assert w in r <==> multiset(r)[w] > 0;
    assert w in ws <==> multiset(ws)[w] > 0;
  }

  /** The filter keeps the order: filtering a concatenation concatenates the filtered parts. */
  lemma {:induction false} LongWordsAppend(a: seq<string>, b: seq<string>)
    ensures LongWords(a + b) == LongWords(a) + LongWords(b)
    decreases |a|
  {
    if a == [] {
      assert a + b == b;
    } else {
      assert (a + b)[0] == a[0];
      assert (a + b)[1..] == a[1..] + b;
      LongWordsAppend(a[1..], b);
    }
  }

  /** The lower-cased query, split on whitespace runs, without the short words. */
  function QueryWords(query: string): (r: seq<string>)
    ensures forall k :: 0 <= k < |r| ==> |r[k]| > SHORT_WORD_LENGTH && NoWhitespace(r[k])
  {
    var tokens := SplitWhitespace(ToLower(query));
    var r := LongWords(tokens);
    forall k | 0 <= k < |r|
      ensures r[k] in tokens
    {
      LongWordsMember(tokens, r[k]);
    }
    r
  }

  /**
   * For a query made of tokens and whitespace runs, the query words are the tokens,
   * lower-cased, in order, duplicates kept, without those of three characters or fewer.
   */
  lemma QueryWordsOfSeparated(ws: seq<string>, seps: seq<string>)
    requires WellSeparated(ws, seps)
    ensures QueryWords(Separated(ws, seps)) == LongWords(ToLowerAll(ws))
  {
    ToLowerSeparated(ws, seps);
    SplitWhitespaceSeparated(ToLowerAll(ws), seps);
  }

  /** Every query has such a decomposition, so the characterization covers every query. */
  lemma QueryWordsOfAnyQuery(query: string)
    ensures exists ws, seps :: WellSeparated(ws, seps) && Separated(ws, seps) == query &&
                               QueryWords(query) == LongWords(ToLowerAll(ws))
  {
    HasSeparation(query);
    var ws, seps :| WellSeparated(ws, seps) && Separated(ws, seps) == query;
    QueryWordsOfSeparated(ws, seps);
  }

  /** The lower-cased query mentions one of the author keywords. */
  predicate AsksForAuthor(query: string) {
    var q := ToLower(query);
    Includes(q, AUTHOR_KEYWORDS[0]) || Includes(q, AUTHOR_KEYWORDS[1]) || Includes(q, AUTHOR_KEYWORDS[2])
  }

  /** The query asks for the author exactly when one of the keywords occurs in its lower-cased form. */
  lemma AsksForAuthorIff(query: string)
    ensures AsksForAuthor(query) <==>
            exists k, i :: 0 <= k < |AUTHOR_KEYWORDS| && Occurs(ToLower(query), AUTHOR_KEYWORDS[k], i)
  {
    var q := ToLower(query);
    IncludesIffOccurs(q, AUTHOR_KEYWORDS[0]);
    IncludesIffOccurs(q, AUTHOR_KEYWORDS[1]);
    IncludesIffOccurs(q, AUTHOR_KEYWORDS[2]);
    if exists k, i :: 0 <= k < |AUTHOR_KEYWORDS| && Occurs(q, AUTHOR_KEYWORDS[k], i) {
      var k, i :| 0 <= k < |AUTHOR_KEYWORDS| && Occurs(q, AUTHOR_KEYWORDS[k], i);
      assert k == 0 || k == 1 || k == 2;
    }
  }

  /** The test ignores case: "Author", "AUTHOR" or any other casing of the word asks for the author. */
  lemma AsksForAuthorIgnoresCase(query: string, i: nat)
    requires i + 6 <= |query| && ToLower(query[i..i + 6]) == "author"
    ensures AsksForAuthor(query)
  {
    var q := ToLower(query);
    assert q[i..i + 6] == ToLower(query[i..i + 6]);
    assert Occurs(q, AUTHOR_KEYWORDS[2], i);
    IncludesIffOccurs(q, AUTHOR_KEYWORDS[2]);
  }

  // ---------------------------------------------------------------- scores

  /** How many of `words` (duplicates counted) occur in `text`, counted word by word. */
  function Hits(words: seq<string>, text: string): (n: nat)
    ensures n <= |words|
  {
    if words == [] then 0
    else Hits(words[..|words| - 1], text) + (if Includes(text, words[|words| - 1]) then 1 else 0)
  }

  /** The positions in `words` whose word occurs in `text`. */
  ghost function HitIndices(words: seq<string>, text: string): set<nat> {
    set k: nat | k < |words| && Includes(text, words[k])
  }

  /** The count is the number of positions whose word occurs: a repeated word counts every time. */
  lemma {:induction false} HitsCountsPositions(words: seq<string>, text: string)
    ensures Hits(words, text) == |HitIndices(words, text)|
    decreases |words|
  {
    if words != [] {
      var n := |words| - 1;
      var init := words[..n];
      HitsCountsPositions(init, text);
      assert forall k :: 0 <= k < n ==> init[k] == words[k];
      if Includes(text, words[n]) {
        assert HitIndices(words, text) == HitIndices(init, text) + {n};
      } else {
        assert HitIndices(words, text) == HitIndices(init, text);
      }
    }
  }

  /** Counting over two lists of words adds up. */
  lemma {:induction false} HitsAppend(a: seq<string>, b: seq<string>, text: string)
    ensures Hits(a + b, text) == Hits(a, text) + Hits(b, text)
    decreases |b|
  {
    if b == [] {
      assert a + b == a;
    } else {
      var n := |b| - 1;
      assert (a + b)[..|a + b| - 1] == a + b[..n];
      assert (a + b)[|a + b| - 1] == b[n];
      HitsAppend(a, b[..n], text);
    }
  }

  /** `xs.indexOf(x)`: the first position holding `x`, or -1. */
  function IndexOf(xs: seq<string>, x: string): (i: int)
    ensures -1 <= i < |xs|
    ensures i >= 0 ==> xs[i] == x && x !in xs[..i]
    ensures i == -1 ==> x !in xs
  {
    if xs == [] then -1
    else if xs[0] == x then 0
    else
      var j := IndexOf(xs[1..], x);
      if j == -1 then -1
      else
        assert xs[..j + 1] == [xs[0]] + xs[1..][..j];
        j + 1
  }

  /** `indexOf(chunk) === 0` picks every chunk equal to the first one, wherever it stands. */
  lemma IndexOfZeroIff(xs: seq<string>, x: string)
    ensures IndexOf(xs, x) == 0 <==> xs != [] && xs[0] == x
  {
  }

  /** The score of one chunk of `chunks` for `query`. */
  function Score(query: string, chunks: seq<string>, chunk: string): (s: int)
    ensures 0 <= s <= WORD_POINTS * |QueryWords(query)| + AUTHOR_BONUS
  {
    WORD_POINTS * Hits(QueryWords(query), ToLower(chunk)) +
    (if AsksForAuthor(query) && IndexOf(chunks, chunk) == 0 then AUTHOR_BONUS else 0)
  }

  /**
   * A chunk scores 2 for each position of a long query word that occurs in the
   * lower-cased chunk, plus 5 when the query asks about the author and the chunk
   * equals the first chunk.
   */
  lemma ScoreCounts(query: string, chunks: seq<string>, chunk: string)
    ensures Score(query, chunks, chunk) ==
            2 * |HitIndices(QueryWords(query), ToLower(chunk))| +
            (if AsksForAuthor(query) && chunks != [] && chunk == chunks[0] then 5 else 0)
  {
    HitsCountsPositions(QueryWords(query), ToLower(chunk));
    IndexOfZeroIff(chunks, chunk);
  }

  /** A chunk passes the threshold only with two word hits or the author bonus. */
  lemma PassingNeedsTwoHitsOrBonus(query: string, chunks: seq<string>, chunk: string)
    requires Score(query, chunks, chunk) >= MIN_SCORE_THRESHOLD
    ensures Hits(QueryWords(query), ToLower(chunk)) >= 2 ||
            (AsksForAuthor(query) && chunks != [] && chunk == chunks[0])
  {
    IndexOfZeroIff(chunks, chunk);
  }

  datatype ScoredChunk = ScoredChunk(chunk: string, score: int)

  /** Every chunk paired with its score, in input order. */
  function ScoreAll(query: string, chunks: seq<string>): seq<ScoredChunk> {
    seq(|chunks|, i requires 0 <= i < |chunks| => ScoredChunk(chunks[i], Score(query, chunks, chunks[i])))
  }

  lemma ScoreAllMember(query: string, chunks: seq<string>, y: ScoredChunk)
    ensures y in ScoreAll(query, chunks) <==> y.chunk in chunks && y.score == Score(query, chunks, y.chunk)
  {
    var all := ScoreAll(query, chunks);
    if y.chunk in chunks && y.score == Score(query, chunks, y.chunk) {
      var i :| 0 <= i < |chunks| && chunks[i] == y.chunk;
      assert all[i] == y;
    }
  }

  // ---------------------------------------------------------------- stable sort

  predicate Descending(xs: seq<ScoredChunk>) {
    forall i, j :: 0 <= i < j < |xs| ==> xs[i].score >= xs[j].score
  }

  /** The entries of `xs` whose score is `v`, in order. */
  function WithScore(xs: seq<ScoredChunk>, v: int): seq<ScoredChunk> {
    if xs == [] then []
    else (if xs[0].score == v then [xs[0]] else []) + WithScore(xs[1..], v)
  }

  lemma {:induction false} WithScoreMember(xs: seq<ScoredChunk>, v: int, y: ScoredChunk)
    requires y in WithScore(xs, v)
    ensures y in xs && y.score == v
    decreases |xs|
  {
    if y != xs[0] || xs[0].score != v {
      WithScoreMember(xs[1..], v, y);
    }
  }

  /** `x` goes in front of the first entry that does not score more than it. */
  function Insert(x: ScoredChunk, s: seq<ScoredChunk>): (r: seq<ScoredChunk>)
    ensures multiset(r) == multiset(s) + multiset{x}
  {
    if s == [] || s[0].score <= x.score then [x] + s
    else
      assert s == [s[0]] + s[1..];
      [s[0]] + Insert(x, s[1..])
  }

  /** The stable descending sort: by score, ties in input order. */
  function SortByScore(xs: seq<ScoredChunk>): (r: seq<ScoredChunk>)
    ensures multiset(r) == multiset(xs)
  {
    if xs == [] then []
    else
      assert xs == [xs[0]] + xs[1..];
      Insert(xs[0], SortByScore(xs[1..]))
  }

  lemma {:induction false} InsertDescending(x: ScoredChunk, s: seq<ScoredChunk>)
    requires Descending(s)
    ensures Descending(Insert(x, s))
    decreases |s|
  {
    if s != [] && s[0].score > x.score {
      var rest := Insert(x, s[1..]);
      InsertDescending(x, s[1..]);
      forall j | 0 <= j < |rest|
        ensures rest[j].score <= s[0].score
      {
        assert rest[j] in multiset(rest);
        if rest[j] != x {
          assert rest[j] in s[1..];
        }
      }
      assert Insert(x, s) == [s[0]] + rest;
    }
  }

  lemma {:induction false} SortDescending(xs: seq<ScoredChunk>)
    ensures Descending(SortByScore(xs))
    decreases |xs|
  {
    if xs != [] {
      SortDescending(xs[1..]);
      InsertDescending(xs[0], SortByScore(xs[1..]));
    }
  }

  lemma {:induction false} InsertWithScore(x: ScoredChunk, s: seq<ScoredChunk>, v: int)
    ensures WithScore(Insert(x, s), v) == (if x.score == v then [x] else []) + WithScore(s, v)
    decreases |s|
  {
    if s == [] || s[0].score <= x.score {
      assert ([x] + s)[1..] == s;
    } else {
      InsertWithScore(x, s[1..], v);
      assert ([s[0]] + Insert(x, s[1..]))[1..] == Insert(x, s[1..]);
    }
  }

  /** Ties keep their input order: the entries of each score come out as they went in. */
  lemma {:induction false} SortStable(xs: seq<ScoredChunk>, v: int)
    ensures WithScore(SortByScore(xs), v) == WithScore(xs, v)
    decreases |xs|
  {
    if xs != [] {
      SortStable(xs[1..], v);
      InsertWithScore(xs[0], SortByScore(xs[1..]), v);
    }
  }

  /** When a descending list holds an entry scoring `v`, its head scores at least `v`. */
  lemma DescendingHead(xs: seq<ScoredChunk>, v: int)
    requires Descending(xs) && WithScore(xs, v) != []
    ensures xs != [] && xs[0].score >= v
  {
    var y := WithScore(xs, v)[0];
    WithScoreMember(xs, v, y);
  }

  /** The entries of one score past the head of a list. */
  lemma WithScoreTail(xs: seq<ScoredChunk>, v: int)
    requires xs != []
    ensures WithScore(xs[1..], v) == if xs[0].score == v then WithScore(xs, v)[1..] else WithScore(xs, v)
  {
    if xs[0].score != v {
      assert WithScore(xs, v) == [] + WithScore(xs[1..], v);
    }
  }

  /** Two non-empty descending lists with the same entries of every score start alike. */
  lemma DescendingSameHead(a: seq<ScoredChunk>, b: seq<ScoredChunk>)
    requires a != [] && b != [] && Descending(a) && Descending(b)
    requires forall v :: WithScore(a, v) == WithScore(b, v)
    ensures a[0] == b[0]
  {
    var m := a[0].score;
    assert WithScore(a, m) == [a[0]] + WithScore(a[1..], m);
    DescendingHead(b, m);
    assert WithScore(b, b[0].score) == [b[0]] + WithScore(b[1..], b[0].score);
    DescendingHead(a, b[0].score);
    assert WithScore(a, m)[0] == a[0] && WithScore(b, m)[0] == b[0];
  }

  /** The head of a list is among the entries of its own score. */
  lemma HeadHasScore(xs: seq<ScoredChunk>)
    requires xs != []
    ensures WithScore(xs, xs[0].score) != []
  {
  }

  /** Two descending lists with the same entries of every score, in the same order, are equal. */
  lemma {:induction false} DescendingEqual(a: seq<ScoredChunk>, b: seq<ScoredChunk>)
    requires Descending(a) && Descending(b)
    requires forall v :: WithScore(a, v) == WithScore(b, v)
    ensures a == b
    decreases |a|
  {
    if a == [] {
      if b != [] {
        HeadHasScore(b);
        assert false;
      }
    } else if b == [] {
      HeadHasScore(a);
      assert false;
    } else {
      DescendingSameHead(a, b);
      forall v
        ensures WithScore(a[1..], v) == WithScore(b[1..], v)
      {
        WithScoreTail(a, v);
        WithScoreTail(b, v);
      }
      DescendingEqual(a[1..], b[1..]);
      assert a == [a[0]] + a[1..];
      assert b == [b[0]] + b[1..];
    }
  }

  /** Any descending order that keeps ties in input order is the one `SortByScore` gives. */
  lemma SortUnique(xs: seq<ScoredChunk>, ys: seq<ScoredChunk>)
    requires Descending(ys)
    requires forall v :: WithScore(ys, v) == WithScore(xs, v)
    ensures ys == SortByScore(xs)
  {
    SortDescending(xs);
    forall v
      ensures WithScore(ys, v) == WithScore(SortByScore(xs), v)
    {
      SortStable(xs, v);
    }
    DescendingEqual(ys, SortByScore(xs));
  }

  // ---------------------------------------------------------------- filter and cut

  /** The entries scoring at least `t`, in order. */
  function AtLeast(xs: seq<ScoredChunk>, t: int): (r: seq<ScoredChunk>)
    ensures |r| <= |xs|
    ensures forall k :: 0 <= k < |r| ==> r[k].score >= t
  {
    if xs == [] then []
    else (if xs[0].score >= t then [xs[0]] else []) + AtLeast(xs[1..], t)
  }

  lemma {:induction false} AtLeastMember(xs: seq<ScoredChunk>, t: int, y: ScoredChunk)
    ensures y in AtLeast(xs, t) <==> y in xs && y.score >= t
    decreases |xs|
  {
    if xs != [] {
      AtLeastMember(xs[1..], t, y);
      assert y in xs <==> y == xs[0] || y in xs[1..];
    }
  }

  lemma {:induction false} AtLeastDescending(xs: seq<ScoredChunk>, t: int)
    requires Descending(xs)
    ensures Descending(AtLeast(xs, t))
    decreases |xs|
  {
    if xs != [] {
      var rest := AtLeast(xs[1..], t);
      AtLeastDescending(xs[1..], t);
      if xs[0].score >= t {
        forall j | 0 <= j < |rest|
          ensures rest[j].score <= xs[0].score
        {
          AtLeastMember(xs[1..], t, rest[j]);
        }
        assert AtLeast(xs, t) == [xs[0]] + rest;
      } else {
        assert AtLeast(xs, t) == rest;
      }
    }
  }

  lemma {:induction false} WithScoreAtLeast(xs: seq<ScoredChunk>, t: int, v: int)
    ensures WithScore(AtLeast(xs, t), v) == if v >= t then WithScore(xs, v) else []
    decreases |xs|
  {
    if xs != [] {
      WithScoreAtLeast(xs[1..], t, v);
      var rest := AtLeast(xs[1..], t);
      if xs[0].score >= t {
        assert AtLeast(xs, t) == [xs[0]] + rest;
        assert ([xs[0]] + rest)[1..] == rest;
      } else {
        assert AtLeast(xs, t) == [] + rest;
        assert [] + rest == rest;
        assert WithScore(xs, v) == [] + WithScore(xs[1..], v) || xs[0].score == v;
      }
    }
  }

  /** `slice(0, k)`. */
  function Take(xs: seq<ScoredChunk>, k: nat): (r: seq<ScoredChunk>)
    ensures |r| <= k && r <= xs
    ensures |r| == k || r == xs
  {
    if k <= |xs| then xs[..k] else xs
  }

  /** `map(item => item.chunk)`. */
  function ChunksOf(xs: seq<ScoredChunk>): (r: seq<string>)
    ensures |r| == |xs|
    ensures forall i :: 0 <= i < |xs| ==> r[i] == xs[i].chunk
  {
    seq(|xs|, i requires 0 <= i < |xs| => xs[i].chunk)
  }

  // ---------------------------------------------------------------- retrieval

  /** The scored chunks sorted by score, descending and stably, below the threshold dropped. */
  function Ranked(query: string, chunks: seq<string>): (r: seq<ScoredChunk>)
    ensures |r| <= |chunks|
    ensures forall k :: 0 <= k < |r| ==> r[k].score >= MIN_SCORE_THRESHOLD
  {
    var sorted := SortByScore(ScoreAll(query, chunks));
    assert |sorted| == |multiset(sorted)| == |ScoreAll(query, chunks)|;
    AtLeast(sorted, MIN_SCORE_THRESHOLD)
  }

  /** `retrieveRelevantChunks(query, chunks, topK)`. */
  function Retrieve(query: string, chunks: seq<string>, topK: nat): (r: seq<string>)
    ensures |r| <= topK
    ensures chunks == [] ==> r == []
  {
    if chunks == [] then [] else ChunksOf(Take(Ranked(query, chunks), topK))
  }

  /** An entry is ranked exactly when it pairs a chunk with its score and that score passes. */
  lemma RankedMember(query: string, chunks: seq<string>, y: ScoredChunk)
    ensures y in Ranked(query, chunks) <==>
            y.chunk in chunks && y.score == Score(query, chunks, y.chunk) && y.score >= MIN_SCORE_THRESHOLD
  {
    var all := ScoreAll(query, chunks);
    AtLeastMember(SortByScore(all), MIN_SCORE_THRESHOLD, y);
    assert y in SortByScore(all) <==> y in multiset(SortByScore(all));
    ScoreAllMember(query, chunks, y);
  }

  /**
   * The ranking is descending, and for every passing score it holds the chunks of
   * that score in input order, and nothing else.
   */
  lemma RankedIsStableOrder(query: string, chunks: seq<string>)
    ensures Descending(Ranked(query, chunks))
    ensures forall v :: WithScore(Ranked(query, chunks), v) ==
                        if v >= MIN_SCORE_THRESHOLD then WithScore(ScoreAll(query, chunks), v) else []
  {
    var all := ScoreAll(query, chunks);
    SortDescending(all);
    AtLeastDescending(SortByScore(all), MIN_SCORE_THRESHOLD);
    forall v
      ensures WithScore(Ranked(query, chunks), v) ==
              if v >= MIN_SCORE_THRESHOLD then WithScore(all, v) else []
    {
      WithScoreAtLeast(SortByScore(all), MIN_SCORE_THRESHOLD, v);
      SortStable(all, v);
    }
  }

  /** Any list with those two properties is the ranking. */
  lemma RankedUnique(query: string, chunks: seq<string>, ys: seq<ScoredChunk>)
    requires Descending(ys)
    requires forall v :: WithScore(ys, v) ==
                         if v >= MIN_SCORE_THRESHOLD then WithScore(ScoreAll(query, chunks), v) else []
    ensures ys == Ranked(query, chunks)
  {
    RankedIsStableOrder(query, chunks);
    DescendingEqual(ys, Ranked(query, chunks));
  }

  /** The result is the chunks of the first `topK` ranked entries. */
  lemma RetrieveIsRankedPrefix(query: string, chunks: seq<string>, topK: nat)
    ensures var r := Retrieve(query, chunks, topK);
            var ranked := Ranked(query, chunks);
            |r| == (if topK <= |ranked| then topK else |ranked|) &&
            forall k :: 0 <= k < |r| ==> r[k] == ranked[k].chunk
  {
    if chunks == [] {
      assert ScoreAll(query, chunks) == [];
    }
  }

  /** Every returned chunk is one of `chunks` and passes the threshold. */
  lemma RetrieveSound(query: string, chunks: seq<string>, topK: nat)
    ensures forall k :: 0 <= k < |Retrieve(query, chunks, topK)| ==>
              Retrieve(query, chunks, topK)[k] in chunks &&
              Score(query, chunks, Retrieve(query, chunks, topK)[k]) >= MIN_SCORE_THRESHOLD
  {
    var r := Retrieve(query, chunks, topK);
    var ranked := Ranked(query, chunks);
    RetrieveIsRankedPrefix(query, chunks, topK);
    forall k | 0 <= k < |r|
      ensures r[k] in chunks && Score(query, chunks, r[k]) >= MIN_SCORE_THRESHOLD
    {
      RankedMember(query, chunks, ranked[k]);
    }
  }

  /** Scores never increase along the result. */
  lemma RetrieveOrdered(query: string, chunks: seq<string>, topK: nat)
    ensures forall i, j :: 0 <= i < j < |Retrieve(query, chunks, topK)| ==>
              Score(query, chunks, Retrieve(query, chunks, topK)[i]) >=
              Score(query, chunks, Retrieve(query, chunks, topK)[j])
  {
    var r := Retrieve(query, chunks, topK);
    var ranked := Ranked(query, chunks);
    RetrieveIsRankedPrefix(query, chunks, topK);
    RankedIsStableOrder(query, chunks);
    forall i, j | 0 <= i < j < |r|
      ensures Score(query, chunks, r[i]) >= Score(query, chunks, r[j])
    {
      RankedMember(query, chunks, ranked[i]);
      RankedMember(query, chunks, ranked[j]);
    }
  }

  /** When fewer than `topK` chunks come back, no passing chunk was left out. */
  lemma RetrieveComplete(query: string, chunks: seq<string>, topK: nat, c: string)
    requires |Retrieve(query, chunks, topK)| < topK
    requires c in chunks && Score(query, chunks, c) >= MIN_SCORE_THRESHOLD
    ensures c in Retrieve(query, chunks, topK)
  {
    var r := Retrieve(query, chunks, topK);
    var ranked := Ranked(query, chunks);
    RetrieveIsRankedPrefix(query, chunks, topK);
    var y := ScoredChunk(c, Score(query, chunks, c));
    RankedMember(query, chunks, y);
    var j :| 0 <= j < |ranked| && ranked[j] == y;
    assert r[j] == c;
  }

  /**
   * A query that asks about the author never comes back empty (for `topK > 0`):
   * the first chunk earns the bonus of 5, which alone passes the threshold.
   */
  lemma AuthorQueryNeverEmpty(query: string, chunks: seq<string>, topK: nat)
    requires AsksForAuthor(query) && chunks != [] && topK > 0
    ensures Retrieve(query, chunks, topK) != []
  {
    var y := ScoredChunk(chunks[0], Score(query, chunks, chunks[0]));
    RankedMember(query, chunks, y);
    RetrieveIsRankedPrefix(query, chunks, topK);
  }

  /** With no word hit anywhere and no author keyword, nothing is returned. */
  lemma NoMatchNoResult(query: string, chunks: seq<string>, topK: nat)
    requires !AsksForAuthor(query)
    requires forall c :: c in chunks ==> Hits(QueryWords(query), ToLower(c)) == 0
    ensures Retrieve(query, chunks, topK) == []
  {
    var ranked := Ranked(query, chunks);
    RetrieveIsRankedPrefix(query, chunks, topK);
    if ranked != [] {
      RankedMember(query, chunks, ranked[0]);
    }
  }
}
