/**
 * The hospital knowledge base's keyword search. Pages scraped from the
 * hospital website are scored against a free-text question: 2 points for
 * every keyword of the question that occurs in a page, 5 more when the
 * whole question does. Pages that score are ranked best first, the best
 * `limit` of them are rendered into one context string for the assistant,
 * and that string is cut at 2000 characters.
 */
module Knowledge {
  import opened Wrappers
  import opened Text

  /** A scraped page as loaded from its JSON file; each key may be absent. */
  datatype Document = Document(title: Option<string>, url: Option<string>, content: Option<string>)

  /** A page the search keeps, with its score. */
  datatype Hit = Hit(score: int, doc: Document)

  /** Words of a question that are never used as keywords. */
  const StopWords: set<string> := {
    "we", "are", "is", "am", "the", "a", "an", "for", "to",
    "do", "you", "have", "any", "very", "keen", "please",
    "i", "want", "can", "tell", "me", "about"
  }

  const Fallback: string := "I could not find specific hospital information related to this query."
  const Header: string := "Here is the relevant information found from the hospital website:\n\n"

  /** Characters of a page's content shown per page. */
  const ExcerptLength: nat := 600
  /** Characters of context returned at most. */
  const ContextLength: nat := 2000

  /** `f"{value}"` of an optional JSON string: a missing value renders as `None`. */
  function Show(v: Option<string>): string
  {
    match v
    case None => "None"
    case Some(t) => t
  }

  /** `doc.get("content", "")` */
  function Content(d: Document): string
  {
    match d.content
    case None => ""
    case Some(c) => c
  }

  // ---------------------------------------------------------------------
  // The question

  /** The question as matched against pages: lower-cased, then stripped. */
  function QueryText(query: string): string
  {
    Strip(Lower(query))
  }

  predicate IsKeyword(w: string)
  {
    w !in StopWords && |w| > 2
  }

  /** The words of `ws` that are keywords, in order and with repeats. */
  function Keywords(ws: seq<string>): (r: seq<string>)
    ensures |r| <= |ws|
    ensures forall i :: 0 <= i < |r| ==> IsKeyword(r[i])
  {
    if ws == [] then []
    else if IsKeyword(ws[0]) then [ws[0]] + Keywords(ws[1..])
    else Keywords(ws[1..])
  }

  /** A word is kept exactly when it is in the list and is a keyword. */
  lemma {:induction false} KeywordsSpec(ws: seq<string>, w: string)
    ensures w in Keywords(ws) <==> w in ws && IsKeyword(w)
  {
    if ws != [] {
      KeywordsSpec(ws[1..], w);
      assert ws == [ws[0]] + ws[1..];
    }
  }

  /** Keyword selection works word by word: order and repeats are kept. */
  lemma {:induction false} KeywordsAppend(a: seq<string>, b: seq<string>)
    ensures Keywords(a + b) == Keywords(a) + Keywords(b)
    decreases |a|
  {
    if a == [] {
      assert a + b == b;
    } else {
      assert (a + b)[0] == a[0] && (a + b)[1..] == a[1..] + b;
      KeywordsAppend(a[1..], b);
    }
  }

  /** A single word is kept exactly when it is a keyword. */
  lemma KeywordsOne(w: string)
    ensures Keywords([w]) == if IsKeyword(w) then [w] else []
  {
  }

  /** The keywords of a question. */
  function QueryWords(query: string): seq<string>
  {
    Keywords(Split(QueryText(query)))
  }

  /**
   * Every keyword is a lower-case, whitespace-free word of the question
   * longer than two characters and not a stop word, and every such word
   * of the question is a keyword.
   */
  lemma {:induction false} QueryWordsSpec(query: string, w: string)
    ensures w in QueryWords(query) <==> w in Split(QueryText(query)) && w !in StopWords && |w| > 2
    ensures w in QueryWords(query) ==> w != [] && NoSpace(w)
  {
    KeywordsSpec(Split(QueryText(query)), w);
  }

  /**
   * For a question made of words separated by single spaces, the keywords
   * are those words lower-cased, with stop words and short words dropped,
   * in the question's order and with its repeats.
   */
  lemma {:induction false} QueryWordsOfWords(ws: seq<string>)
    requires forall i :: 0 <= i < |ws| ==> ws[i] != [] && NoSpace(ws[i])
    ensures QueryWords(JoinWords(ws)) == Keywords(LowerAll(ws))
  {
    var q := JoinWords(ws);
    var ls := LowerAll(ws);
    SplitStrip(Lower(q));
    LowerJoin(ws);
    forall i | 0 <= i < |ls|
      ensures ls[i] != [] && NoSpace(ls[i])
    {
      LowerNoSpace(ws[i]);
    }
    SplitJoin(ls);
  }

  // ---------------------------------------------------------------------
  // Scoring

  /** 2 points for every keyword in `words` (counting repeats) that occurs in `content`. */
  function WordScore(words: seq<string>, content: string): (r: int)
    ensures 0 <= r <= 2 * |words| && r % 2 == 0
  {
    if words == [] then 0
    else WordScore(words[..|words| - 1], content) + (if Contains(content, words[|words| - 1]) then 2 else 0)
  }

  /** The keyword points are zero exactly when no keyword occurs. */
  lemma {:induction false} WordScoreZero(words: seq<string>, content: string)
    ensures WordScore(words, content) == 0 <==> forall i :: 0 <= i < |words| ==> !Contains(content, words[i])
  {
    if words != [] {
      var init := words[..|words| - 1];
      WordScoreZero(init, content);
      assert forall i :: 0 <= i < |init| ==> init[i] == words[i];
    }
  }

  /** The keyword points are full exactly when every keyword occurs. */
  lemma {:induction false} WordScoreFull(words: seq<string>, content: string)
    ensures WordScore(words, content) == 2 * |words| <==> forall i :: 0 <= i < |words| ==> Contains(content, words[i])
  {
    if words != [] {
      var init := words[..|words| - 1];
      WordScoreFull(init, content);
      assert forall i :: 0 <= i < |init| ==> init[i] == words[i];
    }
  }

  /** The score of a page against the keywords `words` and the whole question `q`. */
  function Score(d: Document, words: seq<string>, q: string): (r: int)
    ensures 0 <= r <= 2 * |words| + 5
  {
    var content := Lower(Content(d));
    WordScore(words, content) + (if Contains(content, q) then 5 else 0)
  }

  /** A page scores exactly when its lower-cased content holds the whole question or one of the keywords. */
  lemma {:induction false} ScoresIffMatches(d: Document, words: seq<string>, q: string)
    ensures Score(d, words, q) > 0 <==>
      Contains(Lower(Content(d)), q) || exists i :: 0 <= i < |words| && Contains(Lower(Content(d)), words[i])
  {
    WordScoreZero(words, Lower(Content(d)));
  }

  /** The pages of `docs` that score, in document order, with their scores. */
  function Scored(docs: seq<Document>, words: seq<string>, q: string): (r: seq<Hit>)
    ensures |r| <= |docs|
    ensures forall i :: 0 <= i < |r| ==> r[i].score > 0
  {
    if docs == [] then []
    else
      var d := docs[|docs| - 1];
      var s := Score(d, words, q);
      Scored(docs[..|docs| - 1], words, q) + (if s > 0 then [Hit(s, d)] else [])
  }

  /** A hit is kept exactly when it is a page of `docs` carrying its own positive score. */
  lemma {:induction false} ScoredSpec(docs: seq<Document>, words: seq<string>, q: string, h: Hit)
    ensures h in Scored(docs, words, q) <==> h.doc in docs && h.score == Score(h.doc, words, q) && h.score > 0
  {
    if docs != [] {
      var init := docs[..|docs| - 1];
      ScoredSpec(init, words, q, h);
      assert docs == init + [docs[|docs| - 1]];
    }
  }

  // ---------------------------------------------------------------------
  // Ranking: `results.sort(key=lambda x: x[0], reverse=True)`

  /** Scores never increase along `s`. */
  predicate SortedDesc(s: seq<Hit>)
  {
    forall i, j :: 0 <= i < j < |s| ==> s[i].score >= s[j].score
  }

  /** The hits of `s` with score `v`, in order. */
  function WithScore(s: seq<Hit>, v: int): (r: seq<Hit>)
    ensures |r| <= |s|
  {
    if s == [] then []
    else (if s[0].score == v then [s[0]] else []) + WithScore(s[1..], v)
  }

  /** Puts `h` in front of the first hit of `s` that does not score more. */
  function Insert(h: Hit, s: seq<Hit>): (r: seq<Hit>)
    ensures |r| == |s| + 1
  {
    if s == [] || s[0].score <= h.score then [h] + s
    else [s[0]] + Insert(h, s[1..])
  }

  /** A stable sort by score, highest first (insertion sort from the back). */
  function SortByScore(s: seq<Hit>): (r: seq<Hit>)
    ensures |r| == |s|
  {
    if s == [] then [] else Insert(s[0], SortByScore(s[1..]))
  }

  lemma {:induction false} WithScoreMember(s: seq<Hit>, v: int, h: Hit)
    ensures h in WithScore(s, v) <==> h in s && h.score == v
  {
    if s != [] {
      WithScoreMember(s[1..], v, h);
      assert s == [s[0]] + s[1..];
    }
  }

  lemma {:induction false} InsertMultiset(h: Hit, s: seq<Hit>)
    ensures multiset(Insert(h, s)) == multiset(s) + multiset{h}
  {
    if s != [] && s[0].score > h.score {
      InsertMultiset(h, s[1..]);
      assert s == [s[0]] + s[1..];
    }
  }

  lemma {:induction false} InsertSorted(h: Hit, s: seq<Hit>)
    requires SortedDesc(s)
    ensures SortedDesc(Insert(h, s))
  {
    if s != [] && s[0].score > h.score {
      var t := s[1..];
      InsertSorted(h, t);
      InsertMultiset(h, t);
      var r := Insert(h, t);
      forall k | 0 <= k < |r|
        ensures r[k].score <= s[0].score
      {
        assert r[k] in multiset(r);
        assert r[k] == h || r[k] in multiset(t);
      }
    }
  }

  lemma {:induction false} WithScoreCons(x: Hit, t: seq<Hit>, v: int)
    ensures WithScore([x] + t, v) == (if x.score == v then [x] else []) + WithScore(t, v)
  {
    assert ([x] + t)[1..] == t;
  }

  /** Inserting `h` adds it in front of the hits of its own score and leaves the other scores alone. */
  lemma {:induction false} InsertWithScore(h: Hit, s: seq<Hit>, v: int)
    ensures WithScore(Insert(h, s), v) == (if h.score == v then [h] else []) + WithScore(s, v)
  {
    if s != [] && s[0].score > h.score {
      var t := s[1..];
      var first := if s[0].score == v then [s[0]] else [];
      assert WithScore(Insert(h, s), v) == first + WithScore(Insert(h, t), v) by {
        assert Insert(h, s) == [s[0]] + Insert(h, t);
        WithScoreCons(s[0], Insert(h, t), v);
      }
      assert WithScore(s, v) == first + WithScore(t, v) by {
        assert s == [s[0]] + t;
        WithScoreCons(s[0], t, v);
      }
      InsertWithScore(h, t, v);
      if s[0].score == v {
        assert h.score != v;
      }
    } else {
      assert Insert(h, s) == [h] + s;
      WithScoreCons(h, s, v);
    }
  }

  /**
   * The ranking is ordered best first, holds the same hits, and keeps the
   * original order among hits of equal score.
   */
  lemma {:induction false} SortByScoreSpec(s: seq<Hit>)
    ensures SortedDesc(SortByScore(s))
    ensures multiset(SortByScore(s)) == multiset(s)
    ensures forall v :: WithScore(SortByScore(s), v) == WithScore(s, v)
  {
    if s != [] {
      SortByScoreSpec(s[1..]);
      var r := SortByScore(s[1..]);
      InsertSorted(s[0], r);
      InsertMultiset(s[0], r);
      assert s == [s[0]] + s[1..];
      forall v
        ensures WithScore(SortByScore(s), v) == WithScore(s, v)
      {
        InsertWithScore(s[0], r, v);
      }
    }
  }

  /** The first hit of a sequence heads the hits of its own score. */
  lemma {:induction false} WithScoreHead(s: seq<Hit>)
    requires s != []
    ensures WithScore(s, s[0].score) == [s[0]] + WithScore(s[1..], s[0].score)
  {
  }

  lemma {:induction false} SortedHead(s: seq<Hit>, h: Hit)
    requires SortedDesc(s) && h in s
    ensures s[0].score >= h.score
  {
  }

  /**
   * A stable descending sort has only one possible result: two orderings
   * that are both best first and agree on the hits of every score are the
   * same sequence.
   */
  lemma {:induction false} StableSortUnique(a: seq<Hit>, b: seq<Hit>)
    requires SortedDesc(a) && SortedDesc(b)
    requires forall v :: WithScore(a, v) == WithScore(b, v)
    ensures a == b
    decreases |a|
  {
    if a == [] {
      if b != [] {
        WithScoreHead(b);
        assert false;
      }
    } else if b == [] {
      WithScoreHead(a);
      assert false;
    } else {
      var u, w := a[0].score, b[0].score;
      WithScoreHead(a);
      WithScoreHead(b);
      WithScoreMember(b, u, a[0]);
      SortedHead(b, a[0]);
      WithScoreMember(a, w, b[0]);
      SortedHead(a, b[0]);
      assert u == w;
      assert WithScore(a, u) == [a[0]] + WithScore(a[1..], u);
      assert WithScore(b, u) == [b[0]] + WithScore(b[1..], u);
      forall v
        ensures WithScore(a[1..], v) == WithScore(b[1..], v)
      {
        if v == u {
          assert [a[0]] + WithScore(a[1..], u) == [b[0]] + WithScore(b[1..], u);
          assert WithScore(a[1..], u) == ([a[0]] + WithScore(a[1..], u))[1..];
        } else {
          assert WithScore(a, v) == WithScore(a[1..], v);
          assert WithScore(b, v) == WithScore(b[1..], v);
        }
      }
      StableSortUnique(a[1..], b[1..]);
      assert a == [a[0]] + a[1..] && b == [b[0]] + b[1..];
    }
  }

  /** The pages that score against `query`, best first. */
  function Ranked(docs: seq<Document>, query: string): seq<Hit>
  {
    SortByScore(Scored(docs, QueryWords(query), QueryText(query)))
  }

  /**
   * The ranking holds exactly the pages that score, each with its score,
   * best first, pages of equal score in document order; and it is the
   * result of any stable sort by descending score.
   */
  lemma {:induction false} RankedSpec(docs: seq<Document>, query: string, h: Hit)
    ensures SortedDesc(Ranked(docs, query))
    ensures h in Ranked(docs, query) <==>
      h.doc in docs && h.score == Score(h.doc, QueryWords(query), QueryText(query)) && h.score > 0
    ensures forall v :: WithScore(Ranked(docs, query), v) == WithScore(Scored(docs, QueryWords(query), QueryText(query)), v)
  {
    var s := Scored(docs, QueryWords(query), QueryText(query));
    SortByScoreSpec(s);
    ScoredSpec(docs, QueryWords(query), QueryText(query), h);
    assert h in SortByScore(s) <==> h in multiset(SortByScore(s));
  }

  // ---------------------------------------------------------------------
  // The context string

  /** Python's `xs[:limit]`; a negative `limit` drops that many elements from the end. */
  function PySlice<T>(xs: seq<T>, limit: int): (r: seq<T>)
    ensures |r| <= |xs| && r == xs[..|r|]
    ensures limit >= 0 ==> |r| == if limit < |xs| then limit else |xs|
    ensures limit < 0 ==> |r| == if |xs| + limit > 0 then |xs| + limit else 0
  {
    if limit >= 0 then (if limit < |xs| then xs[..limit] else xs)
    else if |xs| + limit > 0 then xs[..|xs| + limit]
    else []
  }

  /** The text one shown page contributes: its source line and at most 600 characters of its content. */
  function Block(d: Document): string
  {
    "--- Source: " + Show(d.title) + " (" + Show(d.url) + ") ---\n" + Take(Content(d), ExcerptLength) + "...\n\n"
  }

  /** The blocks of the shown hits, in ranking order. */
  function Blocks(hs: seq<Hit>): string
  {
    if hs == [] then [] else Blocks(hs[..|hs| - 1]) + Block(hs[|hs| - 1].doc)
  }

  /** One more shown hit appends its block to the context. */
  lemma {:induction false} BlocksSnoc(start: string, top: seq<Hit>, k: int)
    requires 0 <= k < |top|
    ensures start + Blocks(top[..k + 1]) == start + Blocks(top[..k]) + Block(top[k].doc)
  {
    assert top[..k + 1][..k] == top[..k];
  }

  /** A page's block is its source line, the first `min(600, |content|)` characters of its content and a `...` marker. */
  lemma {:induction false} BlockShape(d: Document)
    ensures var line := "--- Source: " + Show(d.title) + " (" + Show(d.url) + ") ---\n";
      var n := if |Content(d)| < ExcerptLength then |Content(d)| else ExcerptLength;
      |Block(d)| == |line| + n + 5 && Block(d)[..|line|] == line
      && Block(d)[|line|..|line| + n] == Content(d)[..n]
  {
    var line := "--- Source: " + Show(d.title) + " (" + Show(d.url) + ") ---\n";
    var ex := Take(Content(d), ExcerptLength);
    assert Block(d) == line + ex + "...\n\n";
  }

  /** What `search(query, limit)` returns for the pages `docs`. */
  function SearchSpec(docs: seq<Document>, query: string, limit: int): (r: string)
    ensures |r| <= ContextLength
  {
    var top := PySlice(Ranked(docs, query), limit);
    if top == [] then Fallback else Take(Header + Blocks(top), ContextLength)
  }

  /**
   * The fallback sentence comes back exactly when no page is shown;
   * otherwise the answer opens with the header line.
   */
  lemma {:induction false} SearchSpecShape(docs: seq<Document>, query: string, limit: int)
    ensures SearchSpec(docs, query, limit) == Fallback <==> PySlice(Ranked(docs, query), limit) == []
    ensures SearchSpec(docs, query, limit) != Fallback ==>
      |SearchSpec(docs, query, limit)| >= |Header| && SearchSpec(docs, query, limit)[..|Header|] == Header
  {
    var top := PySlice(Ranked(docs, query), limit);
    if top != [] {
      TakeKeepsHeader(Blocks(top));
    }
  }

  lemma {:induction false} TakeKeepsHeader(rest: string)
    ensures var r := Take(Header + rest, ContextLength);
      r != Fallback && |r| >= |Header| && r[..|Header|] == Header
  {
    var c := Header + rest;
    var r := Take(c, ContextLength);
    assert |Header| == 67 && Header[66] == '\n';
    assert |Fallback| == 69 && Fallback[66] == 'r';
    assert r[..|Header|] == c[..|Header|] == Header;
    assert r[66] == Header[66];
  }

  /** With a positive limit the fallback sentence comes back exactly when no page scores. */
  lemma {:induction false} FallbackIffNoMatch(docs: seq<Document>, query: string, limit: int)
    requires limit > 0
    ensures SearchSpec(docs, query, limit) == Fallback <==>
      forall i :: 0 <= i < |docs| ==> Score(docs[i], QueryWords(query), QueryText(query)) == 0
  {
    var words, q := QueryWords(query), QueryText(query);
    var ranked := Ranked(docs, query);
    SearchSpecShape(docs, query, limit);
    if ranked == [] {
      forall i | 0 <= i < |docs|
        ensures Score(docs[i], words, q) == 0
      {
        var h := Hit(Score(docs[i], words, q), docs[i]);
        RankedSpec(docs, query, h);
      }
    } else {
      RankedSpec(docs, query, ranked[0]);
      var i :| 0 <= i < |docs| && docs[i] == ranked[0].doc;
      assert Score(docs[i], words, q) > 0;
    }
  }

  /** The first page shown scores at least as high as every page of the knowledge base. */
  lemma {:induction false} BestShownFirst(docs: seq<Document>, query: string, limit: int, i: int)
    requires PySlice(Ranked(docs, query), limit) != [] && 0 <= i < |docs|
    ensures PySlice(Ranked(docs, query), limit)[0].score >= Score(docs[i], QueryWords(query), QueryText(query))
  {
    var ranked := Ranked(docs, query);
    var s := Score(docs[i], QueryWords(query), QueryText(query));
    if s > 0 {
      RankedSpec(docs, query, Hit(s, docs[i]));
      SortedHead(ranked, Hit(s, docs[i]));
    } else {
      RankedSpec(docs, query, ranked[0]);
    }
  }

  /** An empty or blank question is contained in every page, which all score 5 and keep their order. */
  lemma {:induction false} BlankQueryRanksAll(docs: seq<Document>, query: string)
    requires forall i :: 0 <= i < |query| ==> IsSpace(query[i])
    ensures Ranked(docs, query) == seq(|docs|, i requires 0 <= i < |docs| => Hit(5, docs[i]))
  {
    var lq := Lower(query);
    assert forall i :: 0 <= i < |lq| ==> IsSpace(lq[i]) by {
      forall i | 0 <= i < |lq|
        ensures IsSpace(lq[i])
      {
        assert !IsLetter(query[i]);
      }
    }
    StripEmptyIffBlank(lq);
    assert QueryText(query) == [];
    assert QueryWords(query) == [];
    var all := seq(|docs|, i requires 0 <= i < |docs| => Hit(5, docs[i]));
    BlankScoredAll(docs);
    SortByScoreSpec(all);
    StableSortUnique(SortByScore(all), all);
  }

  lemma {:induction false} BlankScoredAll(docs: seq<Document>)
    ensures Scored(docs, [], []) == seq(|docs|, i requires 0 <= i < |docs| => Hit(5, docs[i]))
  {
    if docs != [] {
      var init := docs[..|docs| - 1];
      BlankScoredAll(init);
      var d := docs[|docs| - 1];
      assert OccursAt([], Lower(Content(d)), 0);
      assert Score(d, [], []) == 5;
    }
  }

  // ---------------------------------------------------------------------
  // The knowledge base object

  class KnowledgeBase {
    /** The loaded pages, in load order. */
    var documents: seq<Document>

    constructor (documents: seq<Document>)
      ensures this.documents == documents
    {
      this.documents := documents;
    }

    /** `search(query, limit)` (the source's default limit is 3); it changes nothing. */
    method Search(query: string, limit: int) returns (r: string)
      ensures r == SearchSpec(documents, query, limit)
    {
      var q := Strip(Lower(query));
      var words := Keywords(Split(q));
      var results := Collect(documents, words, q);
      results := SortByScore(results);
      var top := PySlice(results, limit);
      if top == [] {
        return Fallback;
      }
      var context := Header;
      context := AppendBlocks(context, top);
      r := Take(context, ContextLength);
    }
  }

  /** The loop of `search` over the pages, keeping those that score. */
  method Collect(docs: seq<Document>, words: seq<string>, q: string) returns (results: seq<Hit>)
    ensures results == Scored(docs, words, q)
  {
    results := [];
    for i := 0 to |docs|
      invariant results == Scored(docs[..i], words, q)
    {
      var doc := docs[i];
      var score := ScoreDocument(doc, words, q);
      if score > 0 {
        results := results + [Hit(score, doc)];
      }
      assert docs[..i + 1][..i] == docs[..i];
    }
    assert docs[..|docs|] == docs;
  }

  /** The score loop of `search` for one page. */
  method ScoreDocument(doc: Document, words: seq<string>, q: string) returns (score: int)
    ensures score == Score(doc, words, q)
  {
    var content := Lower(Content(doc));
    score := 0;
    for j := 0 to |words|
      invariant score == WordScore(words[..j], content)
    {
      if Contains(content, words[j]) {
        score := score + 2;
      }
      assert words[..j + 1][..j] == words[..j];
    }
    assert words[..|words|] == words;
    if Contains(content, q) {
      score := score + 5;
    }
  }

  /** The `context_text +=` loop of `search` over the shown hits. */
  method AppendBlocks(start: string, top: seq<Hit>) returns (context: string)
    ensures context == start + Blocks(top)
  {
    context := start;
    var k := 0;
    while k < |top|
      invariant 0 <= k <= |top|
      invariant context == start + Blocks(top[..k])
    {
      BlocksSnoc(start, top, k);
      context := context + Block(top[k].doc);
      k := k + 1;
    }
    assert top[..k] == top;
  }
}
