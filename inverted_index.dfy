/**
 * A term -> document-id posting index with a whitespace tokenizer, and a
 * search that returns every document matching any query term.
 */
module TextSearch {

  /** A stored document. */
  datatype Document = Document(docId: string, content: string)

  /** One search hit; every hit has the same score. */
  datatype SearchResult = SearchResult(docId: string, score: real)

  /** The score search gives every hit. */
  const HitScore: real := 1.0

  /** The number of results search returns when the caller does not say. */
  const DefaultMaxResults: int := 10

  // Tokenizing: text.lower().split()

  /**
   * The characters Python's str.split() separates on: those for which
   * str.isspace() holds.
   */
  predicate IsSpace(c: char)
  {
    || c == ' ' || ('\t' <= c <= '\r') || ('\U{1C}' <= c <= '\U{1F}')
    || c == '\U{85}' || c == '\U{A0}' || c == '\U{1680}'
    || ('\U{2000}' <= c <= '\U{200A}') || c == '\U{2028}' || c == '\U{2029}'
    || c == '\U{202F}' || c == '\U{205F}' || c == '\U{3000}'
  }

  predicate IsUpper(c: char)
  {
    'A' <= c <= 'Z'
  }

  /** The ASCII letters, upper-case and lower-case, in alphabetical order. */
  const UpperLetters: string := "ABCDEFGHIJKLMNOPQRSTUVWXYZ"
  const LowerLetters: string := "abcdefghijklmnopqrstuvwxyz"

  /**
   * str.lower() on one character, for the ASCII letters: an upper-case
   * letter becomes the lower-case letter of the same place in the alphabet.
   */
  function LowerChar(c: char): (r: char)
    ensures !IsUpper(r)
    ensures IsSpace(r) <==> IsSpace(c)
    ensures !IsUpper(c) ==> r == c
    ensures forall k :: 0 <= k < |UpperLetters| && c == UpperLetters[k] ==> r == LowerLetters[k]
  {
    if IsUpper(c) then (c as int + 32) as char else c
  }

  /**
   * str.lower(), for the ASCII letters: no upper-case letter is left,
   * each becomes its own lower-case letter, whitespace stays where it
   * was, and every other character is kept.
   */
  function Lower(s: string): (r: string)
    ensures |r| == |s|
    ensures forall c :: c in r ==> !IsUpper(c)
    ensures forall i, k :: 0 <= i < |s| && 0 <= k < |UpperLetters| && s[i] == UpperLetters[k] ==>
      r[i] == LowerLetters[k]
    ensures forall i :: 0 <= i < |s| ==> (IsSpace(r[i]) <==> IsSpace(s[i]))
    ensures forall i :: 0 <= i < |s| && !IsUpper(s[i]) ==> r[i] == s[i]
  {
    seq(|s|, i requires 0 <= i < |s| => LowerChar(s[i]))
  }

  /** Lower-casing twice is lower-casing once. */
  lemma LowerIdempotent(s: string)
    ensures Lower(Lower(s)) == Lower(s)
  {
    var once := Lower(s);
    forall i | 0 <= i < |once| ensures !IsUpper(once[i]) {
      assert once[i] in once;
    }
  }

  /** The longest prefix of s without whitespace. */
  function Word(s: string): (w: string)
    ensures w <= s
    ensures forall c :: c in w ==> !IsSpace(c)
    ensures |w| < |s| ==> IsSpace(s[|w|])
    decreases |s|
  {
    if s == [] || IsSpace(s[0]) then [] else [s[0]] + Word(s[1..])
  }

  /** str.split() with no separator: the maximal runs of non-whitespace, in order. */
  function Split(s: string): seq<string>
    decreases |s|
  {
    if s == [] then []
    else if IsSpace(s[0]) then Split(s[1..])
    else
      var w := Word(s);
      assert s[..1] <= w;
      [w] + Split(s[|w|..])
  }

  /** The tokens of a text: lower-cased, then split on whitespace. */
  function Tokenize(text: string): seq<string>
  {
    Split(Lower(text))
  }

  /** The characters of s that are not whitespace, in order. */
  function NonSpace(s: string): string
    decreases |s|
  {
    if s == [] then [] else (if IsSpace(s[0]) then [] else [s[0]]) + NonSpace(s[1..])
  }

  /** The tokens written one after another. */
  function Concat(ws: seq<string>): string
    decreases |ws|
  {
    if ws == [] then [] else ws[0] + Concat(ws[1..])
  }

  /** " ".join(ws). */
  function JoinSpaced(ws: seq<string>): string
    decreases |ws|
  {
    if ws == [] then [] else if |ws| == 1 then ws[0] else ws[0] + " " + JoinSpaced(ws[1..])
  }

  /** A token as split produces it: non-empty and free of whitespace. */
  predicate IsWord(w: string)
  {
    w != [] && forall c :: c in w ==> !IsSpace(c)
  }

  /** Every token of s is a non-empty run of non-whitespace characters of s. */
  lemma {:induction false} SplitTokensAreWords(s: string)
    ensures forall w :: w in Split(s) ==> IsWord(w)
    ensures forall w, c :: w in Split(s) && c in w ==> c in s
    decreases |s|
  {
    if s != [] {
      if IsSpace(s[0]) {
        SplitTokensAreWords(s[1..]);
        forall w, c | w in Split(s) && c in w ensures c in s {
          assert c in s[1..];
        }
      } else {
        var w := Word(s);
        assert s[..1] <= w;
        SplitTokensAreWords(s[|w|..]);
        forall v, c | v in Split(s) && c in v ensures c in s {
          if v != w {
            assert c in s[|w|..];
          }
        }
      }
    }
  }

  /** Writing the tokens one after another gives back the non-whitespace characters. */
  lemma {:induction false} SplitKeepsEveryNonSpace(s: string)
    ensures Concat(Split(s)) == NonSpace(s)
    decreases |s|
  {
    if s != [] {
      if IsSpace(s[0]) {
        SplitKeepsEveryNonSpace(s[1..]);
      } else {
        var w := Word(s);
        assert s[..1] <= w;
        var rest := s[|w|..];
        SplitKeepsEveryNonSpace(rest);
        assert s == w + rest;
        NonSpaceAppend(w, rest);
        NonSpaceOfWord(w);
      }
    }
  }

  lemma {:induction false} NonSpaceAppend(a: string, b: string)
    ensures NonSpace(a + b) == NonSpace(a) + NonSpace(b)
    decreases |a|
  {
    if a == [] {
      assert a + b == b;
    } else {
      assert (a + b)[0] == a[0];
      assert (a + b)[1..] == a[1..] + b;
      NonSpaceAppend(a[1..], b);
    }
  }

  lemma {:induction false} NonSpaceOfWord(w: string)
    requires forall c :: c in w ==> !IsSpace(c)
    ensures NonSpace(w) == w
    decreases |w|
  {
    if w != [] {
      assert w[0] in w;
      NonSpaceOfWord(w[1..]);
    }
  }

  /** A text has no tokens exactly when it is all whitespace (the empty text included). */
  lemma {:induction false} SplitEmptyIffBlank(s: string)
    ensures Split(s) == [] <==> forall i :: 0 <= i < |s| ==> IsSpace(s[i])
    decreases |s|
  {
    if s != [] {
      if IsSpace(s[0]) {
        SplitEmptyIffBlank(s[1..]);
        assert forall i :: 1 <= i < |s| ==> s[i] == s[1..][i - 1];
      } else {
        assert s[..1] <= Word(s);
      }
    }
  }

  /** Splitting " ".join(ws) gives back the words ws. */
  lemma {:induction false} SplitJoinSpaced(ws: seq<string>)
    requires forall w :: w in ws ==> IsWord(w)
    ensures Split(JoinSpaced(ws)) == ws
    decreases |ws|
  {
    if ws != [] {
      var w := ws[0];
      assert w in ws;
      if |ws| == 1 {
        SplitWordThen(w, []);
        assert w + [] == w;
      } else {
        var rest := JoinSpaced(ws[1..]);
        forall v | v in ws[1..] ensures IsWord(v) {
          assert v in ws;
        }
        SplitJoinSpaced(ws[1..]);
        SplitWordThen(w, " " + rest);
        assert w + " " + rest == w + (" " + rest);
        assert (" " + rest)[1..] == rest;
      }
    }
  }

  /** A word followed by nothing or by whitespace is split off as the first token. */
  lemma SplitWordThen(w: string, t: string)
    requires IsWord(w)
    requires t == [] || IsSpace(t[0])
    ensures Split(w + t) == [w] + Split(t)
  {
    WordOfWordThen(w, t);
    assert (w + t)[..1] <= w;
    assert (w + t)[|w|..] == t;
  }

  lemma {:induction false} WordOfWordThen(w: string, t: string)
    requires forall c :: c in w ==> !IsSpace(c)
    requires t == [] || IsSpace(t[0])
    ensures Word(w + t) == w
    decreases |w|
  {
    if w != [] {
      assert w[0] in w;
      assert (w + t)[1..] == w[1..] + t;
      WordOfWordThen(w[1..], t);
    } else {
      assert w + t == t;
    }
  }

  /**
   * The tokens of a text: non-empty, without whitespace or upper-case
   * letters, and none at all exactly when the text is blank.
   */
  lemma TokenizeSpec(text: string)
    ensures forall w :: w in Tokenize(text) ==> IsWord(w)
    ensures forall w, c :: w in Tokenize(text) && c in w ==> !IsUpper(c)
    ensures Tokenize(text) == [] <==> forall i :: 0 <= i < |text| ==> IsSpace(text[i])
  {
    var lowered := Lower(text);
    SplitTokensAreWords(lowered);
    SplitEmptyIffBlank(lowered);
    forall w, c | w in Tokenize(text) && c in w ensures !IsUpper(c) {
      assert c in lowered;
    }
  }

  // The index.

  /** The posting set of term: the ids of the documents holding it, none when absent. */
  function Postings(index: map<string, set<string>>, term: string): set<string>
  {
    if term in index then index[term] else {}
  }

  /** The elements of a sequence of terms. */
  function Terms(ts: seq<string>): set<string>
  {
    set t | t in ts
  }

  /** The index after docId is added to the posting set of each term of terms, in order. */
  function WithPostings(index: map<string, set<string>>, terms: seq<string>, docId: string)
    : map<string, set<string>>
    decreases |terms|
  {
    if terms == [] then index
    else
      var m := WithPostings(index, terms[..|terms| - 1], docId);
      var t := terms[|terms| - 1];
      m[t := Postings(m, t) + {docId}]
  }

  /**
   * Posting docId under terms gives each of those terms a posting set
   * holding docId, and changes no other: posting sets only grow.
   */
  lemma {:induction false} PostingsAfterAdd(index: map<string, set<string>>, terms: seq<string>, docId: string)
    ensures WithPostings(index, terms, docId).Keys == index.Keys + Terms(terms)
    ensures forall t :: Postings(WithPostings(index, terms, docId), t)
                        == Postings(index, t) + (if t in terms then {docId} else {})
    decreases |terms|
  {
    if terms != [] {
      var init := terms[..|terms| - 1];
      var last := terms[|terms| - 1];
      assert terms == init + [last];
      PostingsAfterAdd(index, init, docId);
      assert Terms(terms) == Terms(init) + {last};
    }
  }

  /** Adding a document keeps every id already posted, and posts it under each of its terms. */
  lemma AddKeepsOldPostings(index: map<string, set<string>>, terms: seq<string>, docId: string, t: string)
    ensures Postings(index, t) <= Postings(WithPostings(index, terms, docId), t)
    ensures t in terms ==> docId in Postings(WithPostings(index, terms, docId), t)
    ensures t !in terms ==> Postings(WithPostings(index, terms, docId), t) == Postings(index, t)
  {
    PostingsAfterAdd(index, terms, docId);
  }

  /** The document ids in the posting set of some term of terms. */
  function Matches(index: map<string, set<string>>, terms: seq<string>): (r: set<string>)
    ensures forall d :: d in r <==> exists t :: t in terms && d in Postings(index, t)
  {
    set t, d | t in terms && d in Postings(index, t) :: d
  }

  /** Taking one more query term adds its postings to the matches. */
  lemma MatchesStep(index: map<string, set<string>>, terms: seq<string>, i: nat)
    requires i < |terms|
    ensures Matches(index, terms[..i + 1]) == Matches(index, terms[..i]) + Postings(index, terms[i])
  {
    assert terms[..i + 1] == terms[..i] + [terms[i]];
    forall d | d in Matches(index, terms[..i + 1])
      ensures d in Matches(index, terms[..i]) + Postings(index, terms[i])
    {
      var t :| t in terms[..i + 1] && d in Postings(index, t);
      if t != terms[i] {
        assert t in terms[..i];
      }
    }
    forall d | d in Postings(index, terms[i]) ensures d in Matches(index, terms[..i + 1]) {
      assert terms[i] in terms[..i + 1];
    }
  }

  /** A query none of whose terms is indexed matches nothing. */
  lemma UnindexedQueryMatchesNothing(index: map<string, set<string>>, terms: seq<string>)
    requires forall t :: t in terms ==> t !in index || index[t] == {}
    ensures Matches(index, terms) == {}
  {
    assert forall t :: t in terms ==> Postings(index, t) == {};
  }

  /** The number of elements results[:m] keeps from a list of n. */
  function PrefixLength(n: nat, m: int): (k: nat)
    ensures k <= n
    ensures m >= 0 ==> k == if m < n then m else n
    ensures m < 0 ==> k == if n + m > 0 then n + m else 0
  {
    if m >= 0 then (if m < n then m else n) else (if n + m > 0 then n + m else 0)
  }

  /** The document ids of a result list, in order. */
  function Ids(rs: seq<SearchResult>): (ids: seq<string>)
    ensures |ids| == |rs|
    ensures forall i :: 0 <= i < |rs| ==> ids[i] == rs[i].docId
  {
    if rs == [] then [] else [rs[0].docId] + Ids(rs[1..])
  }

  /** No id appears twice. */
  predicate DistinctIds(rs: seq<SearchResult>)
  {
    forall i, j :: 0 <= i < j < |rs| ==> rs[i].docId != rs[j].docId
  }

  class InvertedIndex {
    var documents: map<string, Document>
    var index: map<string, set<string>>

    /** Every posted id names a stored document. */
    ghost predicate Valid()
      reads this
    {
      forall t, d :: t in index && d in index[t] ==> d in documents
    }

    constructor ()
      ensures Valid()
      ensures documents == map[] && index == map[]
    {
      documents := map[];
      index := map[];
    }

    /**
     * Stores the document under docId, replacing any earlier one, and adds
     * docId to the posting set of each of its tokens.
     */
    method AddDocument(docId: string, content: string)
      requires Valid()
      modifies this
      ensures Valid()
      ensures documents == old(documents)[docId := Document(docId, content)]
      ensures index == WithPostings(old(index), Tokenize(content), docId)
    {
      var doc := Document(docId, content);
      documents := documents[docId := doc];
      var terms := Tokenize(content);
      var i := 0;
      while i < |terms|
        invariant 0 <= i <= |terms|
        invariant documents == old(documents)[docId := doc]
        invariant index == WithPostings(old(index), terms[..i], docId)
        invariant Valid()
      {
        assert terms[..i + 1][..i] == terms[..i];
        index := index[terms[i] := Postings(index, terms[i]) + {docId}];
        i := i + 1;
      }
      assert terms[..i] == terms;
    }

    /**
     * The documents matching any token of the query, as hits in no
     * particular order, cut down as results[:maxResults] cuts a list.
     */
    method Search(query: string, maxResults: int := DefaultMaxResults) returns (results: seq<SearchResult>)
      requires Valid()
      ensures Tokenize(query) == [] ==> results == []
      ensures forall r :: r in results ==> r.score == HitScore
      ensures DistinctIds(results)
      ensures forall r :: r in results ==> r.docId in Matches(index, Tokenize(query))
      ensures forall r :: r in results ==> r.docId in documents
      ensures |results| == PrefixLength(|Matches(index, Tokenize(query))|, maxResults)
      ensures maxResults >= |Matches(index, Tokenize(query))| ==>
        forall d :: d in Matches(index, Tokenize(query)) ==> d in Ids(results)
    {
      var queryTerms := Tokenize(query);
      if queryTerms == [] {
        return [];
      }
      var matching: set<string> := {};
      var i := 0;
      while i < |queryTerms|
        invariant 0 <= i <= |queryTerms|
        invariant matching == Matches(index, queryTerms[..i])
      {
        MatchesStep(index, queryTerms, i);
        matching := matching + Postings(index, queryTerms[i]);
        i := i + 1;
      }
      assert queryTerms[..i] == queryTerms;
      var all := Hits(matching);
      results := all[..PrefixLength(|all|, maxResults)];
      forall r | r in results ensures r.docId in documents {
        var t :| t in queryTerms && r.docId in Postings(index, t);
      }
    }
  }

  /** The ids of a list with one more hit. */
  lemma IdsAppend(rs: seq<SearchResult>, r: SearchResult)
    ensures Ids(rs + [r]) == Ids(rs) + [r.docId]
  {
  }

  /** One hit per id of matching, in some order. */
  method Hits(matching: set<string>) returns (hits: seq<SearchResult>)
    ensures |hits| == |matching|
    ensures DistinctIds(hits)
    ensures forall r :: r in hits ==> r.score == HitScore && r.docId in matching
    ensures forall d :: d in matching ==> d in Ids(hits)
  {
    hits := [];
    var rest := matching;
    while rest != {}
      invariant rest <= matching
      invariant |hits| + |rest| == |matching|
      invariant DistinctIds(hits)
      invariant forall r :: r in hits ==> r.score == HitScore && r.docId in matching && r.docId !in rest
      invariant forall d :: d in matching ==> d in rest || d in Ids(hits)
      decreases |rest|
    {
      var d :| d in rest;
      var hit := SearchResult(d, HitScore);
      IdsAppend(hits, hit);
      hits := hits + [hit];
      rest := rest - {d};
    }
  }

  /** Lower-casing leaves a text without upper-case letters as it is. */
  lemma LowerKeepsLowercase(s: string)
    requires forall i :: 0 <= i < |s| ==> !IsUpper(s[i])
    ensures Lower(s) == s
  {
  }

  lemma SplitHello()
    ensures Split("hello") == ["hello"]
  {
    assert "hello" + [] == "hello";
    SplitWordThen("hello", []);
  }

  lemma SplitSpaceWorld()
    ensures Split(" world") == ["world"]
  {
    assert " world"[1..] == "world";
    assert "world" + [] == "world";
    SplitWordThen("world", []);
  }

  lemma SplitHelloWorld()
    ensures Split("hello world") == ["hello", "world"]
  {
    assert "hello world" == "hello" + " world";
    SplitWordThen("hello", " world");
    SplitSpaceWorld();
  }

  lemma TokenizeHelloWorld()
    ensures Tokenize("hello world") == ["hello", "world"]
  {
    LowerKeepsLowercase("hello world");
    SplitHelloWorld();
  }

  lemma TokenizeHello()
    ensures Tokenize("hello") == ["hello"]
  {
    LowerKeepsLowercase("hello");
    SplitHello();
  }

  /** The index of test_add_single_document_and_search finds its one document. */
  method SingleDocumentScenario()
  {
    var idx := new InvertedIndex();
    idx.AddDocument("doc1", "hello world");
    TokenizeHelloWorld();
    PostingsAfterAdd(map[], ["hello", "world"], "doc1");
    assert Postings(idx.index, "hello") == {"doc1"};
    TokenizeHello();
    var results := idx.Search("hello");
    assert Matches(idx.index, ["hello"]) == {"doc1"};
    assert |results| == 1;
    assert results[0] in results;
  }
}
