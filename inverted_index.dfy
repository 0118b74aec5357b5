/** The in-memory inverted index: a term dictionary from normalised terms to
    postings lists, and the roster of indexed documents, built one document
    at a time, with the collection statistics and the query term counts
    that scoring starts from. */
module InvertedIndex {
  import opened Tokenize
  import opened Sums
  import opened Postings

  class InvIndex {
    var index: map<string, seq<Posting>>
    var docsIndexed: seq<Doc>

    ghost predicate Valid()
      reads this
    {
      IndexInvariant(index, docsIndexed)
    }

    /** NewIndex: an empty dictionary and an empty roster. */
    constructor ()
      ensures Valid()
      ensures index == map[] && docsIndexed == []
    {
      index := map[];
      docsIndexed := [];
      EmptyInvariant();
    }

    /** Adds one document, named name, whose text is content. The document
        gets the next ID and its size is its number of fields; the
        dictionary is the old one with one occurrence of that document added
        for each of its terms, in order. */
    method IndexDocument(name: string, content: string)
      requires Valid()
      modifies this
      ensures Valid()
      ensures docsIndexed == old(docsIndexed) + [Doc(name, |Fields(content)|, 0.0)]
      ensures index == AddAll(old(index), |old(docsIndexed)| + 1, Terms(content))
    {
      ghost var roster := docsIndexed;
      docsIndexed := docsIndexed + [Doc(name, 0, 0.0)];
      IndexTokens(content);
      assert docsIndexed == roster + [Doc(name, |Fields(content)|, 0.0)] by {
        assert forall i :: 0 <= i < |roster| ==> docsIndexed[i] == roster[i];
      }
      DocumentKeepsInvariant(old(index), roster, name, content);
    }

    /** The token loop of IndexDocument, for the newest document: every field
        of content, trimmed and lower-cased, is one more occurrence of that
        document on its term's list and one more unit of its size. */
    method IndexTokens(content: string)
      requires |docsIndexed| > 0
      modifies this
      ensures |docsIndexed| == |old(docsIndexed)|
      ensures forall i :: 0 <= i < |docsIndexed| - 1 ==> docsIndexed[i] == old(docsIndexed)[i]
      ensures var d := old(docsIndexed)[|docsIndexed| - 1];
        docsIndexed[|docsIndexed| - 1] == d.(size := d.size + |Fields(content)|)
      ensures index == AddAll(old(index), |old(docsIndexed)|, Terms(content))
    {
      var x := |docsIndexed| - 1;
      ghost var d := docsIndexed[x];
      var fields := Fields(content);
      ghost var terms := Terms(content);
      for k := 0 to |fields|
        invariant |docsIndexed| == x + 1
        invariant forall i :: 0 <= i < x ==> docsIndexed[i] == old(docsIndexed)[i]
        invariant docsIndexed[x] == d.(size := d.size + k)
        invariant index == AddAll(old(index), x + 1, terms[..k])
      {
        var lword := ToLower(Trim(fields[k]));
        TermAt(content, k);
        AddAllNext(old(index), x + 1, terms, k);
        AddToken(lword);
      }
      assert terms[..|fields|] == terms;
    }

    /** One token of the newest document: its term's list gets one more
        occurrence of that document, and the document's size goes up by one. */
    method AddToken(lword: string)
      requires |docsIndexed| > 0
      modifies this
      ensures index == AddOccurrence(old(index), |old(docsIndexed)|, lword)
      ensures docsIndexed == CountToken(old(docsIndexed), |old(docsIndexed)|)
    {
      var x := |docsIndexed| - 1;
      // A term never seen before has the empty list.
      var list := if lword in index then index[lword] else [];
      var l := |list|;
      if l > 0 && list[l - 1].docID == x + 1 {
        // The slice shares its backing array with the map entry, so this
        // increment is visible through the dictionary.
        list := list[l - 1 := list[l - 1].(fdt := list[l - 1].fdt + 1)];
        index := index[lword := list];
      } else {
        index := index[lword := list + [Posting(x + 1, 1)]];
      }
      docsIndexed := docsIndexed[x := docsIndexed[x].(size := docsIndexed[x].size + 1)];
    }

    /** The total fdt over every postings list, which is the sum of the
        documents' sizes. */
    method ComputeCollectionSize() returns (totalNumberOfWords: nat)
      ensures totalNumberOfWords == Sum(index, WeightOf(AllDocs))
      ensures Valid() ==> totalNumberOfWords == TotalSize(docsIndexed)
    {
      totalNumberOfWords := 0;
      var keys := index.Keys;
      while keys != {}
        invariant keys <= index.Keys
        invariant totalNumberOfWords + SumOver(index, keys, WeightOf(AllDocs)) == Sum(index, WeightOf(AllDocs))
        decreases |keys|
      {
        var t :| t in keys;
        var postings := index[t];
        SumOverPick(index, keys, WeightOf(AllDocs), t);
        ghost var before := totalNumberOfWords;
        for j := 0 to |postings|
          invariant totalNumberOfWords == before + Weight(postings[..j], AllDocs)
        {
          WeightPrefix(postings, j, AllDocs);
          totalNumberOfWords := totalNumberOfWords + postings[j].fdt;
        }
        assert postings[..|postings|] == postings;
        keys := keys - {t};
      }
    }

    /** The largest document ID in any postings list (0 if there is none):
        the ID of the last document that gave at least one token. */
    method NumberOfDocuments() returns (numOfDocs: nat)
      ensures IsMaxDocID(index, numOfDocs)
      ensures Valid() ==> numOfDocs == LastNonEmpty(docsIndexed) <= |docsIndexed|
    {
      numOfDocs := 0;
      var keys := index.Keys;
      while keys != {}
        invariant keys <= index.Keys
        invariant ListsBelow(index, index.Keys - keys, numOfDocs)
        invariant numOfDocs == 0 || HasPosting(index, numOfDocs)
        decreases |keys|
      {
        var t :| t in keys;
        var postings := index[t];
        ghost var before := numOfDocs;
        for j := 0 to |postings|
          invariant before <= numOfDocs
          invariant forall i :: 0 <= i < j ==> postings[i].docID <= numOfDocs
          invariant numOfDocs == 0 || HasPosting(index, numOfDocs)
        {
          if postings[j].docID > numOfDocs {
            numOfDocs := postings[j].docID;
            assert index[t][j].docID == numOfDocs;
          }
        }
        ListsBelowAdd(index, index.Keys - keys, before, t, numOfDocs);
        assert index.Keys - (keys - {t}) == index.Keys - keys + {t};
        keys := keys - {t};
      }
      if Valid() {
        MaxDocIDIsLastNonEmpty(index, docsIndexed, numOfDocs);
      }
    }

    /** The length of term's postings list, 0 for a term never indexed. In a
        valid index this is the term's document frequency, and it is 0
        exactly for the terms never indexed. */
    function NumOfQueryDocs(term: string): (n: nat)
      reads this
      ensures term !in index ==> n == 0
      ensures Valid() ==> n == |DocIDs(Lookup(index, term))| && (n == 0 <==> term !in index)
    {
      DocFrequency(index, docsIndexed, term);
      if term in index then |index[term]| else 0
    }
  }

  /** The query terms lower-cased: the dictionary keys a query piece would match. */
  function Lowered(ps: seq<string>): seq<string>
  {
    seq(|ps|, i requires 0 <= i < |ps| => ToLower(ps[i]))
  }

  /** query holds the number of occurrences of every term of ts, and
      nothing else, so that its counts add up to the length of ts. */
  ghost predicate CountsOf(query: map<string, nat>, ts: seq<string>)
  {
    && (forall t :: t in query <==> t in ts)
    && (forall t :: t in query ==> query[t] == Occurrences(ts, t))
    && Sum(query, CountValue) == |ts|
  }

  /** Counting one more term: its count goes up by one, from zero if it is new. */
  lemma {:induction false} CountsOfAppend(query: map<string, nat>, ts: seq<string>, key: string)
    requires CountsOf(query, ts)
    ensures CountsOf(query[key := (if key in query then query[key] else 0) + 1], ts + [key])
  {
    var count := if key in query then query[key] else 0;
    OccurrencesBounds(ts, key);
    SumUpdate(query, CountValue, key, count + 1);
    forall t
      ensures t in ts + [key] <==> t in ts || t == key
      ensures Occurrences(ts + [key], t) == Occurrences(ts, t) + (if key == t then 1 else 0)
    {
      OccurrencesAppend(ts, key, t);
    }
  }

  /** The query-frequency counts that SearchTopKQuery starts from: the
      query is split on single spaces, each piece is lower-cased, and each
      lower-cased piece is counted. */
  method QueryTermCounts(word: string) returns (query: map<string, nat>)
    ensures forall t :: t in query <==> t in Lowered(Split(word))
    ensures forall t :: t in query ==> query[t] == Occurrences(Lowered(Split(word)), t)
    ensures Sum(query, CountValue) == |Split(word)|
  {
    query := map[];
    var str := Split(word);
    ghost var lowered := Lowered(str);
    for i := 0 to |str|
      invariant CountsOf(query, lowered[..i])
    {
      var key := ToLower(str[i]);
      assert lowered[i] == key;
      PrefixStep(lowered, i);
      CountsOfAppend(query, lowered[..i], key);
      // A missing key reads as zero.
      var count := if key in query then query[key] else 0;
      query := query[key := count + 1];
    }
    assert lowered[..|str|] == lowered;
  }
}

/** The term loop of SearchTopKQuery, which picks the query terms whose
    postings are scored. */
module QueryTerms {
  import opened Tokenize
  import opened Sums
  import opened InvertedIndex

  /** The distinct lower-cased pieces of a query: the keys of its count map. */
  ghost function QueryKeys(word: string): set<string>
  {
    set t | t in Lowered(Split(word))
  }

  /** The pieces the loop scores as the code is written: index i runs from 0
      below the number of distinct keys, and piece i is scored when the raw
      piece, not lower-cased, is a key. */
  function ScoredAsWritten(str: seq<string>, keys: set<string>, n: nat): seq<string>
    requires n <= |str|
  {
    if n == 0 then []
    else ScoredAsWritten(str, keys, n - 1) + (if str[n - 1] in keys then [str[n - 1]] else [])
  }

  /** A query has no more distinct keys than pieces, so the loop's str[i]
      stays in range. */
  lemma KeysAtMostPieces(query: map<string, nat>, word: string)
    requires forall t :: t in query <==> t in Lowered(Split(word))
    requires forall t :: t in query ==> query[t] == Occurrences(Lowered(Split(word)), t)
    requires Sum(query, CountValue) == |Split(word)|
    ensures |query| <= |Split(word)|
  {
    forall k | k in query.Keys ensures CountValue(query[k]) >= 1 {
      OccurrencesBounds(Lowered(Split(word)), k);
    }
    SumOverAtLeastSize(query, query.Keys, CountValue);
  }

  /** The loop at invertedIndex.go:136-137 as written, reporting the pieces
      whose postings it scores, in order. */
  method ScoredTermsAsWritten(word: string) returns (scored: seq<string>)
    ensures |QueryKeys(word)| <= |Split(word)|
    ensures scored == ScoredAsWritten(Split(word), QueryKeys(word), |QueryKeys(word)|)
  {
    var query := QueryTermCounts(word);
    var str := Split(word);
    KeysAtMostPieces(query, word);
    assert query.Keys == QueryKeys(word);
    scored := [];
    for i := 0 to |query|
      invariant scored == ScoredAsWritten(str, query.Keys, i)
    {
      if str[i] in query {
        scored := scored + [str[i]];
      }
    }
  }

  /** "a a b" has two distinct keys, so only its first two pieces are looked
      at: "a" is scored twice and "b" never. */
  lemma RepeatedTermScoredTwice()
    ensures Split("a a b") == ["a", "a", "b"] && QueryKeys("a a b") == {"a", "b"}
    ensures ScoredAsWritten(Split("a a b"), QueryKeys("a a b"), |QueryKeys("a a b")|) == ["a", "a"]
  {
    var ps := ["a", "a", "b"];
    assert Join(ps, ' ') == "a a b" by {
      assert Join(ps[1..], ' ') == "a b" by {
        assert Join(ps[2..], ' ') == "b";
      }
    }
    SplitJoin(ps);
    assert ToLower("a") == "a" && ToLower("b") == "b";
    assert Lowered(ps) == ps;
    assert QueryKeys("a a b") == {"a", "b"};
  }

  /** "Hello" is counted under "hello", but the loop looks the raw piece up,
      so the query term is never scored. */
  lemma CapitalisedTermNeverScored()
    ensures QueryKeys("Hello") == {"hello"}
    ensures ScoredAsWritten(Split("Hello"), QueryKeys("Hello"), |QueryKeys("Hello")|) == []
  {
    SplitJoin(["Hello"]);
    assert ToLower("Hello") == "hello";
    assert Lowered(["Hello"]) == ["hello"];
    assert QueryKeys("Hello") == {"hello"};
  }

  /** The loop as intended: every key of the count map, each exactly once, in
      Go's unspecified map order. */
  method ScoredTerms(word: string) returns (scored: seq<string>)
    ensures forall t :: t in scored <==> t in Lowered(Split(word))
    ensures forall i, j :: 0 <= i < j < |scored| ==> scored[i] != scored[j]
    ensures forall t :: Occurrences(scored, t) == if t in Lowered(Split(word)) then 1 else 0
  {
    var query := QueryTermCounts(word);
    scored := [];
    var keys := query.Keys;
    while keys != {}
      invariant keys <= query.Keys
      invariant forall t :: t in scored <==> t in query && t !in keys
      invariant forall i, j :: 0 <= i < j < |scored| ==> scored[i] != scored[j]
      decreases |keys|
    {
      var t :| t in keys;
      scored := scored + [t];
      keys := keys - {t};
    }
    forall t ensures Occurrences(scored, t) == if t in Lowered(Split(word)) then 1 else 0 {
      DistinctOccursOnce(scored, t);
    }
  }

  /** Each query term is scored exactly once by the intended loop's result. */
  lemma {:induction false} DistinctOccursOnce(scored: seq<string>, t: string)
    requires forall i, j :: 0 <= i < j < |scored| ==> scored[i] != scored[j]
    ensures Occurrences(scored, t) == if t in scored then 1 else 0
    decreases |scored|
  {
    if scored != [] {
      var init := scored[..|scored| - 1];
      DistinctOccursOnce(init, t);
      assert scored == init + [scored[|scored| - 1]];
      if t in init {
        var i :| 0 <= i < |init| && init[i] == t;
        assert scored[i] == t;
      }
    }
  }
}
