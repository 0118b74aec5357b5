/** The inverted index's data as values: postings, documents, the term
    dictionary, the invariant the builder keeps, and the closed form of what
    indexing one document does to the dictionary. */
module Postings {
  import opened Tokenize
  import opened Sums

  /** One document's entry in a term's postings list: the 1-based ID of the
      document and the number of times the term occurs in it (fdt). */
  datatype Posting = Posting(docID: nat, fdt: nat)

  /** A document of the roster: its base name, its token count and its
      score for the current query. Document i of the roster has ID i + 1. */
  datatype Doc = Doc(name: string, size: nat, score: real)

  /** The term dictionary: each term's postings list. */
  type Dictionary = map<string, seq<Posting>>

  /** Which postings a weight counts: all of them, or one document's. */
  datatype Scope = AllDocs | OneDoc(id: nat)

  predicate InScope(p: Posting, s: Scope)
  {
    s.AllDocs? || p.docID == s.id
  }

  /** The sum of fdt over the postings of ps that s selects. */
  function Weight(ps: seq<Posting>, s: Scope): nat
  {
    if ps == [] then 0
    else Weight(ps[..|ps| - 1], s) + (if InScope(ps[|ps| - 1], s) then ps[|ps| - 1].fdt else 0)
  }

  /** The weight of a prefix grows by one posting at a time. */
  lemma WeightPrefix(ps: seq<Posting>, j: nat, s: Scope)
    requires j < |ps|
    ensures Weight(ps[..j + 1], s) == Weight(ps[..j], s) + (if InScope(ps[j], s) then ps[j].fdt else 0)
  {
    assert ps[..j + 1][..j] == ps[..j];
  }

  function WeightOf(s: Scope): seq<Posting> -> nat
  {
    ps => Weight(ps, s)
  }

  /** The sum of the documents' sizes. */
  function TotalSize(docs: seq<Doc>): nat
  {
    if docs == [] then 0 else TotalSize(docs[..|docs| - 1]) + docs[|docs| - 1].size
  }

  /** A term's postings list; a term never seen has the empty list. */
  function Lookup(dict: Dictionary, t: string): seq<Posting>
  {
    if t in dict then dict[t] else []
  }

  /** Strictly ascending by document ID, hence at most one posting per document. */
  predicate Ascending(ps: seq<Posting>)
  {
    forall i, j :: 0 <= i < j < |ps| ==> ps[i].docID < ps[j].docID
  }

  /** A postings list of an index that holds n documents. */
  predicate ValidList(ps: seq<Posting>, n: nat)
  {
    && ps != []
    && Ascending(ps)
    && forall j :: 0 <= j < |ps| ==> 1 <= ps[j].docID <= n && ps[j].fdt >= 1
  }

  /** What the builder keeps true of the dictionary and the roster:
      every key is a normalised term with a well-formed postings list;
      every document's size is the total fdt of its postings; and the total
      fdt of the dictionary is the sum of the sizes. */
  ghost predicate IndexInvariant(dict: Dictionary, docs: seq<Doc>)
  {
    && WellFormed(dict, |docs|)
    && SizesMatch(dict, docs)
    && Sum(dict, WeightOf(AllDocs)) == TotalSize(docs)
  }

  /** Every key is a normalised term with a well-formed list for n documents. */
  ghost predicate WellFormed(dict: Dictionary, n: nat)
  {
    forall t :: t in dict ==> IsTerm(t) && ValidList(dict[t], n)
  }

  /** Every document's size is the total fdt of its postings. */
  ghost predicate SizesMatch(dict: Dictionary, docs: seq<Doc>)
  {
    forall i :: 0 <= i < |docs| ==> docs[i].size == Sum(dict, WeightOf(OneDoc(i + 1)))
  }

  // ---------------------------------------------------------------------
  // One token at a time
  // ---------------------------------------------------------------------

  /** One more occurrence of a term in document id, on that term's list:
      the last posting's fdt goes up if it is already id's, otherwise a
      posting (id, 1) is appended. */
  function CountOccurrence(ps: seq<Posting>, id: nat): seq<Posting>
  {
    var l := |ps|;
    if l > 0 && ps[l - 1].docID == id then ps[l - 1 := Posting(id, ps[l - 1].fdt + 1)]
    else ps + [Posting(id, 1)]
  }

  function AddOccurrence(dict: Dictionary, id: nat, t: string): Dictionary
  {
    dict[t := CountOccurrence(Lookup(dict, t), id)]
  }

  /** Document id with its size raised by one. */
  function CountToken(docs: seq<Doc>, id: nat): seq<Doc>
    requires 1 <= id <= |docs|
  {
    docs[id - 1 := docs[id - 1].(size := docs[id - 1].size + 1)]
  }

  /** Each occurrence adds exactly one to the weight of every scope that covers id. */
  lemma WeightCountOccurrence(ps: seq<Posting>, id: nat, s: Scope)
    ensures Weight(CountOccurrence(ps, id), s) == Weight(ps, s) + (if InScope(Posting(id, 1), s) then 1 else 0)
  {
    var l := |ps|;
    var q := CountOccurrence(ps, id);
    if l > 0 && ps[l - 1].docID == id {
      assert q[..l - 1] == ps[..l - 1];
    } else {
      assert q[..l] == ps;
    }
  }

  lemma CountOccurrenceValid(ps: seq<Posting>, n: nat)
    requires n >= 1
    requires ps == [] || ValidList(ps, n)
    ensures ValidList(CountOccurrence(ps, n), n)
  {
    var l := |ps|;
    if !(l > 0 && ps[l - 1].docID == n) {
      var q := ps + [Posting(n, 1)];
      forall i, j | 0 <= i < j < |q| ensures q[i].docID < q[j].docID {
        if j == l {
          assert ps[i].docID <= ps[l - 1].docID < n;
        }
      }
    }
  }

  /** Replacing one document changes the total by the difference in size. */
  lemma {:induction false} TotalSizeUpdate(docs: seq<Doc>, i: nat, d: Doc)
    requires i < |docs|
    ensures TotalSize(docs[i := d]) + docs[i].size == TotalSize(docs) + d.size
    decreases |docs|
  {
    var n := |docs|;
    var u := docs[i := d];
    if i == n - 1 {
      assert u[..n - 1] == docs[..n - 1];
    } else {
      assert u[..n - 1] == docs[..n - 1][i := d];
      TotalSizeUpdate(docs[..n - 1], i, d);
    }
  }

  lemma TotalSizeCountToken(docs: seq<Doc>, id: nat)
    requires 1 <= id <= |docs|
    ensures TotalSize(CountToken(docs, id)) == TotalSize(docs) + 1
  {
    TotalSizeUpdate(docs, id - 1, CountToken(docs, id)[id - 1]);
  }

  /** One token of a term keeps every list well formed. */
  lemma AddOccurrenceWellFormed(dict: Dictionary, n: nat, t: string)
    requires WellFormed(dict, n)
    requires n > 0 && IsTerm(t)
    ensures WellFormed(AddOccurrence(dict, n, t), n)
  {
    CountOccurrenceValid(Lookup(dict, t), n);
  }

  /** One token of the newest document adds one to its size and to its
      weight summed over the dictionary, and changes no other document's. */
  lemma AddOccurrenceSizes(dict: Dictionary, docs: seq<Doc>, t: string)
    requires SizesMatch(dict, docs)
    requires |docs| > 0
    ensures SizesMatch(AddOccurrence(dict, |docs|, t), CountToken(docs, |docs|))
  {
    var n := |docs|;
    var old_ps := Lookup(dict, t);
    var ps := CountOccurrence(old_ps, n);
    var dict' := AddOccurrence(dict, n, t);
    var docs' := CountToken(docs, n);
    forall i | 0 <= i < n
      ensures docs'[i].size == Sum(dict', WeightOf(OneDoc(i + 1)))
    {
      SumUpdate(dict, WeightOf(OneDoc(i + 1)), t, ps);
      WeightCountOccurrence(old_ps, n, OneDoc(i + 1));
    }
  }

  /** One token of the newest document keeps the invariant, with that
      document's size raised by one. */
  lemma AddOccurrenceKeepsInvariant(dict: Dictionary, docs: seq<Doc>, t: string)
    requires IndexInvariant(dict, docs)
    requires |docs| > 0 && IsTerm(t)
    ensures IndexInvariant(AddOccurrence(dict, |docs|, t), CountToken(docs, |docs|))
  {
    var n := |docs|;
    var old_ps := Lookup(dict, t);
    AddOccurrenceWellFormed(dict, n, t);
    AddOccurrenceSizes(dict, docs, t);
    SumUpdate(dict, WeightOf(AllDocs), t, CountOccurrence(old_ps, n));
    WeightCountOccurrence(old_ps, n, AllDocs);
    TotalSizeCountToken(docs, n);
  }

  // ---------------------------------------------------------------------
  // A whole document, in closed form
  // ---------------------------------------------------------------------

  /** Every posting of dict belongs to a document before id. */
  ghost predicate AllBefore(dict: Dictionary, id: nat)
  {
    forall t, j :: t in dict && 0 <= j < |dict[t]| ==> dict[t][j].docID < id
  }

  /** The dictionary after indexing a document with ID id and terms ts: each
      term of the document gets exactly one new posting, at the end, whose fdt
      is the term's number of occurrences; every other list is unchanged. */
  ghost function Indexed(dict: Dictionary, id: nat, ts: seq<string>): Dictionary
  {
    map t | t in dict.Keys + (set u | u in ts) ::
      if t in ts then Lookup(dict, t) + [Posting(id, Occurrences(ts, t))] else dict[t]
  }

  /** A list that already ends with document id counts the token there. */
  lemma CountOccurrenceLast(ps: seq<Posting>, id: nat, n: nat)
    ensures CountOccurrence(ps + [Posting(id, n)], id) == ps + [Posting(id, n + 1)]
  {
    var q := ps + [Posting(id, n)];
    assert q[|q| - 1].docID == id;
    assert q[|q| - 1 := Posting(id, n + 1)] == ps + [Posting(id, n + 1)];
  }

  /** A list whose documents all come before id gets a new posting (id, 1). */
  lemma CountOccurrenceNew(ps: seq<Posting>, id: nat)
    requires ps == [] || ps[|ps| - 1].docID < id
    ensures CountOccurrence(ps, id) == ps + [Posting(id, 1)]
  {
  }

  /** A term's list after indexing: one posting with its number of
      occurrences appended if the document has the term, otherwise as it was. */
  lemma LookupIndexed(dict: Dictionary, id: nat, ts: seq<string>, u: string)
    ensures Lookup(Indexed(dict, id, ts), u) ==
      if u in ts then Lookup(dict, u) + [Posting(id, Occurrences(ts, u))] else Lookup(dict, u)
  {
  }

  /** A repeated token raises the fdt of the posting the document already has. */
  lemma IndexedStepSeen(dict: Dictionary, id: nat, ts: seq<string>, t: string)
    requires t in ts
    ensures Lookup(Indexed(dict, id, ts + [t]), t) == CountOccurrence(Lookup(Indexed(dict, id, ts), t), id)
  {
    OccurrencesAppend(ts, t, t);
    LookupIndexed(dict, id, ts + [t], t);
    LookupIndexed(dict, id, ts, t);
    CountOccurrenceLast(Lookup(dict, t), id, Occurrences(ts, t));
  }

  /** A first token appends a posting with fdt 1, after every earlier document's. */
  lemma IndexedStepNew(dict: Dictionary, id: nat, ts: seq<string>, t: string)
    requires var ps := Lookup(dict, t); ps == [] || ps[|ps| - 1].docID < id
    requires t !in ts
    ensures Lookup(Indexed(dict, id, ts + [t]), t) == CountOccurrence(Lookup(Indexed(dict, id, ts), t), id)
  {
    OccurrencesAppend(ts, t, t);
    OccurrencesAbsent(ts, t);
    LookupIndexed(dict, id, ts + [t], t);
    LookupIndexed(dict, id, ts, t);
    CountOccurrenceNew(Lookup(dict, t), id);
  }

  /** Indexing one more token t leaves every other term's list as it was. */
  lemma IndexedStepOther(dict: Dictionary, id: nat, ts: seq<string>, t: string, u: string)
    requires u != t
    ensures u in Indexed(dict, id, ts + [t]) <==> u in Indexed(dict, id, ts)
    ensures u in Indexed(dict, id, ts) ==> Indexed(dict, id, ts + [t])[u] == Indexed(dict, id, ts)[u]
  {
    OccurrencesAppend(ts, t, u);
    assert u in ts + [t] <==> u in ts;
  }

  /** Indexing one more token of the document is one AddOccurrence. */
  lemma IndexedStep(dict: Dictionary, id: nat, ts: seq<string>, t: string)
    requires AllBefore(dict, id)
    ensures Indexed(dict, id, ts + [t]) == AddOccurrence(Indexed(dict, id, ts), id, t)
  {
    var a := Indexed(dict, id, ts + [t]);
    var b := AddOccurrence(Indexed(dict, id, ts), id, t);
    if t in ts {
      IndexedStepSeen(dict, id, ts, t);
    } else {
      var ps := Lookup(dict, t);
      assert ps != [] ==> ps[|ps| - 1].docID < id;
      IndexedStepNew(dict, id, ts, t);
    }
    LookupIndexed(dict, id, ts + [t], t);
    forall u | u in a.Keys || u in b.Keys ensures u in a.Keys && u in b.Keys && a[u] == b[u] {
      if u != t {
        IndexedStepOther(dict, id, ts, t, u);
      }
    }
    assert a == b;
  }

  /** The dictionary after the tokens ts of document id, one AddOccurrence at a time. */
  function AddAll(dict: Dictionary, id: nat, ts: seq<string>): Dictionary
    decreases |ts|
  {
    if ts == [] then dict
    else AddOccurrence(AddAll(dict, id, ts[..|ts| - 1]), id, ts[|ts| - 1])
  }

  /** One more token of ts is one more AddOccurrence. */
  lemma AddAllNext(dict: Dictionary, id: nat, ts: seq<string>, k: nat)
    requires k < |ts|
    ensures AddAll(dict, id, ts[..k + 1]) == AddOccurrence(AddAll(dict, id, ts[..k]), id, ts[k])
  {
    assert ts[..k + 1][..k] == ts[..k];
  }

  /** Adding the tokens one at a time gives the closed form. */
  lemma {:induction false} AddAllIsIndexed(dict: Dictionary, id: nat, ts: seq<string>)
    requires AllBefore(dict, id)
    ensures AddAll(dict, id, ts) == Indexed(dict, id, ts)
    decreases |ts|
  {
    if ts == [] {
      assert Indexed(dict, id, []) == dict;
    } else {
      var p, t := ts[..|ts| - 1], ts[|ts| - 1];
      assert p + [t] == ts;
      AddAllIsIndexed(dict, id, p);
      IndexedStep(dict, id, p, t);
    }
  }

  /** Indexing a whole document keeps the invariant: the roster gains the
      document with one token per term, and the dictionary gets every
      token's occurrence. */
  lemma {:induction false} AddAllKeepsInvariant(dict: Dictionary, docs: seq<Doc>, name: string, ts: seq<string>)
    requires IndexInvariant(dict, docs)
    requires forall i :: 0 <= i < |ts| ==> IsTerm(ts[i])
    ensures IndexInvariant(AddAll(dict, |docs| + 1, ts), docs + [Doc(name, |ts|, 0.0)])
    decreases |ts|
  {
    var id := |docs| + 1;
    if ts == [] {
      NewDocumentKeepsInvariant(dict, docs, name);
    } else {
      var p, t := ts[..|ts| - 1], ts[|ts| - 1];
      AddAllKeepsInvariant(dict, docs, name, p);
      var docs' := docs + [Doc(name, |p|, 0.0)];
      AddOccurrenceKeepsInvariant(AddAll(dict, id, p), docs', t);
      assert CountToken(docs', id) == docs + [Doc(name, |ts|, 0.0)];
    }
  }

  /** Indexing the text content as document |docs| + 1 keeps the invariant. */
  lemma DocumentKeepsInvariant(dict: Dictionary, docs: seq<Doc>, name: string, content: string)
    requires IndexInvariant(dict, docs)
    ensures IndexInvariant(AddAll(dict, |docs| + 1, Terms(content)), docs + [Doc(name, |Fields(content)|, 0.0)])
  {
    TermsAreTerms(content);
    AddAllKeepsInvariant(dict, docs, name, Terms(content));
  }

  /** What indexing the text content as document id = |docs| + 1 does to
      term t's list: the postings of earlier documents stay as they were,
      and if t is a term of content exactly one posting of id follows them,
      whose fdt is the number of fields that normalise to t. */
  lemma DocumentPostings(dict: Dictionary, docs: seq<Doc>, content: string, t: string)
    requires IndexInvariant(dict, docs)
    ensures var id, ts := |docs| + 1, Terms(content);
      Lookup(AddAll(dict, id, ts), t) ==
        if t in ts then Lookup(dict, t) + [Posting(id, Occurrences(ts, t))] else Lookup(dict, t)
  {
    InvariantAllBefore(dict, docs);
    AddAllIsIndexed(dict, |docs| + 1, Terms(content));
    LookupIndexed(dict, |docs| + 1, Terms(content), t);
  }

  lemma InvariantAllBefore(dict: Dictionary, docs: seq<Doc>)
    requires IndexInvariant(dict, docs)
    ensures AllBefore(dict, |docs| + 1)
  {
    forall t, j | t in dict && 0 <= j < |dict[t]| ensures dict[t][j].docID < |docs| + 1 {
      assert ValidList(dict[t], |docs|);
    }
  }

  /** A document after every posting has weight 0 in the whole dictionary. */
  lemma NoPostingsYet(dict: Dictionary, n: nat)
    requires WellFormed(dict, n)
    ensures WellFormed(dict, n + 1)
    ensures Sum(dict, WeightOf(OneDoc(n + 1))) == 0
  {
    forall t | t in dict ensures ValidList(dict[t], n + 1) && Weight(dict[t], OneDoc(n + 1)) == 0 {
      assert ValidList(dict[t], n);
      WeightPositive(dict[t], n + 1);
    }
    SumOverPositive(dict, dict.Keys, WeightOf(OneDoc(n + 1)));
  }

  /** Appending a document that has no tokens yet keeps the invariant. */
  lemma NewDocumentKeepsInvariant(dict: Dictionary, docs: seq<Doc>, name: string)
    requires IndexInvariant(dict, docs)
    ensures IndexInvariant(dict, docs + [Doc(name, 0, 0.0)])
  {
    var n := |docs|;
    var docs' := docs + [Doc(name, 0, 0.0)];
    assert docs'[..n] == docs;
    NoPostingsYet(dict, n);
  }

  lemma EmptyInvariant()
    ensures IndexInvariant(map[], [])
  {
    assert Sum(map[], WeightOf(AllDocs)) == 0;
  }

  // ---------------------------------------------------------------------
  // Document counts
  // ---------------------------------------------------------------------

  /** Some posting of dict belongs to document d. */
  ghost predicate HasPosting(dict: Dictionary, d: nat)
  {
    exists t, j :: t in dict && 0 <= j < |dict[t]| && dict[t][j].docID == d
  }

  /** No posting on the lists of keys belongs to a document after r. */
  ghost predicate ListsBelow(dict: Dictionary, keys: set<string>, r: nat)
  {
    forall t, j :: t in keys && t in dict && 0 <= j < |dict[t]| ==> dict[t][j].docID <= r
  }

  /** Raising the bound to cover one more list. */
  lemma ListsBelowAdd(dict: Dictionary, keys: set<string>, r: nat, t: string, r': nat)
    requires ListsBelow(dict, keys, r) && r <= r' && t in dict
    requires forall j :: 0 <= j < |dict[t]| ==> dict[t][j].docID <= r'
    ensures ListsBelow(dict, keys + {t}, r')
  {
  }

  /** r is the largest document ID in any postings list, or 0 if there is none. */
  ghost predicate IsMaxDocID(dict: Dictionary, r: nat)
  {
    && ListsBelow(dict, dict.Keys, r)
    && (r == 0 || HasPosting(dict, r))
  }

  /** The ID of the last document that has at least one token, or 0. */
  function LastNonEmpty(docs: seq<Doc>): (r: nat)
    ensures r <= |docs|
    ensures r == 0 || docs[r - 1].size > 0
    ensures forall i :: r <= i < |docs| ==> docs[i].size == 0
  {
    if docs == [] then 0
    else if docs[|docs| - 1].size > 0 then |docs|
    else LastNonEmpty(docs[..|docs| - 1])
  }

  lemma {:induction false} WeightPositive(ps: seq<Posting>, d: nat)
    requires forall j :: 0 <= j < |ps| ==> ps[j].fdt >= 1
    ensures Weight(ps, OneDoc(d)) > 0 <==> exists j :: 0 <= j < |ps| && ps[j].docID == d
  {
    if ps != [] {
      var p := ps[..|ps| - 1];
      WeightPositive(p, d);
      if exists j :: 0 <= j < |ps| && ps[j].docID == d {
        var j :| 0 <= j < |ps| && ps[j].docID == d;
        if j < |ps| - 1 {
          assert p[j].docID == d;
        }
      }
    }
  }

  /** A posting of document d carries one of its tokens. */
  lemma PostingHasTokens(dict: Dictionary, docs: seq<Doc>, d: nat)
    requires IndexInvariant(dict, docs)
    requires HasPosting(dict, d)
    ensures 1 <= d <= |docs| && docs[d - 1].size > 0
  {
    var f := WeightOf(OneDoc(d));
    var t, j :| t in dict && 0 <= j < |dict[t]| && dict[t][j].docID == d;
    assert ValidList(dict[t], |docs|);
    WeightPositive(dict[t], d);
    SumOverPositive(dict, dict.Keys, f);
  }

  /** A document with a token has a posting. */
  lemma TokensHavePosting(dict: Dictionary, docs: seq<Doc>, d: nat)
    requires IndexInvariant(dict, docs)
    requires 1 <= d <= |docs| && docs[d - 1].size > 0
    ensures HasPosting(dict, d)
  {
    var f := WeightOf(OneDoc(d));
    SumOverPositive(dict, dict.Keys, f);
    var t :| t in dict && f(dict[t]) > 0;
    assert ValidList(dict[t], |docs|);
    WeightPositive(dict[t], d);
  }

  /** A document has a posting exactly when it has at least one token. */
  lemma HasPostingIffTokens(dict: Dictionary, docs: seq<Doc>, d: nat)
    requires IndexInvariant(dict, docs)
    ensures HasPosting(dict, d) <==> 1 <= d <= |docs| && docs[d - 1].size > 0
  {
    if HasPosting(dict, d) {
      PostingHasTokens(dict, docs, d);
    }
    if 1 <= d <= |docs| && docs[d - 1].size > 0 {
      TokensHavePosting(dict, docs, d);
    }
  }

  /** The largest document ID in the dictionary is the last document with a
      token: it is the roster's length unless the latest documents were empty. */
  lemma MaxDocIDIsLastNonEmpty(dict: Dictionary, docs: seq<Doc>, r: nat)
    requires IndexInvariant(dict, docs)
    requires IsMaxDocID(dict, r)
    ensures r == LastNonEmpty(docs)
  {
    var last := LastNonEmpty(docs);
    HasPostingIffTokens(dict, docs, r);
    HasPostingIffTokens(dict, docs, last);
    if last > 0 {
      var t, j :| t in dict && 0 <= j < |dict[t]| && dict[t][j].docID == last;
    }
  }

  /** The set of documents a postings list mentions. */
  function DocIDs(ps: seq<Posting>): set<nat>
  {
    set j | 0 <= j < |ps| :: ps[j].docID
  }

  /** An ascending list has one posting per document it mentions, so its
      length is the term's document frequency. */
  lemma {:induction false} AscendingDocCount(ps: seq<Posting>)
    requires Ascending(ps)
    ensures |DocIDs(ps)| == |ps|
  {
    if ps != [] {
      var p := ps[..|ps| - 1];
      var last := ps[|ps| - 1].docID;
      AscendingDocCount(p);
      assert DocIDs(ps) == DocIDs(p) + {last} by {
        forall j | 0 <= j < |p| ensures p[j] == ps[j] { }
      }
      assert last !in DocIDs(p);
    }
  }

  /** In a valid index a term's list has one posting per document that
      contains the term, and only the terms never indexed have none. */
  lemma DocFrequency(dict: Dictionary, docs: seq<Doc>, t: string)
    ensures IndexInvariant(dict, docs) ==>
      && |Lookup(dict, t)| == |DocIDs(Lookup(dict, t))|
      && (|Lookup(dict, t)| == 0 <==> t !in dict)
  {
    if IndexInvariant(dict, docs) && t in dict {
      assert ValidList(dict[t], |docs|);
      AscendingDocCount(dict[t]);
    }
  }
}
