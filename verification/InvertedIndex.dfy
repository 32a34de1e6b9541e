/** The inverted index: documents found again by the tokens they all hold. */
module InvertedIndexes {
  import opened IndexSets
  import opened SortedArrays

  /** What AND queries mean: the document holds every token asked for. */
  predicate HoldsAll<T(==)>(held: seq<T>, asked: seq<T>) {
    forall i :: 0 <= i < |asked| ==> asked[i] in held
  }

  /** The documents holding every token asked for, in insertion order. */
  function Matching<D, T(==)>(tokenize: D -> seq<T>, items: seq<D>, asked: seq<T>): seq<D> {
    Filter((doc: D) => HoldsAll(tokenize(doc), asked), items)
  }

  /** The places of the documents that hold the token. */
  ghost predicate Postings<D, T>(tokenize: D -> seq<T>, items: seq<D>, token: T, places: seq<int>) {
    && Increasing(places)
    && forall k :: k in places <==> 0 <= k < |items| && token in tokenize(items[k])
  }

  /** The list kept for a token is its postings; a token without a list is held by no document. */
  ghost predicate Posted<D, T>(tokenize: D -> seq<T>, items: seq<D>, mapping: map<T, seq<int>>, token: T) {
    && Postings(tokenize, items, token, if token in mapping then mapping[token] else [])
    && (token in mapping ==> mapping[token] != [])
  }

  /** Halfway through adding a document: the tokens already done count it in, the others do not. */
  ghost predicate Adding<D, T(!new)>(tokenize: D -> seq<T>, items: seq<D>, doc: D, mapping: map<T, seq<int>>, done: set<T>) {
    forall token: T :: Posted(tokenize, if token in done then items + [doc] else items, mapping, token)
  }

  lemma PostingGrows<D, T>(tokenize: D -> seq<T>, items: seq<D>, doc: D, token: T, places: seq<int>)
    requires Postings(tokenize, items, token, places) && token in tokenize(doc)
    ensures Postings(tokenize, items + [doc], token, places + [|items|])
  {
    var items', places' := items + [doc], places + [|items|];
    forall i | 0 <= i < |places|
      ensures places[i] < |items|
    {
      assert places[i] in places;
    }
    forall k
      ensures k in places' <==> 0 <= k < |items'| && token in tokenize(items'[k])
    {
      assert k in places' <==> k in places || k == |items|;
    }
  }

  /** A token the new document does not hold keeps its postings. */
  lemma PostingStays<D, T>(tokenize: D -> seq<T>, items: seq<D>, doc: D, mapping: map<T, seq<int>>, token: T)
    requires Posted(tokenize, items, mapping, token) && token !in tokenize(doc)
    ensures Posted(tokenize, items + [doc], mapping, token)
  {
  }

  /** One token of the new document is done. */
  lemma OneMoreDone<D, T(!new)>(tokenize: D -> seq<T>, items: seq<D>, doc: D, mapping: map<T, seq<int>>, done: set<T>, token: T)
    requires Adding(tokenize, items, doc, mapping, done) && token in tokenize(doc) && token !in done
    ensures var places := if token in mapping then mapping[token] else [];
            Adding(tokenize, items, doc, mapping[token := places + [|items|]], done + {token})
  {
    var places := if token in mapping then mapping[token] else [];
    assert Posted(tokenize, items, mapping, token);
    PostingGrows(tokenize, items, doc, token, places);
    var mapping', done' := mapping[token := places + [|items|]], done + {token};
    hide Postings;
    forall t: T
      ensures Posted(tokenize, if t in done' then items + [doc] else items, mapping', t)
    {
      assert Posted(tokenize, if t in done then items + [doc] else items, mapping, t);
    }
  }

  /** Once all tokens of the new document are done, the lists are the postings of all documents. */
  lemma AllDone<D, T(!new)>(tokenize: D -> seq<T>, items: seq<D>, doc: D, mapping: map<T, seq<int>>, done: set<T>)
    requires Adding(tokenize, items, doc, mapping, done)
    requires forall token :: token in done <==> token in tokenize(doc)
    ensures forall token: T :: Posted(tokenize, items + [doc], mapping, token)
  {
    forall token: T
      ensures Posted(tokenize, items + [doc], mapping, token)
    {
      assert Posted(tokenize, if token in done then items + [doc] else items, mapping, token);
      if token !in done {
        PostingStays(tokenize, items, doc, mapping, token);
      }
    }
  }

  /** The places of the documents holding the first n tokens asked for. */
  ghost predicate Found<D, T>(tokenize: D -> seq<T>, items: seq<D>, asked: seq<T>, n: nat, places: seq<int>) {
    && n <= |asked| && Increasing(places)
    && forall k :: k in places <==> 0 <= k < |items| && HoldsAll(tokenize(items[k]), asked[..n])
  }

  lemma FoundFirst<D, T>(tokenize: D -> seq<T>, items: seq<D>, asked: seq<T>, places: seq<int>)
    requires asked != [] && Postings(tokenize, items, asked[0], places)
    ensures Found(tokenize, items, asked, 1, places)
  {
    assert asked[..1] == [asked[0]];
  }

  lemma FoundNext<D, T>(tokenize: D -> seq<T>, items: seq<D>, asked: seq<T>, n: nat, places: seq<int>, others: seq<int>, both: seq<int>)
    requires Found(tokenize, items, asked, n, places) && n < |asked| && Postings(tokenize, items, asked[n], others)
    requires Increasing(both) && forall x :: x in both <==> x in places && x in others
    ensures Found(tokenize, items, asked, n + 1, both)
  {
    assert asked[..n + 1] == asked[..n] + [asked[n]];
    forall k | 0 <= k < |items|
      ensures HoldsAll(tokenize(items[k]), asked[..n + 1]) <==> HoldsAll(tokenize(items[k]), asked[..n]) && asked[n] in tokenize(items[k])
    {
      var held := tokenize(items[k]);
      if HoldsAll(held, asked[..n + 1]) {
        assert asked[..n + 1][n] in held;
        forall i | 0 <= i < n
          ensures asked[..n][i] in held
        {
          assert asked[..n + 1][i] in held;
        }
      }
    }
  }

  /** A token held by no document leaves nothing to find. */
  lemma NothingFound<D, T(!new)>(tokenize: D -> seq<T>, items: seq<D>, asked: seq<T>, n: nat)
    requires n < |asked| && Postings(tokenize, items, asked[n], [])
    ensures Matching(tokenize, items, asked) == []
    ensures var none: seq<int> := [];
            forall k :: k in none <==> 0 <= k < |items| && forall token :: token in asked ==> token in tokenize(items[k])
  {
    var none: seq<int> := [];
    forall k | 0 <= k < |items|
      ensures asked[n] in asked && asked[n] !in tokenize(items[k]) && !HoldsAll(tokenize(items[k]), asked)
    {
      assert k !in none;
    }
    NonePass((doc: D) => HoldsAll(tokenize(doc), asked), items);
  }

  lemma NoneMatch<D, T>(tokenize: D -> seq<T>, items: seq<D>, asked: seq<T>)
    requires items == []
    ensures Matching(tokenize, items, asked) == []
  {
  }

  lemma FoundAscends<D, T>(tokenize: D -> seq<T>, items: seq<D>, asked: seq<T>, n: nat, places: seq<int>)
    requires Found(tokenize, items, asked, n, places)
    ensures Increasing(places)
  {
  }

  lemma HeldByAll<D, T(!new)>(tokenize: D -> seq<T>, items: seq<D>, asked: seq<T>, places: seq<int>)
    requires Found(tokenize, items, asked, |asked|, places)
    ensures forall i, j :: 0 <= i < j < |places| ==> places[i] < places[j]
    ensures forall k :: k in places <==> 0 <= k < |items| && forall token :: token in asked ==> token in tokenize(items[k])
  {
    assert asked[..|asked|] == asked;
    forall k | 0 <= k < |items|
      ensures HoldsAll(tokenize(items[k]), asked) <==> forall token :: token in asked ==> token in tokenize(items[k])
    {
      assert forall i :: 0 <= i < |asked| ==> asked[i] in asked;
    }
  }

  lemma {:induction false} NonePass<D>(f: D -> bool, s: seq<D>)
    requires forall k :: 0 <= k < |s| ==> !f(s[k])
    ensures Filter(f, s) == []
  {
    if s != [] {
      NonePass(f, s[1..]);
    }
  }

  function Picked<D>(items: seq<D>, places: seq<int>): seq<D>
    requires forall i :: 0 <= i < |places| ==> 0 <= places[i] < |items|
  {
    seq(|places|, i requires 0 <= i < |places| => items[places[i]])
  }

  /** Picking the increasing places where the test holds is filtering. */
  lemma {:induction false} PickedIsFilter<D>(f: D -> bool, items: seq<D>, places: seq<int>)
    requires Increasing(places) && forall k :: k in places <==> 0 <= k < |items| && f(items[k])
    ensures forall i :: 0 <= i < |places| ==> 0 <= places[i] < |items|
    ensures Picked(items, places) == Filter(f, items)
    decreases |items|
  {
    forall i | 0 <= i < |places|
      ensures 0 <= places[i] < |items|
    {
      assert places[i] in places;
    }
    if items != [] {
      var n := |items| - 1;
      var init := items[..n];
      assert items == init + [items[n]];
      FilterConcat(f, init, [items[n]]);
      if f(items[n]) {
        LastPlace(items, places);
        var m := |places| - 1;
        WithoutLast(f, items, places);
        PickedIsFilter(f, init, places[..m]);
        assert Picked(items, places) == Picked(init, places[..m]) + [items[n]];
      } else {
        assert n !in places;
        forall k
          ensures k in places <==> 0 <= k < |init| && f(init[k])
        {
        }
        PickedIsFilter(f, init, places);
        assert Picked(items, places) == Picked(init, places);
      }
    }
  }

  lemma LastPlace<D>(items: seq<D>, places: seq<int>)
    requires items != [] && Increasing(places) && |items| - 1 in places
    requires forall k :: k in places ==> k < |items|
    ensures places != [] && places[|places| - 1] == |items| - 1
  {
    assert places[|places| - 1] in places;
  }

  lemma WithoutLast<D>(f: D -> bool, items: seq<D>, places: seq<int>)
    requires items != [] && Increasing(places) && forall k :: k in places <==> 0 <= k < |items| && f(items[k])
    requires places != [] && places[|places| - 1] == |items| - 1
    ensures var init, rest := items[..|items| - 1], places[..|places| - 1];
            Increasing(rest) && forall k :: k in rest <==> 0 <= k < |init| && f(init[k])
  {
    var n, m := |items| - 1, |places| - 1;
    var init, rest := items[..n], places[..m];
    forall k
      ensures k in rest <==> 0 <= k < |init| && f(init[k])
    {
      assert k in places <==> k in rest || k == n by {
        assert places == rest + [n];
      }
      assert n !in rest;
    }
  }

  // ----- The index -----

  class InvertedIndex<D, Q, T(==,!new)> {
    const documentTokenizer: D -> seq<T>
    const queryTokenizer: Q -> seq<T>
    var items: seq<D>
    var mapping: map<T, seq<int>>
    var size: nat
    var dimension: nat

    ghost predicate Valid()
      reads this
    {
      && size == |items| && dimension == |mapping|
      && forall token: T :: Posted(documentTokenizer, items, mapping, token)
    }

    constructor (documentTokenizer: D -> seq<T>, queryTokenizer: Q -> seq<T>)
      ensures Valid() && items == []
      ensures this.documentTokenizer == documentTokenizer && this.queryTokenizer == queryTokenizer
    {
      this.documentTokenizer := documentTokenizer;
      this.queryTokenizer := queryTokenizer;
      items := [];
      mapping := map[];
      size := 0;
      dimension := 0;
    }

    method Clear()
      modifies this
      ensures Valid() && items == []
    {
      items := [];
      mapping := map[];
      size := 0;
      dimension := 0;
    }

    method Add(doc: D)
      requires Valid()
      modifies this
      ensures Valid() && items == old(items) + [doc]
    {
      hide Posted;
      ghost var was := items;
      size := size + 1;
      var key := |items|;
      items := items + [doc];
      var tokens := documentTokenizer(doc);
      var done: set<T> := {};
      for i := 0 to |tokens|
        invariant items == was + [doc] && size == |items| && key == |was|
        invariant done == set token | token in tokens[..i]
        invariant Adding(documentTokenizer, was, doc, mapping, done)
      {
        var token := tokens[i];
        assert tokens[..i + 1] == tokens[..i] + [token];
        if token !in done {
          OneMoreDone(documentTokenizer, was, doc, mapping, done, token);
          done := done + {token};
          var container := if token in mapping then mapping[token] else [];
          mapping := mapping[token := container + [key]];
        }
      }
      assert tokens[..|tokens|] == tokens;
      AllDone(documentTokenizer, was, doc, mapping, done);
      dimension := |mapping|;
    }

    lemma PostedList(token: T)
      requires Valid()
      ensures var places := if token in mapping then mapping[token] else [];
              Postings(documentTokenizer, items, token, places) && Increasing(places)
    {
      assert Posted(documentTokenizer, items, mapping, token);
    }

    /** The documents holding every token of the query, in insertion order; none for a query without tokens. */
    method Get(query: Q) returns (docs: seq<D>, ghost places: seq<int>)
      requires Valid()
      ensures |docs| == |places| && forall i, j :: 0 <= i < j < |places| ==> places[i] < places[j]
      ensures forall j :: 0 <= j < |places| ==> 0 <= places[j] < |items| && docs[j] == items[places[j]]
      ensures forall k :: k in places <==>
                && 0 <= k < |items| && queryTokenizer(query) != []
                && forall token :: token in queryTokenizer(query) ==> token in documentTokenizer(items[k])
      ensures docs == if queryTokenizer(query) == [] then [] else Matching(documentTokenizer, items, queryTokenizer(query))
    {
      hide Posted, Postings, Found, Matching, Increasing, HoldsAll;
      if size == 0 {
        NoneMatch(documentTokenizer, items, queryTokenizer(query));
        return [], [];
      }
      var tokens := queryTokenizer(query);
      if tokens == [] {
        return [], [];
      }
      PostedList(tokens[0]);
      if tokens[0] !in mapping || mapping[tokens[0]] == [] {
        NothingFound(documentTokenizer, items, tokens, 0);
        return [], [];
      }
      var results := mapping[tokens[0]];
      FoundFirst(documentTokenizer, items, tokens, results);
      for i := 1 to |tokens|
        invariant Found(documentTokenizer, items, tokens, i, results)
      {
        PostedList(tokens[i]);
        FoundAscends(documentTokenizer, items, tokens, i, results);
        if tokens[i] !in mapping || mapping[tokens[i]] == [] {
          NothingFound(documentTokenizer, items, tokens, i);
          return [], [];
        }
        var both := IntersectionUniqueArrays(results, mapping[tokens[i]]);
        FoundNext(documentTokenizer, items, tokens, i, results, mapping[tokens[i]], both);
        results := both;
      }
      docs := Fetch(tokens, results);
      places := results;
      HeldByAll(documentTokenizer, items, tokens, results);
    }

    method Fetch(ghost tokens: seq<T>, results: seq<int>) returns (docs: seq<D>)
      requires Found(documentTokenizer, items, tokens, |tokens|, results)
      ensures docs == Matching(documentTokenizer, items, tokens)
      ensures |docs| == |results|
      ensures forall j :: 0 <= j < |results| ==> 0 <= results[j] < |items| && docs[j] == items[results[j]]
    {
      assert tokens[..|tokens|] == tokens;
      PickedIsFilter((doc: D) => HoldsAll(documentTokenizer(doc), tokens), items, results);
      docs := [];
      for i := 0 to |results|
        invariant docs == Picked(items, results)[..i]
      {
        docs := docs + [items[results[i]]];
      }
    }
  }

  /** The tokens of all documents. */
  ghost function Vocabulary<D, T>(tokenize: D -> seq<T>, items: seq<D>): set<T> {
    set k, token | 0 <= k < |items| && token in tokenize(items[k]) :: token
  }

  /** The dimension counts the distinct tokens of all documents. */
  lemma DimensionIsVocabulary<D, Q, T(!new)>(index: InvertedIndex<D, Q, T>)
    requires index.Valid()
    ensures index.dimension == |Vocabulary(index.documentTokenizer, index.items)|
  {
    var tokenize, items, mapping := index.documentTokenizer, index.items, index.mapping;
    forall token: T
      ensures token in mapping <==> token in Vocabulary(tokenize, items)
    {
      assert Posted(tokenize, items, mapping, token);
      if token in mapping {
        assert mapping[token][0] in mapping[token];
      }
    }
    assert mapping.Keys == Vocabulary(tokenize, items);
  }
}
