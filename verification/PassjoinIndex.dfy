/** The PassjoinIndex: segments of the added strings in per-length inverted indices, and a
    search that only measures the distance to strings sharing a well-placed segment. */
module PassjoinIndexes {
  import opened Levenshtein
  import opened PassjoinSelection

  function Decimal(n: nat): string {
    if n < 10 then [('0' as int + n) as char] else Decimal(n / 10) + Decimal(n % 10)
  }

  /** Keys of the inverted indices: a segment followed by its index in decimal. Distinct
      segments can collide, as with "a1" + 2 and "a" + 12. */
  function Key(segment: string, i: nat): string {
    segment + Decimal(i)
  }

  ghost predicate HasKey(k: nat, x: string, key: string) {
    exists i :: 0 <= i <= k && key == Key(Segment(k, x, i), i)
  }

  /** `key` is looked up for segment i of the strings of length l. */
  ghost predicate LookedUp(k: nat, query: string, l: nat, i: nat, key: string) {
    exists sub :: key == Key(sub, i) && Candidate(k, query, l, i, sub)
  }

  ghost predicate Candidate(k: nat, query: string, l: nat, i: nat, sub: string) {
    var pi, li := SegmentStart(k, l, i), SegmentLength(k, l, i);
    (sub != "" && InWindow(k, query, l, i, pi, li, sub)) || (sub == "" && li == 0)
  }

  /** A string within reach of the query is looked up under one of its own keys. */
  lemma MatchIsLookedUp(k: nat, query: string, x: string) returns (i: nat)
    requires Distance(query, x) <= k
    ensures i <= k && LookedUp(k, query, |x|, i, Key(Segment(k, x, i), i))
  {
    SelectionComplete(k, query, x);
    i :| 0 <= i <= k && Selected(k, query, x, i);
    assert Candidate(k, query, |x|, i, Segment(k, x, i));
  }

  type InvertedIndices = map<nat, map<string, seq<nat>>>

  ghost predicate Posted(inverted: InvertedIndices, l: nat, key: string, n: nat) {
    l in inverted && key in inverted[l] && n in inverted[l][key]
  }

  class PassjoinIndex {
    const levenshtein: (string, string) -> nat
    const k: nat
    var size: nat
    var strings: seq<string>
    var invertedIndices: InvertedIndices

    ghost predicate Valid()
      reads this
    {
      && k >= 1
      && (forall a, b :: levenshtein(a, b) == Distance(a, b))
      && size == |strings|
      && forall l: nat, key, n: nat :: Posted(invertedIndices, l, key, n) <==>
           n < |strings| && |strings[n]| == l && HasKey(k, strings[n], key)
    }

    constructor (levenshtein: (string, string) -> nat, k: nat)
      requires k >= 1
      requires forall a, b :: levenshtein(a, b) == Distance(a, b)
      ensures Valid() && this.k == k && strings == []
    {
      this.levenshtein := levenshtein;
      this.k := k;
      size, strings, invertedIndices := 0, [], map[];
    }

    method Clear()
      requires Valid()
      modifies this
      ensures Valid() && strings == []
    {
      size, strings, invertedIndices := 0, [], map[];
    }

    method Add(value: string)
      requires Valid()
      modifies this
      ensures Valid()
      ensures strings == old(strings) + [value]
    {
      var l := |value|;
      var stringIndex := size;
      strings := strings + [value];
      size := size + 1;
      var S := Segments(k, value);
      if l !in invertedIndices {
        invertedIndices := invertedIndices[l := map[]];
      }
      var i := 0;
      while i < |S|
        invariant 0 <= i <= |S|
        invariant strings == old(strings) + [value] && size == |strings|
        invariant l in invertedIndices
        invariant forall m: nat, key, n: nat :: Posted(invertedIndices, m, key, n) <==>
            Posted(old(invertedIndices), m, key, n) ||
            (n == stringIndex && m == l && exists h :: 0 <= h < i && key == Key(S[h], h))
      {
        Post(l, Key(S[i], i), stringIndex);
        i := i + 1;
      }
      NewKeys(value, S);
      forall m: nat, key, n: nat
        ensures Posted(invertedIndices, m, key, n) <==>
                n < |strings| && |strings[n]| == m && HasKey(k, strings[n], key)
      {
        if n < stringIndex {
          assert strings[n] == old(strings)[n];
        }
      }
    }

    lemma NewKeys(value: string, S: seq<string>)
      requires |S| == k + 1
      requires forall i :: 0 <= i <= k ==> S[i] == Segment(k, value, i)
      ensures forall key :: HasKey(k, value, key) <==> exists h :: 0 <= h < |S| && key == Key(S[h], h)
    {
      forall key | HasKey(k, value, key)
        ensures exists h :: 0 <= h < |S| && key == Key(S[h], h)
      {
        var i :| 0 <= i <= k && key == Key(Segment(k, value, i), i);
        assert key == Key(S[i], i);
      }
    }

    /** Appends a string index to the posting list of `key` among the strings of length l. */
    method Post(l: nat, key: string, stringIndex: nat)
      requires l in invertedIndices
      modifies this`invertedIndices
      ensures l in invertedIndices
      ensures forall m: nat, other, n: nat :: Posted(invertedIndices, m, other, n) <==>
                Posted(old(invertedIndices), m, other, n) || (n == stringIndex && m == l && other == key)
    {
      var Ll := invertedIndices[l];
      var matches := if key in Ll then Ll[key] + [stringIndex] else [stringIndex];
      invertedIndices := invertedIndices[l := Ll[key := matches]];
    }

    /** The added strings within k of the query: what measuring every one of them returns. */
    ghost function Matches(query: string): set<string>
      reads this
    {
      set x | x in strings && Distance(query, x) <= k
    }

    method Search(query: string) returns (M: set<string>)
      requires Valid()
      ensures M == Matches(query)
      ensures forall x :: x in M <==> x in strings && Distance(query, x) <= k
    {
      var s := |query|;
      M := {};
      var l := if s <= k then 0 else s - k;
      var m := s + k + 1;
      forall x | x in strings && Distance(query, x) <= k
        ensures l <= |x| < m
      {
        LengthBounds(query, x);
      }
      while l < m
        invariant l <= m
        invariant M <= Matches(query)
        invariant forall x :: x in Matches(query) && |x| < l ==> x in M
      {
        if l in invertedIndices {
          M := SearchLength(query, l, M);
        } else {
          NothingIndexed(query, l);
        }
        l := l + 1;
      }
    }

    /** The look-ups among the strings of length l. */
    method SearchLength(query: string, l: nat, found: set<string>) returns (M: set<string>)
      requires Valid() && l in invertedIndices
      requires found <= Matches(query)
      ensures found <= M <= Matches(query)
      ensures forall x :: x in Matches(query) && |x| == l ==> x in M
    {
      M := found;
      var P := Partition(k, l);
      var i := 0;
      while i < |P|
        invariant 0 <= i <= |P|
        invariant found <= M <= Matches(query)
        invariant forall h, key :: 0 <= h < i && LookedUp(k, query, l, h, key) ==> Admitted(query, l, key, M)
      {
        M := SearchSegment(query, l, i, P[i].0, P[i].1, M);
        i := i + 1;
      }
      forall x | x in Matches(query) && |x| == l
        ensures x in M
      {
        var h := MatchIsLookedUp(k, query, x);
        var n := PostedUnder(x, h);
      }
    }

    /** An added string is posted under the key of each of its segments. */
    lemma PostedUnder(x: string, h: nat) returns (n: nat)
      requires Valid() && x in strings && h <= k
      ensures n < |strings| && strings[n] == x
      ensures Posted(invertedIndices, |x|, Key(Segment(k, x, h), h), n)
    {
      n :| n < |strings| && strings[n] == x;
      assert HasKey(k, x, Key(Segment(k, x, h), h));
    }

    lemma NothingIndexed(query: string, l: nat)
      requires Valid() && l !in invertedIndices
      ensures forall x :: x in strings ==> |x| != l
    {
      forall x | x in strings
        ensures |x| != l
      {
        var n := PostedUnder(x, 0);
      }
    }

    /** Every match posted under `key` for length l is in M. */
    ghost predicate Admitted(query: string, l: nat, key: string, M: set<string>)
      reads this
    {
      forall n: nat :: Posted(invertedIndices, l, key, n) && n < |strings| && Distance(query, strings[n]) <= k
                  ==> strings[n] in M
    }

    lemma StillAdmitted(query: string, l: nat, key: string, M: set<string>, M': set<string>)
      requires Admitted(query, l, key, M) && M <= M'
      ensures Admitted(query, l, key, M')
    {
    }

    lemma NothingPosted(query: string, l: nat, key: string, M: set<string>)
      requires l in invertedIndices && key !in invertedIndices[l]
      ensures Admitted(query, l, key, M)
    {
    }

    /** The look-ups for one segment of the strings of length l. */
    method SearchSegment(query: string, l: nat, i: nat, queryPos: nat, querySegmentLength: nat, found: set<string>)
      returns (M: set<string>)
      requires Valid() && l in invertedIndices && i <= k
      requires queryPos == SegmentStart(k, l, i) && querySegmentLength == SegmentLength(k, l, i)
      requires found <= Matches(query)
      ensures found <= M <= Matches(query)
      ensures forall key :: LookedUp(k, query, l, i, key) ==> Admitted(query, l, key, M)
    {
      hide Admitted, Posted, Distance, Matches, InWindow, SegmentStart, SegmentLength;
      M := found;
      var Ll := invertedIndices[l];
      var S := MultiMatchAwareSubstrings(k, query, l, i, queryPos, querySegmentLength);
      // Empty string edge case
      if |S| == 0 {
        S := [""];
      }
      var j := 0;
      while j < |S|
        invariant 0 <= j <= |S|
        invariant found <= M <= Matches(query)
        invariant forall h :: 0 <= h < j ==> Admitted(query, l, Key(S[h], i), M)
      {
        var key := Key(S[j], i);
        ghost var before := M;
        if key in Ll {
          M := Admit(query, l, key, M);
        } else {
          NothingPosted(query, l, key, M);
        }
        forall h | 0 <= h < j
          ensures Admitted(query, l, Key(S[h], i), M)
        {
          StillAdmitted(query, l, Key(S[h], i), before, M);
        }
        j := j + 1;
      }
      forall key | LookedUp(k, query, l, i, key)
        ensures Admitted(query, l, key, M)
      {
        var sub :| key == Key(sub, i) && Candidate(k, query, l, i, sub);
        assert sub in S;
      }
    }

    /** Adds the candidates posted under `key` that are within k of the query. */
    method Admit(query: string, l: nat, key: string, found: set<string>) returns (M: set<string>)
      requires Valid() && l in invertedIndices && key in invertedIndices[l]
      requires found <= Matches(query)
      ensures found <= M <= Matches(query)
      ensures Admitted(query, l, key, M)
    {
      hide Distance;
      var s := |query|;
      var candidates := invertedIndices[l][key];
      M := found;
      var y := 0;
      while y < |candidates|
        invariant 0 <= y <= |candidates|
        invariant found <= M <= Matches(query)
        invariant forall h :: 0 <= h < y ==>
            candidates[h] < |strings| && (Distance(query, strings[candidates[h]]) <= k ==> strings[candidates[h]] in M)
      {
        assert Posted(invertedIndices, l, key, candidates[y]);
        var candidate := strings[candidates[y]];
        LengthBounds(query, candidate);
        // The first condition spares the distance computation for tiny strings.
        if (s <= k && l <= k) || (candidate !in M && levenshtein(query, candidate) <= k) {
          M := M + {candidate};
        }
        y := y + 1;
      }
    }
  }
}
