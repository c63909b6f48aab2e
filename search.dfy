/** `search_language`: fuzzy search of the language index for auto-completion. */
module Search {
  import opened Catalog

  /** A similarity score as `fuzz.token_set_ratio` returns it. */
  type Ratio = r: int | 0 <= r <= 100

  /** The similarity function; the fuzzy-matching library is not part of this model. */
  type Similarity = (string, string) -> Ratio

  /** The minimum similarity an entry must reach to be suggested. */
  const Threshold: int := 70

  /** `max(a, b, c)`. */
  function Max3(a: int, b: int, c: int): (m: int)
    ensures m >= a && m >= b && m >= c
    ensures m == a || m == b || m == c
  {
    if a >= b && a >= c then a else if b >= c then b else c
  }

  /** The best of the three scores of `query` against name, native name and dialect. */
  function BestRatio(ratio: Similarity, query: string, e: LanguageEntry): (r: Ratio)
    ensures r >= ratio(query, e.name) && r >= ratio(query, e.native) && r >= ratio(query, e.dialect)
    ensures r == ratio(query, e.name) || r == ratio(query, e.native) || r == ratio(query, e.dialect)
  {
    Max3(ratio(query, e.name), ratio(query, e.native), ratio(query, e.dialect))
  }

  predicate Matches(ratio: Similarity, query: string, e: LanguageEntry)
  {
    BestRatio(ratio, query, e) >= Threshold
  }

  /** The matching entries of `s`, in the order of `s`. */
  function Filtered(ratio: Similarity, query: string, s: Index): (r: Index)
    ensures forall e :: e in r ==> e in s && Matches(ratio, query, e)
  {
    if s == [] then []
    else
      var last := s[|s| - 1];
      Filtered(ratio, query, s[..|s| - 1]) + (if Matches(ratio, query, last) then [last] else [])
  }

  /**
   * The loop of `search_language`: visit the index in order and append every
   * entry whose best score reaches the threshold.
   */
  method SearchLanguage(ratio: Similarity, query: string, index: Index) returns (results: Index)
    ensures results == Filtered(ratio, query, index)
    ensures forall e :: e in results <==> e in index && Matches(ratio, query, e)
  {
    results := [];
    for i := 0 to |index|
      invariant results == Filtered(ratio, query, index[..i])
    {
      assert index[..i + 1][..i] == index[..i];
      var item := index[i];
      var best := Max3(ratio(query, item.name), ratio(query, item.native), ratio(query, item.dialect));
      if best >= Threshold {
        results := results + [item];
      }
    }
    assert index[..|index|] == index;
    FilteredMembership(ratio, query, index);
  }

  /** An entry is a result exactly when it is in the index and scores at least 70 somewhere. */
  lemma {:induction false} FilteredMembership(ratio: Similarity, query: string, s: Index)
    ensures forall e :: e in Filtered(ratio, query, s) <==> e in s && Matches(ratio, query, e)
  {
    if s != [] {
      FilteredMembership(ratio, query, s[..|s| - 1]);
      assert s == s[..|s| - 1] + [s[|s| - 1]];
    }
  }

  /** Filtering commutes with concatenation: results keep the index order. */
  lemma {:induction false} FilteredAppend(ratio: Similarity, query: string, a: Index, b: Index)
    ensures Filtered(ratio, query, a + b) == Filtered(ratio, query, a) + Filtered(ratio, query, b)
  {
    if b != [] {
      assert (a + b)[..|a + b| - 1] == a + b[..|b| - 1];
      FilteredAppend(ratio, query, a, b[..|b| - 1]);
    } else {
      assert a + b == a;
    }
  }

  /** A single entry is kept alone or dropped, according to its best score. */
  lemma SingleEntry(ratio: Similarity, query: string, e: LanguageEntry)
    ensures Filtered(ratio, query, [e]) == if Matches(ratio, query, e) then [e] else []
  {
    assert [e][..0] == [];
  }

  /** The result is never longer than the index. */
  lemma {:induction false} FilteredLength(ratio: Similarity, query: string, s: Index)
    ensures |Filtered(ratio, query, s)| <= |s|
  {
    if s != [] {
      FilteredLength(ratio, query, s[..|s| - 1]);
    }
  }
}
