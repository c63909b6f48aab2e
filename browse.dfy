/**
 * `paginate_language`: the language index cut into pages of 15 fields, each
 * field showing a flag derived from the language code.
 */
module Browse {
  import opened Wrappers
  import opened Catalog

  /** Entries per page: the step of `range(0, len(langs), 15)`. */
  const PageSize: nat := 15

  /** The separator between the language and the region part of a code. */
  const Sep: char := '_'

  /** One displayed field: the flag, then the entry's code, name and native name. */
  datatype PageField = PageField(flag: string, code: string, name: string, native: string)

  type Page = seq<PageField>

  /** `IndexError` from `split("_")[1]` on a code without `_`; it aborts the whole command. */
  datatype PageError = NoRegion(code: string)

  /** Position of the first separator in `s`, or `|s|` when there is none. */
  function FirstSep(s: string): (k: nat)
    ensures k <= |s|
    ensures forall j :: 0 <= j < k ==> s[j] != Sep
    ensures k < |s| ==> s[k] == Sep
  {
    if s == [] then 0
    else if s[0] == Sep then 0
    else 1 + FirstSep(s[1..])
  }

  /**
   * `code.split("_")[1]`: the text between the first separator and the next
   * one (or the end); None when the code has no separator.
   */
  function Region(code: string): (r: Option<string>)
    ensures r.None? <==> Sep !in code
    ensures r.Some? ==> Sep !in r.value
  {
    var k := FirstSep(code);
    if k == |code| then None
    else
      var rest := code[k + 1..];
      Some(rest[..FirstSep(rest)])
  }

  /** ASCII lower-casing of one character. */
  function LowerChar(c: char): char
  {
    if 'A' <= c <= 'Z' then (c as int + 32) as char else c
  }

  /** `str.lower()` on ASCII text. */
  function Lower(s: string): (r: string)
    ensures |r| == |s|
    ensures forall i :: 0 <= i < |s| ==> r[i] == LowerChar(s[i])
    ensures NoUpper(r)
  {
    seq(|s|, i requires 0 <= i < |s| => LowerChar(s[i]))
  }

  predicate NoUpper(s: string)
  {
    forall i :: 0 <= i < |s| ==> !('A' <= s[i] <= 'Z')
  }

  /** The flag shown for a code: the lower-cased region, with `sp` shown as `rs`. */
  function Flag(code: string): (r: Option<string>)
    ensures r.None? <==> Sep !in code
    ensures r.Some? ==> |r.value| == |Region(code).value| && NoUpper(r.value)
  {
    match Region(code)
    case None => None
    case Some(region) =>
      var flag := Lower(region);
      if flag == "sp" then Some("rs") else Some(flag)
  }

  /** The region of `xx_YY...` is what stands between the first and the second separator. */
  lemma RegionSplits(code: string, k: nat)
    requires k < |code| && code[k] == Sep && Sep !in code[..k]
    ensures Region(code).Some?
    ensures code[k + 1..][..|Region(code).value|] == Region(code).value
    ensures k + 1 + |Region(code).value| == |code| || code[k + 1 + |Region(code).value|] == Sep
  {
  }

  /** Codes without a separator have no flag; the source raises on them. */
  lemma {:induction false} FlagNeedsRegion(code: string)
    ensures Flag(code).None? <==> Sep !in code
  {
  }

  /** A region that lower-cases to `sp` is shown with the `rs` flag. */
  lemma FlagSpIsRs(code: string)
    requires Region(code).Some? && Lower(Region(code).value) == "sp"
    ensures Flag(code) == Some("rs")
  {
  }

  /** Every other region is shown lower-cased and otherwise unchanged. */
  lemma FlagOtherwiseLowered(code: string)
    requires Region(code).Some? && Lower(Region(code).value) != "sp"
    ensures Flag(code) == Some(Lower(Region(code).value))
  {
  }

  /** A flag never holds an upper-case ASCII letter nor a separator. */
  lemma FlagShape(code: string)
    requires Flag(code).Some?
    ensures NoUpper(Flag(code).value) && Sep !in Flag(code).value
  {
    var region := Region(code).value;
    var flag := Lower(region);
    if flag != "sp" {
      forall i | 0 <= i < |flag| ensures flag[i] != Sep {
        assert region[i] != Sep;
      }
    }
  }

  predicate HasRegion(e: LanguageEntry)
  {
    Sep in e.code
  }

  predicate AllHaveRegion(s: Index)
  {
    forall e :: e in s ==> HasRegion(e)
  }

  /** The field built for one entry. */
  function FieldOf(e: LanguageEntry): PageField
    requires HasRegion(e)
  {
    PageField(Flag(e.code).value, e.code, e.name, e.native)
  }

  function FieldsOf(s: Index): (r: Page)
    requires AllHaveRegion(s)
    ensures |r| == |s|
  {
    seq(|s|, i requires 0 <= i < |s| => FieldOf(s[i]))
  }

  /** Consecutive chunks of `PageSize` entries; only the last may be shorter. */
  function Chunks<T>(s: seq<T>): (r: seq<seq<T>>)
    ensures forall p :: 0 <= p < |r| ==> forall x :: x in r[p] ==> x in s
    decreases |s|
  {
    if s == [] then []
    else if |s| <= PageSize then [s]
    else [s[..PageSize]] + Chunks(s[PageSize..])
  }

  /** Concatenation of the chunks, page after page. */
  function Flatten<T>(ss: seq<seq<T>>): seq<T>
  {
    if ss == [] then [] else ss[0] + Flatten(ss[1..])
  }

  /** The pages: each chunk of the index turned into its fields. */
  function PagesOf(chunks: seq<Index>): (r: seq<Page>)
    requires forall p :: 0 <= p < |chunks| ==> AllHaveRegion(chunks[p])
    ensures |r| == |chunks|
  {
    seq(|chunks|, p requires 0 <= p < |chunks| => FieldsOf(chunks[p]))
  }

  /** The chunks cover the index exactly, in order. */
  lemma {:induction false} ChunksCover<T>(s: seq<T>)
    ensures Flatten(Chunks(s)) == s
    decreases |s|
  {
    if s != [] && |s| > PageSize {
      ChunksCover(s[PageSize..]);
      assert s == s[..PageSize] + s[PageSize..];
    } else if s != [] {
      assert Flatten([s]) == s + Flatten([s][1..]);
    }
  }

  /** Every chunk is non-empty and at most `PageSize` long; all but the last are full. */
  lemma {:induction false} ChunkSizes<T>(s: seq<T>)
    ensures |Chunks(s)| == (|s| + PageSize - 1) / PageSize
    ensures forall p :: 0 <= p < |Chunks(s)| ==> 0 < |Chunks(s)[p]| <= PageSize
    ensures forall p :: 0 <= p < |Chunks(s)| - 1 ==> |Chunks(s)[p]| == PageSize
    decreases |s|
  {
    if |s| > PageSize {
      ChunkSizes(s[PageSize..]);
      var c := Chunks(s);
      assert forall p :: 1 <= p < |c| ==> c[p] == Chunks(s[PageSize..])[p - 1];
    }
  }

  /** Chunking a prefix of whole pages followed by more entries. */
  lemma {:induction false} ChunksAppend<T>(a: seq<T>, b: seq<T>)
    requires |a| % PageSize == 0
    ensures Chunks(a + b) == Chunks(a) + Chunks(b)
    decreases |a|
  {
    if a == [] {
      assert a + b == b;
    } else {
      assert (a + b)[..PageSize] == a[..PageSize];
      assert (a + b)[PageSize..] == a[PageSize..] + b;
      ChunksAppend(a[PageSize..], b);
      assert Chunks(a) == [a[..PageSize]] + Chunks(a[PageSize..]) by {
        if |a| == PageSize {
          assert a[PageSize..] == [];
        }
      }
      if b == [] {
        assert a + b == a;
      }
    }
  }

  /**
   * `paginate_language` without its delivery: the outer loop steps through the
   * index by 15, the inner loop builds one field per entry of `langs[i:i+15]`.
   * The first code without a region aborts the command and no page is sent.
   */
  method PaginateLanguage(index: Index) returns (r: Result<seq<Page>, PageError>)
    ensures r.Failure? <==> !AllHaveRegion(index)
    ensures r.Failure? ==> exists i :: 0 <= i < |index| && r.error == NoRegion(index[i].code) && !HasRegion(index[i])
    ensures r.Success? ==> AllHaveRegion(index) && r.value == PagesOf(Chunks(index))
  {
    var pages: seq<Page> := [];
    var i := 0;
    while i < |index|
      invariant i % PageSize == 0
      invariant i <= |index| + PageSize - 1
      invariant AllHaveRegion(index[..Min(i, |index|)])
      invariant pages == PagesOf(Chunks(index[..Min(i, |index|)]))
      decreases |index| - i
    {
      var hi := Min(i + PageSize, |index|);
      var paged: Page := [];
      for j := i to hi
        invariant AllHaveRegion(index[..j])
        invariant paged == FieldsOf(index[i..j])
      {
        var lang := index[j];
        var flag := Flag(lang.code);
        if flag.None? {
          assert lang in index;
          return Failure(NoRegion(lang.code));
        }
        paged := paged + [PageField(flag.value, lang.code, lang.name, lang.native)];
      }
      PageStep(index, i, hi);
      pages := pages + [paged];
      i := i + PageSize;
    }
    assert index[..Min(i, |index|)] == index;
    r := Success(pages);
  }

  function Min(a: int, b: int): int
  {
    if a <= b then a else b
  }

  /** One step of the outer loop: one more chunk, and one more page. */
  lemma PageStep(index: Index, i: nat, hi: nat)
    requires i % PageSize == 0 && i < hi == Min(i + PageSize, |index|)
    requires AllHaveRegion(index[..hi])
    ensures Chunks(index[..hi]) == Chunks(index[..i]) + [index[i..hi]]
    ensures PagesOf(Chunks(index[..hi])) == PagesOf(Chunks(index[..i])) + [FieldsOf(index[i..hi])]
  {
    assert index[..hi] == index[..i] + index[i..hi];
    ChunksAppend(index[..i], index[i..hi]);
  }

  /** Read page after page, the fields are those of the whole index, in index order. */
  lemma {:induction false} PagesCoverIndex(index: Index)
    requires AllHaveRegion(index)
    ensures Flatten(PagesOf(Chunks(index))) == FieldsOf(index)
    decreases |index|
  {
    if |index| > PageSize {
      PagesCoverIndex(index[PageSize..]);
      var c := Chunks(index);
      assert c == [index[..PageSize]] + Chunks(index[PageSize..]);
      assert PagesOf(c) == [FieldsOf(index[..PageSize])] + PagesOf(Chunks(index[PageSize..]));
      assert FieldsOf(index) == FieldsOf(index[..PageSize]) + FieldsOf(index[PageSize..]);
    } else if index != [] {
      assert PagesOf(Chunks(index)) == [FieldsOf(index)];
      assert Flatten([FieldsOf(index)]) == FieldsOf(index) + Flatten([FieldsOf(index)][1..]);
    }
  }
}
