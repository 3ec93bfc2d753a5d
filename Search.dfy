/**
 * The mock document search: a fixed list of manual documents filtered by
 * section and by a case-insensitive substring, then paged with `slice`; and
 * title suggestions. Case folding (`toLowerCase`, which the documents'
 * Korean titles go through) is the parameter `lower`.
 */
module Search {
  import opened Wrappers
  import Seqs
  import Js

  datatype Document = Document(id: string, titleKo: string, titleEn: string, code: string, section: string,
                               content: Option<string>, filePath: string, score: real)

  /** `query`, `section`, `size` and `from` of the search options; an absent field is None. */
  datatype SearchOptions = SearchOptions(query: string, section: Option<string>, size: Option<int>, from: Option<int>)

  datatype Bucket = Bucket(key: string, docCount: nat)

  datatype SearchResult = SearchResult(documents: seq<Document>, total: nat, sections: seq<Bucket>)

  const DefaultSize: int := 20
  const DefaultFrom: int := 0
  const DefaultSuggestSize: int := 5

  /** The documents the service holds from its construction on. */
  const MockDocuments: seq<Document> := [
    Document("main-manual-MM-01", "일반사항 및 정의", "General Provisions and Definitions", "MM-01", "main-manual",
             Some("본 매뉴얼의 일반사항과 정의에 관한 내용입니다."),
             "/pdf/00_DRK Main Manual/MM-01. 일반사항 및 정의.pdf", 1.0),
    Document("procedures-PR-01-001", "안전관리 절차", "Safety Management Procedure", "PR-01-001", "procedures",
             Some("선박 안전관리를 위한 세부 절차서입니다."),
             "/pdf/01_DRK Procedure/DRK-PR01/PR-01-001. 안전관리 절차.pdf", 0.95)]

  /** The section counts the search reports, whatever the query. */
  const SectionBuckets: seq<Bucket> := [Bucket("main-manual", 1), Bucket("procedures", 1)]

  /** `if (section)`: a given, non-empty section. */
  predicate SectionGiven(section: Option<string>) {
    section.Some? && section.value != ""
  }

  /** `if (query && query.trim())`: the query has a character that is not white space. */
  predicate QueryGiven(query: string) {
    Js.Trim(query) != ""
  }

  function InSection(section: string): Document -> bool {
    (d: Document) => d.section == section
  }

  /** The text filter: the term occurs in a folded title, code or non-empty content. */
  predicate Matches(d: Document, term: string, lower: string -> string)
    ensures term == "" ==> Matches(d, term, lower)
  {
    || Js.Includes(lower(d.titleKo), term)
    || Js.Includes(lower(d.titleEn), term)
    || Js.Includes(lower(d.code), term)
    || (d.content.Some? && d.content.value != "" && Js.Includes(lower(d.content.value), term))
  }

  function MatchesTerm(term: string, lower: string -> string): Document -> bool {
    (d: Document) => Matches(d, term, lower)
  }

  /** The documents both filters keep, in their original order. */
  function Filtered(docs: seq<Document>, options: SearchOptions, lower: string -> string): (r: seq<Document>)
    ensures |r| <= |docs|
    ensures forall d :: d in r ==> d in docs
    ensures !SectionGiven(options.section) && !QueryGiven(options.query) ==> r == docs
  {
    var bySection :=
      if SectionGiven(options.section) then
        Seqs.FilterMembers(docs, InSection(options.section.value));
        Seqs.Filter(docs, InSection(options.section.value))
      else docs;
    if QueryGiven(options.query) then
      Seqs.FilterMembers(bySection, MatchesTerm(lower(Js.Trim(options.query)), lower));
      Seqs.Filter(bySection, MatchesTerm(lower(Js.Trim(options.query)), lower))
    else bySection
  }

  /** `search` */
  function SearchDocuments(docs: seq<Document>, options: SearchOptions, lower: string -> string): (r: SearchResult)
    ensures r.total == |Filtered(docs, options, lower)|
    ensures r.sections == SectionBuckets
  {
    var size := options.size.GetOr(DefaultSize);
    var from := options.from.GetOr(DefaultFrom);
    var filtered := Filtered(docs, options, lower);
    SearchResult(Js.Slice(filtered, from, from + size), |filtered|, SectionBuckets)
  }

  /** With a section given, every document found has that section. */
  lemma SearchKeepsSection(docs: seq<Document>, options: SearchOptions, lower: string -> string)
    requires SectionGiven(options.section)
    ensures forall d :: d in SearchDocuments(docs, options, lower).documents ==> d.section == options.section.value && d in docs
  {
    FilteredMeaning(docs, options, lower);
    PageFromFiltered(docs, options, lower);
  }

  /** With a non-blank query, every document found matches the trimmed, folded query. */
  lemma SearchMatchesQuery(docs: seq<Document>, options: SearchOptions, lower: string -> string)
    requires QueryGiven(options.query)
    ensures forall d :: d in SearchDocuments(docs, options, lower).documents ==>
              Matches(d, lower(Js.Trim(options.query)), lower)
  {
    FilteredMeaning(docs, options, lower);
    PageFromFiltered(docs, options, lower);
  }

  /** Membership in the filtered list: a document of the input passing each given filter, and every such document. */
  lemma FilteredMeaning(docs: seq<Document>, options: SearchOptions, lower: string -> string)
    ensures forall d :: d in Filtered(docs, options, lower) <==>
              && d in docs
              && (SectionGiven(options.section) ==> d.section == options.section.value)
              && (QueryGiven(options.query) ==> Matches(d, lower(Js.Trim(options.query)), lower))
  {
    var bySection := if SectionGiven(options.section) then Seqs.Filter(docs, InSection(options.section.value)) else docs;
    if SectionGiven(options.section) {
      Seqs.FilterMembers(docs, InSection(options.section.value));
    }
    if QueryGiven(options.query) {
      Seqs.FilterMembers(bySection, MatchesTerm(lower(Js.Trim(options.query)), lower));
    }
  }

  /** Every document of a page is one of the filtered documents. */
  lemma PageFromFiltered(docs: seq<Document>, options: SearchOptions, lower: string -> string)
    ensures forall d :: d in SearchDocuments(docs, options, lower).documents ==> d in Filtered(docs, options, lower)
  {
    var from := options.from.GetOr(DefaultFrom);
    SliceMembers(Filtered(docs, options, lower), from, from + options.size.GetOr(DefaultSize));
  }

  /** A slice holds only elements of the sliced sequence. */
  lemma SliceMembers<T>(s: seq<T>, start: int, end: int)
    ensures forall x :: x in Js.Slice(s, start, end) ==> x in s
  {
    var page := Js.Slice(s, start, end);
    var a := Js.RelIndex(start, |s|);
    forall x | x in page ensures x in s {
      var k :| 0 <= k < |page| && page[k] == x;
      assert s[a + k] == x;
    }
  }

  /** A blank query filters nothing: only the section, if given, narrows the documents. */
  lemma BlankQueryKeepsAll(docs: seq<Document>, options: SearchOptions, lower: string -> string)
    requires !QueryGiven(options.query)
    ensures !SectionGiven(options.section) ==> Filtered(docs, options, lower) == docs
    ensures SectionGiven(options.section) ==> Filtered(docs, options, lower) == Seqs.Filter(docs, InSection(options.section.value))
  {
  }

  /**
   * The page is `filtered.slice(from, from + size)` with the defaults 20 and
   * 0, it holds at most `size` documents, and the total ignores the paging.
   */
  lemma SearchPaging(docs: seq<Document>, options: SearchOptions, lower: string -> string)
    ensures var size, from := options.size.GetOr(20), options.from.GetOr(0);
            SearchDocuments(docs, options, lower).documents == Js.Slice(Filtered(docs, options, lower), from, from + size)
    ensures options.size.GetOr(20) >= 0 ==> |SearchDocuments(docs, options, lower).documents| <= options.size.GetOr(20)
    ensures options.size.None? && options.from.None? ==>
              SearchDocuments(docs, options, lower).documents == Js.Slice(Filtered(docs, options, lower), 0, 20)
    ensures forall size, from :: SearchDocuments(docs, options.(size := size, from := from), lower).total
                                 == SearchDocuments(docs, options, lower).total
  {
    var size, from := options.size.GetOr(20), options.from.GetOr(0);
    if size >= 0 {
      SliceAtMost(Filtered(docs, options, lower), from, size);
    }
  }

  /** `slice(from, from + size)` never yields more than `size` elements, negative `from` included. */
  lemma SliceAtMost<T>(s: seq<T>, from: int, size: int)
    requires size >= 0
    ensures |Js.Slice(s, from, from + size)| <= size
  {
    var a := Js.RelIndex(from, |s|);
    var b := Js.RelIndex(from + size, |s|);
    if a < b {
      assert b - a <= size;
    }
  }

  function TitleKo(d: Document): string {
    d.titleKo
  }

  function TitleMatches(query: string, lower: string -> string): Document -> bool {
    (d: Document) => Js.Includes(lower(d.titleKo), lower(query))
  }

  /** `suggest`: the Korean titles of the first `size` documents whose folded title contains the folded query. */
  function Suggest(docs: seq<Document>, query: string, size: Option<int>, lower: string -> string): (r: seq<string>)
    ensures var hits := Seqs.Filter(docs, TitleMatches(query, lower));
            |r| == |Js.Slice(hits, 0, size.GetOr(DefaultSuggestSize))|
            && forall k :: 0 <= k < |r| ==> r[k] == Js.Slice(hits, 0, size.GetOr(DefaultSuggestSize))[k].titleKo
  {
    var hits := Seqs.Filter(docs, TitleMatches(query, lower));
    var page := Js.Slice(hits, 0, size.GetOr(DefaultSuggestSize));
    seq(|page|, k requires 0 <= k < |page| => page[k].titleKo)
  }

  /**
   * At most `size` suggestions (five by default), the titles of the first
   * matching documents in their original order, each containing the folded query.
   */
  lemma SuggestFacts(docs: seq<Document>, query: string, size: Option<int>, lower: string -> string)
    requires size.GetOr(DefaultSuggestSize) >= 0
    ensures var r := Suggest(docs, query, size, lower);
            var hits := Seqs.Filter(docs, TitleMatches(query, lower));
            && |r| <= size.GetOr(DefaultSuggestSize)
            && |r| <= |hits|
            && (forall k :: 0 <= k < |r| ==> r[k] == hits[k].titleKo)
            && (forall k :: 0 <= k < |r| ==> exists d :: d in docs && d.titleKo == r[k] && Js.Includes(lower(r[k]), lower(query)))
  {
    var hits := Seqs.Filter(docs, TitleMatches(query, lower));
    var n := size.GetOr(DefaultSuggestSize);
    var page := Js.Slice(hits, 0, n);
    SliceAtMost(hits, 0, n);
    var r := Suggest(docs, query, size, lower);
    Seqs.FilterMembers(docs, TitleMatches(query, lower));
    forall k | 0 <= k < |r|
      ensures r[k] == hits[k].titleKo
      ensures exists d :: d in docs && d.titleKo == r[k] && Js.Includes(lower(r[k]), lower(query))
    {
      var d := hits[k];
      assert page[k] == d && r[k] == d.titleKo;
      assert d in hits;
    }
  }
}
