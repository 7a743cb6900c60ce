/** The range resolver of `split_pdf_by_top_level_bookmarks` and
    `split_pdf_by_sub_level_bookmarks` in pdf_bookmark_splitter.py.

    The document is abstracted to its page count; extracting a section is
    modelled as the sequence of page ids the loop asks the document library
    to copy, one request per page. */
module Ranges {
  import opened Outline
  import opened Sanitize
  import opened Wrappers

  /** One entry of the list the top-level split returns: (filename, clean_title). */
  datatype TopFile = TopFile(filename: string, title: string)

  /** One entry of the list the sub-level split returns: (filename, clean_title, page),
      where `page` is the bookmark's own start page, before clamping. */
  datatype SubFile = SubFile(filename: string, title: string, page: int)

  function Min(a: int, b: int): int { if a <= b then a else b }
  function Max(a: int, b: int): int { if a <= b then b else a }

  /** The raw end page of entry `i`: the next entry's start page minus one,
      or the document's page count for the last entry. */
  function RawEnd(es: seq<Entry>, i: nat, pageCount: int): int
    requires i < |es|
  {
    if i + 1 < |es| then es[i + 1].page - 1 else pageCount
  }

  /** Entry `i` is skipped when its raw start is after its raw end; the
      decision is made on the raw values, before any clamping. */
  predicate Skipped(es: seq<Entry>, i: nat, pageCount: int)
    requires i < |es|
  {
    es[i].page > RawEnd(es, i, pageCount)
  }

  /** `max(1, min(x, page_count))`: at least 1, at most the page count when
      the document has pages, and a page already in bounds is kept. */
  function Clamp(x: int, pageCount: int): (r: int)
    ensures 1 <= r
    ensures 1 <= pageCount ==> r <= pageCount
    ensures 1 <= x <= pageCount ==> r == x
  {
    Max(1, Min(x, pageCount))
  }

  function ClampedStart(es: seq<Entry>, i: nat, pageCount: int): int
    requires i < |es|
  {
    Clamp(es[i].page, pageCount)
  }

  function ClampedEnd(es: seq<Entry>, i: nat, pageCount: int): int
    requires i < |es|
  {
    Clamp(RawEnd(es, i, pageCount), pageCount)
  }

  /** `range(lo, hi + 1)`. */
  function Interval(lo: int, hi: int): seq<int> {
    seq(if lo <= hi then hi - lo + 1 else 0, j => lo + j)
  }

  /** The page ids requested for entry `i` once it survived the check. */
  function Requested(es: seq<Entry>, i: nat, pageCount: int): seq<int>
    requires i < |es|
  {
    Interval(ClampedStart(es, i, pageCount), ClampedEnd(es, i, pageCount))
  }

  /** The indices below `m` of the entries that are not skipped, ascending. */
  function KeptBelow(es: seq<Entry>, m: nat, pageCount: int): (ks: seq<nat>)
    requires m <= |es|
    ensures forall k :: 0 <= k < |ks| ==> ks[k] < m
  {
    if m == 0 then []
    else KeptBelow(es, m - 1, pageCount) + (if Skipped(es, m - 1, pageCount) then [] else [m - 1])
  }

  /** The kept indices are strictly increasing: files come out in
      bookmark order. */
  lemma {:induction false} KeptBelowIncreasing(es: seq<Entry>, m: nat, pageCount: int)
    requires m <= |es|
    ensures forall k, l :: 0 <= k < l < |KeptBelow(es, m, pageCount)| ==>
              KeptBelow(es, m, pageCount)[k] < KeptBelow(es, m, pageCount)[l]
  {
    if m > 0 {
      KeptBelowIncreasing(es, m - 1, pageCount);
    }
  }

  /** An entry below `m` is kept exactly when it is not skipped. */
  lemma {:induction false} KeptBelowMembers(es: seq<Entry>, m: nat, pageCount: int)
    requires m <= |es|
    ensures forall i :: 0 <= i < m ==> (i in KeptBelow(es, m, pageCount) <==> !Skipped(es, i, pageCount))
  {
    if m > 0 {
      KeptBelowMembers(es, m - 1, pageCount);
    }
  }

  /** The indices of all entries that produce a file, in bookmark order. */
  function Kept(es: seq<Entry>, pageCount: int): seq<nat> {
    KeptBelow(es, |es|, pageCount)
  }

  /** Clamping cannot reverse a range: `max(1, min(x, n))` is monotone in `x`. */
  lemma ClampMonotone(x: int, y: int, pageCount: int)
    requires x <= y
    ensures Clamp(x, pageCount) <= Clamp(y, pageCount)
  {
  }

  /** A surviving entry of a document with pages gets clamped bounds with
      `1 <= start <= end <= page_count`, and its requests are exactly the
      pages from start to end, ascending, each once; so it is never empty
      and the "has pages" branch is always taken. */
  lemma SurvivorRequestsPages(es: seq<Entry>, i: nat, pageCount: int)
    requires i < |es| && !Skipped(es, i, pageCount)
    ensures 1 <= ClampedStart(es, i, pageCount) <= ClampedEnd(es, i, pageCount)
    ensures 1 <= pageCount ==> ClampedEnd(es, i, pageCount) <= pageCount
    ensures |Requested(es, i, pageCount)| == ClampedEnd(es, i, pageCount) - ClampedStart(es, i, pageCount) + 1 > 0
    ensures forall p :: p in Requested(es, i, pageCount) <==>
              ClampedStart(es, i, pageCount) <= p <= ClampedEnd(es, i, pageCount)
    ensures forall j, k :: 0 <= j < k < |Requested(es, i, pageCount)| ==>
              Requested(es, i, pageCount)[j] < Requested(es, i, pageCount)[k]
  {
    ClampMonotone(es[i].page, RawEnd(es, i, pageCount), pageCount);
    var r := Requested(es, i, pageCount);
    var lo := ClampedStart(es, i, pageCount);
    forall p | lo <= p <= ClampedEnd(es, i, pageCount) ensures p in r {
      assert r[p - lo] == p;
    }
  }

  /** The inner loop `for page_id in range(page_start, page_end + 1)`: one
      request per page id, ascending. */
  method RequestPages(lo: int, hi: int) returns (ids: seq<int>)
    ensures |ids| == (if lo <= hi then hi - lo + 1 else 0)
    ensures forall j :: 0 <= j < |ids| ==> ids[j] == lo + j
  {
    ids := [];
    var pageId := lo;
    while pageId <= hi
      invariant lo <= pageId <= (if lo <= hi then hi + 1 else lo)
      invariant |ids| == pageId - lo
      invariant forall j :: 0 <= j < |ids| ==> ids[j] == lo + j
      decreases hi - pageId
    {
      ids := ids + [pageId];
      pageId := pageId + 1;
    }
  }

  /** `f"_{clean_title}.pdf"` */
  function TopFileName(cleanTitle: string): string {
    "_" + cleanTitle + ".pdf"
  }

  /** `f"_{page}_{clean_title}.pdf"` */
  function SubFileName(page: int, cleanTitle: string): string {
    "_" + DecimalString(page) + "_" + cleanTitle + ".pdf"
  }

  /** The record the top-level split appends for an entry it keeps:
      `(f"_{clean_title}.pdf", clean_title)`. */
  function TopRecord(e: Entry): TopFile {
    var clean := CleanFilename(e.title);
    TopFile(TopFileName(clean), clean)
  }

  /** The record the sub-level split appends for an entry it keeps; its
      name and its recorded page use the raw start page. */
  function SubRecord(e: Entry): SubFile {
    var clean := CleanFilename(e.title);
    SubFile(SubFileName(e.page, clean), clean, e.page)
  }

  /** The records of the entries `ks` points at, in that order. */
  function TopRecordsOf(es: seq<Entry>, ks: seq<nat>): seq<TopFile>
    requires forall k :: 0 <= k < |ks| ==> ks[k] < |es|
  {
    seq(|ks|, k requires 0 <= k < |ks| => TopRecord(es[ks[k]]))
  }

  function SubRecordsOf(es: seq<Entry>, ks: seq<nat>): seq<SubFile>
    requires forall k :: 0 <= k < |ks| ==> ks[k] < |es|
  {
    seq(|ks|, k requires 0 <= k < |ks| => SubRecord(es[ks[k]]))
  }

  /** The page requests of the entries `ks` points at, in that order. */
  function RequestsOf(es: seq<Entry>, ks: seq<nat>, pageCount: int): seq<seq<int>>
    requires forall k :: 0 <= k < |ks| ==> ks[k] < |es|
  {
    seq(|ks|, k requires 0 <= k < |ks| => Requested(es, ks[k], pageCount))
  }

  /** One more entry keeps the kept indices, or appends its own. */
  lemma KeptBelowStep(es: seq<Entry>, i: nat, pageCount: int)
    requires i < |es|
    ensures KeptBelow(es, i + 1, pageCount) ==
            KeptBelow(es, i, pageCount) + (if Skipped(es, i, pageCount) then [] else [i])
  {
  }

  /** Appending an index appends that entry's record and request. */
  lemma RecordsOfAppend(es: seq<Entry>, ks: seq<nat>, i: nat, pageCount: int)
    requires forall k :: 0 <= k < |ks| ==> ks[k] < |es|
    requires i < |es|
    ensures TopRecordsOf(es, ks + [i]) == TopRecordsOf(es, ks) + [TopRecord(es[i])]
    ensures SubRecordsOf(es, ks + [i]) == SubRecordsOf(es, ks) + [SubRecord(es[i])]
    ensures RequestsOf(es, ks + [i], pageCount) == RequestsOf(es, ks, pageCount) + [Requested(es, i, pageCount)]
  {
    var ks' := ks + [i];
    assert forall k :: 0 <= k < |ks| ==> ks'[k] == ks[k];
  }

  /** The requests made by the inner loop are the clamped range itself. */
  lemma RequestsAreInterval(ids: seq<int>, lo: int, hi: int)
    requires |ids| == (if lo <= hi then hi - lo + 1 else 0)
    requires forall j :: 0 <= j < |ids| ==> ids[j] == lo + j
    ensures ids == Interval(lo, hi)
  {
  }

  /** `split_pdf_by_top_level_bookmarks`: returns one file per entry that is
      not skipped, in bookmark order, with the pages requested for it. */
  method SplitTopLevel(pageCount: nat, top: seq<Entry>)
    returns (created: seq<TopFile>, requested: seq<seq<int>>)
    ensures |created| == |requested| == |Kept(top, pageCount)|
    ensures forall k :: 0 <= k < |created| ==>
              created[k] == TopRecord(top[Kept(top, pageCount)[k]]) &&
              requested[k] == Requested(top, Kept(top, pageCount)[k], pageCount)
  {
    created, requested := [], [];
    for i := 0 to |top|
      invariant created == TopRecordsOf(top, KeptBelow(top, i, pageCount))
      invariant requested == RequestsOf(top, KeptBelow(top, i, pageCount), pageCount)
    {
      var pageStart := top[i].page;
      var pageEnd := if i + 1 < |top| then top[i + 1].page - 1 else pageCount;
      KeptBelowStep(top, i, pageCount);
      if pageStart > pageEnd {
        continue;
      }
      ClampMonotone(pageStart, pageEnd, pageCount);
      pageStart := Max(1, Min(pageStart, pageCount));
      pageEnd := Max(1, Min(pageEnd, pageCount));
      assert pageStart == ClampedStart(top, i, pageCount) && pageEnd == ClampedEnd(top, i, pageCount);
      var ids := RequestPages(pageStart, pageEnd);
      RequestsAreInterval(ids, pageStart, pageEnd);
      assert ids == Requested(top, i, pageCount);
      if |ids| > 0 {
        RecordsOfAppend(top, KeptBelow(top, i, pageCount), i, pageCount);
        var cleanTitle := CleanFilename(top[i].title);
        created := created + [TopFile(TopFileName(cleanTitle), cleanTitle)];
        requested := requested + [ids];
      }
    }
  }

  /** `split_pdf_by_sub_level_bookmarks`: the same ranges, with the raw
      start page in each file's name and record. */
  method SplitSubLevel(pageCount: nat, sub: seq<Entry>)
    returns (created: seq<SubFile>, requested: seq<seq<int>>)
    ensures |created| == |requested| == |Kept(sub, pageCount)|
    ensures forall k :: 0 <= k < |created| ==>
              created[k] == SubRecord(sub[Kept(sub, pageCount)[k]]) &&
              requested[k] == Requested(sub, Kept(sub, pageCount)[k], pageCount)
  {
    created, requested := [], [];
    for i := 0 to |sub|
      invariant created == SubRecordsOf(sub, KeptBelow(sub, i, pageCount))
      invariant requested == RequestsOf(sub, KeptBelow(sub, i, pageCount), pageCount)
    {
      var page := sub[i].page;
      var pageStart := page;
      var pageEnd := if i + 1 < |sub| then sub[i + 1].page - 1 else pageCount;
      KeptBelowStep(sub, i, pageCount);
      if pageStart > pageEnd {
        continue;
      }
      ClampMonotone(pageStart, pageEnd, pageCount);
      pageStart := Max(1, Min(pageStart, pageCount));
      pageEnd := Max(1, Min(pageEnd, pageCount));
      assert pageStart == ClampedStart(sub, i, pageCount) && pageEnd == ClampedEnd(sub, i, pageCount);
      var ids := RequestPages(pageStart, pageEnd);
      RequestsAreInterval(ids, pageStart, pageEnd);
      assert ids == Requested(sub, i, pageCount);
      if |ids| > 0 {
        RecordsOfAppend(sub, KeptBelow(sub, i, pageCount), i, pageCount);
        var cleanTitle := CleanFilename(sub[i].title);
        created := created + [SubFile(SubFileName(page, cleanTitle), cleanTitle, page)];
        requested := requested + [ids];
      }
    }
  }

  /** The start pages strictly increase along the list. */
  predicate StrictlyIncreasing(es: seq<Entry>) {
    forall i, j :: 0 <= i < j < |es| ==> es[i].page < es[j].page
  }

  /** The pages of several extracted documents, one after the other. */
  function Concat(parts: seq<seq<int>>): seq<int> {
    if parts == [] then [] else parts[0] + Concat(parts[1..])
  }

  lemma IntervalSplit(lo: int, mid: int, hi: int)
    requires lo <= mid <= hi + 1
    ensures Interval(lo, mid - 1) + Interval(mid, hi) == Interval(lo, hi)
  {
  }

  /** When no entry is skipped, every entry produces a file, in order. */
  lemma {:induction false} KeptAll(es: seq<Entry>, m: nat, pageCount: int)
    requires m <= |es|
    requires forall i :: 0 <= i < m ==> !Skipped(es, i, pageCount)
    ensures |KeptBelow(es, m, pageCount)| == m
    ensures forall k :: 0 <= k < m ==> KeptBelow(es, m, pageCount)[k] == k
  {
    if m > 0 {
      KeptAll(es, m - 1, pageCount);
    }
  }

  /** The ranges of the entries from `i` on, concatenated, are the pages
      from entry `i`'s start to the end of the document. */
  lemma {:induction false} RangesFromTile(es: seq<Entry>, pageCount: int, parts: seq<seq<int>>, i: nat)
    requires StrictlyIncreasing(es) && 0 < |es| && es[0].page == 1 && es[|es| - 1].page <= pageCount
    requires |parts| == |es| && forall k :: 0 <= k < |es| ==> parts[k] == Requested(es, k, pageCount)
    requires i < |es|
    ensures Concat(parts[i..]) == Interval(es[i].page, pageCount)
    decreases |es| - i
  {
    assert parts[i..][1..] == parts[i + 1..];
    assert 1 <= es[i].page by {
      if i > 0 { assert es[0].page < es[i].page; }
    }
    if i + 1 == |es| {
      assert parts[i + 1..] == [];
    } else {
      assert es[i + 1].page <= es[|es| - 1].page by {
        if i + 1 < |es| - 1 { assert es[i + 1].page < es[|es| - 1].page; }
      }
      assert es[i].page < es[i + 1].page;
      RangesFromTile(es, pageCount, parts, i + 1);
      IntervalSplit(es[i].page, es[i + 1].page, pageCount);
    }
  }

  /** When the start pages strictly increase and the last one is within
      the document, no entry is skipped. */
  lemma IncreasingNoneSkipped(es: seq<Entry>, pageCount: int)
    requires StrictlyIncreasing(es) && 0 < |es| && es[|es| - 1].page <= pageCount
    ensures forall i :: 0 <= i < |es| ==> !Skipped(es, i, pageCount)
  {
    forall i | 0 <= i < |es| ensures !Skipped(es, i, pageCount) {
      if i + 1 < |es| { assert es[i].page < es[i + 1].page; }
      else if i > 0 { assert es[i].page <= es[|es| - 1].page; }
    }
  }

  /** Partition: when the top-level start pages strictly increase, the first
      is page 1 and the last is within the document, no entry is skipped
      and the requested ranges, taken in order, are the pages 1 to
      `page_count` with no gap and no overlap. */
  lemma TopLevelRangesTile(top: seq<Entry>, pageCount: int, requested: seq<seq<int>>)
    requires StrictlyIncreasing(top) && 0 < |top| && top[0].page == 1 && top[|top| - 1].page <= pageCount
    requires |requested| == |Kept(top, pageCount)|
    requires forall k :: 0 <= k < |requested| ==> requested[k] == Requested(top, Kept(top, pageCount)[k], pageCount)
    ensures forall i :: 0 <= i < |top| ==> !Skipped(top, i, pageCount)
    ensures Concat(requested) == Interval(1, pageCount)
  {
    IncreasingNoneSkipped(top, pageCount);
    KeptAll(top, |top|, pageCount);
    var ks := Kept(top, pageCount);
    forall k | 0 <= k < |top| ensures requested[k] == Requested(top, k, pageCount) {
      assert ks[k] == k;
    }
    RangesFromTile(top, pageCount, requested, 0);
    assert requested[0..] == requested;
  }

  // ----- Page ids and the 0-based indices `insert_pdf` takes -----

  /** The index handed to `insert_pdf(doc, from_page=page_id, to_page=page_id)`
      as written: the 1-based page id itself, although `from_page` counts
      pages from 0. */
  function AsWrittenIndices(ids: seq<int>): seq<int> {
    ids
  }

  /** The indices that copy the pages `ids` name: one less than each id. */
  function PageIndices(ids: seq<int>): seq<int> {
    seq(|ids|, j requires 0 <= j < |ids| => ids[j] - 1)
  }

  /** As written, a single bookmark on page 1 of a 3-page document asks for
      indices 1, 2 and 3: index 0 (page 1) is never copied and index 3 lies
      past the last page. */
  lemma AsWrittenIndicesMissFirstPage()
    ensures var es := [Entry(1, "All", 1)];
            && Kept(es, 3) == [0]
            && Requested(es, 0, 3) == [1, 2, 3]
            && 0 !in AsWrittenIndices(Requested(es, 0, 3))
            && 3 in AsWrittenIndices(Requested(es, 0, 3))
  {
    var es := [Entry(1, "All", 1)];
    assert !Skipped(es, 0, 3);
    KeptAll(es, 1, 3);
  }

  /** Every index a surviving bookmark asks for lies inside the document. */
  lemma PageIndicesInRange(es: seq<Entry>, i: nat, pageCount: int)
    requires i < |es| && !Skipped(es, i, pageCount) && 1 <= pageCount
    ensures forall x :: x in PageIndices(Requested(es, i, pageCount)) ==> 0 <= x < pageCount
  {
    SurvivorRequestsPages(es, i, pageCount);
    var r := Requested(es, i, pageCount);
    forall x | x in PageIndices(r) ensures 0 <= x < pageCount {
      var j :| 0 <= j < |r| && PageIndices(r)[j] == x;
      assert r[j] in r;
    }
  }

  /** With the indices corrected, a well-formed top-level outline copies
      every page of the document exactly once, in order: indices 0 to
      `page_count - 1`. */
  lemma TopLevelCopiesEveryPageOnce(top: seq<Entry>, pageCount: int, requested: seq<seq<int>>)
    requires StrictlyIncreasing(top) && 0 < |top| && top[0].page == 1 && top[|top| - 1].page <= pageCount
    requires |requested| == |Kept(top, pageCount)|
    requires forall k :: 0 <= k < |requested| ==> requested[k] == Requested(top, Kept(top, pageCount)[k], pageCount)
    ensures PageIndices(Concat(requested)) == Interval(0, pageCount - 1)
  {
    TopLevelRangesTile(top, pageCount, requested);
  }

  // ----- `str(int)` and the page number inside a sub-level file name -----

  function DigitChar(d: nat): char
    requires d < 10
  {
    ('0' as int + d) as char
  }

  /** Python's `str(n)` for a non-negative integer. */
  function NatDigits(n: nat): string
    decreases n
  {
    if n < 10 then [DigitChar(n)] else NatDigits(n / 10) + [DigitChar(n % 10)]
  }

  /** Python's `str(n)`: a minus sign before the digits of a negative number. */
  function DecimalString(n: int): string {
    if n < 0 then "-" + NatDigits(-n) else NatDigits(n)
  }

  predicate IsDigit(c: char) { '0' <= c <= '9' }

  function DigitValue(c: char): nat
    requires IsDigit(c)
  {
    (c as int) - ('0' as int)
  }

  predicate AllDigits(s: string) {
    forall i :: 0 <= i < |s| ==> IsDigit(s[i])
  }

  /** Reads a string of decimal digits back as a number. */
  function ParseNat(s: string): nat
    requires AllDigits(s)
  {
    if s == [] then 0 else 10 * ParseNat(s[..|s| - 1]) + DigitValue(s[|s| - 1])
  }

  /** Reads a decimal integer: an optional minus sign and at least one digit. */
  function ParseDecimal(s: string): Option<int> {
    if |s| > 1 && s[0] == '-' && AllDigits(s[1..]) then Some(-(ParseNat(s[1..]) as int))
    else if |s| > 0 && AllDigits(s) then Some(ParseNat(s) as int)
    else None
  }

  /** `str(n)` for a natural number is a non-empty run of digits that reads
      back as `n`. */
  lemma {:induction false} NatDigitsRoundTrip(n: nat)
    ensures 0 < |NatDigits(n)|
    ensures AllDigits(NatDigits(n))
    ensures ParseNat(NatDigits(n)) == n
  {
    if n >= 10 {
      NatDigitsRoundTrip(n / 10);
      var s := NatDigits(n);
      var init := NatDigits(n / 10);
      assert s == init + [DigitChar(n % 10)];
      assert s[..|s| - 1] == init;
      assert DigitValue(s[|s| - 1]) == n % 10;
      assert ParseNat(s) == 10 * (n / 10) + n % 10;
    }
  }

  /** `str(n)` reads back as `n`, and contains no underscore. */
  lemma DecimalStringRoundTrip(n: int)
    ensures 0 < |DecimalString(n)|
    ensures forall i :: 0 <= i < |DecimalString(n)| ==> DecimalString(n)[i] != '_'
    ensures ParseDecimal(DecimalString(n)) == Some(n)
  {
    if n < 0 {
      NatDigitsRoundTrip(-n);
      assert DecimalString(n)[1..] == NatDigits(-n);
    } else {
      NatDigitsRoundTrip(n);
    }
  }

  /** Index of the first '_' in `s` at or after `from`, or |s| if none. */
  function FindUnderscore(s: string, from: nat): (k: nat)
    requires from <= |s|
    ensures from <= k <= |s|
    ensures k < |s| ==> s[k] == '_'
    ensures forall j :: from <= j < k ==> s[j] != '_'
    decreases |s| - from
  {
    if from == |s| || s[from] == '_' then from else FindUnderscore(s, from + 1)
  }

  /** Reads a sub-level file name `_<page>_<title>.pdf` back into its raw
      page and its clean title; the page is everything up to the first
      underscore after the leading one. */
  function ParseSubFileName(name: string): Option<(int, string)> {
    if |name| < 6 || name[0] != '_' || name[|name| - 4..] != ".pdf" then None
    else
      var body := name[1..|name| - 4];
      var u := FindUnderscore(body, 0);
      if u == |body| then None
      else
        match ParseDecimal(body[..u])
        case None => None
        case Some(page) => Some((page, body[u + 1..]))
  }

  /** The first underscore of `d + "_" + t`, when `d` has none, is the one
      right after `d`. */
  lemma UnderscoreAfter(d: string, t: string)
    requires forall i :: 0 <= i < |d| ==> d[i] != '_'
    ensures FindUnderscore(d + "_" + t, 0) == |d|
  {
    var body := d + "_" + t;
    var u := FindUnderscore(body, 0);
    assert body[|d|] == '_';
    assert forall i :: 0 <= i < |d| ==> body[i] == d[i];
  }

  /** A sub-level file name records the raw start page and the clean title
      it was made from: both can be read back from it. */
  lemma SubFileNameRoundTrip(page: int, cleanTitle: string)
    ensures ParseSubFileName(SubFileName(page, cleanTitle)) == Some((page, cleanTitle))
  {
    var d := DecimalString(page);
    DecimalStringRoundTrip(page);
    var name := SubFileName(page, cleanTitle);
    var body := d + "_" + cleanTitle;
    assert name == "_" + body + ".pdf";
    assert name[1..|name| - 4] == body;
    assert name[|name| - 4..] == ".pdf";
    UnderscoreAfter(d, cleanTitle);
    assert body[..|d|] == d;
    assert body[|d| + 1..] == cleanTitle;
  }

  /** Two sub-level entries whose raw page or clean title differ never get
      the same file name. */
  lemma SubFileNameInjective(p1: int, t1: string, p2: int, t2: string)
    requires SubFileName(p1, t1) == SubFileName(p2, t2)
    ensures p1 == p2 && t1 == t2
  {
    SubFileNameRoundTrip(p1, t1);
    SubFileNameRoundTrip(p2, t2);
  }
}
