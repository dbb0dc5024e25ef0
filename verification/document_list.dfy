/** The document list both dashboards show: the user, date-range and single-day filters,
    newest-first order, the first page and the "Load More" button, and the local removal
    after a delete. */
module DocumentList {
  import opened Wrappers
  import opened Text
  import opened Sorting
  import opened Models
  import opened Calendar
  import Documents

  /** The filter inputs: a user-name fragment ("" for none), the range bounds as the
      midnight instants the date inputs name, and the single day as a UTC day number. */
  datatype Filters = Filters(user: string, start: Option<int>, end: Option<int>, day: Option<int>)

  const NoFilters: Filters := Filters("", None, None, None)

  predicate RangeSet(f: Filters) {
    f.start.Some? || f.end.Some?
  }

  /** The range test: from `start` (0 when unset) to a day past `end` (unbounded when
      unset), both ends included. */
  predicate InRange(f: Filters, d: DocumentInfo) {
    d.uploadDate >= (if f.start.Some? then f.start.value else 0)
    && (f.end.None? || d.uploadDate <= f.end.value + DayMs)
  }

  /** The single-day test: the UTC date of the upload is the chosen date. */
  predicate OnDay(day: int, d: DocumentInfo) {
    UtcDay(d.uploadDate) == day
  }

  /** `doc.uploadedByName.toLowerCase().includes(filterUser.toLowerCase())` */
  function UserMatch(user: string): DocumentInfo -> bool {
    (d: DocumentInfo) => IncludesIgnoringCase(d.uploadedByName, user)
  }

  function RangeMatch(f: Filters): DocumentInfo -> bool {
    (d: DocumentInfo) => InRange(f, d)
  }

  function DayMatch(day: int): DocumentInfo -> bool {
    (d: DocumentInfo) => OnDay(day, d)
  }

  /** Reference definition of what the list keeps: the user test, then the range test if a
      bound is set, else the single-day test if a day is set. */
  predicate Selected(f: Filters, d: DocumentInfo) {
    (f.user == "" || IncludesIgnoringCase(d.uploadedByName, f.user))
    && (if RangeSet(f) then InRange(f, d) else if f.day.Some? then OnDay(f.day.value, d) else true)
  }

  function UserTest(f: Filters): DocumentInfo -> bool {
    (d: DocumentInfo) => f.user == "" || IncludesIgnoringCase(d.uploadedByName, f.user)
  }

  function DateTest(f: Filters): DocumentInfo -> bool {
    (d: DocumentInfo) => if RangeSet(f) then InRange(f, d) else if f.day.Some? then OnDay(f.day.value, d) else true
  }

  function Selection(f: Filters): DocumentInfo -> bool {
    (d: DocumentInfo) => Selected(f, d)
  }

  /** The user step of `getFilteredDocuments`. */
  function UserStep(docs: seq<DocumentInfo>, f: Filters): seq<DocumentInfo> {
    if f.user != "" then Filter(docs, UserMatch(f.user)) else docs
  }

  /** The date step of `getFilteredDocuments`: the range wins over the single day. */
  function DateStep(docs: seq<DocumentInfo>, f: Filters): seq<DocumentInfo> {
    if RangeSet(f) then Filter(docs, RangeMatch(f))
    else if f.day.Some? then Filter(docs, DayMatch(f.day.value))
    else docs
  }

  lemma UserStepFilters(docs: seq<DocumentInfo>, f: Filters)
    ensures UserStep(docs, f) == Filter(docs, UserTest(f))
  {
    if f.user != "" {
      FilterCongruent(docs, UserMatch(f.user), UserTest(f));
    } else {
      FilterAll(docs, UserTest(f));
    }
  }

  lemma DateStepFilters(docs: seq<DocumentInfo>, f: Filters)
    ensures DateStep(docs, f) == Filter(docs, DateTest(f))
  {
    if RangeSet(f) {
      FilterCongruent(docs, RangeMatch(f), DateTest(f));
    } else if f.day.Some? {
      FilterCongruent(docs, DayMatch(f.day.value), DateTest(f));
    } else {
      FilterAll(docs, DateTest(f));
    }
  }

  /** The two steps together select exactly what `Selected` describes. */
  lemma StepsSelect(docs: seq<DocumentInfo>, f: Filters)
    ensures DateStep(UserStep(docs, f), f) == Filter(docs, Selection(f))
  {
    UserStepFilters(docs, f);
    DateStepFilters(UserStep(docs, f), f);
    FilterFilter(docs, UserTest(f), DateTest(f), Selection(f));
  }

  /** `getFilteredDocuments`: the selected documents, newest upload first. */
  function FilteredDocuments(docs: seq<DocumentInfo>, f: Filters): (r: seq<DocumentInfo>)
    ensures SortedDesc(r, Documents.InfoKey)
    ensures multiset(r) == multiset(Filter(docs, Selection(f)))
    ensures forall d :: d in r <==> d in docs && Selected(f, d)
  {
    var selected := DateStep(UserStep(docs, f), f);
    StepsSelect(docs, f);
    var r := SortDesc(selected, Documents.InfoKey);
    SameElements(r, Filter(docs, Selection(f)));
    r
  }

  /** With every filter empty the list is a reordering of all documents. */
  lemma UnfilteredIsPermutation(docs: seq<DocumentInfo>)
    ensures multiset(FilteredDocuments(docs, NoFilters)) == multiset(docs)
  {
    FilterAll(docs, Selection(NoFilters));
  }

  /** A set range makes the single day irrelevant. */
  lemma RangeOverridesDay(docs: seq<DocumentInfo>, f: Filters, day: Option<int>)
    requires RangeSet(f)
    ensures FilteredDocuments(docs, f.(day := day)) == FilteredDocuments(docs, f)
  {
    var g := f.(day := day);
    var a := UserStep(docs, f);
    assert UserStep(docs, g) == a;
    FilterCongruent(a, RangeMatch(g), RangeMatch(f));
  }

  // ---------------------------------------------------------------------------
  // Paging

  const PageSize: nat := 5

  /** `displayDocuments`: the first page, or everything once "Load More" was pressed. */
  function Displayed(list: seq<DocumentInfo>, showMore: bool): (r: seq<DocumentInfo>)
    ensures |r| == if showMore || |list| <= PageSize then |list| else PageSize
    ensures r == list[..|r|]
  {
    if showMore then list else Take(list, PageSize)
  }

  /** The count the button's label shows: `length - 5`. */
  function MoreLabel(list: seq<DocumentInfo>): int {
    |list| - PageSize
  }

  /** The admin dashboard's button condition as written: more than four documents. */
  predicate AdminLoadMoreAsWritten(list: seq<DocumentInfo>, showMore: bool) {
    !showMore && |list| > 4
  }

  /** With exactly five documents the admin button appears although the page already
      shows all of them, and its label promises "0 more". */
  lemma AdminLoadMoreAtFive(list: seq<DocumentInfo>)
    requires |list| == 5
    ensures AdminLoadMoreAsWritten(list, false)
    ensures Displayed(list, false) == list
    ensures MoreLabel(list) == 0
  {
  }

  /** The button condition the employee dashboard uses, and the admin one evidently
      intends: more documents than one page holds. */
  predicate LoadMore(list: seq<DocumentInfo>, showMore: bool) {
    !showMore && |list| > PageSize
  }

  /** The button appears exactly when some document is hidden, and its label counts the
      hidden ones. */
  lemma LoadMoreIffHidden(list: seq<DocumentInfo>, showMore: bool)
    ensures LoadMore(list, showMore) <==> |Displayed(list, showMore)| < |list|
    ensures LoadMore(list, showMore) ==> MoreLabel(list) == |list| - |Displayed(list, showMore)| > 0
  {
  }

  /** The first page holds the newest of the filtered documents. */
  lemma FirstPageIsNewest(docs: seq<DocumentInfo>, f: Filters)
    ensures var list := FilteredDocuments(docs, f);
      forall i, j :: 0 <= i < |Displayed(list, false)| <= j < |list|
        ==> list[i].uploadDate >= list[j].uploadDate
  {
    var list := FilteredDocuments(docs, f);
    PrefixOfSortedIsNewest(list, Documents.InfoKey, PageSize);
  }

  // ---------------------------------------------------------------------------
  // Local updates

  /** `documents.filter((d) => d.id !== docId)` after a successful delete. */
  function RemoveDocument(docs: seq<DocumentInfo>, id: nat): (r: seq<DocumentInfo>)
    ensures forall d :: d in r <==> d in docs && d.id != id
    ensures multiset(r) <= multiset(docs)
  {
    Filter(docs, (d: DocumentInfo) => d.id != id)
  }

  /** `[...data.documents, ...documents]` after a successful batch upload. */
  function PrependCreated(docs: seq<DocumentInfo>, created: seq<DocumentInfo>): (r: seq<DocumentInfo>)
    ensures |r| == |docs| + |created|
    ensures r[..|created|] == created && r[|created|..] == docs
  {
    created + docs
  }
}
