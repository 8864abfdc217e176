/** The pages `handleViewPdf` lays out before capturing them
    (components/EventDisplay.tsx): each month group's cards cut into slices of
    twelve, one page per slice, titled and headed. */
module Pagination {
  import opened Strings
  import opened Seqs
  import opened Events
  import opened MonthGrouping

  /** Three columns by four rows. */
  const CardsPerPage := 12

  /** `Math.ceil(n / CARDS_PER_PAGE)`: the fewest pages that hold `n` cards. */
  function PageCount(n: nat): (r: nat)
    ensures r * CardsPerPage >= n
    ensures r == 0 || (r - 1) * CardsPerPage < n
  {
    (n + CardsPerPage - 1) / CardsPerPage
  }

  /** `s.slice(start, end)` for non-negative bounds: both are clamped to the
      length, and a range that ends before it starts is empty. */
  function Slice<T>(s: seq<T>, start: nat, end: nat): seq<T> {
    var b := if start <= |s| then start else |s|;
    var e := if end <= |s| then end else |s|;
    if e <= b then [] else s[b..e]
  }

  /** The cards split into consecutive runs of twelve, the last run holding the
      rest. */
  function Chunks<T>(s: seq<T>): (r: seq<seq<T>>)
    ensures |r| == PageCount(|s|)
    decreases |s|
  {
    if s == [] then []
    else if |s| <= CardsPerPage then [s]
    else [s[..CardsPerPage]] + Chunks(s[CardsPerPage..])
  }

  /** Slicing past a dropped prefix is slicing the whole further on. */
  lemma SliceShift<T>(s: seq<T>, k: nat, start: nat, end: nat)
    requires k <= |s|
    ensures Slice(s[k..], start, end) == Slice(s, start + k, end + k)
  {
  }

  /** Chunk `i` is `cards.slice(i * 12, i * 12 + 12)`, as the export loop cuts it. */
  lemma {:induction false} ChunkIsSlice<T>(s: seq<T>, i: nat)
    requires i < PageCount(|s|)
    ensures Chunks(s)[i] == Slice(s, i * CardsPerPage, i * CardsPerPage + CardsPerPage)
    decreases |s|
  {
    if |s| > CardsPerPage && i > 0 {
      ChunkIsSlice(s[CardsPerPage..], i - 1);
      SliceShift(s, CardsPerPage, (i - 1) * CardsPerPage, (i - 1) * CardsPerPage + CardsPerPage);
    }
  }

  /** The chunks put back together are the cards, in their order. */
  lemma {:induction false} FlattenChunks<T>(s: seq<T>)
    ensures Flatten(Chunks(s)) == s
    decreases |s|
  {
    if |s| > CardsPerPage {
      var r := Chunks(s);
      FlattenChunks(s[CardsPerPage..]);
      assert r[1..] == Chunks(s[CardsPerPage..]);
      assert s == s[..CardsPerPage] + s[CardsPerPage..];
    } else if s != [] {
      assert Chunks(s)[1..] == [];
    }
  }

  /** Every chunk but the last holds twelve cards; the last holds one to twelve. */
  lemma {:induction false} ChunkSizes<T>(s: seq<T>)
    ensures var r := Chunks(s);
      (forall i :: 0 <= i < |r| - 1 ==> |r[i]| == CardsPerPage)
      && (r != [] ==> 1 <= |r[|r| - 1]| <= CardsPerPage)
    decreases |s|
  {
    if |s| > CardsPerPage {
      var r := Chunks(s);
      var rest := Chunks(s[CardsPerPage..]);
      ChunkSizes(s[CardsPerPage..]);
      assert r == [s[..CardsPerPage]] + rest;
      forall i | 0 <= i < |r| - 1 ensures |r[i]| == CardsPerPage {
        if i > 0 {
          assert r[i] == rest[i - 1];
        }
      }
    }
  }

  /** No cards give no pages, twelve give one, twenty-five give 12, 12 and 1. */
  lemma ChunkExamples<T>(s0: seq<T>, s12: seq<T>, s25: seq<T>)
    requires |s0| == 0 && |s12| == 12 && |s25| == 25
    ensures Chunks(s0) == []
    ensures Chunks(s12) == [s12]
    ensures Chunks(s25) == [s25[..12], s25[12..24], s25[24..]]
  {
    var rest := s25[12..];
    assert Chunks(rest) == [rest[..12]] + Chunks(rest[12..]);
    assert rest[..12] == s25[12..24];
    assert rest[12..] == s25[24..];
  }

  /** One page of the export: its title, the month header and its cards. */
  datatype Page = Page(title: string, header: string, cards: seq<Event>)

  const TitlePrefix := "Calendário de Eventos - "
  const ContinuationMarker := " (Continuação)"

  /** The page title: the period, numbered `(i+1/total)` when the month takes
      more than one page. */
  function PageTitle(periodo: string, i: nat, total: nat): string {
    TitlePrefix + periodo + (if total > 1 then " (" + Decimal(i + 1) + "/" + Decimal(total) + ")" else "")
  }

  /** The month header: the month's title, marked as a continuation on every
      page after the month's first. */
  function MonthHeader(monthTitle: string, i: nat): string {
    monthTitle + (if i > 0 then ContinuationMarker else "")
  }

  /** Every title names the period, and it carries a page number exactly when
      the month spans more than one page. */
  lemma PageTitleNumbered(periodo: string, i: nat, total: nat)
    ensures TitlePrefix + periodo <= PageTitle(periodo, i, total)
    ensures PageTitle(periodo, i, total) == TitlePrefix + periodo <==> total <= 1
    ensures total > 1 ==>
      PageTitle(periodo, i, total)[|TitlePrefix + periodo|..] == " (" + Decimal(i + 1) + "/" + Decimal(total) + ")"
  {
  }

  /** The header is the month's title alone exactly on the month's first page,
      and always starts with it. */
  lemma MonthHeaderContinues(monthTitle: string, i: nat)
    ensures monthTitle <= MonthHeader(monthTitle, i)
    ensures MonthHeader(monthTitle, i) == monthTitle <==> i == 0
    ensures i > 0 ==> MonthHeader(monthTitle, i)[|monthTitle|..] == ContinuationMarker
  {
  }

  /** The pages of one month group. */
  function MonthPages(periodo: string, monthTitle: string, cards: seq<Event>): (r: seq<Page>)
    ensures |r| == PageCount(|cards|)
  {
    var chunks := Chunks(cards);
    seq(|chunks|, i requires 0 <= i < |chunks| =>
      Page(PageTitle(periodo, i, |chunks|), MonthHeader(monthTitle, i), chunks[i]))
  }

  /** Page `i` of a month, as the export loop builds it. */
  lemma MonthPage(periodo: string, monthTitle: string, cards: seq<Event>, i: nat)
    requires i < PageCount(|cards|)
    ensures MonthPages(periodo, monthTitle, cards)[i]
      == Page(PageTitle(periodo, i, PageCount(|cards|)), MonthHeader(monthTitle, i),
              Slice(cards, i * CardsPerPage, i * CardsPerPage + CardsPerPage))
  {
    ChunkIsSlice(cards, i);
  }

  /** All pages of the export: the month groups in the order of `keys`, each
      month's pages in order. `monthName(k)` is the text of month `k`'s
      heading. */
  function ExportPages(keys: seq<string>, groups: map<string, seq<Event>>, periodo: string,
                       monthName: string -> string): seq<Page>
    requires forall k :: k in keys ==> k in groups
  {
    if keys == [] then []
    else
      var k := keys[|keys| - 1];
      ExportPages(keys[..|keys| - 1], groups, periodo, monthName) + MonthPages(periodo, monthName(k), groups[k])
  }

  /** The cards of each page. */
  function CardsOf(pages: seq<Page>): seq<seq<Event>> {
    seq(|pages|, i requires 0 <= i < |pages| => pages[i].cards)
  }

  /** The cards of all pages, one page after another. */
  function AllCards(pages: seq<Page>): seq<Event> {
    Flatten(CardsOf(pages))
  }

  /** The cards of two runs of pages are those of the first, then the second. */
  lemma CardsOfAppend(a: seq<Page>, b: seq<Page>)
    ensures AllCards(a + b) == AllCards(a) + AllCards(b)
  {
    assert CardsOf(a + b) == CardsOf(a) + CardsOf(b);
    FlattenAppend(CardsOf(a), CardsOf(b));
  }

  /** A month's pages hold exactly its cards, in their order. */
  lemma MonthPagesCards(periodo: string, monthTitle: string, cards: seq<Event>)
    ensures AllCards(MonthPages(periodo, monthTitle, cards)) == cards
  {
    assert CardsOf(MonthPages(periodo, monthTitle, cards)) == Chunks(cards);
    FlattenChunks(cards);
  }

  /** The export's pages hold the groups of `keys`, one after another: every
      card of the display, in the display's order. */
  lemma {:induction false} ExportPagesCards(keys: seq<string>, groups: map<string, seq<Event>>, periodo: string,
                                            monthName: string -> string, events: seq<Event>, key: Grouping)
    requires forall k :: k in keys ==> k in groups && groups[k] == Keep(events, InMonth(key, k))
    ensures AllCards(ExportPages(keys, groups, periodo, monthName)) == ConcatGroups(events, key, keys)
  {
    if keys != [] {
      var init, k := keys[..|keys| - 1], keys[|keys| - 1];
      var a, b := ExportPages(init, groups, periodo, monthName), MonthPages(periodo, monthName(k), groups[k]);
      ExportPagesCards(init, groups, periodo, monthName, events, key);
      MonthPagesCards(periodo, monthName(k), groups[k]);
      CardsOfAppend(a, b);
    }
  }

  /** With the sorted keys of the grouping, the export holds every event that
      has a group (for the month grouping: a valid start date from 1971 on)
      exactly as often as the events do, and nothing else. */
  lemma ExportHoldsGroupedEvents(keys: seq<string>, groups: map<string, seq<Event>>, periodo: string,
                                 monthName: string -> string, events: seq<Event>, key: Grouping)
    requires forall k :: k in groups <==> k in keys
    requires forall k :: k in groups ==> groups[k] == Keep(events, InMonth(key, k))
    requires forall e :: e in events && key(e).Some? ==> key(e).value in groups
    ensures forall k :: k in SortedMonthKeys(keys) ==> k in groups
    ensures multiset(AllCards(ExportPages(SortedMonthKeys(keys), groups, periodo, monthName)))
      == multiset(Keep(events, Groupable(key)))
  {
    var sorted := SortedMonthKeys(keys);
    Sorting.StrictlySortedDistinct(sorted);
    ExportPagesCards(sorted, groups, periodo, monthName, events, key);
    GroupsPartition(events, key, sorted);
  }

  /** Thirteen cards of one month take two pages: twelve cards under the
      month's title, numbered (1/2), then one card under the continued title,
      numbered (2/2). */
  lemma ThirteenCards(periodo: string, monthTitle: string, cards: seq<Event>)
    requires |cards| == 13
    ensures MonthPages(periodo, monthTitle, cards)
      == [Page(TitlePrefix + periodo + " (1/2)", monthTitle, cards[..12]),
          Page(TitlePrefix + periodo + " (2/2)", monthTitle + ContinuationMarker, cards[12..])]
  {
    assert Decimal(1) == "1" && Decimal(2) == "2";
    assert PageTitle(periodo, 0, 2) == TitlePrefix + periodo + " (1/2)";
    assert PageTitle(periodo, 1, 2) == TitlePrefix + periodo + " (2/2)";
    var rest := cards[12..];
    assert Chunks(rest) == [rest];
    assert Chunks(cards) == [cards[..12], rest];
    assert MonthHeader(monthTitle, 0) == monthTitle;
    var r := MonthPages(periodo, monthTitle, cards);
    assert r[0] == Page(PageTitle(periodo, 0, 2), MonthHeader(monthTitle, 0), cards[..12]);
    assert r[1] == Page(PageTitle(periodo, 1, 2), MonthHeader(monthTitle, 1), rest);
  }
}
