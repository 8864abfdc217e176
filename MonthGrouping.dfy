/** `groupedByMonth` and `sortedMonthKeys` (components/EventDisplay.tsx): the
    filtered events bucketed by the `YYYY-MM` month of their start date, and
    the buckets' keys in ascending order. */
module MonthGrouping {
  import opened Options
  import opened Strings
  import opened Seqs
  import opened Sorting
  import opened Events

  type Month = m: int | 1 <= m <= 12 witness 1

  /** A valid `Date` as `parseBrDate` yields it: `getFullYear()`,
      `getMonth() + 1` and `getDate()`. */
  datatype CalendarDate = CalendarDate(year: int, month: Month, day: int)

  /** `parseBrDate` (services/scheduleService, which is not part of this
      model): `None` stands for a `Date` whose time value is NaN. */
  type DateParser = string -> Option<CalendarDate>

  /** Events dated before this year are left out of the groups. */
  const MinGroupYear := 1971

  /** `${year}-${String(month).padStart(2, '0')}` */
  function MonthKey(year: nat, month: Month): string {
    Decimal(year) + "-" + PadStart(Decimal(month), 2, '0')
  }

  /** The group an event is pushed into, or `None` when the reducer skips it. */
  function KeyOf(e: Event, parse: DateParser): Option<string> {
    match parse(e.data)
    case None => None
    case Some(date) =>
      if date.year < MinGroupYear then None else Some(MonthKey(date.year, date.month))
  }

  /** A rule sending each event to the group of some key, or to none. */
  type Grouping = Event -> Option<string>

  /** The month grouping rule of the display. */
  function MonthOf(parse: DateParser): Grouping {
    (e: Event) => KeyOf(e, parse)
  }

  /** The events of group `k`, as a filter callback. */
  function InMonth(key: Grouping, k: string): Event -> bool {
    (e: Event) => key(e) == Some(k)
  }

  /** The events that go into some group, as a filter callback. */
  function Groupable(key: Grouping): Event -> bool {
    (e: Event) => key(e).Some?
  }

  /** The events reduced over: none when `filteredEvents` is null. */
  function EventsOf(filtered: Option<seq<Event>>): seq<Event> {
    if filtered.None? then [] else filtered.value
  }

  /** `acc[k].push(e)`, creating `acc[k]` first when it is missing. */
  function Push(groups: map<string, seq<Event>>, k: string, e: Event): map<string, seq<Event>> {
    groups[k := (if k in groups then groups[k] else []) + [e]]
  }

  /** Pushing into a record keeps its keys those listed, without repetition,
      listing a key that is new last. */
  lemma PushKeys(keys: seq<string>, groups: map<string, seq<Event>>, k: string, e: Event)
    requires forall k' :: k' in groups <==> k' in keys
    requires Distinct(keys)
    ensures var keys' := if k in keys then keys else keys + [k];
      (forall k' :: k' in Push(groups, k, e) <==> k' in keys') && Distinct(keys')
  {
  }

  /** `groups` holds, under each of its keys, the events of `events` in that
      group, in their order, and never an empty array; and it has a key for
      every group that occurs. */
  ghost predicate GroupsOf(groups: map<string, seq<Event>>, events: seq<Event>, key: Grouping) {
    (forall k :: k in groups ==> groups[k] == Keep(events, InMonth(key, k)) && groups[k] != [])
    && (forall j :: 0 <= j < |events| && key(events[j]).Some? ==> key(events[j]).value in groups)
  }

  /** One step of the reducer: pushing the next event into its group (or
      skipping it when it has none) keeps the groups those of the events seen. */
  lemma GroupStep(groups: map<string, seq<Event>>, events: seq<Event>, e: Event, key: Grouping)
    requires GroupsOf(groups, events, key)
    ensures key(e).None? ==> GroupsOf(groups, events + [e], key)
    ensures key(e).Some? ==> GroupsOf(Push(groups, key(e).value, e), events + [e], key)
    ensures key(e).Some? ==> key(e).value !in groups ==> Keep(events, InMonth(key, key(e).value)) == []
  {
    var events' := events + [e];
    assert events'[..|events|] == events;
    var after := if key(e).Some? then Push(groups, key(e).value, e) else groups;
    forall k | k in after ensures after[k] == Keep(events', InMonth(key, k)) && after[k] != [] {
      KeepSnoc(events, e, InMonth(key, k));
      if key(e).Some? && k == key(e).value && k !in groups {
        KeepNone(events, InMonth(key, k));
      }
    }
    forall j | 0 <= j < |events'| && key(events'[j]).Some? ensures key(events'[j]).value in after {
      if j < |events| {
        assert events'[j] == events[j];
      }
    }
    if key(e).Some? && key(e).value !in groups {
      KeepNone(events, InMonth(key, key(e).value));
    }
  }

  /** The reducer callback of `groupedByMonth`: an event whose start date is
      invalid or before 1971 leaves the record as it is; any other is pushed
      into the array under its month key, which is created (and becomes the
      record's newest key) on the month's first event. */
  method AddEvent(keys: seq<string>, groups: map<string, seq<Event>>, event: Event, parse: DateParser)
    returns (keys': seq<string>, groups': map<string, seq<Event>>)
    requires forall k :: k in groups <==> k in keys
    requires Distinct(keys)
    ensures forall k :: k in groups' <==> k in keys'
    ensures Distinct(keys')
    ensures KeyOf(event, parse).None? ==> keys' == keys && groups' == groups
    ensures KeyOf(event, parse).Some? ==>
      var k := KeyOf(event, parse).value;
      groups' == Push(groups, k, event) && keys' == if k in keys then keys else keys + [k]
  {
    keys', groups' := keys, groups;
    var date := parse(event.data);
    if date.None? || date.value.year < MinGroupYear {
      return;
    }
    var monthKey := MonthKey(date.value.year, date.value.month);
    assert KeyOf(event, parse) == Some(monthKey);
    if monthKey !in groups' {
      keys' := keys' + [monthKey];
      groups' := groups'[monthKey := []];
    }
    groups' := groups'[monthKey := groups'[monthKey] + [event]];
    assert groups' == Push(groups, monthKey, event);
    PushKeys(keys, groups, monthKey, event);
  }

  /** The keys of the groups that occur among `events`, each once, in the
      order of each group's first event. */
  function FirstSeen(events: seq<Event>, key: Grouping): seq<string> {
    if events == [] then []
    else
      var seen := FirstSeen(events[..|events| - 1], key);
      var e := events[|events| - 1];
      if key(e).Some? && key(e).value !in seen then seen + [key(e).value] else seen
  }

  /** `FirstSeen` lists every group that occurs and nothing else, each once. */
  lemma {:induction false} FirstSeenMembers(events: seq<Event>, key: Grouping)
    ensures Distinct(FirstSeen(events, key))
    ensures forall k :: k in FirstSeen(events, key) <==> exists j :: 0 <= j < |events| && key(events[j]) == Some(k)
  {
    if events != [] {
      var init := events[..|events| - 1];
      FirstSeenMembers(init, key);
      forall k ensures k in FirstSeen(events, key) <==> exists j :: 0 <= j < |events| && key(events[j]) == Some(k) {
        if exists j :: 0 <= j < |events| && key(events[j]) == Some(k) {
          var j :| 0 <= j < |events| && key(events[j]) == Some(k);
          if j < |init| {
            assert key(init[j]) == Some(k);
          }
        }
        if k in FirstSeen(init, key) {
          var j :| 0 <= j < |init| && key(init[j]) == Some(k);
          assert key(events[j]) == Some(k);
        }
      }
    }
  }

  /** Group `k1` has an event earlier than every event of group `k2`. */
  predicate FirstBefore(events: seq<Event>, key: Grouping, k1: string, k2: string) {
    forall b :: 0 <= b < |events| && key(events[b]) == Some(k2) ==>
      exists a :: 0 <= a < b && key(events[a]) == Some(k1)
  }

  /** `FirstSeen` lists the keys in the order of their groups' first events. */
  lemma {:induction false} FirstSeenOrder(events: seq<Event>, key: Grouping)
    ensures var ks := FirstSeen(events, key);
      forall i, j :: 0 <= i < j < |ks| ==> FirstBefore(events, key, ks[i], ks[j])
  {
    if events != [] {
      var init := events[..|events| - 1];
      var prev, after := FirstSeen(init, key), FirstSeen(events, key);
      FirstSeenOrder(init, key);
      FirstSeenMembers(init, key);
      forall i, j | 0 <= i < j < |after| ensures FirstBefore(events, key, after[i], after[j]) {
        assert after[i] == prev[i] && after[i] in prev;
        forall b | 0 <= b < |events| && key(events[b]) == Some(after[j])
          ensures exists a :: 0 <= a < b && key(events[a]) == Some(after[i])
        {
          if b < |init| {
            assert key(init[b]) == Some(after[j]);
            if j == |prev| {
              assert false;
            } else {
              assert FirstBefore(init, key, FirstSeen(init, key)[i], FirstSeen(init, key)[j]);
              var a :| 0 <= a < b && key(init[a]) == Some(after[i]);
              assert key(events[a]) == Some(after[i]);
            }
          } else {
            var a :| 0 <= a < |init| && key(init[a]) == Some(after[i]);
            assert key(events[a]) == Some(after[i]);
          }
        }
      }
    }
  }

  /** `groupedByMonth`: the reducer run over the filtered events from an empty
      record. `keys` lists the record's keys in insertion order (the order
      `Object.keys` reports them): each month in the order of its first
      event. */
  method GroupByMonth(filtered: Option<seq<Event>>, parse: DateParser)
    returns (keys: seq<string>, groups: map<string, seq<Event>>)
    ensures forall k :: k in groups <==> k in keys
    ensures Distinct(keys)
    ensures keys == FirstSeen(EventsOf(filtered), MonthOf(parse))
    ensures GroupsOf(groups, EventsOf(filtered), MonthOf(parse))
  {
    var events := EventsOf(filtered);
    keys, groups := [], map[];
    var i := 0;
    while i < |events|
      invariant 0 <= i <= |events|
      invariant forall k :: k in groups <==> k in keys
      invariant Distinct(keys)
      invariant keys == FirstSeen(events[..i], MonthOf(parse))
      invariant GroupsOf(groups, events[..i], MonthOf(parse))
    {
      var event := events[i];
      assert events[..i + 1] == events[..i] + [event];
      GroupStep(groups, events[..i], event, MonthOf(parse));
      assert MonthOf(parse)(event) == KeyOf(event, parse);
      keys, groups := AddEvent(keys, groups, event, parse);
      i := i + 1;
    }
    assert events[..i] == events;
  }

  /** `sortedMonthKeys`: `Object.keys(groupedByMonth).sort()`. */
  function SortedMonthKeys(keys: seq<string>): seq<string> {
    SortedDistinct(keys)
  }

  /** An event is in the group of month `k` exactly when it is one of the
      events and its start date falls in month `k`; an event whose date is
      invalid or before 1971 is therefore in no group, and any other event is
      in the group of its own month and no other. */
  lemma GroupMembership(events: seq<Event>, parse: DateParser, k: string, e: Event)
    ensures e in Keep(events, InMonth(MonthOf(parse), k)) <==> e in events && KeyOf(e, parse) == Some(k)
  {
  }

  /** In groups built by the month rule, an event whose start date is invalid
      or before 1971 is in no group, and any other event is in the group of
      its own month and in no other. */
  lemma EachEventInOneGroup(groups: map<string, seq<Event>>, events: seq<Event>, parse: DateParser, e: Event)
    requires GroupsOf(groups, events, MonthOf(parse))
    requires e in events
    ensures KeyOf(e, parse).None? ==> forall k :: k in groups ==> e !in groups[k]
    ensures KeyOf(e, parse).Some? ==>
      KeyOf(e, parse).value in groups
      && forall k :: k in groups ==> (e in groups[k] <==> k == KeyOf(e, parse).value)
  {
    assert MonthOf(parse)(e) == KeyOf(e, parse);
    forall k | k in groups ensures e in groups[k] <==> KeyOf(e, parse) == Some(k) {
      KeepMembers(events, InMonth(MonthOf(parse), k), e);
    }
    if KeyOf(e, parse).Some? {
      var j :| 0 <= j < |events| && events[j] == e;
    }
  }

  /** Each group keeps the order the events had. */
  lemma GroupKeepsOrder(events: seq<Event>, key: Grouping, k: string)
    ensures IsSubsequence(Keep(events, InMonth(key, k)), events)
  {
    KeepIsSubsequence(events, InMonth(key, k));
  }

  /** The groups of `ks`, one after another. */
  function ConcatGroups(events: seq<Event>, key: Grouping, ks: seq<string>): seq<Event> {
    if ks == [] then []
    else ConcatGroups(events, key, ks[..|ks| - 1]) + Keep(events, InMonth(key, ks[|ks| - 1]))
  }

  /** An event occurs in the groups of distinct keys as often as among the
      events when its key is one of them, and not at all otherwise. */
  lemma {:induction false} ConcatGroupsCount(events: seq<Event>, key: Grouping, ks: seq<string>, x: Event)
    requires Distinct(ks)
    ensures multiset(ConcatGroups(events, key, ks))[x]
      == if key(x).Some? && key(x).value in ks then multiset(events)[x] else 0
  {
    if ks != [] {
      var init, last := ks[..|ks| - 1], ks[|ks| - 1];
      var a, b := ConcatGroups(events, key, init), Keep(events, InMonth(key, last));
      assert ConcatGroups(events, key, ks) == a + b;
      ConcatGroupsCount(events, key, init, x);
      KeepCount(events, InMonth(key, last), x);
      assert ks == init + [last];
      assert last !in init;
    }
  }

  /** The groups partition the events that have a group: taken over distinct
      keys that cover every group that occurs, they hold each such event
      exactly as often as the events do, and nothing else. */
  lemma GroupsPartition(events: seq<Event>, key: Grouping, ks: seq<string>)
    requires Distinct(ks)
    requires forall e :: e in events && key(e).Some? ==> key(e).value in ks
    ensures multiset(ConcatGroups(events, key, ks)) == multiset(Keep(events, Groupable(key)))
  {
    forall x ensures multiset(ConcatGroups(events, key, ks))[x] == multiset(Keep(events, Groupable(key)))[x] {
      ConcatGroupsCount(events, key, ks, x);
      KeepCount(events, Groupable(key), x);
    }
  }

  /** Sorting the keys of the groups puts them in ascending order and only
      rearranges them. */
  lemma SortedKeysPermute(keys: seq<string>)
    requires Distinct(keys)
    ensures StrictlySorted(SortedMonthKeys(keys))
    ensures multiset(SortedMonthKeys(keys)) == multiset(keys)
    ensures Distinct(SortedMonthKeys(keys))
  {
    SortedDistinctPermutes(keys);
    StrictlySortedDistinct(SortedMonthKeys(keys));
  }

  /** A month key is the 4-digit year, a dash and the 2-digit month. */
  lemma MonthKeyDigits(year: nat, month: Month)
    requires 1000 <= year <= 9999
    ensures MonthKey(year, month) == Digits(year, 4) + "-" + Digits(month, 2)
  {
    assert Pow10(3) == 1000 && Pow10(4) == 10000 by {
      assert Pow10(1) == 10;
      assert Pow10(2) == 100;
    }
    DecimalIsDigits(year, 4);
    PaddedTwoDigits(month);
  }

  /** Two `year-month` texts whose year parts have the same length compare
      by year first and by month on a tie, and coincide only part by part. */
  lemma DashJoinOrder(y1: string, m1: string, y2: string, m2: string)
    requires |y1| == |y2|
    ensures Less(y1 + "-" + m1, y2 + "-" + m2) <==> Less(y1, y2) || (y1 == y2 && Less(m1, m2))
    ensures y1 + "-" + m1 == y2 + "-" + m2 <==> y1 == y2 && m1 == m2
  {
    LessConcat(y1, y2, "-" + m1, "-" + m2);
    assert Less("-" + m1, "-" + m2) <==> Less(m1, m2) by {
      assert ("-" + m1)[1..] == m1 && ("-" + m2)[1..] == m2;
    }
    assert y1 + "-" + m1 == y1 + ("-" + m1) && y2 + "-" + m2 == y2 + ("-" + m2);
    if y1 + ("-" + m1) == y2 + ("-" + m2) {
      assert y1 == (y1 + ("-" + m1))[..|y1|] && y2 == (y2 + ("-" + m2))[..|y2|];
      assert m1 == (y1 + ("-" + m1))[|y1| + 1..] && m2 == (y2 + ("-" + m2))[|y2| + 1..];
    }
  }

  /** For 4-digit years, ascending key order is chronological order, and
      distinct months have distinct keys. */
  lemma MonthKeyOrder(y1: nat, m1: Month, y2: nat, m2: Month)
    requires 1000 <= y1 <= 9999 && 1000 <= y2 <= 9999
    ensures Less(MonthKey(y1, m1), MonthKey(y2, m2)) <==> y1 < y2 || (y1 == y2 && m1 < m2)
    ensures MonthKey(y1, m1) == MonthKey(y2, m2) <==> y1 == y2 && m1 == m2
  {
    MonthKeyDigits(y1, m1);
    MonthKeyDigits(y2, m2);
    DigitsOrder(y1, y2, 4);
    DigitsOrder(m1, m2, 2);
    DashJoinOrder(Digits(y1, 4), Digits(m1, 2), Digits(y2, 4), Digits(m2, 2));
  }

  /** Three keys in ascending order come out of the sort in that order,
      whatever order they went in. */
  lemma SortThree(a: string, b: string, c: string)
    requires Less(a, b) && Less(b, c)
    ensures SortedMonthKeys([c, a, b]) == [a, b, c]
  {
    LessTransitive(a, b, c);
    assert StrictlySorted([a, b, c]);
    SortedUnique(SortedMonthKeys([c, a, b]), [a, b, c]);
  }

  /** March 2024, November 2024 and January 2025 sort into that order. */
  lemma SortedKeysExample()
    ensures SortedMonthKeys([MonthKey(2025, 1), MonthKey(2024, 3), MonthKey(2024, 11)])
      == [MonthKey(2024, 3), MonthKey(2024, 11), MonthKey(2025, 1)]
  {
    MonthKeyOrder(2024, 3, 2024, 11);
    MonthKeyOrder(2024, 11, 2025, 1);
    SortThree(MonthKey(2024, 3), MonthKey(2024, 11), MonthKey(2025, 1));
  }
}
