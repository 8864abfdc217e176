/** The schedule events the display receives and the type filter above them
    (`eventTypes` and `filteredEvents` in components/EventDisplay.tsx). */
module Events {
  import opened Options
  import opened Seqs
  import opened Sorting

  /** One schedule entry: the discipline, its type, the start date and optional
      end date as raw `DD/MM/YYYY` text, the time and the place. */
  datatype Event = Event(
    disciplina: string,
    tipo: string,
    data: string,
    dataFim: Option<string>,
    horario: string,
    local: string)

  /** The selector value that stands for "every type". */
  const AllTypes := "Todos"

  /** The filter callback `event => event.tipo === selectedType`. */
  function OfType(selected: string): Event -> bool {
    (e: Event) => e.tipo == selected
  }

  /** `filteredEvents`: no event list stays absent, the sentinel keeps every
      event, any other selection keeps the events of that type. */
  function FilteredEvents(events: Option<seq<Event>>, selected: string): (r: Option<seq<Event>>)
    ensures r.None? <==> events.None?
  {
    if events.None? then None
    else if selected == AllTypes then events
    else Some(Keep(events.value, OfType(selected)))
  }

  /** `events.map(event => event.tipo)` */
  function Types(events: seq<Event>): (ts: seq<string>)
    ensures |ts| == |events|
    ensures forall i :: 0 <= i < |events| ==> ts[i] == events[i].tipo
  {
    seq(|events|, i requires 0 <= i < |events| => events[i].tipo)
  }

  /** `eventTypes`: the options of the type selector. */
  function EventTypes(events: Option<seq<Event>>): (r: seq<string>)
  {
    if events.None? then [] else [AllTypes] + SortedDistinct(Types(events.value))
  }

  /** The selector offers the sentinel first, then every type that occurs among
      the events exactly once, in ascending order; with no event list it offers
      nothing. */
  lemma EventTypesOptions(events: Option<seq<Event>>)
    ensures events.None? ==> EventTypes(events) == []
    ensures events.Some? ==>
      var r := EventTypes(events);
      |r| >= 1 && r[0] == AllTypes && StrictlySorted(r[1..])
      && Distinct(r[1..])
      && forall t :: t in r[1..] <==> exists e :: e in events.value && e.tipo == t
  {
    if events.Some? {
      var evs := events.value;
      var r := EventTypes(events);
      var ts := Types(evs);
      assert r[1..] == SortedDistinct(ts);
      StrictlySortedDistinct(r[1..]);
      forall t ensures t in r[1..] <==> exists e :: e in evs && e.tipo == t {
        if t in ts {
          var i :| 0 <= i < |ts| && ts[i] == t;
          assert evs[i] in evs;
        }
        if exists e :: e in evs && e.tipo == t {
          var e :| e in evs && e.tipo == t;
          var i :| 0 <= i < |evs| && evs[i] == e;
          assert ts[i] == t;
        }
      }
    }
  }

  /** The sentinel selection leaves the event list as it is. */
  lemma FilterAllKeepsEvents(events: Option<seq<Event>>)
    ensures FilteredEvents(events, AllTypes) == events
  {
  }

  /** Any other selection keeps, in their order, exactly the events of the
      selected type, each as often as it occurs. */
  lemma FilterSelectsType(events: seq<Event>, selected: string)
    requires selected != AllTypes
    ensures FilteredEvents(Some(events), selected).Some?
    ensures var r := FilteredEvents(Some(events), selected).value;
      IsSubsequence(r, events)
      && forall e :: multiset(r)[e] == if e.tipo == selected then multiset(events)[e] else 0
  {
    var r := Keep(events, OfType(selected));
    KeepIsSubsequence(events, OfType(selected));
    forall e: Event ensures multiset(r)[e] == if e.tipo == selected then multiset(events)[e] else 0 {
      KeepCount(events, OfType(selected), e);
    }
  }

  /** A selection that no event has yields an empty, present list. */
  lemma FilterUnmatched(events: seq<Event>, selected: string)
    requires selected != AllTypes
    requires forall e :: e in events ==> e.tipo != selected
    ensures FilteredEvents(Some(events), selected) == Some([])
  {
    KeepNone(events, OfType(selected));
  }
}
