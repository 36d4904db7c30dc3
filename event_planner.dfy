/** A model of the state held by the GroupEventPlanner component: the draft of
    a new event being typed into the form, and the ordered list of committed
    events, with the three handlers that change them. */
module EventPlanner {

  /** One committed event. `rsvps` is an unbounded integer, as the component's
      number is; that it is never negative is an invariant, not a type fact. */
  datatype Event = Event(id: nat, title: string, date: string, time: string,
                         location: string, rsvps: int)

  /** The four text inputs of the form, not yet committed. */
  datatype Draft = Draft(title: string, date: string, time: string, location: string)

  /** The names the form's inputs carry; the only keys the input handler is called with. */
  datatype Field = Title | Date | Time | Location

  /** What the component renders: the draft and the event list. */
  datatype Snapshot = Snapshot(draft: Draft, events: seq<Event>)

  /** One user action forwarded to the component. */
  datatype Action = ChangeInput(name: Field, value: string) | ClickAdd(id: nat) | ClickRsvp(id: nat)

  const EmptyDraft := Draft("", "", "", "")

  const Initial := Snapshot(EmptyDraft, [])

  // ---------------------------------------------------------------------------
  // The draft

  /** The value of one named draft field. */
  function FieldOf(d: Draft, f: Field): string
  {
    match f
    case Title => d.title
    case Date => d.date
    case Time => d.time
    case Location => d.location
  }

  /** The draft with one field overwritten (the object spread with a computed key). */
  function SetField(d: Draft, f: Field, v: string): (r: Draft)
    ensures FieldOf(r, f) == v
    ensures forall g :: g != f ==> FieldOf(r, g) == FieldOf(d, g)
  {
    match f
    case Title => d.(title := v)
    case Date => d.(date := v)
    case Time => d.(time := v)
    case Location => d.(location := v)
  }

  /** A draft is determined by its four field values. */
  lemma DraftExtensional(d: Draft, e: Draft)
    requires forall f :: FieldOf(d, f) == FieldOf(e, f)
    ensures d == e
  {
    assert FieldOf(d, Title) == FieldOf(e, Title);
    assert FieldOf(d, Date) == FieldOf(e, Date);
    assert FieldOf(d, Time) == FieldOf(e, Time);
    assert FieldOf(d, Location) == FieldOf(e, Location);
  }

  /** Writing the same field twice keeps only the last value. */
  lemma SetFieldLastWins(d: Draft, f: Field, v: string, w: string)
    ensures SetField(SetField(d, f, v), f, w) == SetField(d, f, w)
  {
    DraftExtensional(SetField(SetField(d, f, v), f, w), SetField(d, f, w));
  }

  /** Writes to two different fields do not interfere. */
  lemma SetFieldCommutes(d: Draft, f: Field, v: string, g: Field, w: string)
    requires f != g
    ensures SetField(SetField(d, f, v), g, w) == SetField(SetField(d, g, w), f, v)
  {
    DraftExtensional(SetField(SetField(d, f, v), g, w), SetField(SetField(d, g, w), f, v));
  }

  /** The guard of the add handler: no field is the empty string (no trimming). */
  predicate Complete(d: Draft)
  {
    d.title != "" && d.date != "" && d.time != "" && d.location != ""
  }

  lemma CompleteIffNoEmptyField(d: Draft)
    ensures Complete(d) <==> forall f :: FieldOf(d, f) != ""
  {
    if !Complete(d) {
      if d.title == "" { assert FieldOf(d, Title) == ""; }
      else if d.date == "" { assert FieldOf(d, Date) == ""; }
      else if d.time == "" { assert FieldOf(d, Time) == ""; }
      else { assert FieldOf(d, Location) == ""; }
    }
  }

  // ---------------------------------------------------------------------------
  // Events

  /** The four text fields of an event, read back as a draft. */
  function Details(e: Event): Draft
  {
    Draft(e.title, e.date, e.time, e.location)
  }

  /** The event built from the draft: the draft's fields, the supplied id, no RSVPs. */
  function NewEntry(d: Draft, id: nat): (e: Event)
    ensures Details(e) == d && e.id == id && e.rsvps == 0
  {
    Event(id, d.title, d.date, d.time, d.location, 0)
  }

  /** The list with `e` appended at the end. */
  function Append(es: seq<Event>, e: Event): (r: seq<Event>)
    ensures |r| == |es| + 1
    ensures r[..|es|] == es && r[|es|] == e
  {
    es + [e]
  }

  /** One event after an RSVP click for `id`: one more RSVP if the id matches. */
  function RsvpOne(e: Event, id: nat): (r: Event)
    ensures r.id == e.id && Details(r) == Details(e)
    ensures r.rsvps == if e.id == id then e.rsvps + 1 else e.rsvps
  {
    if e.id == id then e.(rsvps := e.rsvps + 1) else e
  }

  /** The list after an RSVP click for `id`, element by element and in place. */
  function Rsvp(es: seq<Event>, id: nat): (r: seq<Event>)
    ensures |r| == |es|
    ensures forall i :: 0 <= i < |es| ==>
      r[i].id == es[i].id && Details(r[i]) == Details(es[i]) &&
      r[i].rsvps == es[i].rsvps + (if es[i].id == id then 1 else 0)
  {
    if es == [] then [] else [RsvpOne(es[0], id)] + Rsvp(es[1..], id)
  }

  predicate HasId(es: seq<Event>, id: nat)
  {
    exists i :: 0 <= i < |es| && es[i].id == id
  }

  /** An RSVP for an id no event carries changes nothing. */
  lemma {:induction false} RsvpAbsentIsIdentity(es: seq<Event>, id: nat)
    requires !HasId(es, id)
    ensures Rsvp(es, id) == es
  {
    if es != [] {
      assert es[0].id != id;
      assert !HasId(es[1..], id) by {
        forall i | 0 <= i < |es[1..]| ensures es[1..][i].id != id {
          assert es[1..][i] == es[i + 1];
        }
      }
      RsvpAbsentIsIdentity(es[1..], id);
    }
  }

  /** Number of events carrying `id`. */
  function CountId(es: seq<Event>, id: nat): nat
  {
    if es == [] then 0 else (if es[0].id == id then 1 else 0) + CountId(es[1..], id)
  }

  /** Sum of the RSVP counters of the list. */
  function TotalRsvps(es: seq<Event>): int
  {
    if es == [] then 0 else es[0].rsvps + TotalRsvps(es[1..])
  }

  /** One click adds exactly one RSVP to every event carrying the id, so the
      total grows by the number of such events (by one when ids are distinct). */
  lemma {:induction false} RsvpTotal(es: seq<Event>, id: nat)
    ensures TotalRsvps(Rsvp(es, id)) == TotalRsvps(es) + CountId(es, id)
  {
    if es != [] {
      RsvpTotal(es[1..], id);
      var r := Rsvp(es, id);
      assert r[1..] == Rsvp(es[1..], id);
    }
  }

  /** Every counter is non-negative. */
  predicate NonNegative(es: seq<Event>)
  {
    forall i :: 0 <= i < |es| ==> es[i].rsvps >= 0
  }

  /** Every event has four non-empty text fields. */
  predicate AllComplete(es: seq<Event>)
  {
    forall i :: 0 <= i < |es| ==> Complete(Details(es[i]))
  }

  /** Ids are pairwise distinct. */
  predicate DistinctIds(es: seq<Event>)
  {
    forall i, j :: 0 <= i < j < |es| ==> es[i].id != es[j].id
  }

  /** With distinct ids, exactly one event matches an id the list carries. */
  lemma {:induction false} DistinctCountId(es: seq<Event>, id: nat)
    requires DistinctIds(es)
    ensures CountId(es, id) == if HasId(es, id) then 1 else 0
  {
    if es != [] {
      var t := es[1..];
      assert DistinctIds(t) by {
        forall i, j | 0 <= i < j < |t| ensures t[i].id != t[j].id {
          assert t[i] == es[i + 1] && t[j] == es[j + 1];
        }
      }
      DistinctCountId(t, id);
      if es[0].id == id {
        assert !HasId(t, id) by {
          forall i | 0 <= i < |t| ensures t[i].id != id {
            assert t[i] == es[i + 1];
          }
        }
      } else {
        assert HasId(es, id) <==> HasId(t, id) by {
          if HasId(es, id) {
            var i :| 0 <= i < |es| && es[i].id == id;
            assert t[i - 1] == es[i];
          }
          if HasId(t, id) {
            var i :| 0 <= i < |t| && t[i].id == id;
            assert es[i + 1] == t[i];
          }
        }
      }
    }
  }

  /** With distinct ids a click records exactly one RSVP if the id is present,
      and none otherwise. */
  lemma RsvpRecordsOne(es: seq<Event>, id: nat)
    requires DistinctIds(es)
    ensures TotalRsvps(Rsvp(es, id)) == TotalRsvps(es) + (if HasId(es, id) then 1 else 0)
  {
    RsvpTotal(es, id);
    DistinctCountId(es, id);
  }

  // ---------------------------------------------------------------------------
  // The three handlers on snapshots

  /** handleInputChange: overwrite one draft field. */
  function ApplyInputChange(s: Snapshot, f: Field, v: string): (r: Snapshot)
    ensures r.events == s.events
    ensures FieldOf(r.draft, f) == v
    ensures forall g :: g != f ==> FieldOf(r.draft, g) == FieldOf(s.draft, g)
  {
    s.(draft := SetField(s.draft, f, v))
  }

  /** addEvent: a no-op on an incomplete draft; otherwise append and clear. */
  function ApplyAddEvent(s: Snapshot, id: nat): (r: Snapshot)
    ensures !Complete(s.draft) ==> r == s
    ensures Complete(s.draft) ==>
      |r.events| == |s.events| + 1 && r.events[..|s.events|] == s.events &&
      r.events[|s.events|] == NewEntry(s.draft, id) && r.draft == EmptyDraft
  {
    if !Complete(s.draft) then s
    else Snapshot(EmptyDraft, Append(s.events, NewEntry(s.draft, id)))
  }

  /** rsvpToEvent: the draft is untouched, the list mapped in place. */
  function ApplyRsvp(s: Snapshot, id: nat): (r: Snapshot)
    ensures r.draft == s.draft && |r.events| == |s.events|
    ensures !HasId(s.events, id) ==> r == s
  {
    assert !HasId(s.events, id) ==> Rsvp(s.events, id) == s.events by {
      if !HasId(s.events, id) { RsvpAbsentIsIdentity(s.events, id); }
    }
    s.(events := Rsvp(s.events, id))
  }

  function Step(s: Snapshot, a: Action): Snapshot
  {
    match a
    case ChangeInput(f, v) => ApplyInputChange(s, f, v)
    case ClickAdd(id) => ApplyAddEvent(s, id)
    case ClickRsvp(id) => ApplyRsvp(s, id)
  }

  /** The snapshot after a sequence of actions, first to last. */
  function Run(s: Snapshot, acts: seq<Action>): Snapshot
    decreases |acts|
  {
    if acts == [] then s else Run(Step(s, acts[0]), acts[1..])
  }

  // ---------------------------------------------------------------------------
  // Properties across actions

  /** `es'` keeps every event of `es` at its index, with the same id and text
      fields and a counter at least as large; it may have more events after them. */
  predicate Grows(es: seq<Event>, es': seq<Event>)
  {
    |es| <= |es'| &&
    forall i :: 0 <= i < |es| ==>
      es'[i].id == es[i].id && Details(es'[i]) == Details(es[i]) && es'[i].rsvps >= es[i].rsvps
  }

  lemma StepGrows(s: Snapshot, a: Action)
    ensures Grows(s.events, Step(s, a).events)
  {
  }

  /** No action removes, reorders or edits an event, and no counter ever decreases. */
  lemma {:induction false} RunGrows(s: Snapshot, acts: seq<Action>)
    ensures Grows(s.events, Run(s, acts).events)
    decreases |acts|
  {
    if acts != [] {
      var s' := Step(s, acts[0]);
      StepGrows(s, acts[0]);
      RunGrows(s', acts[1..]);
    }
  }

  lemma StepNonNegative(s: Snapshot, a: Action)
    requires NonNegative(s.events)
    ensures NonNegative(Step(s, a).events)
  {
  }

  /** Counters start at zero and stay non-negative whatever the user does. */
  lemma {:induction false} RunNonNegative(s: Snapshot, acts: seq<Action>)
    requires NonNegative(s.events)
    ensures NonNegative(Run(s, acts).events)
    decreases |acts|
  {
    if acts != [] {
      StepNonNegative(s, acts[0]);
      RunNonNegative(Step(s, acts[0]), acts[1..]);
    }
  }

  lemma StepComplete(s: Snapshot, a: Action)
    requires AllComplete(s.events)
    ensures AllComplete(Step(s, a).events)
  {
  }

  /** Only complete drafts become events, so every event in the list keeps four
      non-empty text fields whatever the user does. */
  lemma {:induction false} RunComplete(s: Snapshot, acts: seq<Action>)
    requires AllComplete(s.events)
    ensures AllComplete(Run(s, acts).events)
    decreases |acts|
  {
    if acts != [] {
      StepComplete(s, acts[0]);
      RunComplete(Step(s, acts[0]), acts[1..]);
    }
  }

  /** Whether an action commits a new event: an add click on a complete draft. */
  predicate Commits(s: Snapshot, a: Action)
  {
    a.ClickAdd? && Complete(s.draft)
  }

  /** The ids a run gives to new events: those of the add clicks that pass the
      guard. A rejected add never reads the clock, so its id plays no role. */
  function CommittedIds(s: Snapshot, acts: seq<Action>): seq<nat>
    decreases |acts|
  {
    if acts == [] then []
    else (if Commits(s, acts[0]) then [acts[0].id] else []) + CommittedIds(Step(s, acts[0]), acts[1..])
  }

  function Ids(es: seq<Event>): set<nat>
  {
    set i | 0 <= i < |es| :: es[i].id
  }

  /** The ids the caller supplies are not in the list and are pairwise distinct. */
  predicate FreshIds(es: seq<Event>, ids: seq<nat>)
  {
    (forall k :: 0 <= k < |ids| ==> ids[k] !in Ids(es)) &&
    (forall k, m :: 0 <= k < m < |ids| ==> ids[k] != ids[m])
  }

  lemma StepKeepsIds(s: Snapshot, a: Action)
    ensures !Commits(s, a) ==> Ids(Step(s, a).events) == Ids(s.events)
    ensures Commits(s, a) ==> Ids(Step(s, a).events) <= Ids(s.events) + {a.id}
  {
    var r := Step(s, a).events;
    if a.ClickAdd? && Complete(s.draft) {
      forall x | x in Ids(r) ensures x in Ids(s.events) + {a.id} {
        var i :| 0 <= i < |r| && r[i].id == x;
        if i < |s.events| { assert r[i] == s.events[i]; }
      }
    } else if a.ClickRsvp? {
      forall x | x in Ids(r) ensures x in Ids(s.events) {
        var i :| 0 <= i < |r| && r[i].id == x;
        assert s.events[i].id == x;
      }
      forall x | x in Ids(s.events) ensures x in Ids(r) {
        var i :| 0 <= i < |s.events| && s.events[i].id == x;
        assert r[i].id == x;
      }
    }
  }

  lemma StepDistinct(s: Snapshot, a: Action)
    requires DistinctIds(s.events)
    requires Commits(s, a) ==> a.id !in Ids(s.events)
    ensures DistinctIds(Step(s, a).events)
  {
    var es := s.events;
    var r := Step(s, a).events;
    if a.ClickAdd? && Complete(s.draft) {
      forall i, j | 0 <= i < j < |r| ensures r[i].id != r[j].id {
        assert r[i] == es[i];
        if j == |es| { assert es[i].id in Ids(es); }
        else { assert r[j] == es[j]; }
      }
    }
  }

  /** Ids stay distinct, but only when every id the clock supplies to a commit
      is new: the code itself does not guarantee this. */
  lemma {:induction false} RunDistinct(s: Snapshot, acts: seq<Action>)
    requires DistinctIds(s.events)
    requires FreshIds(s.events, CommittedIds(s, acts))
    ensures DistinctIds(Run(s, acts).events)
    decreases |acts|
  {
    if acts != [] {
      var a := acts[0];
      var s' := Step(s, a);
      var all := CommittedIds(s, acts);
      var rest := CommittedIds(s', acts[1..]);
      assert all == (if Commits(s, a) then [a.id] else []) + rest;
      if Commits(s, a) {
        assert all[0] == a.id;
      }
      StepDistinct(s, a);
      StepKeepsIds(s, a);
      var off := if Commits(s, a) then 1 else 0;
      forall k | 0 <= k < |rest| ensures rest[k] !in Ids(s'.events) {
        assert rest[k] == all[k + off];
        if Commits(s, a) {
          assert all[0] == a.id && all[0] != all[k + off];
        }
      }
      forall k, m | 0 <= k < m < |rest| ensures rest[k] != rest[m] {
        assert rest[k] == all[k + off] && rest[m] == all[m + off];
      }
      RunDistinct(s', acts[1..]);
    }
  }

  /** The worked example: four edits and a commit give one event with no RSVPs,
      a click on its button gives it one; a commit with only a title adds nothing. */
  lemma PicnicExample(id: nat)
    ensures Run(Initial, [ChangeInput(Title, "Picnic"), ChangeInput(Date, "2025-06-01"),
                          ChangeInput(Time, "12:00"), ChangeInput(Location, "Park"), ClickAdd(id),
                          ClickRsvp(id)])
            == Snapshot(EmptyDraft, [Event(id, "Picnic", "2025-06-01", "12:00", "Park", 1)])
    ensures Run(Initial, [ChangeInput(Title, "X"), ClickAdd(id)]) == Snapshot(Draft("X", "", "", ""), [])
  {
    var e0 := Event(id, "Picnic", "2025-06-01", "12:00", "Park", 0);
    var s1 := Snapshot(Draft("Picnic", "", "", ""), []);
    var s2 := Snapshot(Draft("Picnic", "2025-06-01", "", ""), []);
    var s3 := Snapshot(Draft("Picnic", "2025-06-01", "12:00", ""), []);
    var s4 := Snapshot(Draft("Picnic", "2025-06-01", "12:00", "Park"), []);
    var s5 := Snapshot(EmptyDraft, [e0]);
    assert Rsvp([e0], id) == [e0.(rsvps := 1)];
    calc {
      Run(Initial, [ChangeInput(Title, "Picnic"), ChangeInput(Date, "2025-06-01"),
                    ChangeInput(Time, "12:00"), ChangeInput(Location, "Park"), ClickAdd(id),
                    ClickRsvp(id)]);
      Run(s1, [ChangeInput(Date, "2025-06-01"), ChangeInput(Time, "12:00"),
               ChangeInput(Location, "Park"), ClickAdd(id), ClickRsvp(id)]);
      Run(s2, [ChangeInput(Time, "12:00"), ChangeInput(Location, "Park"), ClickAdd(id), ClickRsvp(id)]);
      Run(s3, [ChangeInput(Location, "Park"), ClickAdd(id), ClickRsvp(id)]);
      Run(s4, [ClickAdd(id), ClickRsvp(id)]);
      { assert Complete(s4.draft); }
      Run(s5, [ClickRsvp(id)]);
      Run(Snapshot(EmptyDraft, [e0.(rsvps := 1)]), []);
    }
    calc {
      Run(Initial, [ChangeInput(Title, "X"), ClickAdd(id)]);
      Run(Snapshot(Draft("X", "", "", ""), []), [ClickAdd(id)]);
      { assert !Complete(Draft("X", "", "", "")); }
      Run(Snapshot(Draft("X", "", "", ""), []), []);
    }
  }

  // ---------------------------------------------------------------------------
  // The component

  /** The component's state, updated in place by its three handlers. */
  class GroupEventPlanner {
    var events: seq<Event>
    var draft: Draft

    /** The snapshot the component renders. */
    function State(): Snapshot
      reads this
    {
      Snapshot(draft, events)
    }

    /** The component's invariant: no RSVP counter is negative, and every
        event has four non-empty text fields. */
    predicate Valid()
      reads this
    {
      NonNegative(events) && AllComplete(events)
    }

    constructor ()
      ensures Valid() && State() == Initial
    {
      events := [];
      draft := EmptyDraft;
    }

    /** handleInputChange: set exactly the named draft field. */
    method HandleInputChange(name: Field, value: string)
      requires Valid()
      modifies this
      ensures Valid()
      ensures State() == ApplyInputChange(old(State()), name, value)
      ensures events == old(events) && FieldOf(draft, name) == value
      ensures forall g :: g != name ==> FieldOf(draft, g) == FieldOf(old(draft), g)
    {
      draft := SetField(draft, name, value);
    }

    /** addEvent, with the timestamp supplied as `id`. */
    method AddEvent(id: nat)
      requires Valid()
      modifies this
      ensures Valid()
      ensures State() == ApplyAddEvent(old(State()), id)
      ensures (exists f :: FieldOf(old(draft), f) == "") ==> events == old(events) && draft == old(draft)
      ensures (forall f :: FieldOf(old(draft), f) != "") ==>
        events == old(events) + [NewEntry(old(draft), id)] && draft == EmptyDraft
    {
      CompleteIffNoEmptyField(draft);
      if !Complete(draft) {
        return;
      }
      var entry := NewEntry(draft, id);
      events := Append(events, entry);
      draft := EmptyDraft;
    }

    /** rsvpToEvent: one more RSVP on every event carrying `id`. */
    method RsvpToEvent(id: nat)
      requires Valid()
      modifies this
      ensures Valid()
      ensures State() == ApplyRsvp(old(State()), id)
      ensures draft == old(draft) && events == Rsvp(old(events), id)
      ensures !HasId(old(events), id) ==> events == old(events)
    {
      ghost var before := State();
      events := Rsvp(events, id);
      assert State() == ApplyRsvp(before, id);
    }
  }
}
