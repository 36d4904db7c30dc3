# Group event planner: the event-list state

This project models the state of the `GroupEventPlanner` component in Dafny.
That state has two parts:

- a draft of the next event: four text fields, `title`, `date`, `time` and `location`;
- an ordered list of committed events.

Each event has an `id`, the four text fields and an RSVP counter.

Three handlers change the state:

- the input handler overwrites one draft field;
- the add handler appends an event built from the draft and then clears the draft. It does nothing while any draft field is the empty string;
- the RSVP handler adds one RSVP to every event that carries the given id.

Everything lives in `event_planner.dfy`, module `EventPlanner`:

- The datatypes `Event`, `Draft`, `Field` and `Snapshot` model the data.
- `Field` is the closed set of input names the form uses.
- `Snapshot` is the draft together with the list.
- The class `GroupEventPlanner` holds the `draft` and `events` fields. Its three methods update those fields in place.
- Each method is tied to a pure function on snapshots: `ApplyInputChange`, `ApplyAddEvent` or `ApplyRsvp`. Those functions are built from `SetField`, `NewEntry`, `Append` and `Rsvp`.
- `Run` applies a sequence of user actions in order. The lemmas about behaviour across many actions are stated over `Run`.

The timestamp that the code uses as the new event's id is a `nat` parameter of `AddEvent`.

Two points about the code shape what the model claims:

- The add guard at components/GroupEventPlanner.tsx:27 rejects a field only when it is exactly the empty string. It does not trim whitespace.
- Ids come from `Date.now()`, and two commits in the same millisecond get the same id. Uniqueness is therefore proved only conditionally, in `RunDistinct`: ids stay distinct when every id given to a committed event is new.

## Model

| member | source | states |
|---|---|---|
| EventPlanner.SetField | components/GroupEventPlanner.tsx:23 | the named draft field takes the new value; the other three fields keep theirs |
| EventPlanner.SetFieldLastWins | components/GroupEventPlanner.tsx:22-24 | writing one field twice leaves only the last value written |
| EventPlanner.SetFieldCommutes | components/GroupEventPlanner.tsx:22-24 | writes to two different fields can be done in either order |
| EventPlanner.CompleteIffNoEmptyField | components/GroupEventPlanner.tsx:27 | the add guard passes exactly when none of the four fields is the empty string |
| EventPlanner.NewEntry | components/GroupEventPlanner.tsx:28-32 | the new event carries the draft's four field values, the supplied id and zero RSVPs |
| EventPlanner.Append | components/GroupEventPlanner.tsx:33 | the list grows by one, the old list is its prefix, and the new event is last |
| EventPlanner.RsvpOne | components/GroupEventPlanner.tsx:39 | an event keeps its id and text fields; its counter goes up by one exactly when its id matches |
| EventPlanner.Rsvp | components/GroupEventPlanner.tsx:38-40 | length and order are kept; each event keeps its id and text fields; its counter is old+1 if its id matches and old otherwise |
| EventPlanner.RsvpAbsentIsIdentity | components/GroupEventPlanner.tsx:38-40 | clicking RSVP for an id that no event carries leaves the list unchanged |
| EventPlanner.RsvpTotal | components/GroupEventPlanner.tsx:37-41 | the sum of counters grows by exactly the number of events that carry the id |
| EventPlanner.DistinctCountId | components/GroupEventPlanner.tsx:38-40 | when ids are distinct, at most one event matches, and exactly one if the id is present |
| EventPlanner.RsvpRecordsOne | components/GroupEventPlanner.tsx:37-41 | when ids are distinct, one click adds exactly one RSVP in total, or none if the id is absent |
| EventPlanner.ApplyInputChange | components/GroupEventPlanner.tsx:22-24 | the input handler changes only the named draft field and leaves the list alone |
| EventPlanner.ApplyAddEvent | components/GroupEventPlanner.tsx:26-35 | an incomplete draft changes nothing; otherwise the entry built from the draft is appended last and the draft is cleared |
| EventPlanner.ApplyRsvp | components/GroupEventPlanner.tsx:37-41 | the draft and the list length are kept; an absent id changes nothing |
| EventPlanner.StepGrows | components/GroupEventPlanner.tsx:22-41 | no single handler removes, reorders or edits an event, or lowers a counter |
| EventPlanner.RunGrows | components/GroupEventPlanner.tsx:22-41 | across any sequence of actions, old events stay at their index with the same id and text, and their counters never decrease |
| EventPlanner.StepNonNegative | components/GroupEventPlanner.tsx:31-39 | no handler makes a counter negative |
| EventPlanner.RunNonNegative | components/GroupEventPlanner.tsx:31-39 | counters stay non-negative across any sequence of actions |
| EventPlanner.StepComplete | components/GroupEventPlanner.tsx:27-33 | no handler puts an event with an empty text field into the list |
| EventPlanner.RunComplete | components/GroupEventPlanner.tsx:27-33 | across any sequence of actions, every event in the list keeps four non-empty text fields |
| EventPlanner.StepKeepsIds | components/GroupEventPlanner.tsx:26-41 | an edit, an RSVP or a rejected add keeps the set of ids; a committed add introduces at most the supplied id |
| EventPlanner.StepDistinct | components/GroupEventPlanner.tsx:29-33 | distinct ids stay distinct when the supplied id is new |
| EventPlanner.RunDistinct | components/GroupEventPlanner.tsx:29-33 | ids stay pairwise distinct across a run if the ids of the adds that pass the guard are new and differ from each other; rejected adds impose nothing |
| EventPlanner.PicnicExample | components/GroupEventPlanner.tsx:14-41 | four edits, a commit and an RSVP give one event with one RSVP and an empty draft; a commit with only a title adds nothing |
| EventPlanner.GroupEventPlanner.constructor | components/GroupEventPlanner.tsx:14-20 | the component starts with an empty list and four empty draft fields |
| EventPlanner.GroupEventPlanner.HandleInputChange | components/GroupEventPlanner.tsx:22-24 | overwrites exactly the named draft field; the list is unchanged |
| EventPlanner.GroupEventPlanner.AddEvent | components/GroupEventPlanner.tsx:26-35 | when some named field is empty, list and draft are identical before and after; otherwise the new entry is appended to the old list and the draft is cleared; no counter is negative and no event has an empty text field, before and after |
| EventPlanner.GroupEventPlanner.RsvpToEvent | components/GroupEventPlanner.tsx:37-41 | the draft is unchanged; the list is mapped in place as `Rsvp` states; an absent id leaves it unchanged |

## Left out

- Rendering, styling and animation (components/GroupEventPlanner.tsx:43-142) are left out because they hold no logic.
- `pages/_app.tsx` is left out because it is only the application shell.
- The clock call `Date.now()` (line 29) is left out. The id is a caller-supplied `nat`, so the model covers any value the clock could return.
- Id uniqueness is left out as a property of the code, because the code does not guarantee it. Only its conditional form is proved, in `RunDistinct`.
- React's state scheduling, re-rendering and stale closures are left out. Each handler is modelled as one atomic update of the component's fields.
- Dynamic keys in the input handler are left out. It would accept any `name` string, but only the four form inputs call it, so the key is the four-valued `Field`.
- Floating-point limits of JavaScript numbers are left out. Ids and counters are unbounded integers, so precision loss above 2^53 is not modelled.
