/** Declared transitions (backend/core/statusflow.py). */
module StatusFlow {

  datatype Flow<!S(==)> = Flow(states: seq<S>, transitions: map<S, set<S>>, terminal: set<S>) {
    /** A no-op is not an illegal move; a state without an entry leads nowhere. */
    predicate Can(from: S, to: S) {
      from == to || (from in transitions && to in transitions[from])
    }
  }
}

/** What happened to a thing, when, and who may see it (backend/core/timeline.py). */
module Timeline {
  import opened Options

  datatype Kind = Note | Call | Email | Meeting | StatusChange | Assignment | Reply | System
  datatype Visibility = Internal | Customer

  /** `from` and `to` are the transition of a status or assignment entry. */
  datatype Entry<V> = Entry(kind: Kind, visibility: Visibility, body: string, from: Option<V>, to: Option<V>, at: int)

  /** Where the customer's entries stand in the log, last written first. */
  function CustomerPlaces<V>(entries: seq<Entry<V>>): (p: seq<nat>)
    ensures forall i | 0 <= i < |p| :: p[i] < |entries|
  {
    if entries == [] then []
    else
      var n := |entries| - 1;
      var rest := CustomerPlaces(entries[..n]);
      if entries[n].visibility == Customer then [n] + rest else rest
  }

  /** `timeline_for(..., include_internal=False)`, newest first. */
  function VisibleToCustomer<V>(entries: seq<Entry<V>>): seq<Entry<V>>
  {
    var p := CustomerPlaces(entries);
    seq(|p|, i requires 0 <= i < |p| => entries[p[i]])
  }

  lemma {:induction false} PlacesAreTheCustomers<V>(entries: seq<Entry<V>>)
    ensures var p := CustomerPlaces(entries);
      && (forall k: nat :: k in p <==> k < |entries| && entries[k].visibility == Customer)
      && (forall i, j | 0 <= i < j < |p| :: p[j] < p[i])
  {
    if entries != [] {
      var n := |entries| - 1;
      PlacesAreTheCustomers(entries[..n]);
      assert forall k | 0 <= k < n :: entries[..n][k] == entries[k];
    }
  }

  /** The customer sees every entry marked for them and no other, each once, and of two the
      one written later comes first. */
  lemma VisibleIsNewestFirst<V>(entries: seq<Entry<V>>)
    ensures var r, p := VisibleToCustomer(entries), CustomerPlaces(entries);
      && |r| == |p| && (forall i | 0 <= i < |r| :: p[i] < |entries| && r[i] == entries[p[i]])
      && (forall k: nat :: k in p <==> k < |entries| && entries[k].visibility == Customer)
      && (forall i, j | 0 <= i < j < |p| :: p[j] < p[i])
  {
    PlacesAreTheCustomers(entries);
  }

  /** The newest status entry, under a clock that does not run backwards. */
  function LatestStatus<V(!new)>(entries: seq<Entry<V>>): (r: Option<Entry<V>>)
    ensures r.Some? ==> r.value in entries && r.value.kind == StatusChange
    ensures r.None? ==> forall e | e in entries :: e.kind != StatusChange
  {
    if entries == [] then None
    else
      var n := |entries| - 1;
      assert entries == entries[..n] + [entries[n]];
      if entries[n].kind == StatusChange then Some(entries[n]) else LatestStatus(entries[..n])
  }

  function DurationInCurrentStatus<V(!new)>(entries: seq<Entry<V>>, now: int): Option<int> {
    var latest := LatestStatus(entries);
    if latest.None? then None else Some(now - latest.value.at)
  }
}

/** Raising, answering, moving and handing on a client's ticket (backend/crm/tickets.py). */
module Tickets {
  import opened Options
  import opened StatusFlow
  import opened Timeline
  import Text

  const HOUR := 3600
  const DEFAULT_RESPONSE_HOURS := 8
  const DEFAULT_RESOLUTION_HOURS := 72

  /** The declared states, and anything else a caller may name. */
  datatype Status = Open | InProgress | Waiting | Resolved | Closed | Unknown(name: string)

  /** What an entry's two value columns hold: a status, or a person or nobody. */
  datatype Value = Is(status: Status) | Who(person: Option<int>)

  const TICKET_FLOW: Flow<Status> := Flow(
    [Open, InProgress, Waiting, Resolved, Closed],
    map[Open := {InProgress, Waiting, Resolved, Closed},
        InProgress := {Waiting, Resolved, Open, Closed},
        Waiting := {InProgress, Open, Closed},
        Resolved := {Closed, Open},
        Closed := {Open}],
    {Closed})

  datatype State = State(status: Status, resolvedAt: Option<int>, firstResponseAt: Option<int>, assignee: Option<int>,
                         timeline: seq<Entry<Value>>)

  datatype Step =
    | ReplyTo(body: string, now: int)
    | AddNote(body: string, now: int)
    | Move(to: Status, note: string, now: int)
    | Assign(person: Option<int>, now: int)

  function Raised(now: int): State {
    State(Open, None, None, None, [Entry(System, Internal, "Ticket raised", None, None, now)])
  }

  /** The entry a move leaves behind. */
  function Moved(note: string, from: Status, to: Status, now: int): Entry<Value> {
    Entry(StatusChange, Internal, note, Some(Is(from)), Some(Is(to)), now)
  }

  function After(s: State, step: Step): State {
    match step
    case ReplyTo(body, now) =>
      if Text.Blank(body) then s
      else s.(timeline := s.timeline + [Entry(Reply, Customer, body, None, None, now)],
              firstResponseAt := if s.firstResponseAt.None? then Some(now) else s.firstResponseAt)
    case AddNote(body, now) => s.(timeline := s.timeline + [Entry(Note, Internal, body, None, None, now)])
    case Move(to, note, now) =>
      if !TICKET_FLOW.Can(s.status, to) then s
      else s.(status := to,
              timeline := if s.status == to then s.timeline
                          else s.timeline + [Moved(note, s.status, to, now)],
              resolvedAt := if to == Resolved && s.resolvedAt.None? then Some(now)
                            else if to == Open then None else s.resolvedAt)
    case Assign(person, now) =>
      if s.assignee.Some? && person == s.assignee then s
      else s.(assignee := person,
              timeline := s.timeline
                + [Entry(Assignment, Internal, "Assigned", Some(Who(s.assignee)), Some(Who(person)), now)])
  }

  function Run(s: State, steps: seq<Step>): State
    decreases |steps|
  {
    if steps == [] then s else Run(After(s, steps[0]), steps[1..])
  }

  datatype Answer = Done | EmptyReply | IllegalMove

  class Ticket {
    var status: Status
    var resolvedAt: Option<int>
    var firstResponseAt: Option<int>
    var assignee: Option<int>
    var timeline: seq<Entry<Value>>
    const responseDue: int
    const resolutionDue: int

    ghost function View(): State
      reads this
    {
      State(status, resolvedAt, firstResponseAt, assignee, timeline)
    }

    /** The two promises are taken from the policy of the day and never move again. */
    constructor (now: int, policy: Option<(int, int)>)
      ensures View() == Raised(now)
      ensures status == Open && resolvedAt == None && firstResponseAt == None && assignee == None
      ensures timeline == [Entry(System, Internal, "Ticket raised", None, None, now)]
      ensures responseDue == now + HOUR * (if policy.Some? then policy.value.0 else DEFAULT_RESPONSE_HOURS)
      ensures resolutionDue == now + HOUR * (if policy.Some? then policy.value.1 else DEFAULT_RESOLUTION_HOURS)
    {
      responseDue := now + HOUR * (if policy.Some? then policy.value.0 else DEFAULT_RESPONSE_HOURS);
      resolutionDue := now + HOUR * (if policy.Some? then policy.value.1 else DEFAULT_RESOLUTION_HOURS);
      status, resolvedAt, firstResponseAt, assignee := Open, None, None, None;
      timeline := [Entry(System, Internal, "Ticket raised", None, None, now)];
    }

    method Record(kind: Kind, visibility: Visibility, body: string, from: Option<Value>, to: Option<Value>, now: int)
      modifies this`timeline
      ensures timeline == old(timeline) + [Entry(kind, visibility, body, from, to, now)]
    {
      timeline := timeline + [Entry(kind, visibility, body, from, to, now)];
    }

    method ReplyToClient(body: string, now: int) returns (r: Answer)
      modifies this
      ensures View() == After(old(View()), ReplyTo(body, now))
      ensures r == if Text.Blank(body) then EmptyReply else Done
    {
      if Text.Blank(body) { return EmptyReply; }
      Record(Reply, Customer, body, None, None, now);
      if firstResponseAt.None? { firstResponseAt := Some(now); }
      return Done;
    }

    method AddInternalNote(body: string, now: int)
      modifies this
      ensures View() == After(old(View()), AddNote(body, now))
    {
      Record(Note, Internal, body, None, None, now);
    }

    /** `StatusFlow.apply`: check, set the field, record the transition. */
    method Apply(to: Status, note: string, now: int) returns (ok: bool)
      modifies this`status, this`timeline
      ensures ok <==> TICKET_FLOW.Can(old(status), to)
      ensures status == if ok then to else old(status)
      ensures timeline == if ok && old(status) != to
        then old(timeline) + [Moved(note, old(status), to, now)] else old(timeline)
    {
      var from := status;
      if !TICKET_FLOW.Can(from, to) { return false; }
      if from == to { return true; }
      status := to;
      Record(StatusChange, Internal, note, Some(Is(from)), Some(Is(to)), now);
      return true;
    }

    method MoveTicket(to: Status, note: string, now: int) returns (r: Answer)
      modifies this
      ensures View() == After(old(View()), Move(to, note, now))
      ensures r == if TICKET_FLOW.Can(old(status), to) then Done else IllegalMove
    {
      var ok := Apply(to, note, now);
      if !ok { return IllegalMove; }
      if to == Resolved && resolvedAt.None? {
        resolvedAt := Some(now);
      } else if to == Open {
        if resolvedAt.Some? { resolvedAt := None; }
      }
      return Done;
    }

    method AssignTicket(person: Option<int>, now: int)
      modifies this
      ensures View() == After(old(View()), Assign(person, now))
    {
      var previous := assignee;
      if previous.Some? && person.Some? && previous.value == person.value { return; }
      assignee := person;
      Record(Assignment, Internal, "Assigned", Some(Who(previous)), Some(Who(person)), now);
    }
  }

  // ---------- the history replays ----------

  /** Fold the status entries from `open`: each must leave the state reached so far, by a
      legal move that is not a no-op. */
  function Replay(timeline: seq<Entry<Value>>): Option<Status> {
    if timeline == [] then Some(Open)
    else
      var n := |timeline| - 1;
      var e, before := timeline[n], Replay(timeline[..n]);
      if e.kind != StatusChange then before
      else if before.Some? && e.from == Some(Is(before.value)) && e.to.Some? && e.to.value.Is?
              && e.to.value.status != before.value && TICKET_FLOW.Can(before.value, e.to.value.status)
      then Some(e.to.value.status) else None
  }

  function FirstReply(timeline: seq<Entry<Value>>): (r: Option<int>)
    ensures r.None? <==> forall i | 0 <= i < |timeline| :: timeline[i].kind != Reply
    ensures r.Some? ==> exists i | 0 <= i < |timeline| ::
      timeline[i].kind == Reply && r == Some(timeline[i].at) && forall j | 0 <= j < i :: timeline[j].kind != Reply
  {
    if timeline == [] then None
    else
      var n := |timeline| - 1;
      var front := FirstReply(timeline[..n]);
      assert forall i | 0 <= i < n :: timeline[..n][i] == timeline[i];
      if front.Some? then front else if timeline[n].kind == Reply then Some(timeline[n].at) else None
  }

  /** The resolution stamp: set while resolved, clear while the work is open. */
  predicate Stamped(status: Status, resolvedAt: Option<int>) {
    && !status.Unknown?
    && (status == Resolved ==> resolvedAt.Some?)
    && (status == Open || status == InProgress || status == Waiting ==> resolvedAt.None?)
  }

  /** Only replies are visible to the customer. */
  ghost predicate Guarded(timeline: seq<Entry<Value>>) {
    forall i | 0 <= i < |timeline| :: timeline[i].visibility == Customer <==> timeline[i].kind == Reply
  }

  ghost predicate Sound(s: State) {
    && Replay(s.timeline) == Some(s.status)
    && Stamped(s.status, s.resolvedAt)
    && s.firstResponseAt == FirstReply(s.timeline)
    && Guarded(s.timeline)
  }

  lemma AppendEntry(timeline: seq<Entry<Value>>, e: Entry<Value>)
    ensures (timeline + [e])[..|timeline|] == timeline && (timeline + [e])[|timeline|] == e
  {
  }

  /** What one more entry does to each reading of the log. */
  lemma AppendReads(timeline: seq<Entry<Value>>, e: Entry<Value>)
    ensures e.kind != StatusChange ==> Replay(timeline + [e]) == Replay(timeline)
    ensures e.kind == StatusChange && Replay(timeline).Some? && e.to.Some? && e.to.value.Is?
      && e.from == Some(Is(Replay(timeline).value)) && e.to.value.status != Replay(timeline).value
      && TICKET_FLOW.Can(Replay(timeline).value, e.to.value.status)
      ==> Replay(timeline + [e]) == Some(e.to.value.status)
    ensures FirstReply(timeline + [e]) ==
      if FirstReply(timeline).Some? then FirstReply(timeline) else if e.kind == Reply then Some(e.at) else None
  {
  }

  lemma StepKeepsLog(s: State, step: Step)
    requires Sound(s)
    ensures var t := After(s, step); Replay(t.timeline) == Some(t.status) && t.firstResponseAt == FirstReply(t.timeline)
  {
    var t := After(s, step);
    if |t.timeline| > |s.timeline| { AppendReads(s.timeline, t.timeline[|s.timeline|]); }
  }

  /** The declared moves: in progress and waiting are entered from open work only. */
  lemma DeclaredMoves(from: Status, to: Status)
    ensures TICKET_FLOW.Can(from, to) <==>
      || from == to
      || (to == Open && (from == InProgress || from == Waiting || from == Resolved || from == Closed))
      || (to == InProgress && (from == Open || from == Waiting))
      || (to == Waiting && (from == Open || from == InProgress))
      || (to == Resolved && (from == Open || from == InProgress))
      || (to == Closed && (from == Open || from == InProgress || from == Waiting || from == Resolved))
  {
  }

  lemma StepKeepsStamp(s: State, step: Step)
    requires Stamped(s.status, s.resolvedAt)
    ensures var t := After(s, step); Stamped(t.status, t.resolvedAt)
  {
    if step.Move? { DeclaredMoves(s.status, step.to); }
  }

  lemma StepKeepsSound(s: State, step: Step)
    requires Sound(s)
    ensures Sound(After(s, step))
  {
    StepKeepsLog(s, step);
    StepKeepsStamp(s, step);
    var t := After(s, step);
    assert Guarded(t.timeline) by {
      if |t.timeline| > |s.timeline| { AppendEntry(s.timeline, t.timeline[|s.timeline|]); }
    }
  }

  /** In every run: the status entries are a chained path of legal moves from open to the
      current status; `resolved_at` agrees with the status; `first_response_at` is the time
      of the first reply. */
  lemma {:induction false} EveryRunIsSound(s: State, steps: seq<Step>)
    requires Sound(s)
    ensures Sound(Run(s, steps))
    decreases |steps|
  {
    if steps != [] {
      StepKeepsSound(s, steps[0]);
      EveryRunIsSound(After(s, steps[0]), steps[1..]);
    }
  }

  lemma RaisedIsSound(now: int)
    ensures Sound(Raised(now))
  {
  }

  /** The response clock, once stopped, stays where it stopped; the log only grows. */
  lemma {:induction false} FirstResponseIsFinal(s: State, steps: seq<Step>)
    ensures s.timeline <= Run(s, steps).timeline
    ensures s.firstResponseAt.Some? ==> Run(s, steps).firstResponseAt == s.firstResponseAt
    decreases |steps|
  {
    if steps != [] { FirstResponseIsFinal(After(s, steps[0]), steps[1..]); }
  }

  // ---------- who looked after it ----------

  /** Fold the assignment entries from nobody: each must name the holder reached so far.
      None where the history does not chain. */
  function HeldBy(timeline: seq<Entry<Value>>): Option<Option<int>> {
    if timeline == [] then Some(None)
    else
      var n := |timeline| - 1;
      var e, before := timeline[n], HeldBy(timeline[..n]);
      if e.kind != Assignment then before
      else if before.Some? && e.from == Some(Who(before.value)) && e.to.Some? && e.to.value.Who?
        then Some(e.to.value.person)
      else None
  }

  /** In every run the assignment entries chain from nobody to the current assignee. */
  lemma {:induction false} AssignmentsReplay(s: State, steps: seq<Step>)
    requires HeldBy(s.timeline) == Some(s.assignee)
    ensures HeldBy(Run(s, steps).timeline) == Some(Run(s, steps).assignee)
    decreases |steps|
  {
    if steps != [] {
      var t := After(s, steps[0]);
      if |t.timeline| > |s.timeline| { AppendEntry(s.timeline, t.timeline[|s.timeline|]); }
      AssignmentsReplay(t, steps[1..]);
    }
  }

  lemma RaisedIsUnassigned(now: int)
    ensures HeldBy(Raised(now).timeline) == Some(Raised(now).assignee)
  {
  }

  // ---------- what the client sees ----------

  /** The replies that are really sent, newest first. */
  function Sent(steps: seq<Step>): seq<string>
    decreases |steps|
  {
    if steps == [] then []
    else Sent(steps[1..]) + (if steps[0].ReplyTo? && !Text.Blank(steps[0].body) then [steps[0].body] else [])
  }

  function ClientBodies(s: State): seq<string> {
    var visible := VisibleToCustomer(s.timeline);
    seq(|visible|, i requires 0 <= i < |visible| => visible[i].body)
  }

  lemma AppendShows(s: State, t: State, e: Entry<Value>)
    requires t.timeline == s.timeline + [e]
    ensures ClientBodies(t) == (if e.visibility == Customer then [e.body] else []) + ClientBodies(s)
  {
    var n := |s.timeline|;
    assert t.timeline[..n] == s.timeline;
    var p, q := CustomerPlaces(s.timeline), CustomerPlaces(t.timeline);
    assert q == (if e.visibility == Customer then [n] else []) + p;
  }

  lemma StepShowsReplies(s: State, step: Step)
    ensures ClientBodies(After(s, step)) ==
      (if step.ReplyTo? && !Text.Blank(step.body) then [step.body] else []) + ClientBodies(s)
  {
    var t := After(s, step);
    if |t.timeline| > |s.timeline| {
      AppendShows(s, t, t.timeline[|s.timeline|]);
    } else {
      assert [] + ClientBodies(s) == ClientBodies(s);
    }
  }

  /** The client sees exactly the replies, newest first, on top of what was there: notes,
      moves and assignments change nothing. */
  lemma {:induction false} ClientSeesExactlyTheReplies(s: State, steps: seq<Step>)
    ensures ClientBodies(Run(s, steps)) == Sent(steps) + ClientBodies(s)
    decreases |steps|
  {
    hide ClientBodies, After;
    if steps == [] {
      assert [] + ClientBodies(s) == ClientBodies(s);
    } else {
      StepShowsReplies(s, steps[0]);
      ClientSeesExactlyTheReplies(After(s, steps[0]), steps[1..]);
      var first := if steps[0].ReplyTo? && !Text.Blank(steps[0].body) then [steps[0].body] else [];
      assert Sent(steps[1..]) + (first + ClientBodies(s)) == Sent(steps[1..]) + first + ClientBodies(s);
    }
  }

  /** So two runs with the same replies show the client the same thing, whatever internal
      activity is interleaved in either. */
  lemma InternalActivityIsInvisible(s: State, steps: seq<Step>, others: seq<Step>)
    requires Sent(steps) == Sent(others)
    ensures ClientBodies(Run(s, steps)) == ClientBodies(Run(s, others))
  {
    ClientSeesExactlyTheReplies(s, steps);
    ClientSeesExactlyTheReplies(s, others);
  }

  // ---------- time in status ----------

  /** After a real move, until the next one, the duration counts from that move; a ticket
      that never moved has none. */
  lemma {:induction false} DurationCountsFromTheMove(s: State, to: Status, note: string,
      at: int, steps: seq<Step>, now: int)
    requires TICKET_FLOW.Can(s.status, to) && s.status != to
    requires forall i | 0 <= i < |steps| :: !steps[i].Move?
    ensures var t := Run(After(s, Move(to, note, at)), steps);
      t.status == to && DurationInCurrentStatus(t.timeline, now) == Some(now - at)
  {
    var m := After(s, Move(to, note, at));
    AppendEntry(s.timeline, m.timeline[|s.timeline|]);
    LatestStaysWithoutMoves(m, steps);
  }

  lemma {:induction false} LatestStaysWithoutMoves(s: State, steps: seq<Step>)
    requires forall i | 0 <= i < |steps| :: !steps[i].Move?
    ensures Run(s, steps).status == s.status && LatestStatus(Run(s, steps).timeline) == LatestStatus(s.timeline)
    decreases |steps|
  {
    if steps != [] {
      var t := After(s, steps[0]);
      if |t.timeline| > |s.timeline| { AppendEntry(s.timeline, t.timeline[|s.timeline|]); }
      LatestStaysWithoutMoves(t, steps[1..]);
    }
  }

  // ---------- what each step writes ----------

  /** A step leaves one entry at most, with its own instant and words; only a reply can stop
      the response clock, only a move changes the status or the resolution, and only an
      assignment the assignee. */
  lemma StepWritesExactly(s: State, step: Step)
    ensures var t := After(s, step);
      var n, idle := |s.timeline|, match step
        case ReplyTo(body, _) => Text.Blank(body)
        case AddNote(_, _) => false
        case Move(to, _, _) => to == s.status || !TICKET_FLOW.Can(s.status, to)
        case Assign(person, _) => person == s.assignee && person.Some?;
      && (if idle then t.timeline == s.timeline
          else
            && |t.timeline| == n + 1 && t.timeline[..n] == s.timeline
            && var e := t.timeline[n];
            && e.at == step.now
            && (step.ReplyTo? ==> e.kind == Reply && e.body == step.body)
            && (step.AddNote? ==> e.kind == Note && e.body == step.body)
            && (step.Move? ==> e.kind == StatusChange && e.body == step.note
                               && e.from == Some(Is(s.status)) && e.to == Some(Is(step.to)))
            && (step.Assign? ==> e.kind == Assignment && e.from == Some(Who(s.assignee))
                                 && e.to == Some(Who(step.person)))
            && (e.visibility == Customer <==> step.ReplyTo?))
      && t.status == (if step.Move? && TICKET_FLOW.Can(s.status, step.to) then step.to else s.status)
      && t.assignee == (if step.Assign? then step.person else s.assignee)
      && t.firstResponseAt ==
           (if step.ReplyTo? && !idle && s.firstResponseAt.None? then Some(step.now) else s.firstResponseAt)
      && (!step.Move? ==> t.resolvedAt == s.resolvedAt)
  {
  }

  /** When the work was resolved, read from the log: the first move to resolved since the
      ticket was last opened. */
  function ResolvedSince(timeline: seq<Entry<Value>>): Option<int> {
    if timeline == [] then None
    else
      var n := |timeline| - 1;
      var e, before := timeline[n], ResolvedSince(timeline[..n]);
      if e.kind != StatusChange then before
      else if e.to == Some(Is(Open)) then None
      else if e.to == Some(Is(Resolved)) && before.None? then Some(e.at)
      else before
  }

  /** In every run the resolution stamp is that instant: closing keeps it, opening again
      clears it, and nothing else moves it. */
  lemma {:induction false} ResolutionIsTheMove(s: State, steps: seq<Step>)
    requires Sound(s) && s.resolvedAt == ResolvedSince(s.timeline)
    ensures Run(s, steps).resolvedAt == ResolvedSince(Run(s, steps).timeline)
    decreases |steps|
  {
    if steps != [] {
      StepKeepsSound(s, steps[0]);
      StepResolves(s, steps[0]);
      ResolutionIsTheMove(After(s, steps[0]), steps[1..]);
    }
  }

  lemma StepResolves(s: State, step: Step)
    requires Sound(s) && s.resolvedAt == ResolvedSince(s.timeline)
    ensures After(s, step).resolvedAt == ResolvedSince(After(s, step).timeline)
  {
    hide Replay, FirstReply, Guarded;
    var t := After(s, step);
    if |t.timeline| > |s.timeline| { AppendEntry(s.timeline, t.timeline[|s.timeline|]); }
  }

  lemma RaisedIsUnresolved(now: int)
    ensures Raised(now).resolvedAt == ResolvedSince(Raised(now).timeline)
  {
  }

  /** A ticket that never moved has no time in status. */
  lemma NeverMoved(s: State, steps: seq<Step>, now: int)
    requires LatestStatus(s.timeline).None? && forall i | 0 <= i < |steps| :: !steps[i].Move?
    ensures DurationInCurrentStatus(Run(s, steps).timeline, now) == None
  {
    LatestStaysWithoutMoves(s, steps);
  }
}
