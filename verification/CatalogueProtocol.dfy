/** The once-only initialisation of the catalogue by concurrent callers: one shared state word, two
    tables, and any number of callers taking atomic steps in any order. */
module CatalogueProtocol {
  import opened Wrappers
  import opened Catalogue

  datatype Word = Uninitialised | Initialising | Ready

  /** Where a caller is.  The initialising caller remembers what its scan of the current kind is going
      to report and how much of it has been taken in. */
  datatype Caller =
    | Outside
    | Entered
    | Contending
    | Waiting
    | Scanning(kind: Kind, found: seq<Metadata>, taken: nat)
    | Publishing
    | Reading

  /** The accepted scan of a kind, once it is settled. */
  datatype Settled = Pending | Whole(found: seq<Metadata>) | Nothing

  datatype State = State(word: Word, calendars: seq<Entry>, clocks: seq<Entry>,
                         calendarsSettled: Settled, clocksSettled: Settled, callers: map<nat, Caller>)

  /** What a caller does next, with the choices the environment makes for it: what a scan reports and
      where it fails. */
  datatype Action =
    | Call
    | Check
    | TryBegin(found: seq<Metadata>)
    | Wake
    | TakeIn
    | FailScan(next: seq<Metadata>)
    | EndScan(next: seq<Metadata>)
    | Publish
    | Return

  /** The built-in tables. */
  datatype Builtins = Builtins(calendars: seq<Entry>, clocks: seq<Entry>)

  ghost function Of(b: Builtins, kind: Kind): seq<Entry> {
    if kind.Calendar? then b.calendars else b.clocks
  }

  ghost function TableOf(s: State, kind: Kind): seq<Entry> {
    if kind.Calendar? then s.calendars else s.clocks
  }

  ghost function WithTable(s: State, kind: Kind, table: seq<Entry>): State {
    if kind.Calendar? then s.(calendars := table) else s.(clocks := table)
  }

  ghost function Settle(s: State, kind: Kind, outcome: Settled): State {
    if kind.Calendar? then s.(calendarsSettled := outcome) else s.(clocksSettled := outcome)
  }

  ghost function Move(s: State, t: nat, c: Caller): State { s.(callers := s.callers[t := c]) }

  /** After the calendars come the clocks; after the clocks, publication. */
  ghost function NextKind(kind: Kind, next: seq<Metadata>): Caller {
    if kind.Calendar? then Scanning(Clock, next, 0) else Publishing
  }

  /** One atomic step of a caller, where its position allows the action. */
  ghost function Perform(b: Builtins, s: State, t: nat, a: Action): Option<State> {
    if t !in s.callers then None
    else
      var c := s.callers[t];
      match a
      case Call => if c.Outside? then Some(Move(s, t, Entered)) else None
      case Check =>
        if !c.Entered? then None
        else Some(Move(s, t, if s.word.Ready? then Reading else Contending))
      case TryBegin(found) =>
        if !c.Contending? then None
        else if s.word.Uninitialised? then Some(Move(s, t, Scanning(Calendar, found, 0)).(word := Initialising))
        else Some(Move(s, t, Waiting))
      case Wake => if c.Waiting? && s.word.Ready? then Some(Move(s, t, Reading)) else None
      case TakeIn =>
        if !c.Scanning? || c.taken >= |c.found| then None
        else
          var table := Accept(c.kind, Of(b, c.kind), TableOf(s, c.kind), c.found[c.taken]);
          Some(Move(WithTable(s, c.kind, table), t, c.(taken := c.taken + 1)))
      case FailScan(next) =>
        if !c.Scanning? then None
        else Some(Move(Settle(WithTable(s, c.kind, []), c.kind, Nothing), t, NextKind(c.kind, next)))
      case EndScan(next) =>
        if !c.Scanning? || c.taken < |c.found| then None
        else Some(Move(Settle(s, c.kind, Whole(c.found)), t, NextKind(c.kind, next)))
      case Publish => if c.Publishing? then Some(Move(s.(word := Ready), t, Reading)) else None
      case Return => if c.Reading? then Some(Move(s, t, Outside)) else None
  }

  ghost predicate Starts(s: State) {
    && s.word.Uninitialised? && s.calendars == [] && s.clocks == []
    && s.calendarsSettled.Pending? && s.clocksSettled.Pending?
    && forall t :: t in s.callers ==> s.callers[t].Outside?
  }

  /** A schedule: who acts, and how. */
  type Schedule = seq<(nat, Action)>

  /** Running a schedule; a step that is not allowed stops the run. */
  ghost function Run(b: Builtins, s: State, steps: Schedule): Option<State>
    decreases |steps|
  {
    if steps == [] then Some(s)
    else
      var next := Perform(b, s, steps[0].0, steps[0].1);
      if next.None? then None else Run(b, next.value, steps[1..])
  }

  predicate Holder(c: Caller) { c.Scanning? || c.Publishing? }

  /** The table of a kind is what its settled outcome says, or what its scan has taken in so far. */
  ghost predicate TableMatches(b: Builtins, s: State, kind: Kind, outcome: Settled) {
    match outcome
    case Pending => true
    case Whole(found) => TableOf(s, kind) == Accepted(kind, Of(b, kind), found)
    case Nothing => TableOf(s, kind) == []
  }

  ghost predicate ScanMatches(b: Builtins, s: State, c: Caller) {
    match c
    case Scanning(Calendar, found, taken) =>
      && taken <= |found| && s.calendars == Accepted(Calendar, b.calendars, found[..taken])
      && s.calendarsSettled.Pending? && s.clocksSettled.Pending? && s.clocks == []
    case Scanning(Clock, found, taken) =>
      && taken <= |found| && s.clocks == Accepted(Clock, b.clocks, found[..taken])
      && !s.calendarsSettled.Pending? && s.clocksSettled.Pending?
    case Publishing => !s.calendarsSettled.Pending? && !s.clocksSettled.Pending?
    case _ => true
  }

  /** Who holds the initialisation, and who may be reading. */
  ghost predicate Locked(s: State) {
    && (s.word.Initialising? <==> exists t :: t in s.callers && Holder(s.callers[t]))
    && (forall t, u :: t in s.callers && u in s.callers && Holder(s.callers[t]) && Holder(s.callers[u]) ==> t == u)
    && (forall t :: t in s.callers && s.callers[t].Reading? ==> s.word.Ready?)
    && (forall t :: t in s.callers && s.callers[t].Waiting? ==> !s.word.Uninitialised?)
  }

  /** What the tables hold. */
  ghost predicate Filled(b: Builtins, s: State) {
    && (s.word.Uninitialised? ==>
          s.calendars == [] && s.clocks == [] && s.calendarsSettled.Pending? && s.clocksSettled.Pending?)
    && (forall t :: t in s.callers ==> ScanMatches(b, s, s.callers[t]))
    && (s.word.Ready? ==> !s.calendarsSettled.Pending? && !s.clocksSettled.Pending?)
    && TableMatches(b, s, Calendar, s.calendarsSettled) && TableMatches(b, s, Clock, s.clocksSettled)
  }

  /** What every reachable state satisfies. */
  ghost predicate Inv(b: Builtins, s: State) { Locked(s) && Filled(b, s) }

  lemma StartsInv(b: Builtins, s: State)
    requires Starts(s)
    ensures Inv(b, s)
  {
  }

  /** Every step of every caller keeps the invariant. */
  lemma StepKeepsInv(b: Builtins, s: State, t: nat, a: Action)
    requires Inv(b, s) && Perform(b, s, t, a).Some?
    ensures Inv(b, Perform(b, s, t, a).value)
  {
    StepKeepsLocked(b, s, t, a);
    hide Locked;
    hide Perform;
    match a
    case TakeIn => TakeInKeepsFilled(b, s, t);
    case FailScan(next) => SettleKeepsFilled(b, s, t, a);
    case EndScan(next) => SettleKeepsFilled(b, s, t, a);
    case _ => MoveKeepsFilled(b, s, t, a);
  }

  /** The initialisation changes hands only from nobody to one caller and back. */
  lemma StepKeepsLocked(b: Builtins, s: State, t: nat, a: Action)
    requires Locked(s) && Perform(b, s, t, a).Some?
    ensures Locked(Perform(b, s, t, a).value)
  {
    var next := Perform(b, s, t, a).value;
    OnlyCallerMoves(b, s, t, a);
    hide Perform;
    if Holder(next.callers[t]) {
      assert Holder(next.callers[t]);
    } else if !Holder(s.callers[t]) {
      HoldersStay(s, next, t);
    }
  }

  /** What one step may do to the positions and the word. */
  lemma OnlyCallerMoves(b: Builtins, s: State, t: nat, a: Action)
    requires Perform(b, s, t, a).Some?
    ensures var next := Perform(b, s, t, a).value;
      && t in s.callers && next.callers.Keys == s.callers.Keys
      && (forall u :: u in s.callers && u != t ==> next.callers[u] == s.callers[u])
      && (Holder(next.callers[t]) && !Holder(s.callers[t]) ==> s.word.Uninitialised? && next.word.Initialising?)
      && (!Holder(next.callers[t]) && Holder(s.callers[t]) ==> next.word.Ready?)
      && (Holder(next.callers[t]) == Holder(s.callers[t]) ==> next.word == s.word)
      && (next.callers[t].Reading? ==> next.word.Ready?)
      && (next.callers[t].Waiting? ==> !next.word.Uninitialised?)
  {
    hide Accept;
  }

  /** A step between positions that hold nothing changes no holder. */
  lemma HoldersStay(s: State, next: State, t: nat)
    requires t in s.callers && !Holder(s.callers[t]) && next.callers.Keys == s.callers.Keys
    requires !Holder(next.callers[t]) && forall u :: u in s.callers && u != t ==> next.callers[u] == s.callers[u]
    ensures (exists u :: u in s.callers && Holder(s.callers[u])) <==> (exists u :: u in next.callers && Holder(next.callers[u]))
  {
    if u :| u in s.callers && Holder(s.callers[u]) {
      assert Holder(next.callers[u]);
    }
    if u :| u in next.callers && Holder(next.callers[u]) {
      assert Holder(s.callers[u]);
    }
  }

  lemma IdleMatches(b: Builtins, s: State, c: Caller)
    requires !Holder(c)
    ensures ScanMatches(b, s, c)
  {
  }

  /** The other callers hold nothing, so nothing is asked of them. */
  lemma OthersMatch(b: Builtins, s: State, next: State, t: nat)
    requires Locked(s) && t in s.callers && next.callers.Keys == s.callers.Keys
    requires forall u :: u in s.callers && u != t ==> next.callers[u] == s.callers[u]
    requires Holder(s.callers[t]) || s.word != Initialising
    requires ScanMatches(b, next, next.callers[t])
    ensures forall u :: u in next.callers ==> ScanMatches(b, next, next.callers[u])
  {
    hide ScanMatches;
    forall u | u in next.callers
      ensures ScanMatches(b, next, next.callers[u])
    {
      if u != t {
        assert !Holder(s.callers[u]);
        IdleMatches(b, next, next.callers[u]);
      }
    }
  }

  /** Taking in one reported module. */
  lemma ScanAdvances(b: Builtins, s: State, c: Caller)
    requires c.Scanning? && c.taken < |c.found| && ScanMatches(b, s, c)
    requires TableMatches(b, s, Calendar, s.calendarsSettled) && TableMatches(b, s, Clock, s.clocksSettled)
    ensures var next := WithTable(s, c.kind, Accept(c.kind, Of(b, c.kind), TableOf(s, c.kind), c.found[c.taken]));
      && ScanMatches(b, next, c.(taken := c.taken + 1))
      && TableMatches(b, next, Calendar, s.calendarsSettled) && TableMatches(b, next, Clock, s.clocksSettled)
  {
    match c
    case Scanning(Calendar, found, taken) => CalendarAdvances(b, s, found, taken);
    case Scanning(Clock, found, taken) => ClockAdvances(b, s, found, taken);
  }

  lemma CalendarAdvances(b: Builtins, s: State, found: seq<Metadata>, taken: nat)
    requires taken < |found| && ScanMatches(b, s, Scanning(Calendar, found, taken))
    requires TableMatches(b, s, Clock, s.clocksSettled)
    ensures var next := s.(calendars := Accept(Calendar, b.calendars, s.calendars, found[taken]));
      && ScanMatches(b, next, Scanning(Calendar, found, taken + 1))
      && TableMatches(b, next, Calendar, s.calendarsSettled) && TableMatches(b, next, Clock, s.clocksSettled)
  {
    AcceptedNext(Calendar, b.calendars, found, taken);
    hide Accept;
    hide Accepted;
  }

  lemma ClockAdvances(b: Builtins, s: State, found: seq<Metadata>, taken: nat)
    requires taken < |found| && ScanMatches(b, s, Scanning(Clock, found, taken))
    requires TableMatches(b, s, Calendar, s.calendarsSettled)
    ensures var next := s.(clocks := Accept(Clock, b.clocks, s.clocks, found[taken]));
      && ScanMatches(b, next, Scanning(Clock, found, taken + 1))
      && TableMatches(b, next, Calendar, s.calendarsSettled) && TableMatches(b, next, Clock, s.clocksSettled)
  {
    AcceptedNext(Clock, b.clocks, found, taken);
    hide Accept;
    hide Accepted;
  }

  lemma TakeInKeepsFilled(b: Builtins, s: State, t: nat)
    requires Inv(b, s) && Perform(b, s, t, TakeIn).Some?
    ensures Filled(b, Perform(b, s, t, TakeIn).value)
  {
    var c := s.callers[t];
    assert ScanMatches(b, s, c) && Holder(c);
    ScanAdvances(b, s, c);
    var next := Perform(b, s, t, TakeIn).value;
    var filled := WithTable(s, c.kind, Accept(c.kind, Of(b, c.kind), TableOf(s, c.kind), c.found[c.taken]));
    assert next == Move(filled, t, c.(taken := c.taken + 1));
    SameTables(b, filled, next, c.(taken := c.taken + 1));
    hide ScanMatches;
    hide TableMatches;
    hide Accept;
    hide Perform;
    OthersMatch(b, s, next, t);
  }

  /** The matching predicates look at the tables and outcomes only. */
  lemma SameTables(b: Builtins, s: State, next: State, c: Caller)
    requires next.calendars == s.calendars && next.clocks == s.clocks
    requires next.calendarsSettled == s.calendarsSettled && next.clocksSettled == s.clocksSettled
    ensures ScanMatches(b, next, c) == ScanMatches(b, s, c)
    ensures TableMatches(b, next, Calendar, s.calendarsSettled) == TableMatches(b, s, Calendar, s.calendarsSettled)
    ensures TableMatches(b, next, Clock, s.clocksSettled) == TableMatches(b, s, Clock, s.clocksSettled)
  {
    hide Accepted;
  }

  lemma SettleKeepsFilled(b: Builtins, s: State, t: nat, a: Action)
    requires Inv(b, s) && Perform(b, s, t, a).Some? && (a.FailScan? || a.EndScan?)
    ensures Filled(b, Perform(b, s, t, a).value)
  {
    var c := s.callers[t];
    assert ScanMatches(b, s, c) && Holder(c);
    if a.EndScan? {
      assert c.found[..c.taken] == c.found;
    }
    EmptyAccepted(b, Clock, a.next);
    hide Accepted;
    var next := Perform(b, s, t, a).value;
    assert ScanMatches(b, next, next.callers[t]);
    assert TableMatches(b, next, Calendar, next.calendarsSettled) && TableMatches(b, next, Clock, next.clocksSettled);
    hide ScanMatches;
    hide TableMatches;
    OthersMatch(b, s, next, t);
  }

  lemma EmptyAccepted(b: Builtins, kind: Kind, found: seq<Metadata>)
    ensures Accepted(kind, Of(b, kind), found[..0]) == []
  {
  }

  lemma MoveKeepsFilled(b: Builtins, s: State, t: nat, a: Action)
    requires Inv(b, s) && Perform(b, s, t, a).Some?
    requires !a.TakeIn? && !a.FailScan? && !a.EndScan?
    ensures Filled(b, Perform(b, s, t, a).value)
  {
    var next := Perform(b, s, t, a).value;
    var c := s.callers[t];
    assert ScanMatches(b, s, c);
    if a.TryBegin? {
      EmptyAccepted(b, Calendar, a.found);
    }
    hide Accepted;
    hide Accept;
    assert ScanMatches(b, next, next.callers[t]);
    SameTables(b, s, next, c);
    if Holder(c) || s.word != Initialising {
      hide ScanMatches;
      hide TableMatches;
      OthersMatch(b, s, next, t);
    } else {
      hide TableMatches;
      forall u | u in next.callers
        ensures ScanMatches(b, next, next.callers[u])
      {
        if u != t {
          SameTables(b, s, next, s.callers[u]);
        }
      }
    }
  }

  lemma {:induction false} RunKeepsInv(b: Builtins, s: State, steps: Schedule)
    requires Inv(b, s) && Run(b, s, steps).Some?
    ensures Inv(b, Run(b, s, steps).value)
    decreases |steps|
  {
    hide Inv;
    if steps != [] {
      StepKeepsInv(b, s, steps[0].0, steps[0].1);
      hide Perform;
      RunKeepsInv(b, Perform(b, s, steps[0].0, steps[0].1).value, steps[1..]);
    }
  }

  /** In every interleaving: at most one caller scans, nothing is read before the tables are ready, and
      then each kind holds its whole accepted scan or nothing. */
  lemma ReachableSafe(b: Builtins, start: State, steps: Schedule)
    requires Starts(start) && Run(b, start, steps).Some?
    ensures var s := Run(b, start, steps).value;
      && (forall t, u :: t in s.callers && u in s.callers && Holder(s.callers[t]) && Holder(s.callers[u]) ==> t == u)
      && (forall t :: t in s.callers && s.callers[t].Reading? ==> s.word.Ready?)
      && (s.word.Ready? ==>
            && !s.calendarsSettled.Pending? && TableMatches(b, s, Calendar, s.calendarsSettled)
            && !s.clocksSettled.Pending? && TableMatches(b, s, Clock, s.clocksSettled))
  {
    StartsInv(b, start);
    RunKeepsInv(b, start, steps);
    hide Run;
    hide TableMatches;
    hide ScanMatches;
  }

  /** Once ready, the tables never change again. */
  lemma {:induction false} SnapshotStable(b: Builtins, s: State, steps: Schedule)
    requires Inv(b, s) && s.word.Ready? && Run(b, s, steps).Some?
    ensures var later := Run(b, s, steps).value;
      later.word.Ready? && later.calendars == s.calendars && later.clocks == s.clocks
    decreases |steps|
  {
    if steps != [] {
      var (t, a) := steps[0];
      StepKeepsInv(b, s, t, a);
      ReadyStep(b, s, t, a);
      hide Inv;
      hide Perform;
      SnapshotStable(b, Perform(b, s, t, a).value, steps[1..]);
    }
  }

  lemma ReadyStep(b: Builtins, s: State, t: nat, a: Action)
    requires Inv(b, s) && s.word.Ready? && Perform(b, s, t, a).Some?
    ensures var next := Perform(b, s, t, a).value;
      next.word.Ready? && next.calendars == s.calendars && next.clocks == s.clocks
  {
    assert !Holder(s.callers[t]);
    hide ScanMatches;
    hide TableMatches;
  }

  /** So whatever two callers read, at any two moments of any run, is the same catalogue. */
  lemma ReadersAgree(b: Builtins, start: State, early: Schedule, late: Schedule, t: nat, u: nat)
    requires Starts(start) && Run(b, start, early).Some? && Run(b, Run(b, start, early).value, late).Some?
    requires var s := Run(b, start, early).value; t in s.callers && s.callers[t].Reading?
    requires var s := Run(b, Run(b, start, early).value, late).value; u in s.callers && s.callers[u].Reading?
    ensures var s, later := Run(b, start, early).value, Run(b, Run(b, start, early).value, late).value;
      later.calendars == s.calendars && later.clocks == s.clocks
  {
    ReachableSafe(b, start, early);
    StartsInv(b, start);
    RunKeepsInv(b, start, early);
    hide Inv;
    hide Run;
    SnapshotStable(b, Run(b, start, early).value, late);
  }

  /** The catalogue a reader sees has distinct identifiers and finds each entry under its own. */
  lemma ReaderFindsEntries(b: Builtins, start: State, steps: Schedule, t: nat, kind: Kind, i: nat)
    requires Starts(start) && Run(b, start, steps).Some?
    requires DistinctIds(b.calendars) && DistinctIds(b.clocks)
    requires var s := Run(b, start, steps).value; t in s.callers && s.callers[t].Reading?
    requires i < |Of(b, kind) + TableOf(Run(b, start, steps).value, kind)|
    ensures var all := Of(b, kind) + TableOf(Run(b, start, steps).value, kind);
      DistinctIds(all) && FirstWith(all, all[i].id) == Some(all[i])
  {
    ReachableSafe(b, start, steps);
    var s := Run(b, start, steps).value;
    hide Run;
    var settled := if kind.Calendar? then s.calendarsSettled else s.clocksSettled;
    hide Accepted;
    hide DistinctIds;
    hide FirstWith;
    if settled.Whole? {
      FindOfAt(kind, Of(b, kind), settled.found, true, i);
    } else {
      FindOfAt(kind, Of(b, kind), [], false, i);
    }
  }

  /** A caller is never stuck: while the tables are not ready, either it can act itself or the one
      initialising caller can. */
  lemma NeverStuck(b: Builtins, s: State, t: nat)
    requires Inv(b, s) && t in s.callers
    ensures exists u, a :: u in s.callers && (u == t || Holder(s.callers[u])) && Perform(b, s, u, a).Some?
  {
    var c := s.callers[t];
    match c
    case Outside => assert Perform(b, s, t, Call).Some?;
    case Entered => assert Perform(b, s, t, Check).Some?;
    case Contending => assert Perform(b, s, t, TryBegin([])).Some?;
    case Scanning(_, _, _) => assert Perform(b, s, t, FailScan([])).Some?;
    case Publishing => assert Perform(b, s, t, Publish).Some?;
    case Reading => assert Perform(b, s, t, Return).Some?;
    case Waiting =>
      if s.word.Ready? {
        assert Perform(b, s, t, Wake).Some?;
      } else {
        var u :| u in s.callers && Holder(s.callers[u]);
        HolderCanAct(b, s, u);
      }
  }

  lemma HolderCanAct(b: Builtins, s: State, u: nat)
    requires u in s.callers && Holder(s.callers[u])
    ensures exists a :: Perform(b, s, u, a).Some?
  {
    if s.callers[u].Scanning? {
      assert Perform(b, s, u, FailScan([])).Some?;
    } else {
      assert Perform(b, s, u, Publish).Some?;
    }
  }
}
