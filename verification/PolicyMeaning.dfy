/** What an accepted version 3 document says, read off its lines: every field comes from the one line that
    has its key. */
module PolicyMeaning {
  import opened Wrappers
  import opened Binary64
  import opened Ascii
  import opened DecimalDigits
  import opened ConfigLines
  import opened TemporalId
  import opened Coordinates
  import opened PolicyDocument

  predicate HasKey(line: string, key: string) { LineOf(line).Entry? && LineOf(line).key == key }

  /** Exactly one line has the key, and this is its value. */
  ghost predicate OnlyLine(lines: seq<string>, key: string, value: string) {
    exists i :: 0 <= i < |lines| && OnlyAt(lines, key, value, i)
  }

  ghost predicate OnlyAt(lines: seq<string>, key: string, value: string, i: int)
    requires 0 <= i < |lines|
  {
    && LineOf(lines[i]) == Entry(key, value)
    && forall j :: 0 <= j < |lines| && j != i ==> !HasKey(lines[j], key)
  }

  ghost predicate NoLine(lines: seq<string>, key: string) {
    forall j :: 0 <= j < |lines| ==> !HasKey(lines[j], key)
  }

  /** Fits the line buffer with its terminator, and is blank, a comment or an entry. */
  predicate Acceptable(line: string) { |line| < 256 && !LineOf(line).Invalid? }

  /** The document says exactly this policy: each of the seven keys has exactly one line, and its value is
      the one the policy has. */
  ghost predicate Describes(modes: seq<string>, lines: seq<string>, p: Policy) {
    && (forall i :: 0 <= i < |lines| ==> Acceptable(lines[i]))
    && OnlyLine(lines, "version", "3")
    && OnlyLine(lines, "clock-mode", p.clockMode) && p.clockMode in modes && |p.clockMode| < 64
    && OnlyLine(lines, "calendar", p.calendar) && IdValid(p.calendar)
    && (exists t :: OnlyLine(lines, "show-seconds", t) && BoolOf(t) == Some(p.showSeconds))
    && (exists t :: OnlyLine(lines, "location-configured", t) && BoolOf(t) == Some(p.locationConfigured))
    && (exists t :: OnlyLine(lines, "latitude", t) && CoordinateOf(t, 90) == Some(p.latitude))
    && (exists t :: OnlyLine(lines, "longitude", t) && CoordinateOf(t, 180) == Some(p.longitude))
  }

  /** What a draft holds for a field. */
  function Held(p: Policy, f: Field): FieldValue {
    match f
    case Version => Nothing
    case ClockMode => Text(p.clockMode)
    case Calendar => Text(p.calendar)
    case ShowSeconds => Flag(p.showSeconds)
    case LocationConfigured => Flag(p.locationConfigured)
    case Latitude => Datum(p.latitude)
    case Longitude => Datum(p.longitude)
  }

  function Key(f: Field): (k: string)
    ensures FieldOf(k) == Some(f)
  {
    match f
    case Version => "version"
    case ClockMode => "clock-mode"
    case Calendar => "calendar"
    case ShowSeconds => "show-seconds"
    case LocationConfigured => "location-configured"
    case Latitude => "latitude"
    case Longitude => "longitude"
  }

  lemma KeyOfField(key: string, f: Field)
    ensures FieldOf(key) == Some(f) <==> key == Key(f)
  {
  }

  lemma HeldAfterSet(modes: seq<string>, p: Policy, f: Field, text: string, g: Field)
    requires ValueOf(modes, f, text).Some?
    ensures var v := ValueOf(modes, f, text).value;
      Held(Set(p, f, v), g) == if g == f then v else Held(p, g)
  {
    hide CoordinateOf;
    hide BoolOf;
    hide IdValid;
  }

  /** The field has exactly one line, whose value is the one the policy has. */
  ghost predicate FieldLine(modes: seq<string>, lines: seq<string>, p: Policy, f: Field) {
    exists t :: OnlyLine(lines, Key(f), t) && ValueOf(modes, f, t) == Some(Held(p, f))
  }

  /** What folding makes of one field. */
  ghost predicate Gathered(modes: seq<string>, d: Draft, lines: seq<string>, e: Draft, f: Field) {
    if f in d.seen then f in e.seen && NoLine(lines, Key(f)) && Held(e.policy, f) == Held(d.policy, f)
    else if f in e.seen then FieldLine(modes, lines, e.policy, f)
    else NoLine(lines, Key(f)) && Held(e.policy, f) == Held(d.policy, f)
  }

  /** One step: the field of the line, and no other, is filled in. */
  lemma StepGathers(modes: seq<string>, d: Draft, line: string, f: Field)
    requires Step(modes, d, line).Some?
    ensures var e := Step(modes, d, line).value;
      && Acceptable(line)
      && (if HasKey(line, Key(f)) then
            f !in d.seen && f in e.seen && ValueOf(modes, f, LineOf(line).value) == Some(Held(e.policy, f))
          else (f in e.seen <==> f in d.seen) && Held(e.policy, f) == Held(d.policy, f))
  {
    if LineOf(line).Entry? {
      var key, value := LineOf(line).key, LineOf(line).value;
      KeyOfField(key, f);
      if FieldOf(key).Some? && FieldOf(key).value !in d.seen && ValueOf(modes, FieldOf(key).value, value).Some? {
        HeldAfterSet(modes, d.policy, FieldOf(key).value, value, f);
      }
    }
    hide LineOf;
    hide ValueOf;
    hide Set;
    hide FieldOf;
    hide Key;
    hide Held;
  }

  lemma {:induction false} FoldGathers(modes: seq<string>, d: Draft, lines: seq<string>, f: Field)
    requires Fold(modes, d, lines).Some?
    ensures Gathered(modes, d, lines, Fold(modes, d, lines).value, f)
    decreases |lines|
  {
    hide Step;
    hide Gathered;
    if lines == [] {
      NothingGathered(modes, d, f);
    } else {
      var m := Step(modes, d, lines[0]).value;
      StepGathers(modes, d, lines[0], f);
      FoldGathers(modes, m, lines[1..], f);
      hide *;
      GatheredCons(modes, d, lines, m, Fold(modes, m, lines[1..]).value, f);
    }
  }

  lemma NothingGathered(modes: seq<string>, d: Draft, f: Field)
    ensures Gathered(modes, d, [], d, f)
  {
  }

  lemma GatheredCons(modes: seq<string>, d: Draft, lines: seq<string>, m: Draft, e: Draft, f: Field)
    requires lines != [] && Gathered(modes, m, lines[1..], e, f)
    requires if HasKey(lines[0], Key(f)) then
        f !in d.seen && f in m.seen && ValueOf(modes, f, LineOf(lines[0]).value) == Some(Held(m.policy, f))
      else (f in m.seen <==> f in d.seen) && Held(m.policy, f) == Held(d.policy, f)
    ensures Gathered(modes, d, lines, e, f)
  {
    hide ValueOf;
    hide Held;
    hide Key;
    hide OnlyLine;
    hide LineOf;
    NoLineCons(lines, Key(f));
    if HasKey(lines[0], Key(f)) {
      FirstIsOnly(lines, Key(f));
      assert FieldLine(modes, lines, e.policy, f);
    } else if f in e.seen && f !in d.seen {
      var t :| OnlyLine(lines[1..], Key(f), t) && ValueOf(modes, f, t) == Some(Held(e.policy, f));
      OnlyLineCons(lines, Key(f), t);
      assert FieldLine(modes, lines, e.policy, f);
    }
  }

  lemma {:induction false} FoldAccepts(modes: seq<string>, d: Draft, lines: seq<string>, i: nat)
    requires Fold(modes, d, lines).Some? && i < |lines|
    ensures Acceptable(lines[i])
    decreases |lines|
  {
    StepGathers(modes, d, lines[0], Version);
    hide Step;
    hide Acceptable;
    if i > 0 {
      FoldAccepts(modes, Step(modes, d, lines[0]).value, lines[1..], i - 1);
    }
  }

  lemma NoLineCons(lines: seq<string>, key: string)
    requires lines != []
    ensures NoLine(lines, key) <==> !HasKey(lines[0], key) && NoLine(lines[1..], key)
  {
    hide HasKey;
    if !HasKey(lines[0], key) && NoLine(lines[1..], key) {
      forall j | 0 <= j < |lines|
        ensures !HasKey(lines[j], key)
      {
        if j > 0 { assert !HasKey(lines[1..][j - 1], key); }
      }
    }
    if NoLine(lines, key) {
      forall j | 0 <= j < |lines| - 1
        ensures !HasKey(lines[1..][j], key)
      {
        assert !HasKey(lines[j + 1], key);
      }
    }
  }

  lemma FirstIsOnly(lines: seq<string>, key: string)
    requires lines != [] && HasKey(lines[0], key) && NoLine(lines[1..], key)
    ensures OnlyLine(lines, key, LineOf(lines[0]).value)
  {
    hide LineOf;
    assert LineOf(lines[0]) == Entry(key, LineOf(lines[0]).value);
    forall j | 0 <= j < |lines| && j != 0
      ensures !HasKey(lines[j], key)
    {
      assert !HasKey(lines[1..][j - 1], key);
    }
    assert OnlyAt(lines, key, LineOf(lines[0]).value, 0);
  }

  lemma OnlyLineCons(lines: seq<string>, key: string, t: string)
    requires lines != [] && !HasKey(lines[0], key) && OnlyLine(lines[1..], key, t)
    ensures OnlyLine(lines, key, t)
  {
    hide HasKey;
    hide LineOf;
    var i :| 0 <= i < |lines| - 1 && OnlyAt(lines[1..], key, t, i);
    forall j | 0 <= j < |lines| && j != i + 1
      ensures !HasKey(lines[j], key)
    {
      if j > 0 { assert !HasKey(lines[1..][j - 1], key); }
    }
    assert OnlyAt(lines, key, t, i + 1);
  }

  /** Lines that all are acceptable, each relevant one with a fresh field and a proper value, fold. */
  ghost predicate Folds(modes: seq<string>, d: Draft, lines: seq<string>) {
    && (forall i :: 0 <= i < |lines| ==> Acceptable(lines[i]))
    && forall f: Field :: (f in d.seen && NoLine(lines, Key(f))) || (f !in d.seen && FreshLine(modes, lines, f))
  }

  /** No line has the key of a field, or exactly one with a value the field accepts. */
  ghost predicate FreshLine(modes: seq<string>, lines: seq<string>, f: Field) {
    NoLine(lines, Key(f)) || exists t :: OnlyLine(lines, Key(f), t) && ValueOf(modes, f, t).Some?
  }

  lemma {:induction false} FoldsSucceed(modes: seq<string>, d: Draft, lines: seq<string>)
    requires Folds(modes, d, lines)
    ensures Fold(modes, d, lines).Some?
    decreases |lines|
  {
    if lines != [] {
      StepSucceeds(modes, d, lines);
      hide Step;
      hide Folds;
      FoldsSucceed(modes, Step(modes, d, lines[0]).value, lines[1..]);
    }
  }

  lemma StepSucceeds(modes: seq<string>, d: Draft, lines: seq<string>)
    requires Folds(modes, d, lines) && lines != []
    ensures Step(modes, d, lines[0]).Some? && Folds(modes, Step(modes, d, lines[0]).value, lines[1..])
  {
    FirstSteps(modes, d, lines);
    var m := Step(modes, d, lines[0]).value;
    assert forall i :: 0 <= i < |lines[1..]| ==> Acceptable(lines[1..][i]);
    forall f: Field
      ensures (f in m.seen && NoLine(lines[1..], Key(f))) || (f !in m.seen && FreshLine(modes, lines[1..], f))
    {
      StepGathers(modes, d, lines[0], f);
      hide Step;
      hide Acceptable;
      RestFresh(modes, d, lines, f);
    }
    hide Step;
  }

  /** A field whose line is the first has none after it; any other keeps its line. */
  lemma RestFresh(modes: seq<string>, d: Draft, lines: seq<string>, f: Field)
    requires lines != []
    requires (f in d.seen && NoLine(lines, Key(f))) || (f !in d.seen && FreshLine(modes, lines, f))
    ensures if HasKey(lines[0], Key(f)) then NoLine(lines[1..], Key(f))
            else (f in d.seen && NoLine(lines[1..], Key(f))) || (f !in d.seen && FreshLine(modes, lines[1..], f))
  {
    hide ValueOf;
    hide Key;
    hide HasKey;
    NoLineCons(lines, Key(f));
    if !NoLine(lines, Key(f)) {
      var t :| OnlyLine(lines, Key(f), t) && ValueOf(modes, f, t).Some?;
      OnlyLineRest(lines, Key(f), t);
      hide NoLine;
    }
  }

  lemma OnlyLineRest(lines: seq<string>, key: string, t: string)
    requires lines != [] && OnlyLine(lines, key, t)
    ensures HasKey(lines[0], key) ==> NoLine(lines[1..], key) && LineOf(lines[0]).value == t
    ensures !HasKey(lines[0], key) ==> OnlyLine(lines[1..], key, t)
  {
    hide LineOf;
    var i :| 0 <= i < |lines| && OnlyAt(lines, key, t, i);
    assert HasKey(lines[i], key);
    forall j | 0 <= j < |lines[1..]| && j != i - 1
      ensures !HasKey(lines[1..][j], key)
    {
      assert !HasKey(lines[j + 1], key);
    }
    if i > 0 {
      assert OnlyAt(lines[1..], key, t, i - 1);
    }
  }

  lemma FirstSteps(modes: seq<string>, d: Draft, lines: seq<string>)
    requires Folds(modes, d, lines) && lines != []
    ensures Step(modes, d, lines[0]).Some?
  {
    hide LineOf;
    hide ValueOf;
    hide FieldOf;
    hide Key;
    hide NoLine;
    hide OnlyLine;
    assert Acceptable(lines[0]);
    var line := LineOf(lines[0]);
    if line.Entry? && FieldOf(line.key).Some? {
      var f := FieldOf(line.key).value;
      KeyOfField(line.key, f);
      assert HasKey(lines[0], Key(f));
      assert (f in d.seen && NoLine(lines, Key(f))) || (f !in d.seen && FreshLine(modes, lines, f));
      NoLineCons(lines, Key(f));
      var t :| OnlyLine(lines, Key(f), t) && ValueOf(modes, f, t).Some?;
      OnlyLineRest(lines, Key(f), t);
    }
  }

  /** An accepted document says exactly its policy, and a document that says exactly a policy is accepted
      with it: no line may be missing, repeated, malformed or out of range, and nothing else matters. */
  lemma PolicyDescribed(modes: seq<string>, lines: seq<string>, p: Policy)
    ensures PolicyOf(modes, lines) == Some(p) <==> Describes(modes, lines, p)
  {
    if PolicyOf(modes, lines) == Some(p) {
      AcceptedDescribes(modes, lines, p);
    }
    if Describes(modes, lines, p) {
      DescribedAccepted(modes, lines, p);
    }
    hide *;
  }

  /** The value lines of a policy, field by field. */
  ghost predicate Valued(modes: seq<string>, lines: seq<string>, p: Policy) {
    forall f: Field :: FieldLine(modes, lines, p, f)
  }

  lemma TextFields(modes: seq<string>, lines: seq<string>, p: Policy)
    ensures FieldLine(modes, lines, p, Version) <==> OnlyLine(lines, "version", "3")
    ensures FieldLine(modes, lines, p, ClockMode)
      <==> OnlyLine(lines, "clock-mode", p.clockMode) && p.clockMode in modes && |p.clockMode| < ID_CAPACITY
    ensures FieldLine(modes, lines, p, Calendar) <==> OnlyLine(lines, "calendar", p.calendar) && IdValid(p.calendar)
  {
    hide OnlyLine;
    hide IdValid;
    if OnlyLine(lines, "version", "3") {
      assert ValueOf(modes, Version, "3") == Some(Held(p, Version));
    }
    if OnlyLine(lines, "clock-mode", p.clockMode) && p.clockMode in modes && |p.clockMode| < ID_CAPACITY {
      assert ValueOf(modes, ClockMode, p.clockMode) == Some(Held(p, ClockMode));
    }
    if OnlyLine(lines, "calendar", p.calendar) && IdValid(p.calendar) {
      assert ValueOf(modes, Calendar, p.calendar) == Some(Held(p, Calendar));
    }
  }

  lemma FlagFields(modes: seq<string>, lines: seq<string>, p: Policy)
    ensures FieldLine(modes, lines, p, ShowSeconds)
      <==> exists t :: OnlyLine(lines, "show-seconds", t) && BoolOf(t) == Some(p.showSeconds)
    ensures FieldLine(modes, lines, p, LocationConfigured)
      <==> exists t :: OnlyLine(lines, "location-configured", t) && BoolOf(t) == Some(p.locationConfigured)
  {
    FlagValues(modes, p);
    hide OnlyLine;
    hide BoolOf;
    hide ValueOf;
    hide Held;
  }

  lemma FlagValues(modes: seq<string>, p: Policy)
    ensures forall t :: ValueOf(modes, ShowSeconds, t) == Some(Held(p, ShowSeconds)) <==> BoolOf(t) == Some(p.showSeconds)
    ensures forall t ::
              ValueOf(modes, LocationConfigured, t) == Some(Held(p, LocationConfigured))
              <==> BoolOf(t) == Some(p.locationConfigured)
  {
    hide BoolOf;
  }

  lemma CoordinateFields(modes: seq<string>, lines: seq<string>, p: Policy)
    ensures FieldLine(modes, lines, p, Latitude)
      <==> exists t :: OnlyLine(lines, "latitude", t) && CoordinateOf(t, 90) == Some(p.latitude)
    ensures FieldLine(modes, lines, p, Longitude)
      <==> exists t :: OnlyLine(lines, "longitude", t) && CoordinateOf(t, 180) == Some(p.longitude)
  {
    CoordinateValues(modes, p);
    hide OnlyLine;
    hide CoordinateOf;
    hide ValueOf;
    hide Held;
  }

  lemma CoordinateValues(modes: seq<string>, p: Policy)
    ensures forall t :: ValueOf(modes, Latitude, t) == Some(Held(p, Latitude)) <==> CoordinateOf(t, 90) == Some(p.latitude)
    ensures forall t :: ValueOf(modes, Longitude, t) == Some(Held(p, Longitude)) <==> CoordinateOf(t, 180) == Some(p.longitude)
  {
    hide CoordinateOf;
  }

  lemma FieldsOfValued(modes: seq<string>, lines: seq<string>, p: Policy)
    ensures Valued(modes, lines, p) && (forall i :: 0 <= i < |lines| ==> Acceptable(lines[i])) <==> Describes(modes, lines, p)
  {
    TextFields(modes, lines, p);
    FlagFields(modes, lines, p);
    CoordinateFields(modes, lines, p);
    hide FieldLine;
    hide OnlyLine;
    hide Acceptable;
    hide IdValid;
    hide BoolOf;
    hide CoordinateOf;
    if Valued(modes, lines, p) {
      assert FieldLine(modes, lines, p, Version) && FieldLine(modes, lines, p, ClockMode);
      assert FieldLine(modes, lines, p, Calendar) && FieldLine(modes, lines, p, ShowSeconds);
      assert FieldLine(modes, lines, p, LocationConfigured) && FieldLine(modes, lines, p, Latitude);
      assert FieldLine(modes, lines, p, Longitude);
    }
    if Describes(modes, lines, p) {
      forall f: Field
        ensures FieldLine(modes, lines, p, f)
      {
        match f
        case Version =>
        case ClockMode =>
        case Calendar =>
        case ShowSeconds =>
        case LocationConfigured =>
        case Latitude =>
        case Longitude =>
      }
    }
  }

  lemma AcceptedDescribes(modes: seq<string>, lines: seq<string>, p: Policy)
    requires PolicyOf(modes, lines) == Some(p)
    ensures Describes(modes, lines, p)
  {
    var start := Draft(DEFAULT, {});
    EveryField(modes, start, lines, p);
    forall i | 0 <= i < |lines|
      ensures Acceptable(lines[i])
    {
      FoldAccepts(modes, start, lines, i);
    }
    hide *;
    FieldsOfValued(modes, lines, p);
    AllAccepted(modes, lines, p);
  }

  lemma AllAccepted(modes: seq<string>, lines: seq<string>, p: Policy)
    requires Valued(modes, lines, p) && (forall i :: 0 <= i < |lines| ==> Acceptable(lines[i]))
    ensures Describes(modes, lines, p)
  {
    FieldsOfValued(modes, lines, p);
    hide Describes;
  }

  lemma EveryField(modes: seq<string>, start: Draft, lines: seq<string>, p: Policy)
    requires start == Draft(DEFAULT, {}) && PolicyOf(modes, lines) == Some(p)
    ensures Valued(modes, lines, p)
  {
    hide Fold;
    hide FieldLine;
    hide Held;
    hide IdValid;
    forall f: Field
      ensures FieldLine(modes, lines, p, f)
    {
      FoldGathers(modes, start, lines, f);
      assert f in FIELDS;
    }
  }

  lemma DescribedAccepted(modes: seq<string>, lines: seq<string>, p: Policy)
    requires Describes(modes, lines, p)
    ensures PolicyOf(modes, lines) == Some(p)
  {
    FieldsOfValued(modes, lines, p);
    ValuedFolds(modes, Draft(DEFAULT, {}), lines, p);
    FoldsSucceed(modes, Draft(DEFAULT, {}), lines);
    assert p.clockMode in modes && IdValid(p.calendar);
    hide *;
    FoldedPolicy(modes, lines, p, Fold(modes, Draft(DEFAULT, {}), lines).value);
  }

  lemma FoldedPolicy(modes: seq<string>, lines: seq<string>, p: Policy, e: Draft)
    requires Fold(modes, Draft(DEFAULT, {}), lines) == Some(e) && Valued(modes, lines, p)
    requires p.clockMode in modes && IdValid(p.calendar)
    ensures PolicyOf(modes, lines) == Some(p)
  {
    hide Fold;
    hide IdValid;
    hide Held;
    hide Gathered;
    hide Valued;
    forall f: Field
      ensures f in e.seen && Held(e.policy, f) == Held(p, f)
    {
      FoldGathers(modes, Draft(DEFAULT, {}), lines, f);
      FieldDetermined(modes, lines, p, e, f);
    }
    SameHeld(e.policy, p);
    EverySeen(e.seen);
  }

  lemma EverySeen(seen: set<Field>)
    requires forall f: Field :: f in seen
    ensures seen == FIELDS
  {
    forall f: Field
      ensures f in FIELDS
    {
      match f
      case Version =>
      case ClockMode =>
      case Calendar =>
      case ShowSeconds =>
      case LocationConfigured =>
      case Latitude =>
      case Longitude =>
    }
  }

  lemma ValuedFolds(modes: seq<string>, start: Draft, lines: seq<string>, p: Policy)
    requires Valued(modes, lines, p) && start.seen == {} && forall i :: 0 <= i < |lines| ==> Acceptable(lines[i])
    ensures Folds(modes, start, lines)
  {
    hide Acceptable;
    hide OnlyLine;
    hide NoLine;
    hide ValueOf;
    hide Key;
    hide Held;
    forall f: Field
      ensures FreshLine(modes, lines, f)
    {
      assert FieldLine(modes, lines, p, f);
    }
    hide FreshLine;
    hide FieldLine;
  }

  lemma FieldDetermined(modes: seq<string>, lines: seq<string>, p: Policy, e: Draft, f: Field)
    requires Valued(modes, lines, p) && Gathered(modes, Draft(DEFAULT, {}), lines, e, f)
    ensures f in e.seen && Held(e.policy, f) == Held(p, f)
  {
    hide ValueOf;
    hide Held;
    hide Key;
    hide OnlyLine;
    hide NoLine;
    assert FieldLine(modes, lines, p, f);
    var t :| OnlyLine(lines, Key(f), t) && ValueOf(modes, f, t) == Some(Held(p, f));
    OneLine(lines, Key(f), t);
    if f in e.seen {
      var u :| OnlyLine(lines, Key(f), u) && ValueOf(modes, f, u) == Some(Held(e.policy, f));
      SameLine(lines, Key(f), t, u);
    }
  }

  lemma OneLine(lines: seq<string>, key: string, t: string)
    requires OnlyLine(lines, key, t)
    ensures !NoLine(lines, key)
  {
    var i :| 0 <= i < |lines| && OnlyAt(lines, key, t, i);
    assert HasKey(lines[i], key);
  }

  lemma SameLine(lines: seq<string>, key: string, t: string, u: string)
    requires OnlyLine(lines, key, t) && OnlyLine(lines, key, u)
    ensures t == u
  {
    hide LineOf;
    var i :| 0 <= i < |lines| && OnlyAt(lines, key, t, i);
    var j :| 0 <= j < |lines| && OnlyAt(lines, key, u, j);
    assert HasKey(lines[i], key);
  }

  lemma SameHeld(a: Policy, b: Policy)
    requires forall f: Field :: Held(a, f) == Held(b, f)
    ensures a == b
  {
    assert Held(a, ClockMode) == Held(b, ClockMode) && Held(a, Calendar) == Held(b, Calendar);
    assert Held(a, ShowSeconds) == Held(b, ShowSeconds) && Held(a, LocationConfigured) == Held(b, LocationConfigured);
    assert Held(a, Latitude) == Held(b, Latitude) && Held(a, Longitude) == Held(b, Longitude);
  }

  /** The whole contract of the version 3 parser. */
  lemma ParsedDescribed(modes: seq<string>, text: string, p: Policy)
    ensures Parsed(modes, text) == Accepted(p) <==> Describes(modes, Lines(text), p)
  {
    PolicyDescribed(modes, Lines(text), p);
    if PolicyOf(modes, Lines(text)) == Some(p) {
      FoldedVersion(modes, Draft(DEFAULT, {}), Lines(text));
    }
    hide Fold;
    hide DocumentVersion;
    hide Lines;
    hide Describes;
  }

  /** The first version line decides how a document is read, if every line up to it is acceptable. */
  lemma {:induction false} FirstVersionLine(lines: seq<string>, k: nat, value: string)
    requires k < |lines| && LineOf(lines[k]) == Entry("version", value)
    requires forall j :: 0 <= j <= k ==> Acceptable(lines[j])
    requires forall j :: 0 <= j < k ==> !HasKey(lines[j], "version")
    ensures DocumentVersion(lines) == VersionNumber(value)
    decreases k
  {
    hide LineOf;
    hide VersionNumber;
    assert Acceptable(lines[0]);
    if k > 0 {
      assert !HasKey(lines[0], "version");
      forall j | 0 <= j <= k - 1
        ensures Acceptable(lines[1..][j])
      {
        assert Acceptable(lines[j + 1]);
      }
      forall j | 0 <= j < k - 1
        ensures !HasKey(lines[1..][j], "version")
      {
        assert !HasKey(lines[j + 1], "version");
      }
      FirstVersionLine(lines[1..], k - 1, value);
    }
  }

  /** A version is a decimal number between spaces. */
  lemma VersionNumberReads(before: string, n: nat, after: string)
    requires AllSpaces(before) && AllSpaces(after) && 1 <= n <= 0xFFFF_FFFF
    ensures VersionNumber(before + Decimal(n) + after) == Some(n)
  {
    var number := Decimal(n);
    DecimalReads(n);
    NumberIsDecimal(number);
    hide Decimal;
    hide NumberOf;
    hide DecimalValue;
    hide DigitsOf;
    NumberBetween(before, number, after);
  }

  lemma {:induction false} NumberIsDecimal(s: string)
    requires AllDigits(s)
    ensures NumberOf(s) == DecimalValue(DigitsOf(s))
    decreases |s|
  {
    if s != "" {
      var n := |s| - 1;
      NumberIsDecimal(s[..n]);
      assert DigitsOf(s) == DigitsOf(s[..n]) + [DigitValue(s[n])];
      PushDigit(DigitsOf(s[..n]), DigitValue(s[n]));
    }
  }

  lemma NumberBetween(before: string, number: string, after: string)
    requires AllSpaces(before) && AllSpaces(after) && number != "" && AllDigits(number)
    requires 1 <= NumberOf(number) <= 0xFFFF_FFFF
    ensures VersionNumber(before + number + after) == Some(NumberOf(number))
  {
    hide NumberOf;
    var s := before + number + after;
    var i := |before|;
    var e := i + |number|;
    assert s[0..i] == before && s[i..e] == number && s[e..|s|] == after;
    assert At(s, i) == number[0];
    assert e < |s| ==> At(s, e) == after[0];
    SpaceEndUnique(s, 0, i);
    DigitEndUnique(s, i, e);
    SpaceEndUnique(s, e, |s|);
  }

  /** Documents that announce version 1 or 2 are handed to their migrations, whatever else they say. */
  lemma MigratedByVersion(modes: seq<string>, text: string, n: nat)
    ensures Parsed(modes, text) == Migrated(n) <==> DocumentVersion(Lines(text)) == Some(n) && (n == 1 || n == 2)
  {
    hide Fold;
    hide DocumentVersion;
    hide Lines;
  }
}
