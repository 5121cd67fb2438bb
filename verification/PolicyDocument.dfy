/** The version 3 policy document: key=value lines, each required key exactly once, in any order. */
module PolicyDocument {
  import opened Wrappers
  import opened Binary64
  import opened Ascii
  import opened DecimalDigits
  import opened ConfigLines
  import opened TemporalId
  import opened Coordinates

  const LINE_CAPACITY: nat := 256

  datatype Policy = Policy(clockMode: string, calendar: string, showSeconds: bool, locationConfigured: bool,
                           latitude: Bits64, longitude: Bits64)

  const DEFAULT: Policy := Policy("standard", "gregorian", false, false, 0, 0)

  datatype Field = Version | ClockMode | Calendar | ShowSeconds | LocationConfigured | Latitude | Longitude

  const FIELDS: set<Field> := {Version, ClockMode, Calendar, ShowSeconds, LocationConfigured, Latitude, Longitude}

  function FieldOf(key: string): Option<Field> {
    if key == "version" then Some(Version)
    else if key == "clock-mode" then Some(ClockMode)
    else if key == "calendar" then Some(Calendar)
    else if key == "show-seconds" then Some(ShowSeconds)
    else if key == "location-configured" then Some(LocationConfigured)
    else if key == "latitude" then Some(Latitude)
    else if key == "longitude" then Some(Longitude)
    else None
  }

  datatype FieldValue = Nothing | Text(text: string) | Flag(flag: bool) | Datum(bits: Bits64)

  /** The value a field takes from a text, if it accepts the text. */
  ghost function ValueOf(modes: seq<string>, f: Field, text: string): Option<FieldValue> {
    match f
    case Version => if text == "3" then Some(Nothing) else None
    case ClockMode => if text in modes && |text| < ID_CAPACITY then Some(Text(text)) else None
    case Calendar => if IdValid(text) then Some(Text(text)) else None
    case ShowSeconds => FlagOf(text)
    case LocationConfigured => FlagOf(text)
    case Latitude => DatumOf(text, 90)
    case Longitude => DatumOf(text, 180)
  }

  function FlagOf(text: string): Option<FieldValue> {
    var b := BoolOf(text);
    if b.Some? then Some(Flag(b.value)) else None
  }

  ghost function DatumOf(text: string, degrees: nat): Option<FieldValue> {
    var d := CoordinateOf(text, degrees);
    if d.Some? then Some(Datum(d.value)) else None
  }

  function Set(p: Policy, f: Field, v: FieldValue): Policy {
    match f
    case Version => p
    case ClockMode => if v.Text? then p.(clockMode := v.text) else p
    case Calendar => if v.Text? then p.(calendar := v.text) else p
    case ShowSeconds => if v.Flag? then p.(showSeconds := v.flag) else p
    case LocationConfigured => if v.Flag? then p.(locationConfigured := v.flag) else p
    case Latitude => if v.Datum? then p.(latitude := v.bits) else p
    case Longitude => if v.Datum? then p.(longitude := v.bits) else p
  }

  datatype Draft = Draft(policy: Policy, seen: set<Field>)

  /** What one line does to the draft; nothing when it makes the document invalid. */
  ghost function Step(modes: seq<string>, d: Draft, line: string): Option<Draft> {
    if |line| >= LINE_CAPACITY then None
    else
      match LineOf(line)
      case Invalid => None
      case Ignored => Some(d)
      case Entry(key, value) =>
        var f := FieldOf(key);
        if f.None? then Some(d) else Take(modes, d, f.value, value)
  }

  ghost function Take(modes: seq<string>, d: Draft, f: Field, value: string): Option<Draft> {
    var v := ValueOf(modes, f, value);
    if f in d.seen || v.None? then None else Some(Draft(Set(d.policy, f, v.value), d.seen + {f}))
  }

  ghost function Fold(modes: seq<string>, d: Draft, lines: seq<string>): Option<Draft>
    decreases |lines|
  {
    if lines == [] then Some(d)
    else
      var next := Step(modes, d, lines[0]);
      if next.None? then None else Fold(modes, next.value, lines[1..])
  }

  /** The policy a document gives: every required field was seen. */
  ghost function PolicyOf(modes: seq<string>, lines: seq<string>): Option<Policy> {
    var d := Fold(modes, Draft(DEFAULT, {}), lines);
    if d.None? || d.value.seen != FIELDS || d.value.policy.clockMode !in modes || !IdValid(d.value.policy.calendar) then None
    else Some(d.value.policy)
  }

  /** Two lines can change places. */
  lemma StepsCommute(modes: seq<string>, d: Draft, a: string, b: string)
    ensures Fold(modes, d, [a, b]) == Fold(modes, d, [b, a])
  {
    TwoSteps(modes, d, a, b);
    TwoSteps(modes, d, b, a);
    if Relevant(a).Some? && Relevant(b).Some? {
      TakesCommute(modes, d, Relevant(a).value.0, Relevant(a).value.1, Relevant(b).value.0, Relevant(b).value.1);
    }
    hide LineOf;
    hide FieldOf;
    hide Take;
    hide Fold;
  }

  /** The field and text of a line that concerns the policy. */
  function Relevant(line: string): Option<(Field, string)> {
    match LineOf(line)
    case Invalid => None
    case Ignored => None
    case Entry(key, value) => if FieldOf(key).Some? then Some((FieldOf(key).value, value)) else None
  }

  lemma TwoSteps(modes: seq<string>, d: Draft, a: string, b: string)
    ensures Fold(modes, d, [a, b]) ==
      if Step(modes, d, a).None? then None else Step(modes, Step(modes, d, a).value, b)
  {
    hide Step;
    assert [a, b][1..] == [b] && [b][1..] == [];
    var next := Step(modes, d, a);
    if next.Some? {
      assert Fold(modes, next.value, [b]) == Step(modes, next.value, b) by {
        var last := Step(modes, next.value, b);
        if last.Some? {
          assert Fold(modes, last.value, []) == last;
        }
      }
    }
  }

  lemma TakesCommute(modes: seq<string>, d: Draft, f: Field, x: string, g: Field, y: string)
    ensures (if Take(modes, d, f, x).None? then None else Take(modes, Take(modes, d, f, x).value, g, y))
      == (if Take(modes, d, g, y).None? then None else Take(modes, Take(modes, d, g, y).value, f, x))
  {
    var v, w := ValueOf(modes, f, x), ValueOf(modes, g, y);
    hide ValueOf;
    if f != g && v.Some? && w.Some? {
      SetsCommute(d.policy, f, v.value, g, w.value);
      assert d.seen + {f} + {g} == d.seen + {g} + {f};
    }
    hide Set;
  }

  lemma SetsCommute(p: Policy, f: Field, v: FieldValue, g: Field, w: FieldValue)
    requires f != g
    ensures Set(Set(p, f, v), g, w) == Set(Set(p, g, w), f, v)
  {
  }

  lemma {:induction false} FoldConcat(modes: seq<string>, d: Draft, a: seq<string>, b: seq<string>)
    ensures Fold(modes, d, a + b) ==
      if Fold(modes, d, a).None? then None else Fold(modes, Fold(modes, d, a).value, b)
    decreases |a|
  {
    hide Step;
    if a == [] {
      assert a + b == b;
    } else {
      assert (a + b)[1..] == a[1..] + b;
      if Step(modes, d, a[0]).Some? {
        FoldConcat(modes, Step(modes, d, a[0]).value, a[1..], b);
      }
    }
  }

  /** A line can move to the front. */
  lemma {:induction false} MoveToFront(modes: seq<string>, d: Draft, before: seq<string>, line: string, after: seq<string>)
    ensures Fold(modes, d, before + [line] + after) == Fold(modes, d, [line] + (before + after))
    decreases |before|
  {
    if before == [] {
      assert before + [line] + after == [line] + (before + after);
    } else {
      var first, rest := before[0], before[1..];
      var next := Step(modes, d, first);
      hide Step;
      assert before + [line] + after == [first] + (rest + [line] + after);
      assert [line] + (before + after) == [line, first] + (rest + after);
      assert [first] + ([line] + (rest + after)) == [first, line] + (rest + after);
      StepsCommute(modes, d, first, line);
      FoldConcat(modes, d, [first], rest + [line] + after);
      FoldConcat(modes, d, [first], [line] + (rest + after));
      FoldConcat(modes, d, [first, line], rest + after);
      FoldConcat(modes, d, [line, first], rest + after);
      FoldOne(modes, d, first);
      hide Fold;
      if next.Some? {
        MoveToFront(modes, next.value, rest, line, after);
      }
    }
  }

  lemma FoldOne(modes: seq<string>, d: Draft, line: string)
    ensures Fold(modes, d, [line]) == Step(modes, d, line)
  {
    hide Step;
    assert [line][1..] == [];
    var next := Step(modes, d, line);
    if next.Some? {
      assert Fold(modes, next.value, []) == next;
    }
  }

  /** Reading a document does not depend on the order of its lines. */
  lemma {:induction false} FoldPermuted(modes: seq<string>, d: Draft, a: seq<string>, b: seq<string>)
    requires multiset(a) == multiset(b)
    ensures Fold(modes, d, a) == Fold(modes, d, b)
    decreases |a|
  {
    if a == [] {
      EmptyBag(b);
    } else {
      var before, after := Extract(a, b);
      assert b == before + [a[0]] + after;
      MoveToFront(modes, d, before, a[0], after);
      hide Step;
      assert ([a[0]] + (before + after))[1..] == before + after;
      if Step(modes, d, a[0]).Some? {
        FoldPermuted(modes, Step(modes, d, a[0]).value, a[1..], before + after);
      }
    }
  }

  lemma EmptyBag(b: seq<string>)
    requires multiset(b) == multiset{}
    ensures b == []
  {
    assert |multiset(b)| == |b|;
  }

  /** The first line of one order, found in another. */
  lemma Extract(a: seq<string>, b: seq<string>) returns (before: seq<string>, after: seq<string>)
    requires a != [] && multiset(a) == multiset(b)
    ensures b == before + [a[0]] + after && multiset(before + after) == multiset(a[1..])
  {
    assert a[0] in multiset(b);
    var i :| 0 <= i < |b| && b[i] == a[0];
    before, after := b[..i], b[i + 1..];
    assert b == before + [a[0]] + after;
    assert a == [] + [a[0]] + a[1..];
    BagWith(before, a[0], after);
    BagWith([], a[0], a[1..]);
    assert [] + a[1..] == a[1..];
    CancelOne(multiset(before + after), multiset(a[1..]), a[0]);
  }

  lemma BagWith(before: seq<string>, line: string, after: seq<string>)
    ensures multiset(before + [line] + after) == multiset(before + after) + multiset{line}
  {
    assert multiset(before + [line] + after) == multiset(before) + multiset{line} + multiset(after);
    assert multiset(before + after) == multiset(before) + multiset(after);
  }

  lemma CancelOne(a: multiset<string>, b: multiset<string>, line: string)
    requires a + multiset{line} == b + multiset{line}
    ensures a == b
  {
    assert a == a + multiset{line} - multiset{line};
    assert b == b + multiset{line} - multiset{line};
  }

  /** The decimal number a version line carries. */
  function VersionNumber(text: string): Option<nat> {
    var start := SpaceEnd(text, 0);
    var end := DigitEnd(text, start);
    var n := NumberOf(text[start..end]);
    if end > start && SpaceEnd(text, end) == |text| && 1 <= n <= 0xFFFF_FFFF then Some(n) else None
  }

  function NumberOf(s: string): nat
    requires AllDigits(s)
  {
    if s == "" then 0 else NumberOf(s[..|s| - 1]) * 10 + DigitValue(s[|s| - 1])
  }

  /** The version the first version line announces. */
  function DocumentVersion(lines: seq<string>): Option<nat>
    decreases |lines|
  {
    if lines == [] || |lines[0]| >= LINE_CAPACITY then None
    else
      match LineOf(lines[0])
      case Invalid => None
      case Ignored => DocumentVersion(lines[1..])
      case Entry(key, value) => if key == "version" then VersionNumber(value) else DocumentVersion(lines[1..])
  }

  /** The lines of a text; a final newline ends the last of them. */
  function Lines(text: string): seq<string>
    decreases |text|
  {
    if text == "" then []
    else
      var n := IndexOf(text, '\n');
      if n == |text| then [text] else [text[..n]] + Lines(text[n + 1..])
  }

  /** Version 1 and 2 documents are handed to their migrations. */
  datatype Result = Rejected | Accepted(policy: Policy) | Migrated(version: nat)

  ghost function Parsed(modes: seq<string>, text: string): Result {
    var version := DocumentVersion(Lines(text));
    if version == Some(1) || version == Some(2) then Migrated(version.value)
    else if version != Some(3) then Rejected
    else
      var p := PolicyOf(modes, Lines(text));
      if p.Some? then Accepted(p.value) else Rejected
  }

  lemma VersionThree()
    ensures VersionNumber("3") == Some(3)
  {
    assert "3"[..0] == "";
    assert NumberOf("3"[..0]) == 0;
    DigitEndUnique("3", 0, 1);
    assert "3"[0..1] == "3";
  }

  /** A document whose fields were all taken announces version 3 wherever its version line stands. */
  lemma {:induction false} FoldedVersion(modes: seq<string>, d: Draft, lines: seq<string>)
    requires Fold(modes, d, lines).Some? && Version in Fold(modes, d, lines).value.seen && Version !in d.seen
    ensures DocumentVersion(lines) == Some(3)
    decreases |lines|
  {
    if lines != [] {
      var next := Step(modes, d, lines[0]);
      VersionStep(modes, d, lines[0]);
      hide Step;
      hide LineOf;
      hide VersionNumber;
      if Version !in next.value.seen {
        FoldedVersion(modes, next.value, lines[1..]);
      }
    }
  }

  lemma VersionStep(modes: seq<string>, d: Draft, line: string)
    requires Step(modes, d, line).Some? && Version !in d.seen
    ensures |line| < LINE_CAPACITY && !LineOf(line).Invalid?
    ensures Version in Step(modes, d, line).value.seen <==> LineOf(line).Entry? && LineOf(line).key == "version"
    ensures Version in Step(modes, d, line).value.seen ==> VersionNumber(LineOf(line).value) == Some(3)
  {
    VersionThree();
    hide LineOf;
    hide VersionNumber;
  }

  /** A document accepted as version 3 is accepted with the same policy in every order of its lines. */
  lemma ParsedUnderPermutation(modes: seq<string>, text: string, other: string)
    requires Parsed(modes, text).Accepted? && multiset(Lines(text)) == multiset(Lines(other))
    ensures Parsed(modes, other) == Parsed(modes, text)
  {
    FoldPermuted(modes, Draft(DEFAULT, {}), Lines(text), Lines(other));
    FoldedVersion(modes, Draft(DEFAULT, {}), Lines(other));
    hide Fold;
    hide DocumentVersion;
    hide Lines;
  }
}
