/** Reading and writing version 3 policy documents. */
module PolicyCodec {
  import opened Wrappers
  import opened Powers
  import opened Binary64
  import opened Ascii
  import opened DecimalText
  import opened ParseDouble
  import opened ConfigLines
  import opened TemporalId
  import opened Coordinates
  import opened PolicyDocument
  import opened PolicyMeaning

  /** strchr for the end of a line. */
  method LineEnd(text: string, cursor: nat) returns (end: nat)
    requires cursor <= |text|
    ensures end == cursor + IndexOf(text[cursor..], '\n')
  {
    ghost var rest := text[cursor..];
    end := cursor;
    while end < |text| && text[end] != '\n'
      invariant cursor <= end <= |text| && forall k :: 0 <= k < end - cursor ==> rest[k] != '\n'
    {
      end := end + 1;
    }
    if end < |text| {
      FirstIndex(rest, '\n', end - cursor);
    }
  }

  /** A terminated string out of the line buffer. */
  method StringAt(buffer: array<char>, at: nat, ghost text: string) returns (s: string)
    requires IsCString(buffer[..], at, text) && '\0' !in text
    ensures s == text
  {
    var end := at;
    assert buffer[..][at..at + |text|] == buffer[at..at + |text|];
    assert forall k :: at <= k < at + |text| ==> buffer[k] == text[k - at] && text[k - at] in text;
    while buffer[end] != '\0'
      invariant at <= end <= at + |text|
      decreases at + |text| - end
    {
      end := end + 1;
    }
    s := buffer[at..end];
  }

  lemma EntryParts(line: string)
    requires LineOf(line).Entry? && '\0' !in line
    ensures var e := LineOf(line);
      '\0' !in e.key && '\0' !in e.value && |e.value| <= |line|
  {
    var t := Trimmed(line);
    TrimmedKeeps(line);
    var i := IndexOf(t, '=');
    TrimmedKeeps(t[..i]);
    TrimmedKeeps(t[i + 1..]);
    TrimmedShorter(line);
    TrimmedShorter(t[i + 1..]);
    hide Trimmed;
  }

  lemma TrimmedShorter(s: string)
    ensures |Trimmed(s)| <= |s|
  {
  }

  /** Copies one line into the bounded buffer and splits it there. */
  method ReadLine(text: string, from: nat, to: nat) returns (line: Line)
    requires from <= to <= |text| && to - from < LINE_CAPACITY && '\0' !in text
    ensures line == LineOf(text[from..to])
  {
    var buffer := new char[LINE_CAPACITY];
    var length := to - from;
    ghost var copy := text[from..to];
    var i := 0;
    while i < length
      invariant i <= length && buffer[..i] == copy[..i]
    {
      buffer[i] := text[from + i];
      i := i + 1;
    }
    buffer[length] := '\0';
    assert buffer[..length] == copy;
    var status := ParseLine(buffer, length);
    if LineOf(copy).Entry? {
      EntryParts(copy);
    }
    hide LineOf;
    hide IsCString;
    match status {
      case IgnoredLine => line := Ignored;
      case InvalidLine => line := Invalid;
      case EntryLine(keyAt, valueAt) =>
        var key := StringAt(buffer, keyAt, LineOf(copy).key);
        var value := StringAt(buffer, valueAt, LineOf(copy).value);
        line := Entry(key, value);
    }
  }

  /** The lines from a cursor on: the one it stands on, and the rest. */
  lemma LinesFrom(text: string, cursor: nat, end: nat)
    requires cursor < |text| && end == cursor + IndexOf(text[cursor..], '\n')
    ensures Lines(text[cursor..]) ==
      [text[cursor..end]] + (if end == |text| then [] else Lines(text[end + 1..]))
  {
    var rest := text[cursor..];
    assert rest[..end - cursor] == text[cursor..end];
    if end < |text| {
      assert rest[end - cursor + 1..] == text[end + 1..];
    } else {
      assert rest == text[cursor..end];
      assert [rest] + [] == [rest];
    }
  }

  lemma NoLines()
    ensures Lines("") == []
  {
  }

  /** temporal_document_version. */
  method ReadVersion(text: string) returns (version: Option<nat>)
    requires '\0' !in text
    ensures version == DocumentVersion(Lines(text))
  {
    hide Lines;
    hide LineOf;
    hide VersionNumber;
    var cursor := 0;
    assert text[0..] == text;
    while cursor < |text|
      invariant cursor <= |text| && DocumentVersion(Lines(text)) == DocumentVersion(Lines(text[cursor..]))
    {
      var end := LineEnd(text, cursor);
      LinesFrom(text, cursor, end);
      ghost var later := if end == |text| then [] else Lines(text[end + 1..]);
      assert Lines(text[cursor..])[1..] == later;
      if end - cursor >= LINE_CAPACITY {
        return None;
      }
      var line := ReadLine(text, cursor, end);
      if line.Invalid? {
        return None;
      }
      if line.Entry? && line.key == "version" {
        return VersionNumber(line.value);
      }
      if end == |text| {
        return None;
      }
      cursor := end + 1;
    }
    assert text[cursor..] == "";
    NoLines();
    version := None;
  }

  method FindMode(modes: seq<string>, id: string) returns (found: bool)
    ensures found <==> id in modes
  {
    var i := 0;
    while i < |modes|
      invariant i <= |modes| && id !in modes[..i]
    {
      if modes[i] == id {
        return true;
      }
      i := i + 1;
    }
    assert modes[..i] == modes;
    found := false;
  }

  /** The value a field accepts. */
  method Accept(modes: seq<string>, f: Field, text: string) returns (v: Option<FieldValue>)
    requires |text| <= LINE_CAPACITY && '\0' !in text
    ensures v == ValueOf(modes, f, text)
  {
    hide IdValid;
    hide BoolOf;
    hide CoordinateOf;
    v := None;
    match f {
      case Version =>
        if text == "3" { v := Some(Nothing); }
      case ClockMode =>
        var known := FindMode(modes, text);
        if known && |text| < ID_CAPACITY { v := Some(Text(text)); }
      case Calendar =>
        var valid := Validate(text);
        if valid { v := Some(Text(text)); }
      case ShowSeconds =>
        var b := ParseBool(text);
        if b.Some? { v := Some(Flag(b.value)); }
      case LocationConfigured =>
        var b := ParseBool(text);
        if b.Some? { v := Some(Flag(b.value)); }
      case Latitude =>
        var d := ParseCoordinate(text, true);
        if d.Some? { v := Some(Datum(d.value)); }
      case Longitude =>
        var d := ParseCoordinate(text, false);
        if d.Some? { v := Some(Datum(d.value)); }
    }
  }

  /** One line of the parsing loop. */
  method TakeLine(modes: seq<string>, d: Draft, text: string, from: nat, to: nat) returns (r: Option<Draft>)
    requires from <= to <= |text| && '\0' !in text
    ensures r == Step(modes, d, text[from..to])
  {
    if to - from >= LINE_CAPACITY {
      return None;
    }
    var line := ReadLine(text, from, to);
    if line.Invalid? {
      return None;
    }
    if line.Ignored? {
      return Some(d);
    }
    EntryParts(text[from..to]);
    hide LineOf;
    hide ValueOf;
    hide Set;
    var f := FieldOf(line.key);
    if f.None? {
      return Some(d);
    }
    if f.value in d.seen {
      return None;
    }
    var v := Accept(modes, f.value, line.value);
    if v.None? {
      return None;
    }
    r := Some(Draft(Set(d.policy, f.value, v.value), d.seen + {f.value}));
  }

  /** The fold over all lines. */
  method FoldText(modes: seq<string>, text: string) returns (r: Option<Draft>)
    requires '\0' !in text
    ensures r == Fold(modes, Draft(DEFAULT, {}), Lines(text))
  {
    hide Lines;
    hide Step;
    var d := Draft(DEFAULT, {});
    var cursor := 0;
    assert text[0..] == text;
    while cursor < |text|
      invariant cursor <= |text|
      invariant Fold(modes, Draft(DEFAULT, {}), Lines(text)) == Fold(modes, d, Lines(text[cursor..]))
    {
      var end := LineEnd(text, cursor);
      LinesFrom(text, cursor, end);
      ghost var later := if end == |text| then [] else Lines(text[end + 1..]);
      assert Lines(text[cursor..])[1..] == later;
      var next := TakeLine(modes, d, text, cursor, end);
      if next.None? {
        return None;
      }
      d := next.value;
      if end == |text| {
        assert Fold(modes, d, []) == Some(d);
        return Some(d);
      }
      cursor := end + 1;
    }
    assert text[cursor..] == "";
    NoLines();
    r := Some(d);
  }

  /** infiltratr_temporal_policy_v3_parse. */
  method Parse(modes: seq<string>, text: string) returns (r: Result)
    requires '\0' !in text
    ensures r == Parsed(modes, text)
  {
    hide Fold;
    hide DocumentVersion;
    hide Lines;
    hide IdValid;
    var version := ReadVersion(text);
    if version.None? {
      return Rejected;
    }
    if version.value == 1 || version.value == 2 {
      return Migrated(version.value);
    }
    if version.value != 3 {
      return Rejected;
    }
    var d := FoldText(modes, text);
    if d.None? || d.value.seen != FIELDS {
      return Rejected;
    }
    var known := FindMode(modes, d.value.policy.clockMode);
    var valid := Validate(d.value.policy.calendar);
    if !known || !valid {
      return Rejected;
    }
    r := Accepted(d.value.policy);
  }

  /** A policy the writer accepts. */
  ghost predicate Serialisable(modes: seq<string>, p: Policy) {
    && p.clockMode in modes && IdValid(p.calendar)
    && Finite(p.latitude) && Within(p.latitude, 90) && Finite(p.longitude) && Within(p.longitude, 180)
  }

  /** The built-in clock modes have well-formed identifiers. */
  ghost predicate ModesValid(modes: seq<string>) { forall m :: m in modes ==> IdValid(m) }

  function ValueText(p: Policy, latitude: int, longitude: int, f: Field): string {
    match f
    case Version => "3"
    case ClockMode => p.clockMode
    case Calendar => p.calendar
    case ShowSeconds => BoolText(p.showSeconds)
    case LocationConfigured => BoolText(p.locationConfigured)
    case Latitude => MicroText(latitude)
    case Longitude => MicroText(longitude)
  }

  /** A field's line. */
  function TextOf(p: Policy, latitude: int, longitude: int, f: Field): string {
    Key(f) + "=" + ValueText(p, latitude, longitude, f)
  }

  const ORDER: seq<Field> := [Version, ClockMode, Calendar, ShowSeconds, LocationConfigured, Latitude, Longitude]

  function TextFrom(p: Policy, latitude: int, longitude: int, i: nat): string
    requires i <= 7
    decreases 7 - i
  {
    if i == 7 then "" else TextOf(p, latitude, longitude, ORDER[i]) + "\n" + TextFrom(p, latitude, longitude, i + 1)
  }

  /** The document written for a policy whose coordinates are the given numbers of millionths. */
  function Document(p: Policy, latitude: int, longitude: int): string { TextFrom(p, latitude, longitude, 0) }

  /** A field's line makes its own entry. */
  lemma {:induction false} LineOfField(modes: seq<string>, p: Policy, latitude: int, longitude: int, f: Field, d: Draft)
    requires ModesValid(modes) && Serialisable(modes, p)
    requires IsMicro(p.latitude, latitude) && IsMicro(p.longitude, longitude) && f !in d.seen
    ensures var line := TextOf(p, latitude, longitude, f);
      && |line| < LINE_CAPACITY && '\n' !in line
      && Step(modes, d, line) == Some(Draft(Set(d.policy, f, Held(p, f)), d.seen + {f}))
  {
    hide Key;
    hide ValueText;
    hide Held;
    var key, value := Key(f), ValueText(p, latitude, longitude, f);
    KeyTight(f);
    ValueTight(modes, p, latitude, longitude, f);
    ValueAccepted(modes, p, latitude, longitude, f);
    hide *;
    StepOnPair(modes, key, value, f, Held(p, f), d);
  }

  lemma StepOnPair(modes: seq<string>, key: string, value: string, f: Field, v: FieldValue, d: Draft)
    requires GoodKey(key, f) && Tight(value) && '\n' !in value && |value| < ID_CAPACITY
    requires ValueOf(modes, f, value) == Some(v) && f !in d.seen
    ensures var line := key + "=" + value;
      && |line| < LINE_CAPACITY && '\n' !in line
      && Step(modes, d, line) == Some(Draft(Set(d.policy, f, v), d.seen + {f}))
  {
    hide ValueOf;
    hide Set;
    hide LineOf;
    hide Tight;
    hide FieldOf;
    LineOfEntry(key, value);
    assert '\n' !in "=";
  }

  ghost predicate GoodKey(key: string, f: Field) {
    Tight(key) && key[0] != '#' && '=' !in key && '\n' !in key && |key| <= 19 && FieldOf(key) == Some(f)
  }

  lemma KeyTight(f: Field)
    ensures GoodKey(Key(f), f)
  {
    hide GoodKey;
    FirstKeys();
    FlagKeys();
    CoordinateKeys();
  }

  lemma FirstKeys()
    ensures GoodKey("version", Version) && GoodKey("clock-mode", ClockMode) && GoodKey("calendar", Calendar)
  {
  }

  lemma FlagKeys()
    ensures GoodKey("show-seconds", ShowSeconds) && GoodKey("location-configured", LocationConfigured)
  {
  }

  lemma CoordinateKeys()
    ensures GoodKey("latitude", Latitude) && GoodKey("longitude", Longitude)
  {
  }

  lemma IdTight(id: string)
    requires IdValid(id)
    ensures Tight(id) && '\n' !in id && |id| < ID_CAPACITY
  {
  }

  lemma MicroTight(micro: int)
    ensures Tight(MicroText(micro)) && '\n' !in MicroText(micro)
  {
    hide Decimal;
    hide Padded;
    var m := Absolute(micro);
    var sign, whole, fraction := if micro < 0 then "-" else "", Decimal(m / 1000000), Padded(m % 1000000, 6);
    PiecesTight(sign, whole, fraction);
  }

  lemma PiecesTight(sign: string, whole: string, fraction: string)
    requires (sign == "" || sign == "-") && whole != "" && AllDigits(whole) && |fraction| == 6 && AllDigits(fraction)
    ensures var s := sign + whole + "." + fraction; Tight(s) && '\n' !in s
  {
    var s := sign + whole + "." + fraction;
    assert s[|s| - 1] == fraction[5];
    if sign == "" {
      assert s[0] == whole[0];
    } else {
      assert s[0] == '-';
    }
  }

  lemma ValueTight(modes: seq<string>, p: Policy, latitude: int, longitude: int, f: Field)
    requires ModesValid(modes) && Serialisable(modes, p)
    requires IsMicro(p.latitude, latitude) && IsMicro(p.longitude, longitude)
    ensures var value := ValueText(p, latitude, longitude, f);
      Tight(value) && '\n' !in value && |value| < ID_CAPACITY
  {
    IdTight(p.clockMode);
    IdTight(p.calendar);
    MicroTight(latitude);
    MicroTight(longitude);
    WithinMore(p.latitude, 90, 180);
    MicroTextShort(p.latitude, latitude);
    MicroTextShort(p.longitude, longitude);
    hide MicroText;
    hide IdValid;
    hide IsMicro;
    hide Within;
  }

  lemma ValueAccepted(modes: seq<string>, p: Policy, latitude: int, longitude: int, f: Field)
    requires ModesValid(modes) && Serialisable(modes, p)
    requires IsMicro(p.latitude, latitude) && IsMicro(p.longitude, longitude)
    ensures ValueOf(modes, f, ValueText(p, latitude, longitude, f)) == Some(Held(p, f))
  {
    IdTight(p.clockMode);
    BoolRoundTrip(p.showSeconds);
    BoolRoundTrip(p.locationConfigured);
    CoordinateRoundTrip(p.latitude, latitude, 90);
    CoordinateRoundTrip(p.longitude, longitude, 180);
    hide MicroText;
    hide IdValid;
    hide IsMicro;
    hide Within;
    hide CoordinateOf;
    hide BoolOf;
  }

  lemma LinesCons(line: string, rest: string)
    requires '\n' !in line
    ensures Lines(line + "\n" + rest) == [line] + Lines(rest)
  {
    var text := line + "\n" + rest;
    FirstIndex(text, '\n', |line|);
    assert text[..|line|] == line && text[|line| + 1..] == rest;
  }

  /** Folding what is written from the i-th field on fills in those fields. */
  lemma {:induction false} FoldDocument(modes: seq<string>, p: Policy, latitude: int, longitude: int, i: nat, d: Draft)
    requires ModesValid(modes) && Serialisable(modes, p)
    requires IsMicro(p.latitude, latitude) && IsMicro(p.longitude, longitude)
    requires i <= 7 && forall k :: i <= k < 7 ==> ORDER[k] !in d.seen
    ensures Fold(modes, d, Lines(TextFrom(p, latitude, longitude, i))) ==
      Some(Draft(SetFrom(d.policy, p, i), d.seen + FieldsFrom(i)))
    decreases 7 - i
  {
    hide Lines;
    hide Step;
    hide Set;
    hide TextOf;
    hide Serialisable;
    hide ModesValid;
    if i == 7 {
      NoLines();
      assert d.seen + {} == d.seen;
    } else {
      var f := ORDER[i];
      var line, rest := TextOf(p, latitude, longitude, f), TextFrom(p, latitude, longitude, i + 1);
      LineOfField(modes, p, latitude, longitude, f, d);
      LinesCons(line, rest);
      var next := Draft(Set(d.policy, f, Held(p, f)), d.seen + {f});
      assert ([line] + Lines(rest))[1..] == Lines(rest);
      Distinct(i);
      FoldDocument(modes, p, latitude, longitude, i + 1, next);
      assert d.seen + {f} + FieldsFrom(i + 1) == d.seen + FieldsFrom(i);
    }
  }

  lemma Distinct(i: nat)
    requires i < 7
    ensures forall k :: i < k < 7 ==> ORDER[k] != ORDER[i]
  {
  }

  ghost function SetFrom(base: Policy, p: Policy, i: nat): Policy
    requires i <= 7
    decreases 7 - i
  {
    if i == 7 then base else SetFrom(Set(base, ORDER[i], Held(p, ORDER[i])), p, i + 1)
  }

  ghost function FieldsFrom(i: nat): set<Field>
    requires i <= 7
    decreases 7 - i
  {
    if i == 7 then {} else {ORDER[i]} + FieldsFrom(i + 1)
  }

  lemma AllSet(base: Policy, p: Policy)
    ensures SetFrom(base, p, 0) == p
  {
    var a := Set(base, Version, Held(p, Version));
    var b := Set(a, ClockMode, Held(p, ClockMode));
    var c := Set(b, Calendar, Held(p, Calendar));
    var d := Set(c, ShowSeconds, Held(p, ShowSeconds));
    var e := Set(d, LocationConfigured, Held(p, LocationConfigured));
    var f := Set(e, Latitude, Held(p, Latitude));
    var g := Set(f, Longitude, Held(p, Longitude));
    assert SetFrom(g, p, 7) == p;
    assert SetFrom(f, p, 6) == SetFrom(g, p, 7);
    assert SetFrom(e, p, 5) == SetFrom(f, p, 6);
    assert SetFrom(d, p, 4) == SetFrom(e, p, 5);
    assert SetFrom(c, p, 3) == SetFrom(d, p, 4);
    assert SetFrom(b, p, 2) == SetFrom(c, p, 3);
    assert SetFrom(a, p, 1) == SetFrom(b, p, 2);
  }

  lemma AllFields()
    ensures {} + FieldsFrom(0) == FIELDS
  {
    assert FieldsFrom(7) == {} && FieldsFrom(6) == {Longitude} && FieldsFrom(5) == {Latitude} + FieldsFrom(6);
    assert FieldsFrom(4) == {LocationConfigured} + FieldsFrom(5) && FieldsFrom(3) == {ShowSeconds} + FieldsFrom(4);
    assert FieldsFrom(2) == {Calendar} + FieldsFrom(3) && FieldsFrom(1) == {ClockMode} + FieldsFrom(2);
    assert FieldsFrom(0) == {Version} + FieldsFrom(1);
  }

  /** What is written, line by line. */
  lemma DocumentLines(modes: seq<string>, p: Policy, latitude: int, longitude: int)
    requires ModesValid(modes) && Serialisable(modes, p)
    requires IsMicro(p.latitude, latitude) && IsMicro(p.longitude, longitude)
    ensures Lines(Document(p, latitude, longitude)) ==
      ["version=3", "clock-mode=" + p.clockMode, "calendar=" + p.calendar,
       "show-seconds=" + if p.showSeconds then "true" else "false",
       "location-configured=" + if p.locationConfigured then "true" else "false",
       "latitude=" + MicroText(latitude), "longitude=" + MicroText(longitude)]
  {
    LinesWritten(modes, p, latitude, longitude, 0);
    assert Document(p, latitude, longitude) == TextFrom(p, latitude, longitude, 0);
    hide *;
    TextsWritten(p, latitude, longitude);
    TextsUnrolled(p, latitude, longitude);
  }

  /** The lines from the i-th on. */
  function TextsFrom(p: Policy, latitude: int, longitude: int, i: nat): seq<string>
    requires i <= 7
    decreases 7 - i
  {
    if i == 7 then [] else [TextOf(p, latitude, longitude, ORDER[i])] + TextsFrom(p, latitude, longitude, i + 1)
  }

  lemma {:induction false} LinesWritten(modes: seq<string>, p: Policy, latitude: int, longitude: int, i: nat)
    requires ModesValid(modes) && Serialisable(modes, p) && i <= 7
    requires IsMicro(p.latitude, latitude) && IsMicro(p.longitude, longitude)
    ensures Lines(TextFrom(p, latitude, longitude, i)) == TextsFrom(p, latitude, longitude, i)
    decreases 7 - i
  {
    hide Lines;
    hide TextOf;
    hide Serialisable;
    hide ModesValid;
    if i == 7 {
      NoLines();
    } else {
      LineOfField(modes, p, latitude, longitude, ORDER[i], Draft(DEFAULT, {}));
      hide Step;
      LinesCons(TextOf(p, latitude, longitude, ORDER[i]), TextFrom(p, latitude, longitude, i + 1));
      LinesWritten(modes, p, latitude, longitude, i + 1);
    }
  }

  lemma TextsWritten(p: Policy, latitude: int, longitude: int)
    ensures TextOf(p, latitude, longitude, Version) == "version=3"
    ensures TextOf(p, latitude, longitude, ClockMode) == "clock-mode=" + p.clockMode
    ensures TextOf(p, latitude, longitude, Calendar) == "calendar=" + p.calendar
    ensures TextOf(p, latitude, longitude, ShowSeconds) == "show-seconds=" + if p.showSeconds then "true" else "false"
    ensures TextOf(p, latitude, longitude, LocationConfigured)
      == "location-configured=" + if p.locationConfigured then "true" else "false"
    ensures TextOf(p, latitude, longitude, Latitude) == "latitude=" + MicroText(latitude)
    ensures TextOf(p, latitude, longitude, Longitude) == "longitude=" + MicroText(longitude)
  {
    KeysWritten();
    hide MicroText;
    hide FieldOf;
    hide Key;
  }

  lemma KeysWritten()
    ensures Key(Version) + "=" == "version=" && Key(ClockMode) + "=" == "clock-mode=" && Key(Calendar) + "=" == "calendar="
    ensures Key(ShowSeconds) + "=" == "show-seconds=" && Key(LocationConfigured) + "=" == "location-configured="
    ensures Key(Latitude) + "=" == "latitude=" && Key(Longitude) + "=" == "longitude="
  {
    hide FieldOf;
  }

  lemma TextsUnrolled(p: Policy, latitude: int, longitude: int)
    ensures TextsFrom(p, latitude, longitude, 0) ==
      [TextOf(p, latitude, longitude, Version), TextOf(p, latitude, longitude, ClockMode),
       TextOf(p, latitude, longitude, Calendar), TextOf(p, latitude, longitude, ShowSeconds),
       TextOf(p, latitude, longitude, LocationConfigured), TextOf(p, latitude, longitude, Latitude),
       TextOf(p, latitude, longitude, Longitude)]
  {
    hide TextOf;
    assert TextsFrom(p, latitude, longitude, 7) == [];
    assert TextsFrom(p, latitude, longitude, 6) == [TextOf(p, latitude, longitude, ORDER[6])];
    assert TextsFrom(p, latitude, longitude, 5) == [TextOf(p, latitude, longitude, ORDER[5])] + TextsFrom(p, latitude, longitude, 6);
    assert TextsFrom(p, latitude, longitude, 4) == [TextOf(p, latitude, longitude, ORDER[4])] + TextsFrom(p, latitude, longitude, 5);
    assert TextsFrom(p, latitude, longitude, 3) == [TextOf(p, latitude, longitude, ORDER[3])] + TextsFrom(p, latitude, longitude, 4);
    assert TextsFrom(p, latitude, longitude, 2) == [TextOf(p, latitude, longitude, ORDER[2])] + TextsFrom(p, latitude, longitude, 3);
    assert TextsFrom(p, latitude, longitude, 1) == [TextOf(p, latitude, longitude, ORDER[1])] + TextsFrom(p, latitude, longitude, 2);
  }

  /** Whatever was accepted can be written again. */
  lemma AcceptedIsSerialisable(modes: seq<string>, text: string, p: Policy)
    requires Parsed(modes, text) == Accepted(p)
    ensures Serialisable(modes, p)
  {
    ParsedDescribed(modes, text, p);
    hide OnlyLine;
    hide Lines;
    hide Parsed;
    hide BoolOf;
    hide IdValid;
    hide Acceptable;
    hide CoordinateOf;
    var t :| OnlyLine(Lines(text), "latitude", t) && CoordinateOf(t, 90) == Some(p.latitude);
    var u :| OnlyLine(Lines(text), "longitude", u) && CoordinateOf(u, 180) == Some(p.longitude);
    CoordinateWithin(t, 90, p.latitude);
    CoordinateWithin(u, 180, p.longitude);
    hide Finite;
    hide Within;
  }

  lemma CoordinateWithin(text: string, degrees: nat, bits: Bits64)
    requires CoordinateOf(text, degrees) == Some(bits)
    ensures Finite(bits) && Within(bits, degrees)
  {
    hide Scan;
    hide InDoubleRange;
    hide Within;
    hide Magnitude;
  }

  /** Writing a policy and reading it back gives the same policy. */
  lemma DocumentRoundTrip(modes: seq<string>, p: Policy, latitude: int, longitude: int)
    requires ModesValid(modes) && Serialisable(modes, p)
    requires IsMicro(p.latitude, latitude) && IsMicro(p.longitude, longitude)
    ensures Parsed(modes, Document(p, latitude, longitude)) == Accepted(p)
  {
    var start := Draft(DEFAULT, {});
    FoldDocument(modes, p, latitude, longitude, 0, start);
    AllSet(DEFAULT, p);
    AllFields();
    hide *;
    Completes(modes, p, Document(p, latitude, longitude));
  }

  /** The built-in clock modes, in groups. */
  const STANDARD_MODES: seq<string> := ["standard", "standard-24", "standard-12"]
  const COUNTER_MODES: seq<string> := ["internet", "unix", "binary", "hexadecimal"]
  const JULIAN_MODES: seq<string> := ["julian", "modified-julian"]
  const SOLAR_MODES: seq<string> := ["sidereal", "solar", "mean-solar", "decimal"]
  const CHINESE_MODES: seq<string> := ["chinese-time", "chinese-ke"]
  const TEMPORAL_MODES: seq<string> := ["roman-temporal", "japanese-temporal"]
  const EARLY_MODES: seq<string> := ["japanese-temporal-early"]
  const SUNSET_MODES: seq<string> := ["italian-hours", "babylonian-hours"]
  const ANCIENT_MODES: seq<string> := ["babylonian-ancient", "indian-ghati"]
  const NUREMBERG_MODES: seq<string> := ["nuremberg-hours", "nuremberg-solar"]
  const CLOCK_MODES: seq<string> :=
    STANDARD_MODES + COUNTER_MODES + JULIAN_MODES + SOLAR_MODES + CHINESE_MODES
    + TEMPORAL_MODES + EARLY_MODES + SUNSET_MODES + ANCIENT_MODES + NUREMBERG_MODES

  lemma StandardModesValid()
    ensures ModesValid(STANDARD_MODES)
  {
  }

  lemma CounterModesValid()
    ensures ModesValid(COUNTER_MODES)
  {
  }

  lemma JulianModesValid()
    ensures ModesValid(JULIAN_MODES)
  {
  }

  lemma SolarModesValid()
    ensures ModesValid(SOLAR_MODES)
  {
  }

  lemma ChineseModesValid()
    ensures ModesValid(CHINESE_MODES)
  {
  }

  lemma TemporalModesValid()
    ensures ModesValid(TEMPORAL_MODES)
  {
  }

  lemma EarlyModesValid()
    ensures ModesValid(EARLY_MODES)
  {
  }

  lemma SunsetModesValid()
    ensures ModesValid(SUNSET_MODES)
  {
  }

  lemma AncientModesValid()
    ensures ModesValid(ANCIENT_MODES)
  {
  }

  lemma NurembergModesValid()
    ensures ModesValid(NUREMBERG_MODES)
  {
  }

  /** Every built-in clock mode has a well-formed identifier, the default among them. */
  lemma BuiltinModesValid()
    ensures ModesValid(CLOCK_MODES) && DEFAULT.clockMode in CLOCK_MODES
  {
    assert STANDARD_MODES[0] == DEFAULT.clockMode;
    StandardModesValid();
    CounterModesValid();
    JulianModesValid();
    SolarModesValid();
    ChineseModesValid();
    TemporalModesValid();
    EarlyModesValid();
    SunsetModesValid();
    AncientModesValid();
    NurembergModesValid();
    hide IdValid;
  }

  /** So with the built-in modes the round trip needs no further assumption. */
  lemma BuiltinRoundTrip(p: Policy, latitude: int, longitude: int)
    requires Serialisable(CLOCK_MODES, p) && IsMicro(p.latitude, latitude) && IsMicro(p.longitude, longitude)
    ensures Parsed(CLOCK_MODES, Document(p, latitude, longitude)) == Accepted(p)
  {
    hide *;
    BuiltinModesValid();
    DocumentRoundTrip(CLOCK_MODES, p, latitude, longitude);
  }

  lemma Completes(modes: seq<string>, p: Policy, text: string)
    requires Fold(modes, Draft(DEFAULT, {}), Lines(text)) == Some(Draft(p, FIELDS)) && Serialisable(modes, p)
    ensures Parsed(modes, text) == Accepted(p)
  {
    FoldedVersion(modes, Draft(DEFAULT, {}), Lines(text));
    hide Fold;
    hide Lines;
    hide DocumentVersion;
    hide Within;
    hide IdValid;
  }

  /** The most bytes the lines from the i-th field on can take. */
  function BytesFrom(i: nat): nat
    requires i <= 7
  {
    [246, 236, 161, 88, 69, 43, 22, 0][i]
  }

  lemma LineBound(modes: seq<string>, p: Policy, latitude: int, longitude: int, i: nat)
    requires ModesValid(modes) && Serialisable(modes, p) && i < 7
    requires IsMicro(p.latitude, latitude) && IsMicro(p.longitude, longitude)
    ensures |TextOf(p, latitude, longitude, ORDER[i])| + 1 + BytesFrom(i + 1) <= BytesFrom(i)
  {
    ValueLength(modes, p, latitude, longitude, ORDER[i]);
    KeyLength(ORDER[i]);
    hide ValueText;
    hide Key;
    hide Serialisable;
    hide ModesValid;
    hide IsMicro;
    Lengths(i);
  }

  function KeyBytes(f: Field): nat {
    match f
    case Version => 7
    case ClockMode => 10
    case Calendar => 8
    case ShowSeconds => 12
    case LocationConfigured => 19
    case Latitude => 8
    case Longitude => 9
  }

  function ValueBytes(f: Field): nat {
    match f
    case Version => 1
    case ClockMode => 63
    case Calendar => 63
    case ShowSeconds => 5
    case LocationConfigured => 5
    case Latitude => 11
    case Longitude => 11
  }

  lemma Lengths(i: nat)
    requires i < 7
    ensures KeyBytes(ORDER[i]) + 1 + ValueBytes(ORDER[i]) + 1 + BytesFrom(i + 1) <= BytesFrom(i)
  {
  }

  lemma KeyLength(f: Field)
    ensures |Key(f)| == KeyBytes(f)
  {
  }

  lemma ValueLength(modes: seq<string>, p: Policy, latitude: int, longitude: int, f: Field)
    requires ModesValid(modes) && Serialisable(modes, p)
    requires IsMicro(p.latitude, latitude) && IsMicro(p.longitude, longitude)
    ensures |ValueText(p, latitude, longitude, f)| <= ValueBytes(f)
  {
    IdTight(p.clockMode);
    IdTight(p.calendar);
    WithinMore(p.latitude, 90, 180);
    MicroTextShort(p.latitude, latitude);
    MicroTextShort(p.longitude, longitude);
    hide MicroText;
    hide IdValid;
    hide IsMicro;
    hide Within;
    hide Tight;
  }

  /** The document always fits the writer's own scratch space. */
  lemma {:induction false} DocumentShort(modes: seq<string>, p: Policy, latitude: int, longitude: int, i: nat)
    requires ModesValid(modes) && Serialisable(modes, p) && i <= 7
    requires IsMicro(p.latitude, latitude) && IsMicro(p.longitude, longitude)
    ensures |TextFrom(p, latitude, longitude, i)| <= BytesFrom(i)
    decreases 7 - i
  {
    if i < 7 {
      LineBound(modes, p, latitude, longitude, i);
      hide TextOf;
      hide Serialisable;
      hide ModesValid;
      hide BytesFrom;
      DocumentShort(modes, p, latitude, longitude, i + 1);
    }
  }

  lemma AtMostBytes()
    ensures BytesFrom(0) < 512
  {
  }

  /** infiltratr_temporal_policy_v3_serialize: fails only for a policy it does not accept or a buffer
      that is too small, and then leaves the buffer alone. */
  method Serialize(modes: seq<string>, p: Policy, latitude: int, longitude: int, buffer: array<char>)
    returns (ok: bool, length: nat)
    requires ModesValid(modes)
    requires Finite(p.latitude) ==> IsMicro(p.latitude, latitude)
    requires Finite(p.longitude) ==> IsMicro(p.longitude, longitude)
    modifies buffer
    ensures ok <==> Serialisable(modes, p) && |Document(p, latitude, longitude)| < buffer.Length
    ensures ok ==> length == |Document(p, latitude, longitude)| && buffer[length..] == ['\0'] + old(buffer[length + 1..])
    ensures ok ==> buffer[..length] == Document(p, latitude, longitude)
    ensures !ok ==> buffer[..] == old(buffer[..])
  {
    hide IsMicro;
    hide IdValid;
    var accepted := Writable(modes, p);
    if !accepted {
      return false, 0;
    }
    var temporary := Document(p, latitude, longitude);
    DocumentShort(modes, p, latitude, longitude, 0);
    AtMostBytes();
    assert |temporary| < 512;
    if buffer.Length <= |temporary| {
      return false, 0;
    }
    length := |temporary|;
    hide *;
    Fill(temporary, buffer);
    ok := true;
  }

  method Writable(modes: seq<string>, p: Policy) returns (ok: bool)
    ensures ok <==> Serialisable(modes, p)
  {
    hide IdValid;
    hide Within;
    hide AtMost;
    var known := FindMode(modes, p.clockMode);
    var valid := Validate(p.calendar);
    if !known || !valid || !Finite(p.latitude) || !Finite(p.longitude) {
      return false;
    }
    AtMostIsWithin(p.latitude);
    AtMostIsWithin(p.longitude);
    ok := AtMost(p.latitude, NINETY) && AtMost(p.longitude, ONE_EIGHTY);
  }

  /** Copies a text and its terminator to the front of a buffer. */
  method Fill(text: string, buffer: array<char>)
    requires |text| < buffer.Length
    modifies buffer
    ensures buffer[..|text|] == text && buffer[|text|..] == ['\0'] + old(buffer[|text| + 1..])
  {
    var i := 0;
    while i < |text|
      invariant i <= |text| && buffer[..i] == text[..i]
      invariant buffer[|text| + 1..] == old(buffer[|text| + 1..])
    {
      buffer[i] := text[i];
      i := i + 1;
    }
    buffer[i] := '\0';
  }
}
