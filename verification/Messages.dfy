/** Interpolation of named arguments into a message, into a bounded buffer. */
module Messages {
  import opened Wrappers
  import opened DecimalExponents
  import opened Texts

  /** A named value; either part may be missing. */
  datatype Argument = Argument(name: Option<string>, value: Option<string>)

  /** The first complete argument with a name. */
  function ValueOf(arguments: seq<Argument>, name: string): Option<string> {
    if arguments == [] then None
    else if arguments[0].name == Some(name) && arguments[0].value.Some? then arguments[0].value
    else ValueOf(arguments[1..], name)
  }

  /** The position of the first closing brace from i on, or the length of the text. */
  function Close(format: string, i: nat): (e: nat)
    requires i <= |format|
    ensures i <= e <= |format| && (e < |format| ==> format[e] == '}')
    decreases |format| - i
  {
    if i == |format| || format[i] == '}' then i else Close(format, i + 1)
  }

  /** The message with every complete placeholder replaced by its argument, or kept as it is when it
      has none.  What is inserted is not looked at again. */
  function Expansion(format: string, arguments: seq<Argument>): string
    decreases |format|
  {
    if format == "" then ""
    else if format[0] == '{' && Close(format, 1) < |format| then
      var e := Close(format, 1);
      var value := ValueOf(arguments, format[1..e]);
      (if value.Some? then value.value else format[..e + 1]) + Expansion(format[e + 1..], arguments)
    else [format[0]] + Expansion(format[1..], arguments)
  }

  predicate NoBrace(s: string) { forall i :: 0 <= i < |s| ==> s[i] != '{' }

  /** What stands for a placeholder. */
  function Inserted(name: string, arguments: seq<Argument>): string {
    if ValueOf(arguments, name).Some? then ValueOf(arguments, name).value else "{" + name + "}"
  }

  /** Text before a placeholder, and the placeholder, expand on their own: whatever the inserted value
      contains, it stands in the result as it is. */
  lemma {:induction false} PlaceholderExpands(before: string, name: string, rest: string, arguments: seq<Argument>)
    requires NoBrace(before) && '}' !in name
    ensures Expansion(before + ("{" + name + "}" + rest), arguments) ==
      before + (Inserted(name, arguments) + Expansion(rest, arguments))
    decreases |before|
  {
    var tail, inner := "{" + name + "}" + rest, Inserted(name, arguments) + Expansion(rest, arguments);
    if before == "" {
      AtPlaceholder(tail, name, rest, arguments);
      EmptyPrefix(tail);
      EmptyPrefix(inner);
    } else {
      PlaceholderExpands(before[1..], name, rest, arguments);
      hide Inserted;
      OnePlain(before, tail, arguments);
      hide Expansion;
      assert before == [before[0]] + before[1..];
      Assoc([before[0]], before[1..], inner);
    }
  }

  lemma AtPlaceholder(tail: string, name: string, rest: string, arguments: seq<Argument>)
    requires tail == "{" + name + "}" + rest && '}' !in name
    ensures Expansion(tail, arguments) == Inserted(name, arguments) + Expansion(rest, arguments)
  {
    CloseAfter(tail, 1, |name| + 1);
    assert tail[1..|name| + 1] == name && tail[|name| + 2..] == rest && tail[..|name| + 2] == "{" + name + "}";
  }

  lemma OnePlain(before: string, tail: string, arguments: seq<Argument>)
    requires before != "" && NoBrace(before)
    ensures NoBrace(before[1..])
    ensures Expansion(before + tail, arguments) == [before[0]] + Expansion(before[1..] + tail, arguments)
  {
    var format := before + tail;
    assert format[0] == before[0] && format[1..] == before[1..] + tail;
  }

  lemma {:induction false} CloseAfter(s: string, i: nat, e: nat)
    requires i <= e < |s| && s[e] == '}' && forall k :: i <= k < e ==> s[k] != '}'
    ensures Close(s, i) == e
    decreases e - i
  {
    if i < e {
      CloseAfter(s, i + 1, e);
    }
  }

  /** A message without placeholders is its own expansion. */
  lemma {:induction false} PlainExpands(s: string, arguments: seq<Argument>)
    requires NoBrace(s)
    ensures Expansion(s, arguments) == s
  {
    if s != "" {
      PlainExpands(s[1..], arguments);
    }
  }

  /** An opening brace that is never closed is plain text, and so is everything after it. */
  lemma {:induction false} UnclosedExpands(before: string, rest: string, arguments: seq<Argument>)
    requires NoBrace(before) && '}' !in rest
    ensures Expansion(before + "{" + rest, arguments) == before + "{" + rest
    decreases |before|
  {
    var tail := "{" + rest;
    assert before + "{" + rest == before + tail;
    if before == "" {
      NeverClosed(tail, arguments);
      EmptyPrefix(tail);
    } else {
      UnclosedExpands(before[1..], rest, arguments);
      assert before[1..] + "{" + rest == before[1..] + tail;
      OnePlain(before, tail, arguments);
      hide Expansion;
      assert before == [before[0]] + before[1..];
      Assoc([before[0]], before[1..], tail);
    }
  }

  lemma {:induction false} NeverClosed(s: string, arguments: seq<Argument>)
    requires '}' !in s
    ensures Expansion(s, arguments) == s
    decreases |s|
  {
    if s != "" {
      NeverClosed(s[1..], arguments);
      assert s == [s[0]] + s[1..];
      NoClose(s, 1);
    }
  }

  lemma {:induction false} NoClose(s: string, i: nat)
    requires i <= |s| && '}' !in s
    ensures Close(s, i) == |s|
    decreases |s| - i
  {
    if i < |s| {
      assert s[i] in s;
      NoClose(s, i + 1);
    }
  }

  /** The first argument that has the name and a value gives it. */
  lemma {:induction false} FirstArgumentCounts(arguments: seq<Argument>, name: string, k: nat)
    requires k < |arguments| && arguments[k].name == Some(name) && arguments[k].value.Some?
    requires forall j :: 0 <= j < k ==> arguments[j].name != Some(name) || arguments[j].value.None?
    ensures ValueOf(arguments, name) == arguments[k].value
    decreases k
  {
    if k > 0 {
      FirstArgumentCounts(arguments[1..], name, k - 1);
    }
  }

  /** How much of a text a buffer keeps, leaving room for the terminator. */
  function Kept(text: string, capacity: nat): (k: nat)
    requires capacity > 0
    ensures k < capacity && k <= |text|
  {
    if |text| < capacity then |text| else capacity - 1
  }

  /** A buffer that started as `start` holds the front of a text, and is otherwise as it was. */
  ghost predicate Shows(buffer: string, start: string, text: string) {
    && 0 < |buffer| == |start|
    && buffer[..Kept(text, |buffer|)] == text[..Kept(text, |buffer|)]
    && buffer[Kept(text, |buffer|)..] == start[Kept(text, |buffer|)..]
  }

  function Saturated(n: nat): Size { if n <= SIZE_MAX then n else SIZE_MAX }

  /** A bounded copy. */
  method CopyInto(destination: array<char>, at: nat, source: string, count: nat)
    requires count <= |source| && at + count <= destination.Length
    modifies destination
    ensures destination[..] == old(destination[..at]) + source[..count] + old(destination[at + count..])
  {
    var i := 0;
    while i < count
      invariant i <= count
      invariant destination[..] == old(destination[..at]) + source[..i] + old(destination[at + i..])
    {
      ghost var before := destination[..];
      destination[at + i] := source[i];
      OneMore(before, destination[..], old(destination[..]), source, at, i);
      i := i + 1;
    }
  }

  lemma OneMore(before: string, now: string, original: string, source: string, at: nat, i: nat)
    requires i < |source| && at + i < |original|
    requires before == original[..at] + source[..i] + original[at + i..]
    requires now == before[at + i := source[i]]
    ensures now == original[..at] + source[..i + 1] + original[at + i + 1..]
  {
  }

  /** append_bytes: counts everything, writes what fits, and sticks at SIZE_MAX. */
  method AppendBytes(destination: array?<char>, capacity: Size, written: Size, source: string,
                     ghost start: string, ghost text: string)
    returns (total: Size)
    requires destination != null ==> destination.Length == capacity
    requires written == Saturated(|text|)
    requires destination != null && capacity > 0 ==> Shows(destination[..], start, text)
    modifies if destination == null then {} else {destination}
    ensures total == Saturated(|text + source|)
    ensures destination != null && capacity > 0 ==> Shows(destination[..], start, text + source)
  {
    total := written;
    if written == SIZE_MAX {
      if destination != null && capacity > 0 {
        ShowsFull(destination[..], start, text, source);
      }
      return;
    }
    if destination != null && capacity > 0 {
      if written < capacity - 1 {
        var available: nat := capacity - 1 - written;
        var count := if |source| < available then |source| else available;
        ghost var before := destination[..];
        CopyInto(destination, written, source, count);
        ShowsMore(before, destination[..], start, text, source, count);
      } else {
        ShowsFull(destination[..], start, text, source);
      }
    }
    if |source| > SIZE_MAX - total {
      total := SIZE_MAX;
    } else {
      total := total + |source|;
    }
  }

  /** A full buffer keeps showing the front of a longer text. */
  lemma ShowsFull(buffer: string, start: string, text: string, more: string)
    requires Shows(buffer, start, text) && |text| >= |buffer| - 1
    ensures Shows(buffer, start, text + more)
  {
    var k := |buffer| - 1;
    assert Kept(text, |buffer|) == k == Kept(text + more, |buffer|);
    assert (text + more)[..k] == text[..k];
  }

  lemma ShowsMore(before: string, now: string, start: string, text: string, more: string, count: nat)
    requires Shows(before, start, text) && |text| < |before| - 1
    requires count == if |more| < |before| - 1 - |text| then |more| else |before| - 1 - |text|
    requires now == before[..|text|] + more[..count] + before[|text| + count..]
    ensures Shows(now, start, text + more)
  {
    var k := |text| + count;
    assert Kept(text, |before|) == |text| && Kept(text + more, |before|) == k;
    assert before[..|text|] == text;
    assert (text + more)[..k] == text + more[..count];
    assert now[..k] == text + more[..count];
    assert before[|text| + count..] == before[|text|..][count..] == start[|text|..][count..] == start[k..];
    assert now[k..] == start[k..];
  }

  /** find_argument. */
  method FindArgument(arguments: seq<Argument>, name: string) returns (value: Option<string>)
    ensures value == ValueOf(arguments, name)
  {
    var i := 0;
    assert arguments[0..] == arguments;
    while i < |arguments|
      invariant i <= |arguments|
      invariant ValueOf(arguments, name) == ValueOf(arguments[i..], name)
    {
      assert arguments[i..][1..] == arguments[i + 1..];
      if arguments[i].name == Some(name) && arguments[i].value.Some? {
        return arguments[i].value;
      }
      i := i + 1;
    }
    value := None;
  }

  /** The search for the closing brace. */
  method FindClose(format: string, from: nat) returns (end: nat)
    requires from <= |format|
    ensures end == Close(format, from)
  {
    end := from;
    while end < |format| && format[end] != '}'
      invariant from <= end <= |format| && Close(format, end) == Close(format, from)
      decreases |format| - end
    {
      end := end + 1;
    }
  }

  lemma {:induction false} CloseOfSuffix(format: string, i: nat, from: nat)
    requires i <= from <= |format|
    ensures Close(format, from) == i + Close(format[i..], from - i)
    decreases |format| - from
  {
    if from < |format| && format[from] != '}' {
      CloseOfSuffix(format, i, from + 1);
    }
  }

  /** A character outside a complete placeholder stands for itself. */
  lemma PlainPiece(format: string, arguments: seq<Argument>, i: nat)
    requires i < |format| && (format[i] == '{' ==> Close(format, i + 1) == |format|)
    ensures Expansion(format[i..], arguments) == [format[i]] + Expansion(format[i + 1..], arguments)
  {
    var rest := format[i..];
    assert rest[0] == format[i] && rest[1..] == format[i + 1..];
    if format[i] == '{' {
      CloseOfSuffix(format, i, i + 1);
    }
  }

  /** A complete placeholder is replaced, or kept, as a whole. */
  lemma PlaceholderPiece(format: string, arguments: seq<Argument>, i: nat, end: nat)
    requires i < |format| && format[i] == '{' && end == Close(format, i + 1) < |format|
    ensures var value := ValueOf(arguments, format[i + 1..end]);
      Expansion(format[i..], arguments)
        == (if value.Some? then value.value else format[i..end + 1]) + Expansion(format[end + 1..], arguments)
  {
    hide Close;
    hide ValueOf;
    CloseOfSuffix(format, i, i + 1);
    SuffixParts(format, i, end);
  }

  lemma SuffixParts(format: string, i: nat, end: nat)
    requires i < end < |format|
    ensures var rest, n := format[i..], end - i;
      && rest[0] == format[i] && rest[1..n] == format[i + 1..end]
      && rest[n + 1..] == format[end + 1..] && rest[..n + 1] == format[i..end + 1]
  {
  }

  /** One turn of the formatting loop: the piece to append and where to go on. */
  method NextPiece(format: string, arguments: seq<Argument>, i: nat) returns (piece: string, next: nat)
    requires i < |format|
    ensures i < next <= |format|
    ensures Expansion(format[i..], arguments) == piece + Expansion(format[next..], arguments)
  {
    hide Expansion;
    hide Close;
    hide ValueOf;
    if format[i] == '{' {
      var end := FindClose(format, i + 1);
      if end < |format| {
        PlaceholderPiece(format, arguments, i, end);
        var argument := FindArgument(arguments, format[i + 1..end]);
        if argument.Some? {
          return argument.value, end + 1;
        }
        return format[i..end + 1], end + 1;
      }
    }
    PlainPiece(format, arguments, i);
    piece, next := [format[i]], i + 1;
  }

  /** infiltratr_i18n_format: whatever the capacity the required length is the same, and the buffer
      holds exactly as much of the expansion as fits, terminated. */
  method Format(destination: array?<char>, capacity: Size, format: string, arguments: seq<Argument>)
    returns (written: Size)
    requires destination != null ==> destination.Length == capacity
    modifies if destination == null then {} else {destination}
    ensures var required := |Expansion(format, arguments)|; written == if required <= SIZE_MAX then required else SIZE_MAX
    ensures destination != null && capacity > 0 ==>
      var text := Expansion(format, arguments);
      var k: nat := if |text| < capacity then |text| else capacity - 1;
      && destination[..k] == text[..k] && destination[k] == '\0' && destination[k + 1..] == old(destination[k + 1..])
  {
    hide Expansion;
    hide Shows;
    written := 0;
    ghost var text := "";
    if destination != null && capacity > 0 {
      destination[0] := '\0';
      ShowsNothing(destination[..]);
    }
    ghost var start := if destination != null then destination[..] else "";
    var i := 0;
    assert format[0..] == format;
    EmptyPrefix(Expansion(format, arguments));
    while i < |format|
      invariant i <= |format|
      invariant Expansion(format, arguments) == text + Expansion(format[i..], arguments)
      invariant written == Saturated(|text|)
      invariant destination != null && capacity > 0 ==> Shows(destination[..], start, text)
    {
      var piece, next := NextPiece(format, arguments, i);
      written := AppendBytes(destination, capacity, written, piece, start, text);
      Assoc(text, piece, Expansion(format[next..], arguments));
      text := text + piece;
      i := next;
    }
    EmptyExpansion(format[i..], arguments, text);
    if destination != null && capacity > 0 {
      var terminator: nat := if written < capacity then written else capacity - 1;
      ShownFront(destination[..], start, text);
      destination[terminator] := '\0';
      assert destination[terminator + 1..] == start[terminator + 1..];
    }
  }

  lemma ShowsNothing(start: string)
    requires start != ""
    ensures Shows(start, start, "")
  {
  }

  lemma ShownFront(buffer: string, start: string, text: string)
    requires Shows(buffer, start, text)
    ensures var k := Kept(text, |buffer|);
      |buffer| == |start| && buffer[..k] == text[..k] && buffer[k..] == start[k..] && buffer[k + 1..] == start[k + 1..]
  {
    var k := Kept(text, |buffer|);
    assert buffer[k + 1..] == buffer[k..][1..] && start[k + 1..] == start[k..][1..];
  }

  lemma EmptyPrefix(s: string)
    ensures s == "" + s
  {
  }

  lemma EmptyExpansion(rest: string, arguments: seq<Argument>, text: string)
    requires rest == ""
    ensures text + Expansion(rest, arguments) == text
  {
  }
}
