/** The configuration line layer: lines trimmed and split in place by writing terminators into the
    caller's buffer. */
module ConfigLines {
  import opened Wrappers
  import opened Ascii

  function TrimStart(s: string): (r: string)
    ensures |r| <= |s| && (r != "" ==> !IsSpace(r[0]))
  {
    if s != "" && IsSpace(s[0]) then TrimStart(s[1..]) else s
  }

  function TrimEnd(s: string): (r: string)
    ensures r <= s && (r != "" ==> !IsSpace(r[|r| - 1]))
  {
    if s != "" && IsSpace(s[|s| - 1]) then TrimEnd(s[..|s| - 1]) else s
  }

  function Trimmed(s: string): string { TrimEnd(TrimStart(s)) }

  function IndexOf(s: string, c: char): (i: nat)
    ensures i <= |s| && (i < |s| ==> s[i] == c) && forall k :: 0 <= k < i ==> s[k] != c
  {
    if s == "" || s[0] == c then 0 else 1 + IndexOf(s[1..], c)
  }

  datatype Line = Ignored | Invalid | Entry(key: string, value: string)

  /** The meaning of a line. */
  function LineOf(s: string): Line {
    var t := Trimmed(s);
    var i := IndexOf(t, '=');
    if t == "" || t[0] == '#' then Ignored
    else if i == |t| || Trimmed(t[..i]) == "" then Invalid
    else Entry(Trimmed(t[..i]), Trimmed(t[i + 1..]))
  }

  predicate Tight(s: string) { s != "" && !IsSpace(s[0]) && !IsSpace(s[|s| - 1]) }

  lemma TightIsTrimmed(s: string)
    requires Tight(s)
    ensures Trimmed(s) == s
  {
  }

  /** Trimming takes off exactly the surrounding spaces. */
  lemma TrimmedIs(before: string, t: string, after: string)
    requires AllSpaces(before) && AllSpaces(after) && (t == "" || Tight(t))
    ensures Trimmed(before + t + after) == t
  {
    var s := before + t + after;
    StartSkips(before, t + after);
    assert s == before + (t + after);
    if t == "" {
      assert t + after == after;
      StartSkips(after, "");
      assert after + "" == after;
    } else {
      assert (t + after)[0] == t[0];
      EndSkips(t, after);
    }
    hide IsSpace;
  }

  lemma {:induction false} StartSkips(before: string, rest: string)
    requires AllSpaces(before)
    ensures TrimStart(before + rest) == TrimStart(rest)
    decreases |before|
  {
    hide IsSpace;
    if before == "" {
      assert before + rest == rest;
    } else {
      StartSkips(before[1..], rest);
      assert (before + rest)[1..] == before[1..] + rest;
    }
  }

  lemma {:induction false} EndSkips(rest: string, after: string)
    requires AllSpaces(after)
    ensures TrimEnd(rest + after) == TrimEnd(rest)
    decreases |after|
  {
    hide IsSpace;
    if after == "" {
      assert rest + after == rest;
    } else {
      var n := |after| - 1;
      EndSkips(rest, after[..n]);
      assert (rest + after)[..|rest + after| - 1] == rest + after[..n];
    }
  }

  /** What trimming takes off at either end. */
  lemma {:induction false} StartSplits(s: string) returns (before: string)
    ensures AllSpaces(before) && s == before + TrimStart(s)
    decreases |s|
  {
    if s != "" && IsSpace(s[0]) {
      before := StartSplits(s[1..]);
      before := [s[0]] + before;
      assert s == [s[0]] + s[1..];
    } else {
      before := "";
      assert s == "" + s;
    }
  }

  lemma {:induction false} EndSplits(s: string) returns (after: string)
    ensures AllSpaces(after) && s == TrimEnd(s) + after
    decreases |s|
  {
    if s != "" && IsSpace(s[|s| - 1]) {
      after := EndSplits(s[..|s| - 1]);
      after := after + [s[|s| - 1]];
      assert s == s[..|s| - 1] + [s[|s| - 1]];
    } else {
      after := "";
      assert s == s + "";
    }
  }

  lemma TrimmedTight(s: string)
    ensures Trimmed(s) == "" || Tight(Trimmed(s))
  {
    hide IsSpace;
    var t := TrimStart(s);
    if TrimEnd(t) != "" {
      assert TrimEnd(t)[0] == t[0];
    }
  }

  /** Taking spaces off either end first changes nothing. */
  lemma TrimmedInside(before: string, s: string, after: string)
    requires AllSpaces(before) && AllSpaces(after)
    ensures Trimmed(before + s + after) == Trimmed(s)
  {
    var a := StartSplits(s);
    var b := EndSplits(TrimStart(s));
    var t := Trimmed(s);
    TrimmedTight(s);
    assert TrimStart(s) == t + b;
    hide *;
    TrimmedIs(before + a, t, b + after) by {
      BothSpaces(before, a);
      BothSpaces(b, after);
    }
    Regroup(before, a, TrimStart(s), t, b, after, s);
  }

  lemma BothSpaces(a: string, b: string)
    requires AllSpaces(a) && AllSpaces(b)
    ensures AllSpaces(a + b)
  {
  }

  lemma Regroup(before: string, a: string, u: string, t: string, b: string, after: string, s: string)
    requires s == a + u && u == t + b
    ensures before + s + after == before + a + t + (b + after)
  {
    assert s == a + (t + b);
  }

  /** What a line means, from the first separator on: nothing before it makes the line invalid, a hash makes
      it a comment, and otherwise the trimmed parts are key and value. */
  lemma LineSplits(left: string, right: string)
    requires '=' !in left
    ensures var key := Trimmed(left);
      LineOf(left + "=" + right) ==
        if key == "" then Invalid else if key[0] == '#' then Ignored else Entry(key, Trimmed(right))
  {
    var s := left + "=" + right;
    var a := StartSplits(left);
    var b := EndSplits(right);
    var l, r := TrimStart(left), TrimEnd(right);
    var t := l + "=" + r;
    assert s == a + t + b;
    StartKeepsSeparator(left, a, l);
    SidesTrimmed(left, right, a, b, l, r);
    KeyStart(left, l);
    hide *;
    TrimmedOfSides(s, a, t, b, l, r);
    LineByParts(s, t, l, r, Trimmed(left), Trimmed(right));
  }

  lemma LineByParts(s: string, t: string, l: string, r: string, key: string, value: string)
    requires Trimmed(s) == t && t == l + "=" + r && '=' !in l && Trimmed(l) == key && Trimmed(r) == value
    requires (key == "" <==> l == "") && (l != "" ==> key[0] == l[0])
    ensures LineOf(s) == if key == "" then Invalid else if key[0] == '#' then Ignored else Entry(key, value)
  {
    hide Trimmed;
    FirstIndex(t, '=', |l|);
    assert t[..|l|] == l && t[|l| + 1..] == r;
    assert l == "" ==> t[0] == '=';
    assert l != "" ==> t[0] == l[0];
    hide IndexOf;
  }

  lemma StartKeepsSeparator(left: string, a: string, l: string)
    requires '=' !in left && left == a + l
    ensures '=' !in l
  {
    assert forall k :: 0 <= k < |l| ==> l[k] == left[|a| + k] && left[|a| + k] in left;
  }

  /** The trimmed line, whose two sides trim to what the sides of the line trim to. */
  lemma SidesTrimmed(left: string, right: string, a: string, b: string, l: string, r: string)
    requires AllSpaces(a) && AllSpaces(b) && left == a + l && right == r + b
    ensures Trimmed(l) == Trimmed(left) && Trimmed(r) == Trimmed(right)
  {
    hide *;
    assert AllSpaces("") by { NoSpaces(); }
    TrimmedInside(a, l, "");
    TrimmedInside("", r, b);
    assert a + l + "" == left && "" + r + b == right;
  }

  lemma NoSpaces()
    ensures AllSpaces("")
  {
  }

  lemma TrimmedOfSides(s: string, a: string, t: string, b: string, l: string, r: string)
    requires s == a + t + b && AllSpaces(a) && AllSpaces(b) && t == l + "=" + r
    requires (l == "" || !IsSpace(l[0])) && (r == "" || !IsSpace(r[|r| - 1]))
    ensures Trimmed(s) == t
  {
    assert t[0] == (l + "=")[0] && t[|t| - 1] == ("=" + r)[|r|];
    TrimmedIs(a, t, b);
    hide Trimmed;
  }

  /** The line starts with a hash exactly when its key does. */
  lemma KeyStart(left: string, l: string)
    requires Trimmed(l) == Trimmed(left) && (l == "" || !IsSpace(l[0]))
    ensures Trimmed(left) == "" <==> l == ""
    ensures l != "" ==> Trimmed(left)[0] == l[0]
  {
    if l != "" {
      EndKeepsFirst(l);
    }
    hide TrimEnd;
    hide IsSpace;
  }

  lemma {:induction false} EndKeepsFirst(s: string)
    requires s != "" && !IsSpace(s[0])
    ensures TrimEnd(s) != "" && TrimEnd(s)[0] == s[0]
    decreases |s|
  {
    hide IsSpace;
    if IsSpace(s[|s| - 1]) {
      EndKeepsFirst(s[..|s| - 1]);
    }
  }

  /** A line without a separator is blank, a comment, or invalid. */
  lemma LineWithout(s: string)
    requires '=' !in s
    ensures LineOf(s) == if Trimmed(s) == "" || Trimmed(s)[0] == '#' then Ignored else Invalid
  {
    TrimmedPart(s, '=');
    hide Trimmed;
  }

  lemma TrimmedPart(s: string, c: char)
    requires c !in s
    ensures c !in Trimmed(s)
  {
    var before := StartSplits(s);
    var after := EndSplits(TrimStart(s));
    assert forall k :: 0 <= k < |Trimmed(s)| ==> Trimmed(s)[k] == s[|before| + k];
    hide TrimStart;
    hide TrimEnd;
  }

  /** Key, separator and value make an entry of exactly those. */
  lemma LineOfEntry(key: string, value: string)
    requires Tight(key) && Tight(value) && key[0] != '#' && '=' !in key
    ensures LineOf(key + "=" + value) == Entry(key, value)
  {
    hide Trimmed;
    hide IsSpace;
    var s := key + "=" + value;
    assert s[0] == key[0] && s[|s| - 1] == value[|value| - 1];
    TightIsTrimmed(s);
    FirstIndex(s, '=', |key|);
    assert s[..|key|] == key && s[|key| + 1..] == value;
    TightIsTrimmed(key);
    TightIsTrimmed(value);
  }

  lemma FirstIndex(s: string, c: char, i: nat)
    requires i < |s| && s[i] == c && forall k :: 0 <= k < i ==> s[k] != c
    ensures IndexOf(s, c) == i
  {
  }

  /** A terminated string at a position of a buffer. */
  predicate IsCString(buffer: string, at: nat, text: string) {
    && at + |text| < |buffer| && buffer[at..at + |text|] == text && buffer[at + |text|] == '\0'
  }

  lemma TrimEndStep(s: string, n: nat)
    requires n <= |s|
    ensures n > 0 && IsSpace(s[n - 1]) ==> TrimEnd(s[..n]) == TrimEnd(s[..n - 1])
    ensures n == 0 || !IsSpace(s[n - 1]) ==> TrimEnd(s[..n]) == s[..n]
  {
    if n > 0 {
      assert s[..n][..n - 1] == s[..n - 1];
    }
  }

  /** Steps over leading spaces. */
  method SkipLeading(buffer: array<char>, at: nat, ghost term: nat) returns (start: nat)
    requires at <= term < buffer.Length && buffer[term] == '\0'
    ensures at <= start <= term && TrimStart(buffer[at..term]) == buffer[start..term]
  {
    ghost var text := buffer[at..term];
    start := at;
    assert text[0..] == text;
    while buffer[start] != '\0' && IsSpace(buffer[start])
      invariant at <= start <= term && TrimStart(text) == TrimStart(text[start - at..])
      decreases term - start
    {
      assert text[start - at..][0] == buffer[start];
      assert text[start - at..][1..] == text[start + 1 - at..];
      start := start + 1;
    }
    assert text[start - at..] == buffer[start..term];
    if start < term {
      assert buffer[start..term][0] == buffer[start];
    }
  }

  /** Steps back over trailing spaces. */
  method SkipTrailing(buffer: array<char>, start: nat, term: nat) returns (stop: nat)
    requires start <= term < buffer.Length
    ensures start <= stop <= term && TrimEnd(buffer[start..term]) == buffer[start..stop]
  {
    hide TrimEnd;
    hide IsSpace;
    ghost var text := buffer[start..term];
    stop := term;
    assert text[..term - start] == text;
    while stop > start && IsSpace(buffer[stop - 1])
      invariant start <= stop <= term && TrimEnd(text) == TrimEnd(text[..stop - start])
    {
      TrimEndStep(text, stop - start);
      stop := stop - 1;
    }
    TrimEndStep(text, stop - start);
    assert text[..stop - start] == buffer[start..stop];
  }

  /** trim_ascii_in_place: steps over leading spaces and ends the string after the last other character. */
  method TrimInPlace(buffer: array<char>, at: nat, ghost term: nat) returns (start: nat, ghost end: nat)
    requires at <= term < buffer.Length && buffer[term] == '\0' && '\0' !in buffer[at..term]
    modifies buffer
    ensures at <= start <= end <= term && buffer[end] == '\0'
    ensures buffer[start..end] == Trimmed(old(buffer[at..term]))
    ensures buffer[..end] == old(buffer[..end]) && buffer[end + 1..] == old(buffer[end + 1..])
  {
    hide TrimStart;
    hide TrimEnd;
    start := SkipLeading(buffer, at, term);
    assert buffer[start..term] == buffer[at..term][start - at..];
    var stop := FindTerminator(buffer, start, term);
    stop := SkipTrailing(buffer, start, stop);
    buffer[stop] := '\0';
    end := stop;
  }

  /** strlen. */
  method FindTerminator(buffer: array<char>, from: nat, ghost term: nat) returns (stop: nat)
    requires from <= term < buffer.Length && buffer[term] == '\0' && '\0' !in buffer[from..term]
    ensures stop == term
  {
    assert forall i :: from <= i < term ==> buffer[i] in buffer[from..term];
    stop := from;
    while buffer[stop] != '\0'
      invariant from <= stop <= term
      decreases term - stop
    {
      stop := stop + 1;
    }
  }

  /** strchr for the separator, up to the terminator. */
  method FindSeparator(buffer: array<char>, from: nat, ghost end: nat) returns (found: bool, at: nat)
    requires from <= end < buffer.Length && buffer[end] == '\0' && '\0' !in buffer[from..end]
    ensures found <==> IndexOf(buffer[from..end], '=') < end - from
    ensures found ==> at == from + IndexOf(buffer[from..end], '=')
  {
    ghost var text := buffer[from..end];
    at := from;
    while buffer[at] != '\0' && buffer[at] != '='
      invariant from <= at <= end
      invariant forall k :: 0 <= k < at - from ==> text[k] != '='
      decreases end - at
    {
      assert buffer[at] == text[at - from];
      at := at + 1;
    }
    if at < end {
      assert buffer[at] == text[at - from];
      assert buffer[at] in text;
      FirstIndex(text, '=', at - from);
    }
    found := buffer[at] == '=';
  }

  datatype Status = IgnoredLine | InvalidLine | EntryLine(key: nat, value: nat)

  /** The status matches the meaning, and for an entry both strings lie in the buffer. */
  predicate Matches(status: Status, line: Line, buffer: string) {
    match line
    case Ignored => status.IgnoredLine?
    case Invalid => status.InvalidLine?
    case Entry(key, value) => status.EntryLine? && IsCString(buffer, status.key, key) && IsCString(buffer, status.value, value)
  }

  lemma TrimmedKeeps(s: string)
    requires '\0' !in s
    ensures '\0' !in Trimmed(s)
  {
    StartKeeps(s);
  }

  lemma {:induction false} StartKeeps(s: string)
    requires '\0' !in s
    ensures '\0' !in TrimStart(s)
  {
    if s != "" && IsSpace(s[0]) {
      StartKeeps(s[1..]);
    }
  }

  /** infiltratr_config_parse_line. */
  method ParseLine(buffer: array<char>, ghost term: nat) returns (status: Status)
    requires term < buffer.Length && buffer[term] == '\0' && '\0' !in buffer[..term]
    modifies buffer
    ensures Matches(status, LineOf(old(buffer[..term])), buffer[..])
  {
    hide Trimmed;
    ghost var line := buffer[..term];
    assert buffer[0..term] == line;
    TrimmedKeeps(line);
    var start, end := TrimInPlace(buffer, 0, term);
    ghost var t := Trimmed(line);
    assert buffer[start..end] == t;
    if buffer[start] == '\0' || buffer[start] == '#' {
      BlankOrComment(buffer[..], start, end, t);
      return IgnoredLine;
    }
    NotBlank(buffer[..], start, end, t);
    var found, separator := FindSeparator(buffer, start, end);
    if !found {
      return InvalidLine;
    }
    status := SplitAt(buffer, start, separator, end, t);
  }

  lemma NotBlank(buffer: string, start: nat, end: nat, t: string)
    requires start <= end < |buffer| && buffer[end] == '\0' && buffer[start..end] == t
    requires buffer[start] != '\0' && buffer[start] != '#'
    ensures t != "" && t[0] != '#'
  {
    assert start != end;
    assert t[0] == buffer[start];
  }

  /** Ends the key at the separator and trims both parts. */
  method SplitAt(buffer: array<char>, start: nat, separator: nat, ghost end: nat, ghost t: string) returns (status: Status)
    requires start <= separator < end < buffer.Length && buffer[end] == '\0' && buffer[start..end] == t && '\0' !in t
    modifies buffer
    ensures var key, value := Trimmed(t[..separator - start]), Trimmed(t[separator - start + 1..]);
      if key == "" then status.InvalidLine?
      else status.EntryLine? && IsCString(buffer[..], status.key, key) && IsCString(buffer[..], status.value, value)
  {
    hide Trimmed;
    hide IsCString;
    PartsOf(buffer[..], start, separator, end, t);
    buffer[separator] := '\0';
    assert buffer[start..separator] == t[..separator - start] && buffer[separator + 1..end] == t[separator - start + 1..];
    TrimmedKeeps(t[..separator - start]);
    TrimmedKeeps(t[separator - start + 1..]);
    var key, keyEnd := TrimInPlace(buffer, start, separator);
    ghost var keyed := buffer[..];
    AfterKey(old(buffer[..]), keyed, keyEnd, separator, end);
    var value, valueEnd := TrimInPlace(buffer, separator + 1, end);
    KeyStands(keyed, buffer[..], key, keyEnd, valueEnd);
    StringAt(buffer[..], key, keyEnd);
    StringAt(buffer[..], value, valueEnd);
    if buffer[key] == '\0' {
      EmptyOrNot(buffer[..], key, keyEnd);
      return InvalidLine;
    }
    EmptyOrNot(buffer[..], key, keyEnd);
    status := EntryLine(key, value);
  }

  lemma StringAt(buffer: string, at: nat, end: nat)
    requires at <= end < |buffer| && buffer[end] == '\0'
    ensures IsCString(buffer, at, buffer[at..end])
  {
  }

  lemma EmptyOrNot(buffer: string, at: nat, end: nat)
    requires at <= end < |buffer| && buffer[end] == '\0' && '\0' !in buffer[at..end]
    ensures buffer[at] == '\0' <==> buffer[at..end] == ""
  {
    if at < end {
      assert buffer[at] in buffer[at..end];
    }
  }

  lemma BlankOrComment(buffer: string, start: nat, end: nat, t: string)
    requires start <= end < |buffer| && buffer[end] == '\0' && buffer[start..end] == t && '\0' !in t
    requires buffer[start] == '\0' || buffer[start] == '#'
    ensures t == "" || t[0] == '#'
  {
    if start < end {
      assert t[0] == buffer[start];
      assert t[0] in t;
    }
  }

  lemma PartsOf(buffer: string, start: nat, separator: nat, end: nat, t: string)
    requires start <= separator < end < |buffer| && buffer[start..end] == t && '\0' !in t
    ensures buffer[start..separator] == t[..separator - start]
    ensures buffer[separator + 1..end] == t[separator - start + 1..]
    ensures '\0' !in t[..separator - start] && '\0' !in t[separator - start + 1..]
  {
  }

  lemma AfterKey(original: string, keyed: string, keyEnd: nat, separator: nat, end: nat)
    requires |keyed| == |original| && keyEnd <= separator < end < |keyed|
    requires keyed[keyEnd + 1..] == original[separator := '\0'][keyEnd + 1..]
    ensures keyed[separator + 1..end] == original[separator + 1..end] && keyed[end] == original[end]
  {
    assert forall i :: keyEnd < i < |keyed| ==> keyed[i] == keyed[keyEnd + 1..][i - keyEnd - 1];
  }

  /** Trimming the value does not touch the key. */
  lemma KeyStands(before: string, now: string, key: nat, keyEnd: nat, valueEnd: nat)
    requires |now| == |before| && key <= keyEnd < valueEnd <= |now|
    requires now[..valueEnd] == before[..valueEnd]
    ensures now[key..keyEnd] == before[key..keyEnd] && now[keyEnd] == before[keyEnd]
  {
    assert now[key..keyEnd] == now[..valueEnd][key..keyEnd];
    assert now[keyEnd] == now[..valueEnd][keyEnd];
  }

  /** The truth value a text stands for. */
  function BoolOf(s: string): Option<bool> {
    var t := Lowered(Trimmed(s));
    if t == "1" || t == "true" || t == "yes" then Some(true)
    else if t == "0" || t == "false" || t == "no" then Some(false)
    else None
  }

  function BoolText(b: bool): string { if b then "true" else "false" }

  /** The words for true and false, in any case and between any spaces. */
  predicate TruthWord(word: string, truth: bool) {
    if truth then word == "1" || word == "true" || word == "yes" else word == "0" || word == "false" || word == "no"
  }

  lemma WordsHaveValues(before: string, word: string, after: string, truth: bool)
    requires AllSpaces(before) && AllSpaces(after) && TruthWord(Lowered(word), truth)
    ensures BoolOf(before + word + after) == Some(truth)
  {
    WordTight(word, truth);
    hide Lowered;
    TrimmedIs(before, word, after);
    hide Trimmed;
  }

  lemma WordTight(word: string, truth: bool)
    requires TruthWord(Lowered(word), truth)
    ensures Tight(word)
  {
    var w := Lowered(word);
    assert |w| > 0 && IsAlnum(w[0]) && IsAlnum(w[|w| - 1]);
    LoweredAlnum(word[0]);
    LoweredAlnum(word[|word| - 1]);
    hide IsAlnum;
    hide IsSpace;
    hide ToLower;
  }

  lemma LoweredAlnum(c: char)
    ensures IsAlnum(ToLower(c)) ==> !IsSpace(c)
  {
  }

  /** Nothing else has a truth value. */
  lemma OnlyWordsHaveValues(s: string, truth: bool)
    requires BoolOf(s) == Some(truth)
    ensures TruthWord(Lowered(Trimmed(s)), truth)
  {
    hide Lowered;
    hide Trimmed;
  }

  /** What is written for a truth value reads back as it. */
  lemma BoolRoundTrip(b: bool)
    ensures BoolOf(BoolText(b)) == Some(b)
  {
    TightIsTrimmed(BoolText(b));
    assert Lowered("true") == "true" && Lowered("false") == "false";
    hide Trimmed;
  }

  /** infiltratr_ascii_equal_ci_span. */
  method EqualIgnoringCase(text: string, from: nat, length: nat, candidate: string) returns (equal: bool)
    requires from + length <= |text|
    ensures equal <==> Lowered(text[from..from + length]) == Lowered(candidate)
  {
    ghost var span := text[from..from + length];
    var index := 0;
    while index < length && index < |candidate|
      invariant index <= length && index <= |candidate|
      invariant Lowered(span[..index]) == Lowered(candidate[..index])
    {
      var left, right := ToLower(text[from + index]), ToLower(candidate[index]);
      if left != right {
        assert Lowered(span)[index] != Lowered(candidate)[index];
        return false;
      }
      LoweredSnoc(span, index);
      LoweredSnoc(candidate, index);
      index := index + 1;
    }
    equal := index == length && index == |candidate|;
    if equal {
      assert span[..index] == span && candidate[..index] == candidate;
    } else {
      assert |Lowered(span)| != |Lowered(candidate)|;
    }
  }

  lemma LoweredSnoc(s: string, i: nat)
    requires i < |s|
    ensures Lowered(s[..i + 1]) == Lowered(s[..i]) + [ToLower(s[i])]
  {
  }

  /** The span of a text between its surrounding spaces. */
  method TrimmedSpan(text: string) returns (from: nat, end: nat)
    ensures from <= end <= |text| && text[from..end] == Trimmed(text)
  {
    from := FirstOther(text);
    hide *;
    end := LastOther(text, from);
    Combine(text, from, end);
  }

  lemma Combine(text: string, from: nat, end: nat)
    requires from <= end <= |text| && TrimStart(text) == text[from..] && TrimEnd(text[from..]) == text[from..end]
    ensures text[from..end] == Trimmed(text)
  {
    hide TrimStart;
    hide TrimEnd;
  }

  method LastOther(text: string, from: nat) returns (end: nat)
    requires from <= |text|
    ensures from <= end <= |text| && TrimEnd(text[from..]) == text[from..end]
  {
    hide TrimEnd;
    hide IsSpace;
    ghost var rest := text[from..];
    end := |text|;
    assert rest[..end - from] == rest;
    while end > from && IsSpace(text[end - 1])
      invariant from <= end <= |text| && TrimEnd(rest) == TrimEnd(rest[..end - from])
    {
      TrimEndStep(rest, end - from);
      end := end - 1;
    }
    TrimEndStep(rest, end - from);
    assert rest[..end - from] == text[from..end];
  }

  method FirstOther(text: string) returns (from: nat)
    ensures from <= |text| && TrimStart(text) == text[from..]
  {
    hide IsSpace;
    from := 0;
    assert text[0..] == text;
    while from < |text| && IsSpace(text[from])
      invariant from <= |text| && TrimStart(text) == TrimStart(text[from..])
    {
      assert text[from..][1..] == text[from + 1..];
      from := from + 1;
    }
  }

  lemma LoweredWords()
    ensures Lowered("true") == "true" && Lowered("yes") == "yes" && Lowered("false") == "false" && Lowered("no") == "no"
  {
  }

  lemma LoweredDigit(s: string, digit: char)
    requires IsDigit(digit)
    ensures Lowered(s) == [digit] <==> |s| == 1 && s[0] == digit
  {
    if |s| == 1 {
      assert Lowered(s) == [ToLower(s[0])];
    }
  }

  /** infiltratr_config_parse_bool. */
  method ParseBool(text: string) returns (value: Option<bool>)
    ensures value == BoolOf(text)
  {
    hide Lowered;
    hide Trimmed;
    var from, end := TrimmedSpan(text);
    var length := end - from;
    ghost var t := Trimmed(text);
    assert t == text[from..from + length];
    LoweredWords();
    LoweredDigit(t, '1');
    LoweredDigit(t, '0');
    var isTrue := EqualIgnoringCase(text, from, length, "true");
    var isYes := EqualIgnoringCase(text, from, length, "yes");
    if (length == 1 && text[from] == '1') || isTrue || isYes {
      return Some(true);
    }
    var isFalse := EqualIgnoringCase(text, from, length, "false");
    var isNo := EqualIgnoringCase(text, from, length, "no");
    if (length == 1 && text[from] == '0') || isFalse || isNo {
      return Some(false);
    }
    value := None;
  }
}
