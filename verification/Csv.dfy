/** CSV fields, always quoted, optionally protected against spreadsheet formulas. */
module Csv {
  import opened Wrappers
  import opened DecimalExponents
  import opened MachineIntegers
  import opened Escape
  import opened Texts

  /** Bytes that survive: everything but the C0 controls and DEL; a tab survives as a space. */
  predicate IsDropped(c: char) { c != '\t' && (c < ' ' || c == '\U{007F}') }

  /** The field value a reader is meant to see. */
  ghost function Sanitised(s: seq<Octet>): string {
    if s == [] then "" else Value(s[0]) + Sanitised(s[1..])
  }

  /** What a reader is meant to see of one byte. */
  ghost function Value(c: Octet): string {
    if IsDropped(c) then "" else if c == '\t' then " " else [c as char]
  }

  /** Byte by byte: a tab becomes a space, a control character or DEL vanishes, and every other byte stays. */
  lemma SanitisedEach(s: seq<Octet>, c: Octet, t: seq<Octet>)
    ensures Sanitised(s + [c] + t) ==
      Sanitised(s) + (if c == '\t' then " " else if c < ' ' || c == '\U{007F}' then "" else [c as char]) + Sanitised(t)
  {
    SanitisedConcat(s + [c], t);
    SanitisedConcat(s, [c]);
    assert Sanitised([c]) == Value(c) by {
      assert [c][1..] == [] && Sanitised([]) == "";
      assert Value(c) + "" == Value(c);
    }
    hide Sanitised;
  }

  lemma {:induction false} SanitisedConcat(s: seq<Octet>, t: seq<Octet>)
    ensures Sanitised(s + t) == Sanitised(s) + Sanitised(t)
    decreases |s|
  {
    hide Value;
    if s == [] {
      assert s + t == t;
    } else {
      SanitisedConcat(s[1..], t);
      assert (s + t)[1..] == s[1..] + t;
      Assoc(Value(s[0]), Sanitised(s[1..]), Sanitised(t));
    }
  }

  /** A formula starts with one of four characters, spaces before it not counted. */
  lemma {:induction false} LeadAfterSpaces(spaces: string, t: string)
    requires forall i :: 0 <= i < |spaces| ==> spaces[i] == ' '
    ensures FormulaLead(spaces + t) == FormulaLead(t)
    ensures t != "" && t[0] != ' ' ==> (FormulaLead(t) <==> t[0] == '=' || t[0] == '+' || t[0] == '-' || t[0] == '@')
    decreases |spaces|
  {
    if spaces == "" {
      assert spaces + t == t;
    } else {
      LeadAfterSpaces(spaces[1..], t);
      assert (spaces + t)[1..] == spaces[1..] + t;
    }
  }

  /** What is written for one byte. */
  function FieldText(c: char): string {
    if c == '"' then "\"\"" else if c == '\t' then " " else if IsDropped(c) then "" else [c]
  }

  function FieldBody(s: seq<Octet>): string {
    if s == [] then "" else FieldText(s[0]) + FieldBody(s[1..])
  }

  /** The escaped field of RFC 4180, section 2, after its opening quote: pairs of quotes stand for one,
      and a lone quote ends the field and the text. */
  function ReadQuoted(s: string): Option<string>
    decreases |s|
  {
    if s == "" then None
    else if s[0] != '"' then
      var rest := ReadQuoted(s[1..]);
      if rest.None? then None else Some([s[0]] + rest.value)
    else if |s| == 1 then Some("")
    else if s[1] != '"' then None
    else
      var rest := ReadQuoted(s[2..]);
      if rest.None? then None else Some("\"" + rest.value)
  }

  function ReadField(s: string): Option<string> {
    if s == "" || s[0] != '"' then None else ReadQuoted(s[1..])
  }

  /** A spreadsheet would take a field for a formula when its first visible character starts one. */
  predicate FormulaLead(t: string) {
    t != "" && if t[0] == ' ' then FormulaLead(t[1..]) else t[0] in "=+-@"
  }

  lemma {:induction false} BodyReads(s: seq<Octet>)
    ensures ReadQuoted(FieldBody(s) + "\"") == Some(Sanitised(s))
    decreases |s|
  {
    if s == [] {
      assert FieldBody(s) + "\"" == "\"";
    } else {
      BodyReads(s[1..]);
      ReadOne(s[0], FieldBody(s[1..]) + "\"");
      assert FieldBody(s) + "\"" == FieldText(s[0]) + (FieldBody(s[1..]) + "\"");
    }
  }

  lemma ReadOne(c: Octet, rest: string)
    requires ReadQuoted(rest).Some?
    ensures ReadQuoted(FieldText(c) + rest) ==
      Some(Value(c) + ReadQuoted(rest).value)
  {
    var s := FieldText(c) + rest;
    if c == '"' {
      assert s[0] == '"' && s[1] == '"' && s[2..] == rest;
    } else if !IsDropped(c) {
      assert s[1..] == rest;
    } else {
      assert s == rest;
      assert "" + ReadQuoted(rest).value == ReadQuoted(rest).value;
    }
  }

  /** csv_formula_candidate: skips blanks and controls, then looks at one byte. */
  method FormulaCandidate(input: seq<Octet>) returns (candidate: bool)
    ensures candidate <==> FormulaLead(Sanitised(input))
  {
    assert input[0..] == input;
    var i := 0;
    while i < |input|
      invariant i <= |input|
      invariant FormulaLead(Sanitised(input)) <==> FormulaLead(Sanitised(input[i..]))
    {
      var c := input[i];
      assert input[i..][1..] == input[i + 1..];
      LeadStep(input[i..]);
      if !(c == ' ' || c == '\t' || c == '\r' || c == '\n' || c < ' ' || c == '\U{007F}') {
        return c in "=+-@";
      }
      i := i + 1;
    }
    assert input[i..] == [];
    candidate := false;
  }

  lemma LeadStep(s: seq<Octet>)
    requires s != []
    ensures var c := s[0];
      FormulaLead(Sanitised(s)) ==
        if c == ' ' || c == '\t' || IsDropped(c) then FormulaLead(Sanitised(s[1..])) else c in "=+-@"
  {
    var c, t := s[0], Sanitised(s[1..]);
    if IsDropped(c) {
      assert Sanitised(s) == t;
    } else {
      var first := if c == '\t' then ' ' else c as char;
      assert Sanitised(s) == [first] + t;
      assert ([first] + t)[1..] == t;
    }
  }

  /** The complete field. */
  ghost function Field(s: seq<Octet>, spreadsheetSafe: bool): string {
    "\"" + Mark(s, spreadsheetSafe) + FieldBody(s) + "\""
  }

  ghost function Mark(s: seq<Octet>, spreadsheetSafe: bool): string {
    if spreadsheetSafe && FormulaLead(Sanitised(s)) then "'" else ""
  }

  /** A field reads back as exactly the sanitised value, behind the mark when there is one. */
  lemma FieldReads(s: seq<Octet>, spreadsheetSafe: bool)
    ensures ReadField(Field(s, spreadsheetSafe)) == Some(Mark(s, spreadsheetSafe) + Sanitised(s))
  {
    var mark := Mark(s, spreadsheetSafe);
    BodyReads(s);
    var body := FieldBody(s) + "\"";
    assert Field(s, spreadsheetSafe)[1..] == mark + body;
    if mark == "" {
      assert mark + body == body && mark + Sanitised(s) == Sanitised(s);
    } else {
      assert (mark + body)[1..] == body;
    }
  }

  /** In spreadsheet-safe mode no value that is read back starts a formula. */
  lemma SafeFieldIsNoFormula(s: seq<Octet>)
    ensures ReadField(Field(s, true)).Some? && !FormulaLead(ReadField(Field(s, true)).value)
  {
    FieldReads(s, true);
    hide Field;
    hide ReadField;
    hide Sanitised;
    assert "" + Sanitised(s) == Sanitised(s);
  }

  /** No control character is written: a field never breaks its record. */
  lemma {:induction false} FieldStaysOnOneLine(s: seq<Octet>, i: nat)
    requires i < |FieldBody(s)|
    ensures FieldBody(s)[i] >= ' ' && FieldBody(s)[i] != '\U{007F}'
    decreases |s|
  {
    if i >= |FieldText(s[0])| {
      FieldStaysOnOneLine(s[1..], i - |FieldText(s[0])|);
    }
  }

  lemma {:induction false} BodyConcat(s: seq<Octet>, t: seq<Octet>)
    ensures FieldBody(s + t) == FieldBody(s) + FieldBody(t)
    decreases |s|
  {
    hide FieldText;
    if s == [] {
      assert s + t == t;
    } else {
      BodyConcat(s[1..], t);
      assert (s + t)[1..] == s[1..] + t;
    }
  }

  lemma BodyPrefix(s: seq<Octet>, i: nat)
    requires i < |s|
    ensures FieldBody(s[..i + 1]) == FieldBody(s[..i]) + FieldText(s[i])
    ensures |FieldBody(s[..i + 1])| <= |FieldBody(s)|
  {
    hide FieldText;
    BodyConcat(s[..i], [s[i]]);
    assert FieldBody([s[i]]) == FieldText(s[i]) + FieldBody([]);
    assert s[..i] + [s[i]] == s[..i + 1];
    BodyConcat(s[..i + 1], s[i + 1..]);
    assert s[..i + 1] + s[i + 1..] == s;
  }

  /** The measuring pass, from the size already accounted for. */
  method MeasureBody(input: seq<Octet>, base: nat) returns (required: Option<nat>)
    requires base <= SIZE_MAX
    ensures var n := base + |FieldBody(input)|;
      required == if n <= SIZE_MAX then Some(n) else None
  {
    var total := base;
    var i := 0;
    while i < |input|
      invariant i <= |input|
      invariant total == base + |FieldBody(input[..i])| <= SIZE_MAX
    {
      BodyPrefix(input, i);
      var c := input[i];
      var amount := 0;
      if c == '"' {
        amount := 2;
      } else if c == '\t' || (c >= ' ' && c != '\U{007F}') {
        amount := 1;
      }
      var sum := SizeAddChecked(total, amount);
      if sum.None? {
        return None;
      }
      total := sum.value;
      i := i + 1;
    }
    assert input[..i] == input;
    required := Some(total);
  }

  /** Writes what stands for one byte. */
  method WriteByte(output: array<char>, cursor: nat, c: Octet) returns (next: nat)
    requires cursor + |FieldText(c)| <= output.Length
    modifies output
    ensures next == cursor + |FieldText(c)|
    ensures output[..next] == old(output[..cursor]) + FieldText(c) && output[next..] == old(output[next..])
  {
    if c == '"' {
      next := Write(output, cursor, "\"\"");
    } else if c == '\t' {
      next := Write(output, cursor, " ");
    } else if c >= ' ' && c != '\U{007F}' {
      next := Write(output, cursor, [c]);
    } else {
      next := cursor;
    }
  }

  /** The writing pass. */
  method WriteBody(input: seq<Octet>, output: array<char>, start: nat) returns (next: nat)
    requires start + |FieldBody(input)| <= output.Length
    modifies output
    ensures next == start + |FieldBody(input)|
    ensures output[..next] == old(output[..start]) + FieldBody(input)
    ensures output[next..] == old(output[next..])
  {
    hide FieldText;
    ghost var n := start + |FieldBody(input)|;
    next := start;
    var i := 0;
    while i < |input|
      invariant i <= |input|
      invariant next == start + |FieldBody(input[..i])| <= n
      invariant output[..next] == old(output[..start]) + FieldBody(input[..i])
      invariant output[n..] == old(output[n..])
    {
      BodyPrefix(input, i);
      next := WriteByte(output, next, input[i]);
      LaterPart(output[..], next, n);
      i := i + 1;
    }
    assert input[..i] == input;
  }

  lemma LaterPart(all: string, next: nat, n: nat)
    requires next <= n <= |all|
    ensures all[n..] == all[next..][n - next..]
  {
  }

  /** infiltratr_escape_csv_field. */
  method EscapeField(input: seq<Octet>, spreadsheetSafe: bool, output: array?<char>, size: nat)
    returns (ok: bool, required: nat)
    requires output != null ==> output.Length == size
    modifies if output == null then {} else {output}
    ensures var n := 1 + |Field(input, spreadsheetSafe)|;
      && required == (if n <= SIZE_MAX then n else 0)
      && (ok <==> n <= SIZE_MAX && if output == null then size == 0 else n <= size)
      && (ok && output != null ==>
            output[..n] == Field(input, spreadsheetSafe) + ['\0'] && output[n..] == old(output[n..]))
      && (!ok && output != null && size > 0 ==> output[0] == '\0' && output[1..] == old(output[1..]))
  {
    hide FieldBody;
    if output != null && size > 0 {
      output[0] := '\0';
    }
    var protect := false;
    if spreadsheetSafe {
      protect := FormulaCandidate(input);
    }
    var base := if protect then 4 else 3;
    var measured := MeasureBody(input, base);
    if measured.None? {
      return false, 0;
    }
    required := measured.value;
    if output == null {
      return size == 0, required;
    }
    if size < required {
      return false, required;
    }
    WriteField(input, protect, output);
    ok := true;
  }

  /** Quote, mark, body, quote and terminator. */
  method WriteField(input: seq<Octet>, protect: bool, output: array<char>)
    requires 3 + (if protect then 1 else 0) + |FieldBody(input)| <= output.Length
    modifies output
    ensures var text := "\"" + (if protect then "'" else "") + FieldBody(input) + "\"";
      output[..|text| + 1] == text + ['\0'] && output[|text| + 1..] == old(output[|text| + 1..])
  {
    hide FieldBody;
    ghost var n := 3 + (if protect then 1 else 0) + |FieldBody(input)|;
    var destination := Write(output, 0, "\"");
    if protect {
      destination := Write(output, destination, "'");
    }
    LaterPart(output[..], destination, n);
    destination := WriteBody(input, output, destination);
    LaterPart(output[..], destination, n);
    destination := Write(output, destination, "\"");
    LaterPart(output[..], destination, n);
    destination := Write(output, destination, ['\0']);
  }
}
