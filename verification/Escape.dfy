/** HTML, JSON and URI escaping in two passes, measured first and then written. */
module Escape {
  import opened Wrappers
  import opened Ascii
  import opened DecimalExponents
  import opened MachineIntegers

  datatype Mode = Html | Json | Uri

  /** A byte of a C string: never the terminator. */
  type Octet = c: char | '\0' < c <= '\U{00FF}' witness 'x'

  predicate UriUnreserved(c: char) {
    IsAlpha(c) || IsDigit(c) || c == '-' || c == '.' || c == '_' || c == '~'
  }

  const HEX: string := "0123456789ABCDEF"

  function HexDigit(value: nat): char { HEX[value % 16] }

  function HtmlText(c: char): string {
    match c
    case '&' => "&amp;"
    case '<' => "&lt;"
    case '>' => "&gt;"
    case '"' => "&quot;"
    case '\'' => "&#39;"
    case _ => [c]
  }

  function JsonText(c: char): string {
    match c
    case '"' => "\\\""
    case '\\' => "\\\\"
    case '\U{0008}' => "\\b"
    case '\U{000C}' => "\\f"
    case '\n' => "\\n"
    case '\r' => "\\r"
    case '\t' => "\\t"
    case _ => if c < ' ' then ['\\', 'u', '0', '0', HexDigit(c as int / 16), HexDigit(c as int)] else [c]
  }

  function UriText(c: char): string {
    if UriUnreserved(c) then [c] else ['%', HexDigit(c as int / 16), HexDigit(c as int)]
  }

  /** What stands for one byte. */
  function Escaped(mode: Mode, c: char): string {
    match mode
    case Html => HtmlText(c)
    case Json => JsonText(c)
    case Uri => UriText(c)
  }

  function EscapedAll(mode: Mode, s: seq<Octet>): string {
    if s == [] then "" else Escaped(mode, s[0]) + EscapedAll(mode, s[1..])
  }

  /** The value of a hexadecimal digit of either case. */
  function HexValue(c: char): Option<nat> {
    if '0' <= c <= '9' then Some(c as int - '0' as int)
    else if 'A' <= c <= 'F' then Some(c as int - 'A' as int + 10)
    else if 'a' <= c <= 'f' then Some(c as int - 'a' as int + 10)
    else None
  }

  /** A character from two hexadecimal digits. */
  function HexPair(high: char, low: char): Option<char> {
    var h, l := HexValue(high), HexValue(low);
    if h.None? || l.None? then None else Some((h.value * 16 + l.value) as char)
  }

  /** One unit of HTML text: a reference to one of the markup characters, a two-digit decimal
      reference, or any other character standing for itself. */
  function HtmlUnit(s: string): Option<(char, nat)>
    requires s != ""
  {
    if "&amp;" <= s then Some(('&', 5))
    else if "&lt;" <= s then Some(('<', 4))
    else if "&gt;" <= s then Some(('>', 4))
    else if "&quot;" <= s then Some(('"', 6))
    else if |s| >= 5 && s[0] == '&' && s[1] == '#' && IsDigit(s[2]) && IsDigit(s[3]) && s[4] == ';' then
      Some(((DigitValue(s[2]) * 10 + DigitValue(s[3])) as char, 5))
    else if s[0] in "&<>\"'" then None
    else Some((s[0], 1))
  }

  /** One unit of a JSON string (RFC 8259, section 7); \u escapes are read up to U+00FF. */
  function JsonUnit(s: string): Option<(char, nat)>
    requires s != ""
  {
    if s[0] == '\\' then
      if |s| < 2 then None
      else match s[1]
        case '"' => Some(('"', 2))
        case '\\' => Some(('\\', 2))
        case '/' => Some(('/', 2))
        case 'b' => Some(('\U{0008}', 2))
        case 'f' => Some(('\U{000C}', 2))
        case 'n' => Some(('\n', 2))
        case 'r' => Some(('\r', 2))
        case 't' => Some(('\t', 2))
        case 'u' =>
          if |s| < 6 || s[2] != '0' || s[3] != '0' then None
          else
            var c := HexPair(s[4], s[5]);
            if c.None? then None else Some((c.value, 6))
        case _ => None
    else if s[0] == '"' || s[0] < ' ' then None
    else Some((s[0], 1))
  }

  /** One unit of a URI component (RFC 3986, sections 2.1 and 2.3). */
  function UriUnit(s: string): Option<(char, nat)>
    requires s != ""
  {
    if s[0] == '%' then
      if |s| < 3 then None
      else
        var c := HexPair(s[1], s[2]);
        if c.None? then None else Some((c.value, 3))
    else if UriUnreserved(s[0]) then Some((s[0], 1))
    else None
  }

  function Unit(mode: Mode, s: string): (r: Option<(char, nat)>)
    requires s != ""
    ensures r.Some? ==> 1 <= r.value.1 <= |s|
  {
    match mode
    case Html => HtmlUnit(s)
    case Json => JsonUnit(s)
    case Uri => UriUnit(s)
  }

  /** The reader of escaped text. */
  function Unescape(mode: Mode, s: string): Option<string>
    decreases |s|
  {
    if s == "" then Some("")
    else
      var u := Unit(mode, s);
      if u.None? then None
      else
        var rest := Unescape(mode, s[u.value.1..]);
        if rest.None? then None else Some([u.value.0] + rest.value)
  }

  /** The markup characters by their names, as the HTML syntax has them. */
  lemma HtmlReferences()
    ensures HtmlUnit("&amp;") == Some(('&', 5)) && HtmlUnit("&lt;") == Some(('<', 4)) && HtmlUnit("&gt;") == Some(('>', 4))
    ensures HtmlUnit("&quot;") == Some(('"', 6)) && HtmlUnit("&#39;") == Some(('\'', 5))
  {
    assert "&lt;"[1] == 'l' && "&gt;"[1] == 'g' && "&quot;"[1] == 'q' && "&#39;"[1] == '#';
    assert "&amp;"[1] == 'a' && "&#39;"[4] == ';';
  }

  /** The short escapes of section 7 of RFC 8259, and what their characters are. */
  lemma JsonShortEscapes()
    ensures JsonUnit("\\b") == Some((8 as char, 2)) && JsonUnit("\\f") == Some((12 as char, 2))
    ensures JsonUnit("\\n") == Some((10 as char, 2)) && JsonUnit("\\r") == Some((13 as char, 2))
    ensures JsonUnit("\\t") == Some((9 as char, 2)) && JsonUnit("\\\"") == Some((34 as char, 2))
    ensures JsonUnit("\\\\") == Some((92 as char, 2)) && JsonUnit("\\/") == Some((47 as char, 2))
  {
  }

  lemma HexRoundTrip(v: nat)
    requires v < 256
    ensures HexPair(HexDigit(v / 16), HexDigit(v)) == Some(v as char)
  {
    HexDigitValue(v / 16);
    HexDigitValue(v);
    assert v == v / 16 * 16 + v % 16;
    hide HexDigit;
    hide HexValue;
  }

  lemma HexDigitValue(v: nat)
    ensures HexValue(HexDigit(v)) == Some(v % 16)
  {
  }

  /** The reader takes one escaped byte off the front, whatever follows. */
  lemma UnitOfHtml(c: Octet, s: string)
    requires |HtmlText(c)| <= |s| && s[..|HtmlText(c)|] == HtmlText(c)
    ensures HtmlUnit(s) == Some((c as char, |HtmlText(c)|))
  {
    var e := HtmlText(c);
    assert forall i :: 0 <= i < |e| ==> s[i] == e[i];
    if c == '&' { assert "&amp;" <= s; }
    else if c == '<' { assert s[1] == 'l'; assert "&lt;" <= s; }
    else if c == '>' { assert s[1] == 'g'; assert "&gt;" <= s; }
    else if c == '"' { assert s[1] == 'q'; assert "&quot;" <= s; }
    else if c == '\'' { assert s[1] == '#' && s[2] == '3' && s[3] == '9' && s[4] == ';'; }
    else { assert s[0] == c; }
  }

  lemma UnitOfJson(c: Octet, s: string)
    requires |JsonText(c)| <= |s| && s[..|JsonText(c)|] == JsonText(c)
    ensures JsonUnit(s) == Some((c as char, |JsonText(c)|))
  {
    var e := JsonText(c);
    if |e| == 1 {
      assert s[0] == e[0];
    } else if |e| == 2 {
      assert s[0] == e[0] && s[1] == e[1];
      hide HexPair;
    } else {
      JsonHexUnit(c, s);
    }
  }

  lemma JsonHexUnit(c: Octet, s: string)
    requires |JsonText(c)| == 6 && |s| >= 6 && s[..6] == JsonText(c)
    ensures JsonUnit(s) == Some((c as char, 6))
  {
    hide HexPair;
    hide HexDigit;
    HexRoundTrip(c as int);
    var e := ['\\', 'u', '0', '0', HexDigit(c as int / 16), HexDigit(c as int)];
    assert JsonText(c) == e;
    hide JsonText;
    assert s[0] == e[0] && s[1] == e[1] && s[2] == e[2] && s[3] == e[3] && s[4] == e[4] && s[5] == e[5];
  }

  lemma UnitOfUri(c: Octet, s: string)
    requires |UriText(c)| <= |s| && s[..|UriText(c)|] == UriText(c)
    ensures UriUnit(s) == Some((c as char, |UriText(c)|))
  {
    var e := UriText(c);
    assert forall i :: 0 <= i < |e| ==> s[i] == e[i];
    HexRoundTrip(c as int);
    hide HexPair;
    hide HexDigit;
  }

  lemma UnitOfEscaped(mode: Mode, c: Octet, rest: string)
    ensures Escaped(mode, c) + rest != ""
    ensures Unit(mode, Escaped(mode, c) + rest) == Some((c as char, |Escaped(mode, c)|))
  {
    var s := Escaped(mode, c) + rest;
    assert s[..|Escaped(mode, c)|] == Escaped(mode, c);
    match mode
    case Html => UnitOfHtml(c, s);
    case Json => UnitOfJson(c, s);
    case Uri => UnitOfUri(c, s);
  }

  /** Every escaper is undone by its reader. */
  lemma {:induction false} UnescapeInverts(mode: Mode, s: seq<Octet>)
    ensures Unescape(mode, EscapedAll(mode, s)) == Some(s)
    decreases |s|
  {
    hide Unit;
    hide Escaped;
    if s != [] {
      var e, rest := Escaped(mode, s[0]), EscapedAll(mode, s[1..]);
      UnitOfEscaped(mode, s[0], rest);
      UnescapeInverts(mode, s[1..]);
      assert (e + rest)[|e|..] == rest;
      assert s == [s[0]] + s[1..];
    }
  }

  /** Different texts never escape alike. */
  lemma EscapingInjective(mode: Mode, s: seq<Octet>, t: seq<Octet>)
    requires EscapedAll(mode, s) == EscapedAll(mode, t)
    ensures s == t
  {
    UnescapeInverts(mode, s);
    UnescapeInverts(mode, t);
  }

  /** Characters that may appear in escaped output. */
  predicate Harmless(mode: Mode, c: char) {
    match mode
    case Html => c !in "<>\"'"
    case Json => ' ' <= c
    case Uri => UriUnreserved(c) || c == '%'
  }

  lemma HexDigitIsAlphanumeric(v: nat)
    ensures IsDigit(HexDigit(v)) || IsUpper(HexDigit(v))
  {
  }

  lemma EscapedHarmless(mode: Mode, c: Octet, i: nat)
    requires i < |Escaped(mode, c)|
    ensures Harmless(mode, Escaped(mode, c)[i]) && Escaped(mode, c)[i] != '\0'
  {
    match mode
    case Html =>
      assert HtmlText(c) in ["&amp;", "&lt;", "&gt;", "&quot;", "&#39;", [c]];
    case Json => JsonHarmless(c, i);
    case Uri => UriHarmless(c, i);
  }

  lemma JsonHarmless(c: Octet, i: nat)
    requires i < |JsonText(c)|
    ensures ' ' <= JsonText(c)[i]
  {
    HexDigitIsAlphanumeric(c as int / 16);
    HexDigitIsAlphanumeric(c as int);
    hide HexDigit;
  }

  lemma UriHarmless(c: Octet, i: nat)
    requires i < |UriText(c)|
    ensures UriUnreserved(UriText(c)[i]) || UriText(c)[i] == '%'
    ensures UriText(c)[i] != '\0'
  {
    HexDigitIsAlphanumeric(c as int / 16);
    HexDigitIsAlphanumeric(c as int);
    hide HexDigit;
  }

  /** Nothing outside the mode's alphabet survives, and no terminator appears inside. */
  lemma {:induction false} OutputHarmless(mode: Mode, s: seq<Octet>)
    ensures forall i :: 0 <= i < |EscapedAll(mode, s)| ==>
      Harmless(mode, EscapedAll(mode, s)[i]) && EscapedAll(mode, s)[i] != '\0'
    decreases |s|
  {
    hide Harmless;
    hide Escaped;
    if s != [] {
      OutputHarmless(mode, s[1..]);
      forall i | 0 <= i < |Escaped(mode, s[0])|
        ensures Harmless(mode, Escaped(mode, s[0])[i]) && Escaped(mode, s[0])[i] != '\0'
      {
        EscapedHarmless(mode, s[0], i);
      }
    }
  }

  /** Characters that need no escape, one by one: for a URI component the unreserved ones of section 2.3 of
      RFC 3986; in HTML all but the five markup characters; in a JSON string all but the quotation mark, the
      backslash and the control characters, as section 7 of RFC 8259 allows. */
  predicate NeedsNoEscape(mode: Mode, c: char) {
    match mode
    case Html => c != '&' && c != '<' && c != '>' && c != '"' && c != '\''
    case Json => c != '"' && c != '\\' && c >= ' '
    case Uri => 'A' <= c <= 'Z' || 'a' <= c <= 'z' || '0' <= c <= '9' || c in "-._~"
  }

  /** Exactly those stand for themselves; any other byte becomes a longer text. */
  lemma EscapedItself(mode: Mode, c: Octet)
    ensures if NeedsNoEscape(mode, c) then Escaped(mode, c) == [c as char] else |Escaped(mode, c)| > 1
  {
  }

  /** A text is left as it is exactly when none of its characters needs an escape. */
  lemma {:induction false} UnchangedIff(mode: Mode, s: seq<Octet>)
    ensures |EscapedAll(mode, s)| >= |s|
    ensures EscapedAll(mode, s) == s <==> forall i :: 0 <= i < |s| ==> NeedsNoEscape(mode, s[i])
    decreases |s|
  {
    if s != [] {
      var rest := s[1..];
      UnchangedIff(mode, rest);
      EscapedItself(mode, s[0]);
      hide Escaped;
      hide NeedsNoEscape;
      assert s == [s[0]] + rest;
      if NeedsNoEscape(mode, s[0]) {
        assert EscapedAll(mode, s)[1..] == EscapedAll(mode, rest);
      } else {
        assert |EscapedAll(mode, s)| > |s|;
      }
    }
  }

  /** Every other character of URI output is the sign of a percent escape. */
  lemma UriOutput(s: seq<Octet>, i: nat)
    requires i < |EscapedAll(Uri, s)|
    ensures NeedsNoEscape(Uri, EscapedAll(Uri, s)[i]) || EscapedAll(Uri, s)[i] == '%'
  {
    OutputHarmless(Uri, s);
    hide EscapedAll;
  }

  predicate UpperHex(c: char) { '0' <= c <= '9' || 'A' <= c <= 'F' }

  /** A percent escape has two upper-case hexadecimal digits (section 2.1 of RFC 3986). */
  lemma PercentEscape(c: Octet)
    requires !NeedsNoEscape(Uri, c)
    ensures var e := Escaped(Uri, c);
      |e| == 3 && e[0] == '%' && UpperHex(e[1]) && UpperHex(e[2]) && HexPair(e[1], e[2]) == Some(c as char)
  {
    HexRoundTrip(c as int);
    HexDigitUpper(c as int / 16);
    HexDigitUpper(c as int);
    hide HexDigit;
    hide HexPair;
  }

  lemma HexDigitUpper(v: nat)
    ensures UpperHex(HexDigit(v))
  {
  }

  /** The length table of the measuring pass. */
  function EncodedLength(mode: Mode, c: char): (n: nat)
    ensures n == |Escaped(mode, c)|
  {
    if mode.Uri? then (if UriUnreserved(c) then 1 else 3)
    else if mode.Html? then
      match c
      case '&' => 5
      case '<' => 4
      case '>' => 4
      case '"' => 6
      case '\'' => 5
      case _ => 1
    else if c in "\"\\\U{0008}\U{000C}\n\r\t" then 2
    else if c < ' ' then 6
    else 1
  }

  lemma {:induction false} EscapedSnoc(mode: Mode, s: seq<Octet>, c: Octet)
    ensures EscapedAll(mode, s + [c]) == EscapedAll(mode, s) + Escaped(mode, c)
    decreases |s|
  {
    hide Escaped;
    if s == [] {
      assert [c][1..] == [];
      assert (s + [c]) == [c];
    } else {
      EscapedSnoc(mode, s[1..], c);
      assert (s + [c])[1..] == s[1..] + [c];
    }
  }

  lemma {:induction false} EscapedConcat(mode: Mode, s: seq<Octet>, t: seq<Octet>)
    ensures EscapedAll(mode, s + t) == EscapedAll(mode, s) + EscapedAll(mode, t)
    decreases |s|
  {
    hide Escaped;
    if s == [] {
      assert s + t == t;
    } else {
      EscapedConcat(mode, s[1..], t);
      assert (s + t)[1..] == s[1..] + t;
    }
  }

  /** The measuring pass: bytes to be written, with the terminator. */
  method Measure(mode: Mode, input: seq<Octet>) returns (required: Option<nat>)
    ensures var n := 1 + |EscapedAll(mode, input)|;
      required == if n <= SIZE_MAX then Some(n) else None
  {
    hide Escaped;
    var total: nat := 1;
    var i := 0;
    while i < |input|
      invariant i <= |input|
      invariant total == 1 + |EscapedAll(mode, input[..i])| <= SIZE_MAX
    {
      EscapedPrefix(mode, input, i);
      var sum := SizeAddChecked(total, EncodedLength(mode, input[i]));
      if sum.None? {
        return None;
      }
      total := sum.value;
      i := i + 1;
    }
    assert input[..i] == input;
    required := Some(total);
  }

  /** Copies text to the output at the cursor. */
  method Write(out: array<char>, cursor: nat, text: string) returns (next: nat)
    requires cursor + |text| <= out.Length
    modifies out
    ensures next == cursor + |text|
    ensures out[..next] == old(out[..cursor]) + text && out[next..] == old(out[next..])
  {
    var i := 0;
    while i < |text|
      invariant i <= |text|
      invariant out[..cursor + i] == old(out[..cursor]) + text[..i]
      invariant out[cursor + |text|..] == old(out[cursor + |text|..])
    {
      out[cursor + i] := text[i];
      assert out[..cursor + i + 1] == out[..cursor + i] + [text[i]];
      i := i + 1;
    }
    next := cursor + |text|;
  }

  /** emit_html: the replacement of a markup character, or the byte itself. */
  method EmitHtml(out: array<char>, cursor: nat, value: Octet) returns (next: nat)
    requires cursor + |HtmlText(value)| <= out.Length
    modifies out
    ensures next == cursor + |HtmlText(value)|
    ensures out[..next] == old(out[..cursor]) + HtmlText(value) && out[next..] == old(out[next..])
  {
    var replacement: string;
    match value {
      case '&' => replacement := "&amp;";
      case '<' => replacement := "&lt;";
      case '>' => replacement := "&gt;";
      case '"' => replacement := "&quot;";
      case '\'' => replacement := "&#39;";
      case _ =>
        out[cursor] := value;
        assert out[..cursor + 1] == out[..cursor] + [value];
        return cursor + 1;
    }
    next := Write(out, cursor, replacement);
  }

  /** emit_json: a short escape, a \u escape for the other control characters, or the byte itself. */
  method EmitJson(out: array<char>, cursor: nat, value: Octet) returns (next: nat)
    requires cursor + |JsonText(value)| <= out.Length
    modifies out
    ensures next == cursor + |JsonText(value)|
    ensures out[..next] == old(out[..cursor]) + JsonText(value) && out[next..] == old(out[next..])
  {
    hide HexDigit;
    match value {
      case '"' => next := Write(out, cursor, "\\\"");
      case '\\' => next := Write(out, cursor, "\\\\");
      case '\U{0008}' => next := Write(out, cursor, "\\b");
      case '\U{000C}' => next := Write(out, cursor, "\\f");
      case '\n' => next := Write(out, cursor, "\\n");
      case '\r' => next := Write(out, cursor, "\\r");
      case '\t' => next := Write(out, cursor, "\\t");
      case _ =>
        if value < ' ' {
          next := Write(out, cursor, ['\\', 'u', '0', '0', HexDigit(value as int / 16), HexDigit(value as int)]);
        } else {
          next := Write(out, cursor, [value]);
        }
    }
  }

  /** emit_uri: an unreserved byte itself, or its percent encoding. */
  method EmitUri(out: array<char>, cursor: nat, value: Octet) returns (next: nat)
    requires cursor + |UriText(value)| <= out.Length
    modifies out
    ensures next == cursor + |UriText(value)|
    ensures out[..next] == old(out[..cursor]) + UriText(value) && out[next..] == old(out[next..])
  {
    hide HexDigit;
    if UriUnreserved(value) {
      next := Write(out, cursor, [value]);
    } else {
      next := Write(out, cursor, ['%', HexDigit(value as int / 16), HexDigit(value as int)]);
    }
  }

  method Emit(mode: Mode, out: array<char>, cursor: nat, value: Octet) returns (next: nat)
    requires cursor + |Escaped(mode, value)| <= out.Length
    modifies out
    ensures next == cursor + |Escaped(mode, value)|
    ensures out[..next] == old(out[..cursor]) + Escaped(mode, value) && out[next..] == old(out[next..])
  {
    hide HtmlText;
    hide JsonText;
    hide UriText;
    match mode {
      case Html => next := EmitHtml(out, cursor, value);
      case Json => next := EmitJson(out, cursor, value);
      case Uri => next := EmitUri(out, cursor, value);
    }
  }

  lemma EscapedPrefix(mode: Mode, s: seq<Octet>, i: nat)
    requires i < |s|
    ensures EscapedAll(mode, s[..i + 1]) == EscapedAll(mode, s[..i]) + Escaped(mode, s[i])
    ensures |EscapedAll(mode, s[..i + 1])| <= |EscapedAll(mode, s)|
  {
    hide Escaped;
    EscapedSnoc(mode, s[..i], s[i]);
    assert s[..i] + [s[i]] == s[..i + 1];
    EscapedConcat(mode, s[..i + 1], s[i + 1..]);
    assert s[..i + 1] + s[i + 1..] == s;
  }

  /** Writes the escaped text at the front of the output and terminates it. */
  method EmitAll(mode: Mode, input: seq<Octet>, output: array<char>)
    requires |EscapedAll(mode, input)| < output.Length
    modifies output
    ensures var n := |EscapedAll(mode, input)|;
      && output[..n] == EscapedAll(mode, input) && output[n] == '\0'
      && output[n + 1..] == old(output[n + 1..])
  {
    hide Escaped;
    ghost var n := |EscapedAll(mode, input)|;
    var cursor := 0;
    var i := 0;
    while i < |input|
      invariant i <= |input|
      invariant cursor == |EscapedAll(mode, input[..i])| <= n
      invariant output[..cursor] == EscapedAll(mode, input[..i])
      invariant output[n + 1..] == old(output[n + 1..])
    {
      EscapedPrefix(mode, input, i);
      cursor := Emit(mode, output, cursor, input[i]);
      AfterCursor(output[cursor..], cursor, n, output[..]);
      i := i + 1;
    }
    assert input[..i] == input;
    output[cursor] := '\0';
  }

  lemma AfterCursor(tail: string, cursor: nat, n: nat, all: string)
    requires cursor <= n < |all| && tail == all[cursor..]
    ensures all[n + 1..] == tail[n + 1 - cursor..]
  {
  }

  /** The two-pass transformer: needs exactly the measured size, writes exactly the escaped text and
      its terminator, and otherwise leaves at most an empty string behind. */
  method Transform(mode: Mode, input: seq<Octet>, output: array?<char>, size: nat) returns (ok: bool, required: nat)
    requires output != null ==> output.Length == size
    modifies if output == null then {} else {output}
    ensures var n := 1 + |EscapedAll(mode, input)|;
      && required == (if n <= SIZE_MAX then n else 0)
      && (ok <==> n <= SIZE_MAX && if output == null then size == 0 else n <= size)
      && (ok && output != null ==>
            output[..n] == EscapedAll(mode, input) + ['\0'] && output[n..] == old(output[n..]))
      && (!ok && output != null && size > 0 ==> output[0] == '\0' && output[1..] == old(output[1..]))
  {
    hide Escaped;
    var measured := Measure(mode, input);
    if measured.None? {
      if output != null && size > 0 {
        output[0] := '\0';
      }
      return false, 0;
    }
    required := measured.value;
    if output == null {
      return size == 0, required;
    }
    if size < required {
      if size > 0 {
        output[0] := '\0';
      }
      return false, required;
    }
    EmitAll(mode, input, output);
    assert output[..required] == output[..required - 1] + [output[required - 1]];
    ok := true;
  }
}
