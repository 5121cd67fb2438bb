/** UTF-8: one scalar value to its bytes, and the strict validator (RFC 3629, sections 3 and 4). */
module Utf8 {
  import opened Wrappers

  type Byte = n: nat | n < 256
  type U32 = n: nat | n < 0x1_0000_0000

  /** Unicode scalar values: the code points that are not surrogates. */
  predicate IsScalar(c: nat) { c <= 0x10FFFF && !(0xD800 <= c <= 0xDFFF) }

  type Scalar = c: nat | IsScalar(c)

  /** How many continuation bytes the shortest form of a value needs. */
  ghost function Continuations(c: nat): (n: nat)
    ensures n <= 3
  {
    if c < 0x80 then 0 else if c < 0x800 then 1 else if c < 0x1_0000 then 2 else 3
  }

  /** The low 6*n bits, most significant first, six to a byte. */
  ghost function Tail(c: nat, n: nat): (s: seq<Byte>)
    ensures |s| == n
  {
    if n == 0 then [] else Tail(c / 64, n - 1) + [0x80 + c % 64]
  }

  /** The bits left for the first byte. */
  ghost function Head(c: nat, n: nat): nat {
    if n == 0 then c else Head(c / 64, n - 1)
  }

  /** The marker bits of the first byte of a form. */
  ghost function Marker(n: nat): nat
    requires n <= 3
  {
    [0, 0xC0, 0xE0, 0xF0][n]
  }

  /** The encoding of a scalar value: marker and leading bits, then the rest six bits at a time. */
  ghost function Encoding(c: Scalar): seq<Byte> {
    var n := Continuations(c);
    assert IsScalar(c);
    HeadBound(c);
    [Marker(n) + Head(c, n)] + Tail(c, n)
  }

  ghost function EncodeAll(cs: seq<Scalar>): seq<Byte> {
    if cs == [] then [] else Encoding(cs[0]) + EncodeAll(cs[1..])
  }

  /** A byte string is UTF-8 when it is the concatenated encodings of some scalar values. */
  ghost predicate IsUtf8(s: seq<Byte>) {
    exists cs: seq<Scalar> :: EncodeAll(cs) == s
  }

  predicate IsTail(s: seq<Byte>) { forall i :: 0 <= i < |s| ==> s[i] / 64 == 2 }

  /** Continuation bytes folded into an accumulator. */
  ghost function Fold(value: nat, s: seq<Byte>): nat
    decreases |s|
  {
    if s == [] then value else Fold(value * 64 + s[0] % 64, s[1..])
  }

  lemma HeadBound(c: nat)
    requires c <= 0x10FFFF
    ensures var n, h := Continuations(c), Head(c, Continuations(c));
      && (n == 0 ==> h < 0x80) && (n == 1 ==> 2 <= h < 0x20) && (n == 2 ==> h < 0x10) && (n == 3 ==> h <= 4)
  {
    NoTail(c);
    OneTail(c);
    TwoTails(c);
    ThreeTails(c);
    hide Head;
    hide Tail;
  }

  lemma NoTail(c: nat)
    ensures Head(c, 0) == c && Tail(c, 0) == []
  {
  }

  lemma OneTail(c: nat)
    ensures Head(c, 1) == c / 64 && Tail(c, 1) == [0x80 + c % 64]
  {
    assert Head(c, 1) == Head(c / 64, 0);
    assert Tail(c, 1) == Tail(c / 64, 0) + [0x80 + c % 64];
  }

  lemma TwoTails(c: nat)
    ensures Head(c, 2) == c / 0x1000 && Tail(c, 2) == [0x80 + c / 64 % 64, 0x80 + c % 64]
  {
    OneTail(c / 64);
    assert Head(c, 2) == Head(c / 64, 1);
    assert Tail(c, 2) == Tail(c / 64, 1) + [0x80 + c % 64];
  }

  lemma ThreeTails(c: nat)
    ensures Head(c, 3) == c / 0x4_0000
    ensures Tail(c, 3) == [0x80 + c / 0x1000 % 64, 0x80 + c / 64 % 64, 0x80 + c % 64]
  {
    var x := c / 64;
    TwoTails(x);
    assert Head(c, 3) == Head(x, 2);
    assert Tail(c, 3) == Tail(x, 2) + [0x80 + c % 64];
    hide *;
    NestedDivision(c);
  }

  lemma NestedDivision(c: nat)
    ensures c / 64 / 64 == c / 0x1000 && c / 64 / 0x1000 == c / 0x4_0000
  {
  }

  lemma {:induction false} FoldSnoc(value: nat, s: seq<Byte>, b: Byte)
    ensures Fold(value, s + [b]) == Fold(value, s) * 64 + b % 64
    decreases |s|
  {
    if s != [] {
      FoldSnoc(value * 64 + s[0] % 64, s[1..], b);
      assert (s + [b])[1..] == s[1..] + [b];
    }
  }

  /** Folding the tail over the head gives the value back. */
  lemma {:induction false} FoldTail(c: nat, n: nat)
    ensures IsTail(Tail(c, n)) && Fold(Head(c, n), Tail(c, n)) == c
  {
    if n > 0 {
      FoldTail(c / 64, n - 1);
      FoldSnoc(Head(c / 64, n - 1), Tail(c / 64, n - 1), 0x80 + c % 64);
    }
  }

  /** Conversely a folded value splits back into the same head and tail. */
  lemma {:induction false} TailFold(value: nat, s: seq<Byte>)
    requires IsTail(s)
    ensures Head(Fold(value, s), |s|) == value && Tail(Fold(value, s), |s|) == s
    decreases |s|
  {
    if s != [] {
      var front, b := s[..|s| - 1], s[|s| - 1];
      assert s == front + [b];
      TailFold(value, front);
      FoldSnoc(value, front, b);
      assert Fold(value, s) / 64 == Fold(value, front) && Fold(value, s) % 64 == b % 64;
    }
  }

  /** The head length a first byte announces. */
  function Announced(first: Byte): int {
    if first <= 0x7F then 0
    else if 0xC2 <= first <= 0xDF then 1
    else if 0xE0 <= first <= 0xEF then 2
    else if 0xF0 <= first <= 0xF4 then 3
    else -1
  }

  /** Payload bits and least value of each form, as the validator tabulates them. */
  function Payload(first: Byte, n: nat): nat {
    if n == 0 then first else if n == 1 then first % 32 else if n == 2 then first % 16 else first % 8
  }

  function Least(n: nat): nat { if n == 0 then 0 else if n == 1 then 0x80 else if n == 2 then 0x800 else 0x1_0000 }

  /** What a validator can observe of an encoding. */
  lemma EncodingShape(c: Scalar)
    ensures var e, n := Encoding(c), Continuations(c);
      && |e| == 1 + n && Announced(e[0]) == n && IsTail(e[1..])
      && Fold(Payload(e[0], n), e[1..]) == c && Least(n) <= c
  {
    var n := Continuations(c);
    assert IsScalar(c);
    HeadBound(c);
    FoldTail(c, n);
    assert Encoding(c) == [Marker(n) + Head(c, n)] + Tail(c, n);
    assert Encoding(c)[1..] == Tail(c, n);
    LeadByte(n, Head(c, n));
    hide Encoding;
    hide IsTail;
    hide Tail;
    hide Head;
    hide Fold;
    hide Announced;
    hide Payload;
    hide Marker;
  }

  /** A first byte announces its form and carries its payload. */
  lemma LeadByte(n: nat, h: nat)
    requires n <= 3
    requires (n == 0 ==> h < 0x80) && (n == 1 ==> 2 <= h < 0x20) && (n == 2 ==> h < 0x10) && (n == 3 ==> h <= 4)
    ensures Marker(n) + h < 256 && Announced(Marker(n) + h) == n && Payload(Marker(n) + h, n) == h
  {
  }

  /** Conversely what is announced is the marker. */
  lemma LeadOf(first: Byte, n: nat)
    requires Announced(first) == n
    ensures n <= 3 && first == Marker(n) + Payload(first, n)
    ensures var h := Payload(first, n);
      (n == 0 ==> h < 0x80) && (n == 1 ==> h < 0x20) && (n == 2 ==> h < 0x10) && (n == 3 ==> h < 8)
  {
  }

  /** A sequence with that shape and a scalar value of its form is an encoding. */
  lemma ShapeIsEncoding(e: seq<Byte>, n: nat)
    requires |e| == 1 + n && Announced(e[0]) == n && IsTail(e[1..])
    requires IsScalar(Fold(Payload(e[0], n), e[1..])) && Least(n) <= Fold(Payload(e[0], n), e[1..])
    ensures e == Encoding(Fold(Payload(e[0], n), e[1..]))
  {
    var h := Payload(e[0], n);
    var c := Fold(h, e[1..]);
    LeadOf(e[0], n);
    TailFold(h, e[1..]);
    HeadUpper(c, n, h);
    assert e == [e[0]] + e[1..];
    hide Tail;
    hide Head;
    hide Fold;
    hide Announced;
    hide Payload;
    hide Marker;
    hide Continuations;
    hide IsTail;
    EncodingIs(c, n, h, e[0], e[1..]);
  }

  lemma EncodingIs(c: Scalar, n: nat, h: nat, first: Byte, tail: seq<Byte>)
    requires Continuations(c) == n && Head(c, n) == h && first == Marker(n) + h && Tail(c, n) == tail
    ensures Encoding(c) == [first] + tail
  {
    hide Tail;
    hide Head;
    hide Marker;
    hide Continuations;
  }

  lemma HeadUpper(c: nat, n: nat, h: nat)
    requires n <= 3 && h == Head(c, n) && Least(n) <= c <= 0x10FFFF
    requires (n == 0 ==> h < 0x80) && (n == 1 ==> h < 0x20) && (n == 2 ==> h < 0x10) && (n == 3 ==> h < 8)
    ensures Continuations(c) == n
  {
    NoTail(c);
    OneTail(c);
    TwoTails(c);
    ThreeTails(c);
    hide Head;
    hide Tail;
  }

  predicate ContinuationByte(b: Byte) { 0x80 <= b <= 0xBF }

  /** One character of the syntax in section 4 of RFC 3629, byte range by byte range. */
  predicate SyntaxCharacter(e: seq<Byte>) {
    || (|e| == 1 && e[0] <= 0x7F)
    || (|e| == 2 && 0xC2 <= e[0] <= 0xDF && ContinuationByte(e[1]))
    || (|e| == 3 && ContinuationByte(e[1]) && ContinuationByte(e[2])
        && (|| (e[0] == 0xE0 && 0xA0 <= e[1]) || 0xE1 <= e[0] <= 0xEC
            || (e[0] == 0xED && e[1] <= 0x9F) || 0xEE <= e[0] <= 0xEF))
    || (|e| == 4 && ContinuationByte(e[1]) && ContinuationByte(e[2]) && ContinuationByte(e[3])
        && (|| (e[0] == 0xF0 && 0x90 <= e[1]) || 0xF1 <= e[0] <= 0xF3 || (e[0] == 0xF4 && e[1] <= 0x8F)))
  }

  /** Every encoding has that syntax. */
  lemma EncodingHasSyntax(c: Scalar)
    ensures SyntaxCharacter(Encoding(c))
  {
    NoTail(c);
    OneTail(c);
    TwoTails(c);
    ThreeTails(c);
    hide Head;
    hide Tail;
    var n := Continuations(c);
    assert IsScalar(c);
    assert Encoding(c) == [Marker(n) + Head(c, n)] + Tail(c, n);
    hide Encoding;
    SyntaxOfForms(c, Encoding(c));
  }

  lemma SyntaxOfForms(c: Scalar, e: seq<Byte>)
    requires c <= 0x7F ==> e == [c]
    requires 0x7F < c <= 0x7FF ==> e == [0xC0 + c / 64, 0x80 + c % 64]
    requires 0x7FF < c <= 0xFFFF ==> e == [0xE0 + c / 0x1000, 0x80 + c / 64 % 64, 0x80 + c % 64]
    requires 0xFFFF < c ==> e == [0xF0 + c / 0x4_0000, 0x80 + c / 0x1000 % 64, 0x80 + c / 64 % 64, 0x80 + c % 64]
    ensures SyntaxCharacter(e)
  {
    assert IsScalar(c);
    var low, middle, high := c % 64, c / 64 % 64, c / 0x1000;
    assert c == high * 0x1000 + middle * 64 + low;
    assert high == high / 64 * 64 + high % 64;
    assert c / 0x4_0000 == high / 64;
  }

  /** And whatever has the syntax is the encoding of a scalar value. */
  lemma SyntaxIsEncoding(e: seq<Byte>) returns (c: Scalar)
    requires SyntaxCharacter(e)
    ensures Encoding(c) == e
  {
    var n := |e| - 1;
    var h := Payload(e[0], n);
    FoldShort(h, e[1..]);
    TailBytes(e);
    hide IsTail;
    ValueOfSyntax(e, n, Fold(h, e[1..]));
    hide Fold;
    hide SyntaxCharacter;
    c := Fold(h, e[1..]);
    ShapeIsEncoding(e, n);
  }

  lemma TailBytes(e: seq<Byte>)
    requires SyntaxCharacter(e)
    ensures |e| > 0 && IsTail(e[1..]) && Announced(e[0]) == |e| - 1
  {
    forall i | 0 <= i < |e[1..]|
      ensures e[1..][i] / 64 == 2
    {
      assert e[1..][i] == e[i + 1] && ContinuationByte(e[i + 1]);
    }
  }

  /** The value of the bits, most significant first. */
  ghost function BitsOf(e: seq<Byte>): nat
    requires 1 <= |e| <= 4
  {
    var first: nat := e[0];
    var second: nat := if |e| > 1 then e[1] % 64 else 0;
    var third: nat := if |e| > 2 then e[2] % 64 else 0;
    var fourth: nat := if |e| > 3 then e[3] % 64 else 0;
    if |e| == 1 then first
    else if |e| == 2 then first % 32 * 64 + second
    else if |e| == 3 then first % 16 * 0x1000 + second * 64 + third
    else first % 8 * 0x4_0000 + second * 0x1000 + third * 64 + fourth
  }

  lemma ValueOfSyntax(e: seq<Byte>, n: nat, c: nat)
    requires SyntaxCharacter(e) && n == |e| - 1 && c == BitsOf(e)
    ensures IsScalar(c) && Least(n) <= c
  {
  }

  lemma {:induction false} FoldShort(h: nat, s: seq<Byte>)
    ensures |s| == 0 ==> Fold(h, s) == h
    ensures |s| == 1 ==> Fold(h, s) == h * 64 + (s[0] as nat) % 64
    ensures |s| == 2 ==> Fold(h, s) == h * 0x1000 + (s[0] as nat) % 64 * 64 + (s[1] as nat) % 64
    ensures |s| == 3 ==>
      Fold(h, s) == h * 0x4_0000 + (s[0] as nat) % 64 * 0x1000 + (s[1] as nat) % 64 * 64 + (s[2] as nat) % 64
    decreases |s|
  {
    if |s| > 0 {
      FoldShort(h * 64 + s[0] % 64, s[1..]);
    }
  }

  ghost function Joined(parts: seq<seq<Byte>>): seq<Byte> {
    if parts == [] then [] else parts[0] + Joined(parts[1..])
  }

  /** So a text is UTF-8 exactly when it is made of characters of that syntax. */
  lemma Utf8BySyntax(s: seq<Byte>)
    ensures IsUtf8(s) <==>
      exists parts :: Joined(parts) == s && forall i :: 0 <= i < |parts| ==> SyntaxCharacter(parts[i])
  {
    if IsUtf8(s) {
      var cs :| EncodeAll(cs) == s;
      var parts := PartsOf(cs);
    }
    if parts :| Joined(parts) == s && forall i :: 0 <= i < |parts| ==> SyntaxCharacter(parts[i]) {
      var cs := ScalarsOf(parts);
    }
  }

  lemma {:induction false} PartsOf(cs: seq<Scalar>) returns (parts: seq<seq<Byte>>)
    ensures Joined(parts) == EncodeAll(cs) && forall i :: 0 <= i < |parts| ==> SyntaxCharacter(parts[i])
    decreases |cs|
  {
    hide Encoding;
    hide SyntaxCharacter;
    if cs == [] {
      parts := [];
    } else {
      var rest := PartsOf(cs[1..]);
      EncodingHasSyntax(cs[0]);
      parts := [Encoding(cs[0])] + rest;
      assert parts[1..] == rest;
    }
  }

  lemma {:induction false} ScalarsOf(parts: seq<seq<Byte>>) returns (cs: seq<Scalar>)
    requires forall i :: 0 <= i < |parts| ==> SyntaxCharacter(parts[i])
    ensures EncodeAll(cs) == Joined(parts)
    decreases |parts|
  {
    hide Encoding;
    hide SyntaxCharacter;
    if parts == [] {
      cs := [];
    } else {
      var rest := ScalarsOf(parts[1..]);
      var c := SyntaxIsEncoding(parts[0]);
      cs := [c] + rest;
      assert cs[1..] == rest;
    }
  }

  /** No encoding is a proper prefix of another: the first one in a text is determined. */
  lemma FirstDetermined(c: Scalar, rest: seq<Byte>, d: Scalar, other: seq<Byte>)
    requires Encoding(c) + rest == Encoding(d) + other
    ensures c == d && rest == other
  {
    var s := Encoding(c) + rest;
    EncodingShape(c);
    EncodingShape(d);
    assert s[0] == Encoding(c)[0] == Encoding(d)[0];
    var k := |Encoding(c)|;
    assert Encoding(c) == s[..k] == Encoding(d);
    assert rest == s[k..] == other;
    hide Encoding;
  }

  /** The decomposition into scalar values is unique. */
  lemma {:induction false} DecompositionUnique(cs: seq<Scalar>, ds: seq<Scalar>)
    requires EncodeAll(cs) == EncodeAll(ds)
    ensures cs == ds
  {
    hide Encoding;
    if cs != [] { EncodingShape(cs[0]); }
    if ds != [] { EncodingShape(ds[0]); }
    if cs != [] && ds != [] {
      FirstDetermined(cs[0], EncodeAll(cs[1..]), ds[0], EncodeAll(ds[1..]));
      DecompositionUnique(cs[1..], ds[1..]);
      assert cs == [cs[0]] + cs[1..] && ds == [ds[0]] + ds[1..];
    }
  }

  /** A non-empty UTF-8 text starts with an encoding. */
  lemma FirstOf(s: seq<Byte>) returns (c: Scalar, rest: seq<Byte>)
    requires s != [] && IsUtf8(s)
    ensures s == Encoding(c) + rest && IsUtf8(rest)
  {
    var cs :| EncodeAll(cs) == s;
    c, rest := cs[0], EncodeAll(cs[1..]);
  }

  /** Removing a leading encoding neither makes nor mends an invalid text. */
  lemma PeelFirst(c: Scalar, rest: seq<Byte>)
    ensures IsUtf8(Encoding(c) + rest) <==> IsUtf8(rest)
  {
    hide Encoding;
    EncodingShape(c);
    if IsUtf8(rest) {
      var cs :| EncodeAll(cs) == rest;
      assert ([c] + cs)[1..] == cs;
      assert EncodeAll([c] + cs) == Encoding(c) + rest;
    }
    if IsUtf8(Encoding(c) + rest) {
      var d, other := FirstOf(Encoding(c) + rest);
      FirstDetermined(c, rest, d, other);
    }
  }

  /** A valid text announces its first form, has room for it, and holds a value of it. */
  lemma FirstShape(s: seq<Byte>)
    requires s != [] && IsUtf8(s)
    ensures var n := Announced(s[0]);
      && 0 <= n < |s| && IsTail(s[1..1 + n])
      && IsScalar(Fold(Payload(s[0], n), s[1..1 + n])) && Least(n) <= Fold(Payload(s[0], n), s[1..1 + n])
  {
    var c, rest := FirstOf(s);
    EncodingShape(c);
    var e := Encoding(c);
    assert s[1..|e|] == e[1..];
    hide Encoding;
    hide Fold;
  }

  /** The continuation bytes of one form; stops at the first that is not one. */
  method FoldContinuations(p: seq<Byte>, start: nat, n: nat, payload: nat) returns (ok: bool, value: nat)
    requires start + n <= |p|
    ensures ok <==> IsTail(p[start..start + n])
    ensures ok ==> value == Fold(payload, p[start..start + n])
  {
    value := payload;
    var i := 0;
    while i < n
      invariant i <= n
      invariant IsTail(p[start..start + i])
      invariant value == Fold(payload, p[start..start + i])
    {
      var next := p[start + i];
      assert p[start..start + i + 1] == p[start..start + i] + [next];
      if next / 64 != 2 {
        assert p[start..start + n][i] == next;
        return false, value;
      }
      FoldSnoc(payload, p[start..start + i], next);
      value := value * 64 + next % 64;
      i := i + 1;
    }
    ok := true;
  }

  /** infiltratr_utf8_validate: accepts exactly the UTF-8 texts. */
  method Validate(p: seq<Byte>) returns (ok: bool)
    ensures ok <==> IsUtf8(p)
  {
    hide Fold;
    hide Encoding;
    hide IsTail;
    var i := 0;
    EmptyIsUtf8();
    assert p[0..] == p;
    while i < |p|
      invariant i <= |p|
      invariant IsUtf8(p) <==> IsUtf8(p[i..])
    {
      ghost var rest := p[i..];
      ghost var start := i;
      var first := p[i];
      if IsUtf8(rest) { FirstShape(rest); }
      i := i + 1;
      var n := Announced(first);
      if n < 0 {
        return false;
      }
      if n > |p| - i {
        return false;
      }
      assert p[i..i + n] == rest[1..1 + n];
      var tailOk, value := FoldContinuations(p, i, n, Payload(first, n));
      if !tailOk {
        return false;
      }
      i := i + n;
      if value < Least(n) || value > 0x10FFFF || 0xD800 <= value <= 0xDFFF {
        return false;
      }
      StepOver(rest, n, value);
      assert p[i..] == rest[1 + n..];
    }
    assert p[i..] == [];
    ok := true;
  }

  lemma EmptyIsUtf8()
    ensures IsUtf8([])
  {
    assert EncodeAll([]) == [];
  }

  lemma StepOver(s: seq<Byte>, n: nat, c: nat)
    requires n < |s| && Announced(s[0]) == n && IsTail(s[1..1 + n]) && c == Fold(Payload(s[0], n), s[1..1 + n])
    requires IsScalar(c) && Least(n) <= c
    ensures IsUtf8(s) <==> IsUtf8(s[1 + n..])
  {
    var e, rest := s[..1 + n], s[1 + n..];
    assert e[1..] == s[1..1 + n] && s == e + rest;
    ShapeIsEncoding(e, n);
    PeelFirst(c, rest);
    hide *;
  }

  /** infiltratr_utf8_encode_codepoint: writes the encoding of a scalar value when it fits and reports
      its length; otherwise nothing is written or reported. */
  method EncodeCodepoint(codepoint: U32, output: array<Byte>) returns (length: Option<nat>)
    modifies output
    ensures length.Some? <==> IsScalar(codepoint) && |Encoding(codepoint)| <= output.Length
    ensures length.Some? ==> length.value == |Encoding(codepoint)| && output[..length.value] == Encoding(codepoint)
    ensures length.Some? ==> output[length.value..] == old(output[length.value..])
    ensures length.None? ==> output[..] == old(output[..])
  {
    var encoded := Spell(codepoint);
    if encoded.None? || output.Length < |encoded.value| {
      return None;
    }
    hide Encoding;
    var used := |encoded.value|;
    var index := 0;
    while index < used
      invariant index <= used
      invariant output[..index] == encoded.value[..index]
      invariant output[used..] == old(output[used..])
    {
      output[index] := encoded.value[index];
      index := index + 1;
    }
    length := Some(used);
  }

  /** The four forms of the encoder, and what it refuses. */
  method Spell(codepoint: U32) returns (encoded: Option<seq<Byte>>)
    ensures encoded == if IsScalar(codepoint) then Some(Encoding(codepoint)) else None
  {
    var bytes: seq<Byte>;
    if codepoint <= 0x7F {
      bytes := [codepoint];
    } else if codepoint <= 0x7FF {
      bytes := [0xC0 + codepoint / 64, 0x80 + codepoint % 64];
    } else if 0xD800 <= codepoint <= 0xDFFF {
      return None;
    } else if codepoint <= 0xFFFF {
      bytes := [0xE0 + codepoint / 0x1000, 0x80 + codepoint / 64 % 64, 0x80 + codepoint % 64];
    } else if codepoint <= 0x10FFFF {
      bytes := [0xF0 + codepoint / 0x4_0000, 0x80 + codepoint / 0x1000 % 64,
                0x80 + codepoint / 64 % 64, 0x80 + codepoint % 64];
    } else {
      return None;
    }
    SpelledOut(codepoint, bytes);
    encoded := Some(bytes);
  }

  /** The encoder's four branches, written out, are the encoding. */
  lemma SpelledOut(c: Scalar, e: seq<Byte>)
    requires c <= 0x7F ==> e == [c]
    requires 0x7F < c <= 0x7FF ==> e == [0xC0 + c / 64, 0x80 + c % 64]
    requires 0x7FF < c <= 0xFFFF ==> e == [0xE0 + c / 0x1000, 0x80 + c / 64 % 64, 0x80 + c % 64]
    requires 0xFFFF < c ==> e == [0xF0 + c / 0x4_0000, 0x80 + c / 0x1000 % 64, 0x80 + c / 64 % 64, 0x80 + c % 64]
    ensures e == Encoding(c)
  {
    NoTail(c);
    OneTail(c);
    TwoTails(c);
    ThreeTails(c);
    hide Head;
    hide Tail;
    assert Encoding(c) == [Marker(Continuations(c)) + Head(c, Continuations(c))] + Tail(c, Continuations(c));
    hide Encoding;
  }
}
