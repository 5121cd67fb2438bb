/** Locale names: BCP-47-like tags folded to one spelling, in place in a bounded buffer. */
module Locale {
  import opened Wrappers
  import opened Texts
  import opened Ascii

  predicate IsSeparator(c: char) { c == '-' || c == '_' }

  /** The part of a locale name before its encoding or modifier. */
  function Tag(source: string): string {
    if source == "" || source[0] == '.' || source[0] == '@' then "" else [source[0]] + Tag(source[1..])
  }

  /** Non-empty alphanumeric segments joined by single separators. */
  predicate WellFormed(tag: string) {
    && tag != "" && !IsSeparator(tag[0]) && !IsSeparator(tag[|tag| - 1])
    && (forall i :: 0 <= i < |tag| ==> IsAlnum(tag[i]) || IsSeparator(tag[i]))
    && (forall i :: 0 < i < |tag| ==> !DoubledAt(tag, i))
  }

  predicate DoubledAt(tag: string, i: nat)
    requires 0 < i < |tag|
  {
    IsSeparator(tag[i - 1]) && IsSeparator(tag[i])
  }

  function Fold(c: char): char { if IsSeparator(c) then '-' else ToLower(c) }

  function Folded(s: string): (r: string)
    ensures |r| == |s| && forall i :: 0 <= i < |s| ==> r[i] == Fold(s[i])
  {
    seq(|s|, i requires 0 <= i < |s| => Fold(s[i]))
  }

  function SegmentLength(s: string): (n: nat)
    ensures n <= |s| && (n < |s| ==> s[n] == '-') && forall i :: 0 <= i < n ==> s[i] != '-'
  {
    if s == "" || s[0] == '-' then 0 else 1 + SegmentLength(s[1..])
  }

  function Upper(s: string): (r: string)
    ensures |r| == |s| && forall i :: 0 <= i < |s| ==> r[i] == ToUpper(s[i])
  {
    seq(|s|, i requires 0 <= i < |s| => ToUpper(s[i]))
  }

  /** A two-letter segment is a region, in capitals; a four-letter one a script, capitalised. */
  function RecasedSegment(s: string): (r: string)
    ensures |r| == |s|
  {
    if AllAlpha(s) && |s| == 2 then Upper(s)
    else if AllAlpha(s) && |s| == 4 then [ToUpper(s[0])] + s[1..]
    else s
  }

  /** Every segment but the leading language recased. */
  function Recased(s: string, leading: bool): (r: string)
    ensures |r| == |s|
    decreases |s|
  {
    var n := SegmentLength(s);
    var segment := if leading then s[..n] else RecasedSegment(s[..n]);
    if n == |s| then segment else segment + ['-'] + Recased(s[n + 1..], false)
  }

  /** The one spelling of a locale name. */
  function Normalised(source: string): Option<string> {
    if WellFormed(Tag(source)) then Some(Recased(Folded(Tag(source)), true)) else None
  }

  predicate IsFolded(s: string) { forall i :: 0 <= i < |s| ==> Fold(s[i]) == s[i] }

  lemma FoldedIsFolded(s: string)
    ensures IsFolded(Folded(s))
  {
  }

  lemma FoldOfFolded(s: string)
    requires IsFolded(s)
    ensures Folded(s) == s
  {
  }

  /** Folding undoes recasing. */
  lemma {:induction false} FoldRecased(s: string, leading: bool)
    requires IsFolded(s)
    ensures Folded(Recased(s, leading)) == s
    decreases |s|
  {
    var n := SegmentLength(s);
    hide Folded;
    hide RecasedSegment;
    hide IsFolded;
    hide SegmentLength;
    FoldedPart(s, 0, n);
    FoldSegment(s[0..n], leading);
    assert s[0..n] == s[..n];
    if n == |s| {
      assert s[..n] == s;
    } else {
      FoldedPart(s, n + 1, |s|);
      assert s[n + 1..|s|] == s[n + 1..];
      FoldRecased(s[n + 1..], false);
      FoldConcat(if leading then s[..n] else RecasedSegment(s[..n]), Recased(s[n + 1..], false));
      assert s == s[..n] + ['-'] + s[n + 1..];
    }
  }

  lemma FoldedPart(s: string, lo: nat, hi: nat)
    requires lo <= hi <= |s| && IsFolded(s)
    ensures IsFolded(s[lo..hi])
  {
  }

  lemma FoldConcat(a: string, b: string)
    ensures Folded(a + ['-'] + b) == Folded(a) + ['-'] + Folded(b)
  {
  }

  lemma FoldSegment(s: string, leading: bool)
    requires IsFolded(s)
    ensures Folded(if leading then s else RecasedSegment(s)) == s
  {
    FoldOfFolded(s);
  }

  /** A well-formed tag stays well formed under folding and recasing, which change neither where the
      separators are nor what is alphanumeric. */
  lemma WellFormedByFold(a: string, b: string)
    requires WellFormed(a) && Folded(b) == Folded(a)
    ensures WellFormed(b) && Tag(b) == b
  {
    hide IsSeparator;
    hide IsAlnum;
    hide Folded;
    hide Tag;
    forall i | 0 <= i < |b|
      ensures |a| == |b| && IsSeparator(b[i]) == IsSeparator(a[i]) && IsAlnum(b[i]) == IsAlnum(a[i])
    {
      SameClasses(a, b, i);
    }
    forall i | 0 < i < |b|
      ensures !DoubledAt(b, i)
    {
      assert !DoubledAt(a, i);
    }
    TagIsWhole(b);
  }

  lemma SameClasses(a: string, b: string, i: nat)
    requires Folded(b) == Folded(a) && i < |b|
    ensures |a| == |b| && IsSeparator(b[i]) == IsSeparator(a[i]) && IsAlnum(b[i]) == IsAlnum(a[i])
  {
    assert |a| == |Folded(a)| == |b|;
    assert Fold(b[i]) == Folded(b)[i] == Folded(a)[i] == Fold(a[i]);
    FoldClasses(b[i]);
    FoldClasses(a[i]);
    hide IsSeparator;
    hide IsAlnum;
  }

  lemma FoldClasses(c: char)
    ensures IsSeparator(c) <==> Fold(c) == '-'
    ensures IsAlnum(c) <==> IsAlnum(Fold(c))
  {
  }

  lemma {:induction false} TagIsWhole(s: string)
    requires forall i :: 0 <= i < |s| ==> IsAlnum(s[i]) || IsSeparator(s[i])
    ensures Tag(s) == s
  {
    if s != "" {
      TagIsWhole(s[1..]);
    }
  }

  /** Normalising is idempotent. */
  lemma NormalisedTwice(source: string)
    requires Normalised(source).Some?
    ensures Normalised(Normalised(source).value) == Normalised(source)
  {
    var tag := Tag(source);
    var t := Recased(Folded(tag), true);
    FoldedIsFolded(tag);
    FoldRecased(Folded(tag), true);
    WellFormedByFold(tag, t);
  }

  /** Two names normalise alike exactly when their tags agree but for case and separator. */
  lemma NormalisedAlike(a: string, b: string)
    requires Normalised(a).Some? && Normalised(b).Some?
    ensures Normalised(a) == Normalised(b) <==> Folded(Tag(a)) == Folded(Tag(b))
  {
    FoldedIsFolded(Tag(a));
    FoldedIsFolded(Tag(b));
    FoldRecased(Folded(Tag(a)), true);
    FoldRecased(Folded(Tag(b)), true);
    hide Folded;
    hide Recased;
    hide WellFormed;
  }

  /** A maximal run of a tag between hyphens. */
  predicate SegmentOf(t: string, lo: nat, hi: nat) {
    && lo <= hi <= |t| && (lo == 0 || t[lo - 1] == '-') && (hi == |t| || t[hi] == '-')
    && forall i :: lo <= i < hi ==> t[i] != '-'
  }

  predicate OnlyLowerLetters(t: string, lo: nat, hi: nat)
    requires lo <= hi <= |t|
  {
    forall i :: lo <= i < hi ==> 'a' <= t[i] <= 'z'
  }

  /** Which letters of a folded tag become capitals: both of a two-letter segment after the language, and
      the first of a four-letter one. */
  predicate Capital(t: string, lo: nat, hi: nat, i: nat)
    requires lo <= i < hi <= |t|
  {
    lo > 0 && OnlyLowerLetters(t, lo, hi) && (hi == lo + 2 || (hi == lo + 4 && i == lo))
  }

  /** The name letter by letter: the folded tag with exactly those letters in capitals. */
  lemma NormalisedLetters(source: string, lo: nat, hi: nat, i: nat)
    requires Normalised(source).Some?
    requires var t := Folded(Tag(source)); SegmentOf(t, lo, hi) && lo <= i < hi
    ensures var t, r := Folded(Tag(source)), Normalised(source).value;
      |r| == |t| && r[i] == if Capital(t, lo, hi, i) then (t[i] as int - 32) as char else t[i]
  {
    var t := Folded(Tag(source));
    FoldedIsFolded(Tag(source));
    RecasedLetters(t, true, lo, hi, i);
    hide Recased;
  }

  lemma {:induction false} RecasedLetters(t: string, leading: bool, lo: nat, hi: nat, i: nat)
    requires IsFolded(t) && SegmentOf(t, lo, hi) && lo <= i < hi
    ensures var first := leading && lo == 0;
      var capital := !first && OnlyLowerLetters(t, lo, hi) && (hi == lo + 2 || (hi == lo + 4 && i == lo));
      Recased(t, leading)[i] == if capital then (t[i] as int - 32) as char else t[i]
    decreases |t|
  {
    hide Recased;
    hide RecasedSegment;
    hide IsFolded;
    hide OnlyLowerLetters;
    hide SegmentOf;
    if lo == 0 {
      FirstSegment(t, leading, hi, i);
    } else {
      var n := FirstEndsBefore(t, lo, hi);
      var d := n + 1;
      FoldedPart(t, d, |t|);
      RecasedLetters(t[d..|t|], false, lo - d, hi - d, i - d);
      hide *;
      ShiftedLetters(t, t[d..|t|], leading, lo, hi, d, i);
    }
  }

  lemma FirstSegment(t: string, leading: bool, hi: nat, i: nat)
    requires IsFolded(t) && SegmentOf(t, 0, hi) && i < hi
    ensures var capital := !leading && OnlyLowerLetters(t, 0, hi) && (hi == 2 || (hi == 4 && i == 0));
      Recased(t, leading)[i] == if capital then (t[i] as int - 32) as char else t[i]
  {
    assert SegmentLength(t) == hi;
    FoldedPart(t, 0, hi);
    assert t[0..hi] == t[..hi];
    SegmentLetters(t[..hi], i);
    assert t[..hi][0..hi] == t[0..hi];
    SameLetters(t, t[..hi], 0, hi, 0);
    assert Recased(t, leading)[i] == (if leading then t[..hi] else RecasedSegment(t[..hi]))[i];
    hide Recased;
    hide RecasedSegment;
    hide IsFolded;
    hide OnlyLowerLetters;
  }

  lemma ShiftedLetters(t: string, rest: string, leading: bool, lo: nat, hi: nat, d: nat, i: nat)
    requires 0 < d <= lo <= i < hi <= |t| && d == SegmentLength(t) + 1 && rest == t[d..|t|]
    ensures Recased(t, leading)[i] == Recased(rest, false)[i - d] && rest[i - d] == t[i]
    ensures OnlyLowerLetters(rest, lo - d, hi - d) == OnlyLowerLetters(t, lo, hi)
  {
    hide *;
    ShiftedSlice(t, rest, d, lo, hi, i);
    RecasedAfter(t, rest, leading, d, i);
    SameLetters(t, rest, lo, hi, d);
  }

  lemma FirstEndsBefore(t: string, lo: nat, hi: nat) returns (n: nat)
    requires SegmentOf(t, lo, hi) && 0 < lo < hi
    ensures n == SegmentLength(t) < lo && hi <= |t| && SegmentOf(t[n + 1..|t|], lo - (n + 1), hi - (n + 1))
  {
    n := SegmentLength(t);
    assert t[lo - 1] == '-';
    ShiftedSegment(t, t[n + 1..|t|], n + 1, lo, hi);
  }

  lemma ShiftedSlice(t: string, rest: string, d: nat, lo: nat, hi: nat, i: nat)
    requires d <= lo <= i < hi <= |t| && rest == t[d..|t|]
    ensures hi - d <= |rest| && rest[lo - d..hi - d] == t[lo..hi] && rest[i - d] == t[i]
  {
    assert |rest| == |t| - d;
    assert forall k :: 0 <= k < hi - lo ==> rest[lo - d..hi - d][k] == t[lo..hi][k];
  }

  lemma ShiftedSegment(t: string, rest: string, d: nat, lo: nat, hi: nat)
    requires SegmentOf(t, lo, hi) && 0 < d <= lo <= hi <= |t| && rest == t[d..|t|]
    ensures SegmentOf(rest, lo - d, hi - d)
  {
    assert |rest| == |t| - d;
    assert lo > d ==> rest[lo - d - 1] == t[lo - 1];
    assert hi < |t| ==> rest[hi - d] == t[hi];
    forall i | lo - d <= i < hi - d
      ensures rest[i] != '-'
    {
      assert rest[i] == t[i + d];
    }
  }

  lemma RecasedAfter(t: string, rest: string, leading: bool, d: nat, i: nat)
    requires d == SegmentLength(t) + 1 && d <= i < |t| && rest == t[d..|t|]
    ensures Recased(t, leading)[i] == Recased(rest, false)[i - d]
  {
    hide *;
    var segment := FirstPart(t, leading);
    assert t[d..] == rest;
    AfterHead(segment, Recased(rest, false), i);
  }

  lemma FirstPart(t: string, leading: bool) returns (segment: string)
    ensures var n := SegmentLength(t);
      |segment| == n && Recased(t, leading) == if n == |t| then segment else segment + ['-'] + Recased(t[n + 1..], false)
  {
    var n := SegmentLength(t);
    segment := if leading then t[..n] else RecasedSegment(t[..n]);
    RecasedStep(t, leading, n, segment);
    hide Recased;
  }

  lemma AfterHead(segment: string, rest: string, i: nat)
    requires |segment| + 1 <= i < |segment| + 1 + |rest|
    ensures (segment + ['-'] + rest)[i] == rest[i - |segment| - 1]
  {
  }

  lemma SameLetters(t: string, part: string, lo: nat, hi: nat, d: nat)
    requires d <= lo <= hi <= |t| && hi - d <= |part| && part[lo - d..hi - d] == t[lo..hi]
    ensures OnlyLowerLetters(part, lo - d, hi - d) == OnlyLowerLetters(t, lo, hi)
  {
    LettersOfSlice(t, lo, hi);
    LettersOfSlice(part, lo - d, hi - d);
    hide OnlyLowerLetters;
  }

  lemma LettersOfSlice(t: string, lo: nat, hi: nat)
    requires lo <= hi <= |t|
    ensures OnlyLowerLetters(t, lo, hi) <==> OnlyLowerLetters(t[lo..hi], 0, hi - lo)
  {
    if OnlyLowerLetters(t[lo..hi], 0, hi - lo) {
      forall i | lo <= i < hi
        ensures 'a' <= t[i] <= 'z'
      {
        assert t[i] == t[lo..hi][i - lo];
      }
    }
  }

  lemma SegmentLetters(s: string, i: nat)
    requires IsFolded(s) && i < |s|
    ensures var capital := OnlyLowerLetters(s, 0, |s|) && (|s| == 2 || (|s| == 4 && i == 0));
      RecasedSegment(s)[i] == if capital then (s[i] as int - 32) as char else s[i]
  {
    assert AllAlpha(s) <==> OnlyLowerLetters(s, 0, |s|) by {
      forall k | 0 <= k < |s|
        ensures IsAlpha(s[k]) <==> 'a' <= s[k] <= 'z'
      {
        assert Fold(s[k]) == s[k];
      }
    }
  }

  /** The folded tag, character by character: the name up to its encoding or modifier, capitals lowered and
      underscores turned into hyphens. */
  lemma {:induction false} FoldedTag(source: string)
    ensures var n, t := |Tag(source)|, Folded(Tag(source));
      && n <= |source| && (n < |source| ==> source[n] == '.' || source[n] == '@')
      && forall i :: 0 <= i < n ==>
           && source[i] != '.' && source[i] != '@'
           && t[i] == if 'A' <= source[i] <= 'Z' then (source[i] as int + 32) as char
                      else if source[i] == '_' then '-' else source[i]
  {
    if source != "" && source[0] != '.' && source[0] != '@' {
      FoldedTag(source[1..]);
      var t, u := Folded(Tag(source)), Folded(Tag(source[1..]));
      assert Tag(source) == [source[0]] + Tag(source[1..]);
      forall i | 0 < i < |Tag(source)|
        ensures t[i] == u[i - 1] && source[i] == source[1..][i - 1]
      {
      }
    }
  }

  /** Well-formed tags are built from alphanumeric segments and single separators, and from nothing else. */
  lemma WellFormedJoin(a: string, separator: char, b: string)
    requires separator == '-' || separator == '_'
    ensures WellFormed(a + [separator] + b) <==> WellFormed(a) && WellFormed(b)
  {
    hide WellFormed;
    if WellFormed(a + [separator] + b) {
      JoinedApart(a, separator, b);
    } else if WellFormed(a) && WellFormed(b) {
      JoinedWell(a, separator, b);
    }
  }

  lemma JoinedWell(a: string, separator: char, b: string)
    requires IsSeparator(separator) && WellFormed(a) && WellFormed(b)
    ensures WellFormed(a + [separator] + b)
  {
    var s := a + [separator] + b;
    hide IsAlnum;
    hide IsSeparator;
    forall i | 0 < i < |s|
      ensures !DoubledAt(s, i)
    {
      if i < |a| {
        assert !DoubledAt(a, i);
      } else if i > |a| + 1 {
        assert !DoubledAt(b, i - |a| - 1);
      }
    }
    assert s[0] == a[0] && s[|s| - 1] == b[|b| - 1];
  }

  lemma JoinedApart(a: string, separator: char, b: string)
    requires IsSeparator(separator) && WellFormed(a + [separator] + b)
    ensures WellFormed(a) && WellFormed(b)
  {
    var s := a + [separator] + b;
    hide IsAlnum;
    assert s[|a|] == separator;
    assert a != "" && b != "";
    assert forall i :: 0 <= i < |a| ==> s[i] == a[i];
    assert forall i :: 0 <= i < |b| ==> s[|a| + 1 + i] == b[i];
    assert !DoubledAt(s, |a|) && !DoubledAt(s, |a| + 1);
    forall i | 0 < i < |a|
      ensures !DoubledAt(a, i)
    {
      assert !DoubledAt(s, i);
    }
    forall i | 0 < i < |b|
      ensures !DoubledAt(b, i)
    {
      assert !DoubledAt(s, |a| + 1 + i);
    }
    forall i | 0 <= i < |b|
      ensures IsAlnum(b[i]) || IsSeparator(b[i])
    {
      assert s[|a| + 1 + i] == b[i];
    }
  }

  /** A single segment. */
  lemma WellFormedSegment(s: string)
    requires forall i :: 0 <= i < |s| ==> s[i] != '-' && s[i] != '_'
    ensures WellFormed(s) <==>
      s != "" && forall i :: 0 <= i < |s| ==> 'a' <= s[i] <= 'z' || 'A' <= s[i] <= 'Z' || '0' <= s[i] <= '9'
  {
    if s != "" && forall i :: 0 <= i < |s| ==> IsAlnum(s[i]) {
      forall i | 0 < i < |s|
        ensures !DoubledAt(s, i)
      {
      }
    }
  }

  /** An encoding or a modifier after the tag changes nothing. */
  lemma TailIgnored(tag: string, mark: char, tail: string)
    requires Plain(tag) && (mark == '.' || mark == '@')
    ensures Normalised(tag + [mark] + tail) == Normalised(tag)
  {
    var s := tag + [mark] + tail;
    assert s[..|tag|] == tag && tag[..|tag|] == tag;
    TagEnds(s, |tag|);
    TagEnds(tag, |tag|);
  }

  /** What the reading loop has checked of a tag so far. */
  predicate PrefixOk(s: string) {
    && (s != "" ==> !IsSeparator(s[0]))
    && (forall i :: 0 <= i < |s| ==> IsAlnum(s[i]) || IsSeparator(s[i]))
    && (forall i :: 0 < i < |s| ==> !DoubledAt(s, i))
  }

  predicate Plain(s: string) { forall i :: 0 <= i < |s| ==> s[i] != '.' && s[i] != '@' }

  /** While no delimiter has been seen the tag starts with what was read. */
  lemma {:induction false} TagStarts(source: string, i: nat)
    requires i <= |source| && Plain(source[..i])
    ensures Tag(source) == source[..i] + Tag(source[i..])
  {
    if i > 0 {
      assert source[0] == source[..i][0];
      assert source[1..][..i - 1] == source[..i][1..];
      assert source[1..][i - 1..] == source[i..];
      TagStarts(source[1..], i - 1);
      assert source[..i] == [source[0]] + source[1..][..i - 1];
    }
  }

  /** A tag whose read part is followed by a character that does not belong is not well formed. */
  lemma BadNext(source: string, i: nat)
    requires i < |source| && Plain(source[..i]) && source[i] != '.' && source[i] != '@'
    ensures |Tag(source)| > i && Tag(source)[i] == source[i] && Tag(source)[..i] == source[..i]
    ensures i > 0 ==> Tag(source)[i - 1] == source[i - 1]
  {
    TagStarts(source, i);
    assert Tag(source[i..])[0] == source[i];
  }

  lemma PrefixGrows(s: string, c: char)
    requires PrefixOk(s) && (IsAlnum(c) || IsSeparator(c))
    requires IsSeparator(c) ==> s != "" && !IsSeparator(s[|s| - 1])
    ensures PrefixOk(s + [c])
  {
    var t := s + [c];
    forall i | 0 < i < |t|
      ensures !DoubledAt(t, i)
    {
      if i < |s| { assert !DoubledAt(s, i); }
    }
    hide IsSeparator;
    hide IsAlnum;
  }

  /** Whether the character read next ends the tag, extends it, or spoils it. */
  predicate Spoils(previous: string, c: char) {
    if IsSeparator(c) then previous == "" || IsSeparator(previous[|previous| - 1]) else !IsAlnum(c)
  }

  lemma SpoiltTag(source: string, i: nat)
    requires i < |source| && Plain(source[..i]) && source[i] != '.' && source[i] != '@'
    requires Spoils(source[..i], source[i])
    ensures !WellFormed(Tag(source))
  {
    BadNext(source, i);
    var tag := Tag(source);
    if IsSeparator(source[i]) {
      if i == 0 {
        assert IsSeparator(tag[0]);
      } else {
        assert source[..i][i - 1] == source[i - 1];
        assert DoubledAt(tag, i);
      }
    } else {
      assert !IsAlnum(tag[i]) && !IsSeparator(tag[i]);
    }
  }

  /** The reading loop: copies the folded tag, or reports that it is malformed or too long. */
  method ReadTag(destination: array<char>, source: string) returns (ok: bool, out: nat)
    requires destination.Length > 0
    modifies destination
    ensures ok <==> WellFormed(Tag(source)) && |Tag(source)| < destination.Length
    ensures ok ==> out == |Tag(source)| && destination[..out] == Folded(Tag(source))
  {
    hide IsAlnum;
    hide IsSeparator;
    hide WellFormed;
    hide Tag;
    out := 0;
    var segmentLength := 0;
    while out < |source| && source[out] != '.' && source[out] != '@'
      invariant out <= |source| && out < destination.Length
      invariant Plain(source[..out]) && PrefixOk(source[..out])
      invariant segmentLength == 0 <==> out == 0 || IsSeparator(source[out - 1])
      invariant destination[..out] == Folded(source[..out])
    {
      var c := source[out];
      BadNext(source, out);
      assert source[..out + 1] == source[..out] + [c];
      if IsSeparator(c) {
        if segmentLength == 0 || out + 1 >= destination.Length {
          TooLongOrSpoilt(source, out, destination.Length);
          return false, 0;
        }
        segmentLength := 0;
      } else {
        if !IsAlnum(c) || out + 1 >= destination.Length {
          TooLongOrSpoilt(source, out, destination.Length);
          return false, 0;
        }
        segmentLength := segmentLength + 1;
      }
      PrefixGrows(source[..out], c);
      destination[out] := Fold(c);
      assert destination[..out + 1] == destination[..out] + [Fold(c)];
      FoldSnoc(source[..out], c);
      out := out + 1;
    }
    TagEnds(source, out);
    PrefixIsTag(source[..out]);
    if segmentLength == 0 {
      return false, 0;
    }
    ok := true;
  }

  lemma TooLongOrSpoilt(source: string, i: nat, capacity: nat)
    requires i < |source| && Plain(source[..i]) && source[i] != '.' && source[i] != '@'
    requires Spoils(source[..i], source[i]) || i + 1 >= capacity
    ensures !(WellFormed(Tag(source)) && |Tag(source)| < capacity)
  {
    BadNext(source, i);
    if Spoils(source[..i], source[i]) {
      SpoiltTag(source, i);
    }
  }

  lemma FoldSnoc(s: string, c: char)
    ensures Folded(s + [c]) == Folded(s) + [Fold(c)]
  {
  }

  lemma TagEnds(source: string, i: nat)
    requires i <= |source| && Plain(source[..i])
    requires i == |source| || source[i] == '.' || source[i] == '@'
    ensures Tag(source) == source[..i]
  {
    TagStarts(source, i);
    assert Tag(source[i..]) == "";
  }

  lemma PrefixIsTag(s: string)
    requires PrefixOk(s)
    ensures WellFormed(s) <==> s != "" && !IsSeparator(s[|s| - 1])
  {
  }

  lemma AllAlphaSnoc(s: string, c: char)
    ensures AllAlpha(s + [c]) <==> AllAlpha(s) && IsAlpha(c)
  {
    hide IsAlpha;
    if AllAlpha(s + [c]) {
      assert forall i :: 0 <= i < |s| ==> s[i] == (s + [c])[i];
      assert (s + [c])[|s|] == c;
    }
  }

  /** Whether a segment is letters only. */
  method LettersOnly(destination: array<char>, start: nat, end: nat) returns (allAlpha: bool)
    requires start <= end <= destination.Length
    ensures allAlpha <==> AllAlpha(destination[start..end])
  {
    hide AllAlpha;
    hide IsAlpha;
    allAlpha := true;
    var i := start;
    EmptyAlpha();
    assert destination[start..start] == "";
    while i < end
      invariant start <= i <= end
      invariant allAlpha <==> AllAlpha(destination[start..i])
    {
      assert destination[start..i + 1] == destination[start..i] + [destination[i]];
      AllAlphaSnoc(destination[start..i], destination[i]);
      if !IsAlpha(destination[i]) {
        allAlpha := false;
      }
      i := i + 1;
    }
  }

  lemma EmptyAlpha()
    ensures AllAlpha("")
  {
  }

  /** Puts a segment in capitals. */
  method Capitalise(destination: array<char>, start: nat, end: nat)
    requires start <= end <= destination.Length
    modifies destination
    ensures destination[start..end] == Upper(old(destination[start..end]))
    ensures destination[..start] == old(destination[..start]) && destination[end..] == old(destination[end..])
  {
    hide ToUpper;
    var i := start;
    while i < end
      invariant start <= i <= end
      invariant forall k :: start <= k < i ==> destination[k] == ToUpper(old(destination[k]))
      invariant forall k :: i <= k < end ==> destination[k] == old(destination[k])
      invariant destination[..start] == old(destination[..start]) && destination[end..] == old(destination[end..])
    {
      destination[i] := ToUpper(destination[i]);
      i := i + 1;
    }
  }

  /** Recases one segment after the language in place. */
  method RecaseInPlace(destination: array<char>, start: nat, end: nat)
    requires start <= end <= destination.Length
    modifies destination
    ensures destination[start..end] == RecasedSegment(old(destination[start..end]))
    ensures destination[..start] == old(destination[..start]) && destination[end..] == old(destination[end..])
  {
    hide AllAlpha;
    hide ToUpper;
    hide Upper;
    var allAlpha := LettersOnly(destination, start, end);
    if allAlpha && end - start == 2 {
      Capitalise(destination, start, end);
    } else if allAlpha && end - start == 4 {
      ghost var before := destination[..];
      destination[start] := ToUpper(destination[start]);
      FirstUpper(before, destination[..], start, end);
    }
  }

  lemma FirstUpper(before: string, now: string, start: nat, end: nat)
    requires start < end <= |before| && now == before[start := ToUpper(before[start])]
    ensures now[start..end] == [ToUpper(before[start..end][0])] + before[start..end][1..]
    ensures now[..start] == before[..start] && now[end..] == before[end..]
  {
  }

  /** Where the segment that starts here ends. */
  method FindEnd(destination: array<char>, start: nat, out: nat) returns (end: nat)
    requires start < out <= destination.Length
    ensures start <= end <= out && end - start == SegmentLength(destination[start..out])
  {
    ghost var rest := destination[start..out];
    end := start;
    assert rest[0..] == rest;
    while end < out && destination[end] != '-'
      invariant start <= end <= out
      invariant SegmentLength(rest) == end - start + SegmentLength(rest[end - start..])
    {
      assert rest[end - start] == destination[end];
      assert rest[end - start..][1..] == rest[end + 1 - start..];
      end := end + 1;
    }
    if end < out {
      assert rest[end - start] == destination[end];
    }
  }

  /** The recasing loop over the segments. */
  method RecaseAll(destination: array<char>, out: nat)
    requires out <= destination.Length
    modifies destination
    ensures destination[..out] == Recased(old(destination[..out]), true)
    ensures destination[out..] == old(destination[out..])
  {
    hide *;
    ghost var total := Recased(destination[..out], true);
    var start := 0;
    BeforeFirst(destination[..out], total);
    while start < out
      invariant start <= out + 1
      invariant destination[out..] == old(destination[out..])
      invariant start <= out ==> RecasedFrom(destination[..out], total, start)
      invariant start > out ==> destination[..out] == total
    {
      var end := FindEnd(destination, start, out);
      ghost var before := destination[..out];
      SliceOfPrefix(destination[..], start, end, out);
      if start != 0 {
        RecaseInPlace(destination, start, end);
      }
      SliceOfPrefix(destination[..], start, end, out);
      SegmentDone(before, destination[..out], total, start, end);
      start := end + 1;
    }
    if start == out {
      NothingLeft(destination[..out], total);
    }
  }

  /** Everything before start is final, and recasing the rest gives the rest. */
  ghost predicate RecasedFrom(now: string, total: string, start: nat) {
    start <= |now| && total == now[..start] + Recased(now[start..], start == 0)
  }

  lemma BeforeFirst(l: string, total: string)
    requires total == Recased(l, true)
    ensures RecasedFrom(l, total, 0)
  {
    hide Recased;
    assert l[0..] == l && l[..0] == "";
    assert "" + total == total;
  }

  lemma NothingLeft(now: string, total: string)
    requires RecasedFrom(now, total, |now|)
    ensures now == total
  {
    assert now[|now|..] == "";
    assert Recased("", |now| == 0) == "";
  }

  lemma SliceOfPrefix(all: string, start: nat, end: nat, out: nat)
    requires start <= end <= out <= |all|
    ensures all[..out][..start] == all[..start] && all[..out][start..end] == all[start..end]
    ensures all[..out][end..] == all[end..][..out - end] && all[out..] == all[end..][out - end..]
    ensures all[..out][start..] == all[start..out]
  {
  }

  /** One more segment is final. */
  lemma SegmentDone(before: string, now: string, total: string, start: nat, end: nat)
    requires RecasedFrom(before, total, start) && |now| == |before|
    requires start <= end <= |before| && end - start == SegmentLength(before[start..])
    requires now[..start] == before[..start] && now[end..] == before[end..]
    requires now[start..end] == if start == 0 then before[start..end] else RecasedSegment(before[start..end])
    ensures end == |now| ==> now == total
    ensures end < |now| ==> RecasedFrom(now, total, end + 1)
  {
    var n := end - start;
    FromAt(before, total, start);
    HeadOf(before, start, end);
    RecasedStep(before[start..], start == 0, n, now[start..end]);
    hide *;
    if end < |now| {
      DashAt(before, start, end);
      AcrossDash(before, now, start, end);
      MoveOn(now, total, start, end);
    } else {
      WholeOf(now, start);
    }
  }

  lemma FromAt(now: string, total: string, start: nat)
    requires RecasedFrom(now, total, start)
    ensures start <= |now| && total == now[..start] + Recased(now[start..], start == 0)
  {
    hide Recased;
  }

  lemma HeadOf(s: string, start: nat, end: nat)
    requires start <= end <= |s|
    ensures s[start..][..end - start] == s[start..end]
  {
  }

  lemma MoveOn(now: string, total: string, start: nat, end: nat)
    requires start <= end < |now| && now[..end + 1] == now[..start] + (now[start..end] + ['-'])
    requires total == now[..start] + (now[start..end] + ['-'] + Recased(now[end + 1..], false))
    ensures RecasedFrom(now, total, end + 1)
  {
    hide *;
    Assoc(now[..start], now[start..end] + ['-'], Recased(now[end + 1..], false));
    FromNext(now, total, end + 1);
  }

  lemma WholeOf(now: string, start: nat)
    requires start <= |now|
    ensures now == now[..start] + now[start..|now|]
  {
  }

  lemma AcrossDash(before: string, now: string, start: nat, end: nat)
    requires |now| == |before| && start <= end < |now| && now[end..] == before[end..] && before[end] == '-'
    ensures now[..end + 1] == now[..start] + (now[start..end] + ['-'])
    ensures now[end + 1..] == before[start..][end - start + 1..]
  {
    assert now[end] == now[end..][0] == before[end];
    assert now[end + 1..] == now[end..][1..];
    assert before[start..][end - start + 1..] == before[end..][1..];
  }

  lemma DashAt(before: string, start: nat, end: nat)
    requires start <= end < |before| && end - start == SegmentLength(before[start..])
    ensures before[end] == '-' && before[end..][0] == '-'
  {
  }

  lemma FromNext(now: string, total: string, next: nat)
    requires 0 < next <= |now| && total == now[..next] + Recased(now[next..], false)
    ensures RecasedFrom(now, total, next)
  {
    hide Recased;
  }

  lemma RecasedStep(rest: string, leading: bool, n: nat, segment: string)
    requires n == SegmentLength(rest) && segment == if leading then rest[..n] else RecasedSegment(rest[..n])
    ensures Recased(rest, leading) == if n == |rest| then segment else segment + ['-'] + Recased(rest[n + 1..], false)
  {
  }

  /** normalise_locale: the one spelling of the name when it has one that fits, otherwise an empty string. */
  method Normalise(destination: array<char>, source: string) returns (length: nat)
    modifies destination
    ensures length == match Normalised(source)
                      case None => 0
                      case Some(t) => if |t| < destination.Length then |t| else 0
    ensures length > 0 ==> Normalised(source) == Some(destination[..length]) && destination[length] == '\0'
    ensures length == 0 && destination.Length > 0 ==> destination[0] == '\0'
  {
    hide Recased;
    hide WellFormed;
    if destination.Length == 0 {
      return 0;
    }
    destination[0] := '\0';
    if source == "" {
      EmptyTag();
      return 0;
    }
    var ok, out := ReadTag(destination, source);
    if !ok {
      destination[0] := '\0';
      return 0;
    }
    NonEmptyTag(Tag(source));
    destination[out] := '\0';
    RecaseAll(destination, out);
    length := out;
  }

  lemma EmptyTag()
    ensures !WellFormed(Tag(""))
  {
  }

  lemma NonEmptyTag(tag: string)
    requires WellFormed(tag)
    ensures tag != ""
  {
  }
}
