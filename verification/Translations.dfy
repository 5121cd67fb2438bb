/** Message catalogues: lookup by locale, then by language, then in the fallback locale. */
module Translations {
  import opened Wrappers
  import opened Locale

  const LOCALE_CAPACITY: nat := 32

  datatype Message = Message(key: string, value: string)

  datatype Catalog = Catalog(locale: string, messages: seq<Message>)

  /** The canonical name of a locale; empty when it has none that fits. */
  function Name(locale: string): (n: string) {
    match Normalised(locale)
    case None => ""
    case Some(t) => if |t| < LOCALE_CAPACITY then t else ""
  }

  /** Only names of at most 31 characters are used. */
  lemma NameFits(locale: string, n: string)
    requires n != ""
    ensures Name(locale) == n <==> Normalised(locale) == Some(n) && |n| < 32
  {
    hide Normalised;
  }

  /** A canonical name is its own canonical name. */
  lemma NameOfName(locale: string)
    ensures Name(locale) != "" ==> Name(Name(locale)) == Name(locale)
  {
    if Name(locale) != "" {
      NormalisedTwice(locale);
    }
    hide Normalised;
  }

  method NameOf(locale: string) returns (name: string)
    ensures name == Name(locale)
  {
    var buffer := new char[LOCALE_CAPACITY];
    var length := Normalise(buffer, locale);
    hide Normalised;
    name := buffer[..length];
  }

  /** The language part of a canonical name. */
  function Language(name: string): string {
    if name == "" || name[0] == '-' then "" else [name[0]] + Language(name[1..])
  }

  predicate SameLanguage(a: string, b: string) { Language(a) != "" && Language(a) == Language(b) }

  function Exact(catalogs: seq<Catalog>, locale: string): Option<Catalog> {
    if catalogs == [] then None
    else if Name(catalogs[0].locale) != "" && Name(catalogs[0].locale) == locale then Some(catalogs[0])
    else Exact(catalogs[1..], locale)
  }

  predicate Speaks(c: Catalog, locale: string) { Name(c.locale) != "" && SameLanguage(Name(c.locale), locale) }

  /** The first catalogue for the bare language. */
  function Generic(catalogs: seq<Catalog>, locale: string): Option<Catalog> {
    if catalogs == [] then None
    else if Speaks(catalogs[0], locale) && '-' !in Name(catalogs[0].locale) then Some(catalogs[0])
    else Generic(catalogs[1..], locale)
  }

  /** The first catalogue of any variant of the language. */
  function Variant(catalogs: seq<Catalog>, locale: string): Option<Catalog> {
    if catalogs == [] then None
    else if Speaks(catalogs[0], locale) then Some(catalogs[0])
    else Variant(catalogs[1..], locale)
  }

  function OfLanguage(catalogs: seq<Catalog>, locale: string): Option<Catalog> {
    if Generic(catalogs, locale).Some? then Generic(catalogs, locale) else Variant(catalogs, locale)
  }

  function MessageIn(messages: seq<Message>, key: string): Option<string> {
    if messages == [] then None
    else if messages[0].key == key then Some(messages[0].value)
    else MessageIn(messages[1..], key)
  }

  function ValueIn(catalog: Option<Catalog>, key: string): Option<string> {
    if catalog.None? then None else MessageIn(catalog.value.messages, key)
  }

  function InLocale(catalogs: seq<Catalog>, locale: string, key: string): Option<string> {
    var exact := ValueIn(Exact(catalogs, locale), key);
    if exact.Some? then exact else ValueIn(OfLanguage(catalogs, locale), key)
  }

  /** The translation of a key. */
  function Translation(catalogs: seq<Catalog>, locale: string, fallback: string, key: string): string {
    var value := InLocale(catalogs, locale, key);
    if value.Some? then value.value
    else
      var other := InLocale(catalogs, fallback, key);
      if other.Some? then other.value else key
  }

  /** Some catalogue holds this translation of a key. */
  predicate Holds(catalogs: seq<Catalog>, key: string, value: string) {
    exists i :: 0 <= i < |catalogs| && MessageIn(catalogs[i].messages, key) == Some(value)
  }

  lemma {:induction false} FoundInTable(catalogs: seq<Catalog>, locale: string)
    ensures Exact(catalogs, locale).Some? ==> Exact(catalogs, locale).value in catalogs
    ensures OfLanguage(catalogs, locale).Some? ==> OfLanguage(catalogs, locale).value in catalogs
  {
    if catalogs != [] {
      FoundInTable(catalogs[1..], locale);
    }
  }

  /** A translation is a catalogue's value for that very key, or the key itself. */
  lemma TranslationSound(catalogs: seq<Catalog>, locale: string, fallback: string, key: string)
    ensures var r := Translation(catalogs, locale, fallback, key);
      r == key || Holds(catalogs, key, r)
  {
    FoundInTable(catalogs, locale);
    FoundInTable(catalogs, fallback);
    hide Exact;
    hide OfLanguage;
    hide MessageIn;
  }

  /** A key that the fallback language translates is translated in every locale. */
  lemma FallbackCovers(catalogs: seq<Catalog>, locale: string, fallback: string, key: string)
    requires ValueIn(OfLanguage(catalogs, fallback), key).Some?
    ensures Holds(catalogs, key, Translation(catalogs, locale, fallback, key))
  {
    FoundInTable(catalogs, locale);
    FoundInTable(catalogs, fallback);
    hide Exact;
    hide OfLanguage;
    hide MessageIn;
  }

  /** An exact catalogue of the locale decides its keys, whatever else is there. */
  lemma ExactWins(catalogs: seq<Catalog>, locale: string, fallback: string, key: string)
    requires ValueIn(Exact(catalogs, locale), key).Some?
    ensures Some(Translation(catalogs, locale, fallback, key)) == ValueIn(Exact(catalogs, locale), key)
  {
  }

  /** A catalogue for a bare language, without script or region. */
  predicate Bare(c: Catalog) { '-' !in Name(c.locale) }

  /** The first position at which a catalogue serves the language of a locale, bare ones only or any. */
  ghost predicate FirstServing(catalogs: seq<Catalog>, locale: string, bare: bool, k: nat) {
    && k < |catalogs| && Speaks(catalogs[k], locale) && (bare ==> Bare(catalogs[k]))
    && forall j :: 0 <= j < k ==> !(Speaks(catalogs[j], locale) && (bare ==> Bare(catalogs[j])))
  }

  lemma {:induction false} GenericAt(catalogs: seq<Catalog>, locale: string, k: nat)
    requires FirstServing(catalogs, locale, true, k)
    ensures Generic(catalogs, locale) == Some(catalogs[k])
    decreases k
  {
    hide Name;
    hide SameLanguage;
    if k > 0 {
      assert !(Speaks(catalogs[0], locale) && Bare(catalogs[0]));
      GenericAt(catalogs[1..], locale, k - 1);
    }
  }

  lemma {:induction false} VariantAt(catalogs: seq<Catalog>, locale: string, k: nat)
    requires FirstServing(catalogs, locale, false, k)
    ensures Variant(catalogs, locale) == Some(catalogs[k])
    decreases k
  {
    hide Name;
    hide SameLanguage;
    if k > 0 {
      assert !Speaks(catalogs[0], locale);
      VariantAt(catalogs[1..], locale, k - 1);
    }
  }

  lemma {:induction false} GenericNone(catalogs: seq<Catalog>, locale: string)
    requires forall j :: 0 <= j < |catalogs| ==> !(Speaks(catalogs[j], locale) && Bare(catalogs[j]))
    ensures Generic(catalogs, locale).None?
  {
    hide Name;
    hide SameLanguage;
    if catalogs != [] {
      assert !(Speaks(catalogs[0], locale) && Bare(catalogs[0]));
      GenericNone(catalogs[1..], locale);
    }
  }

  /** A catalogue of the bare language wins, the first of several, even over variants that come before it. */
  lemma BareLanguageWins(catalogs: seq<Catalog>, locale: string, k: nat)
    requires FirstServing(catalogs, locale, true, k)
    ensures OfLanguage(catalogs, locale) == Some(catalogs[k])
  {
    GenericAt(catalogs, locale, k);
  }

  /** Without one the first variant serves. */
  lemma FirstVariantServes(catalogs: seq<Catalog>, locale: string, k: nat)
    requires FirstServing(catalogs, locale, false, k)
    requires forall j :: 0 <= j < |catalogs| && Speaks(catalogs[j], locale) ==> !Bare(catalogs[j])
    ensures OfLanguage(catalogs, locale) == Some(catalogs[k])
  {
    GenericNone(catalogs, locale);
    VariantAt(catalogs, locale, k);
  }

  /** The first catalogue with the canonical name is the exact one. */
  lemma {:induction false} ExactAt(catalogs: seq<Catalog>, locale: string, k: nat)
    requires k < |catalogs| && locale != "" && Name(catalogs[k].locale) == locale
    requires forall j :: 0 <= j < k ==> Name(catalogs[j].locale) != locale
    ensures Exact(catalogs, locale) == Some(catalogs[k])
    decreases k
  {
    hide Name;
    if k > 0 {
      ExactAt(catalogs[1..], locale, k - 1);
    }
  }

  /** The language is what stands before the first hyphen. */
  lemma {:induction false} LanguageEnds(language: string, rest: string)
    requires '-' !in language && (rest == "" || rest[0] == '-')
    ensures Language(language + rest) == language
    decreases |language|
  {
    if language == "" {
      assert language + rest == rest;
    } else {
      LanguageEnds(language[1..], rest);
      assert (language + rest)[1..] == language[1..] + rest;
    }
  }

  /** A key's first message in a catalogue gives its value. */
  lemma {:induction false} FirstMessageCounts(messages: seq<Message>, key: string, k: nat)
    requires k < |messages| && messages[k].key == key && forall j :: 0 <= j < k ==> messages[j].key != key
    ensures MessageIn(messages, key) == Some(messages[k].value)
    decreases k
  {
    if k > 0 {
      FirstMessageCounts(messages[1..], key, k - 1);
    }
  }

  /** The places a translation is looked for, in this order: the exact catalogue of the locale, the one of
      its language, the two of the fallback locale.  The first that has the key decides, and without any the
      key itself is returned. */
  ghost function Places(catalogs: seq<Catalog>, locale: string, fallback: string): seq<Option<Catalog>> {
    [Exact(catalogs, locale), OfLanguage(catalogs, locale), Exact(catalogs, fallback), OfLanguage(catalogs, fallback)]
  }

  lemma LookupOrder(catalogs: seq<Catalog>, locale: string, fallback: string, key: string, k: nat)
    requires k <= 4
    requires forall j :: 0 <= j < k ==> ValueIn(Places(catalogs, locale, fallback)[j], key).None?
    ensures var r := Translation(catalogs, locale, fallback, key);
      if k == 4 then r == key
      else ValueIn(Places(catalogs, locale, fallback)[k], key).Some? ==> Some(r) == ValueIn(Places(catalogs, locale, fallback)[k], key)
  {
    hide Exact;
    hide OfLanguage;
    hide ValueIn;
    var places := Places(catalogs, locale, fallback);
    assert k > 0 ==> ValueIn(places[0], key).None?;
    assert k > 1 ==> ValueIn(places[1], key).None?;
    assert k > 2 ==> ValueIn(places[2], key).None?;
    assert k > 3 ==> ValueIn(places[3], key).None?;
  }

  method FindExact(catalogs: seq<Catalog>, locale: string) returns (c: Option<Catalog>)
    ensures c == Exact(catalogs, locale)
  {
    hide Name;
    var i := 0;
    assert catalogs[0..] == catalogs;
    while i < |catalogs|
      invariant i <= |catalogs| && Exact(catalogs, locale) == Exact(catalogs[i..], locale)
    {
      assert catalogs[i..][1..] == catalogs[i + 1..];
      var name := NameOf(catalogs[i].locale);
      if name != "" && name == locale {
        return Some(catalogs[i]);
      }
      i := i + 1;
    }
    c := None;
  }

  lemma MoveOver(s: string, i: nat, rest: string)
    requires i < |s|
    ensures s[..i] + ([s[i]] + rest) == s[..i + 1] + rest
  {
  }

  method LanguageOf(name: string) returns (language: string)
    ensures language == Language(name)
  {
    var length := 0;
    assert name[0..] == name;
    while length < |name| && name[length] != '-'
      invariant length <= |name| && Language(name) == name[..length] + Language(name[length..])
    {
      assert name[length..][1..] == name[length + 1..];
      MoveOver(name, length, Language(name[length + 1..]));
      length := length + 1;
    }
    language := name[..length];
  }

  /** One pass: a catalogue of the bare language at once, else the first variant seen. */
  method FindLanguage(catalogs: seq<Catalog>, locale: string) returns (c: Option<Catalog>)
    ensures c == OfLanguage(catalogs, locale)
  {
    hide Name;
    hide Language;
    var firstMatch: Option<Catalog> := None;
    var wanted := LanguageOf(locale);
    var i := 0;
    assert catalogs[0..] == catalogs;
    while i < |catalogs|
      invariant i <= |catalogs| && Generic(catalogs, locale) == Generic(catalogs[i..], locale)
      invariant Variant(catalogs, locale) == if firstMatch.Some? then firstMatch else Variant(catalogs[i..], locale)
    {
      assert catalogs[i..][1..] == catalogs[i + 1..];
      var name := NameOf(catalogs[i].locale);
      var language := LanguageOf(name);
      if name != "" && language != "" && language == wanted {
        if '-' !in name {
          return Some(catalogs[i]);
        }
        if firstMatch.None? {
          firstMatch := Some(catalogs[i]);
        }
      }
      i := i + 1;
    }
    c := firstMatch;
  }

  method Lookup(catalog: Option<Catalog>, key: string) returns (value: Option<string>)
    ensures value == ValueIn(catalog, key)
  {
    if catalog.None? {
      return None;
    }
    var messages := catalog.value.messages;
    var i := 0;
    assert messages[0..] == messages;
    while i < |messages|
      invariant i <= |messages| && MessageIn(messages, key) == MessageIn(messages[i..], key)
    {
      assert messages[i..][1..] == messages[i + 1..];
      if messages[i].key == key {
        return Some(messages[i].value);
      }
      i := i + 1;
    }
    value := None;
  }

  method LookupLocale(catalogs: seq<Catalog>, locale: string, key: string) returns (value: Option<string>)
    ensures value == InLocale(catalogs, locale, key)
  {
    hide *;
    hide InLocale;
    var catalog := FindExact(catalogs, locale);
    value := Lookup(catalog, key);
    if value.None? {
      catalog := FindLanguage(catalogs, locale);
      value := Lookup(catalog, key);
    }
    ByLocale(catalogs, locale, key);
  }

  lemma ByLocale(catalogs: seq<Catalog>, locale: string, key: string)
    ensures InLocale(catalogs, locale, key) ==
      if ValueIn(Exact(catalogs, locale), key).Some? then ValueIn(Exact(catalogs, locale), key)
      else ValueIn(OfLanguage(catalogs, locale), key)
  {
  }

  /** A table whose catalogues all have canonical names, with one for the fallback language. */
  predicate Usable(table: seq<Catalog>, fallbackLocale: string) {
    && table != [] && (forall i :: 0 <= i < |table| ==> Name(table[i].locale) != "")
    && Name(fallbackLocale) != "" && OfLanguage(table, Name(fallbackLocale)).Some?
  }

  lemma WhenUsable(table: seq<Catalog>, fallbackLocale: string)
    ensures table == [] || Name(fallbackLocale) == "" ==> !Usable(table, fallbackLocale)
    ensures forall i :: 0 <= i < |table| && Name(table[i].locale) == "" ==> !Usable(table, fallbackLocale)
    ensures OfLanguage(table, Name(fallbackLocale)).None? ==> !Usable(table, fallbackLocale)
  {
    hide Name;
    hide OfLanguage;
  }

  lemma IsUsable(table: seq<Catalog>, fallbackLocale: string)
    requires table != [] && Name(fallbackLocale) != "" && forall i :: 0 <= i < |table| ==> Name(table[i].locale) != ""
    requires OfLanguage(table, Name(fallbackLocale)).Some?
    ensures Usable(table, fallbackLocale)
  {
    hide Name;
    hide OfLanguage;
  }

  /** The localisation context. */
  class Context {
    var catalogs: seq<Catalog>
    var locale: string
    var fallback: string

    /** Both locales are canonical names, and the fallback language has a catalogue. */
    ghost predicate Configured()
      reads this
    {
      && locale != "" && Name(locale) == locale && fallback != "" && Name(fallback) == fallback
      && OfLanguage(catalogs, fallback).Some?
    }

    /** infiltratr_i18n_init: clears the context unless the whole table and the fallback are usable. */
    method Configure(table: seq<Catalog>, fallbackLocale: string) returns (ok: bool)
      modifies this
      ensures ok <==> Usable(table, fallbackLocale)
      ensures ok ==> Configured() && catalogs == table && fallback == Name(fallbackLocale) && locale == fallback
      ensures !ok ==> catalogs == [] && locale == "" && fallback == ""
    {
      hide *;
      WhenUsable(table, fallbackLocale);
      catalogs, locale, fallback := [], "", "";
      if table == [] {
        return false;
      }
      var i := 0;
      while i < |table|
        invariant i <= |table| && forall k :: 0 <= k < i ==> Name(table[k].locale) != ""
        invariant catalogs == [] && locale == "" && fallback == ""
      {
        var name := NameOf(table[i].locale);
        if name == "" {
          return false;
        }
        i := i + 1;
      }
      var configured := NameOf(fallbackLocale);
      if configured == "" {
        return false;
      }
      var c := FindLanguage(table, configured);
      if c.None? {
        return false;
      }
      NameOfName(fallbackLocale);
      IsUsable(table, fallbackLocale);
      catalogs, locale, fallback := table, configured, configured;
      IsConfigured();
      ok := true;
    }

    lemma IsConfigured()
      requires locale != "" && Name(locale) == locale && fallback != "" && Name(fallback) == fallback
      requires OfLanguage(catalogs, fallback).Some?
      ensures Configured()
    {
    }

    /** infiltratr_i18n_set_locale: a locale without a catalogue is kept all the same. */
    method SetLocale(newLocale: string) returns (available: bool)
      modifies this`locale
      ensures old(Configured()) ==> Configured()
      ensures locale == if Name(newLocale) != "" then Name(newLocale) else old(locale)
      ensures available <==> Name(newLocale) != "" && OfLanguage(catalogs, Name(newLocale)).Some?
    {
      var name := NameOf(newLocale);
      NameOfName(newLocale);
      hide Name;
      hide OfLanguage;
      if name == "" {
        return false;
      }
      locale := name;
      var c := FindLanguage(catalogs, locale);
      available := c.Some?;
    }

    /** infiltratr_i18n_get. */
    method Get(key: string) returns (value: string)
      ensures value == Translation(catalogs, locale, fallback, key)
      ensures ValueIn(OfLanguage(catalogs, fallback), key).Some? ==> Holds(catalogs, key, value)
    {
      if ValueIn(OfLanguage(catalogs, fallback), key).Some? {
        FallbackCovers(catalogs, locale, fallback, key);
      }
      hide InLocale;
      hide ValueIn;
      hide OfLanguage;
      hide Holds;
      var found := LookupLocale(catalogs, locale, key);
      if found.Some? {
        return found.value;
      }
      if locale != fallback {
        found := LookupLocale(catalogs, fallback, key);
        if found.Some? {
          return found.value;
        }
      }
      value := key;
    }
  }

  /** Different spellings of one locale select the same catalogues. */
  lemma SpellingIrrelevant(a: string, b: string)
    requires Normalised(a).Some? && Normalised(b).Some? && Folded(Tag(a)) == Folded(Tag(b))
    ensures Name(a) == Name(b)
  {
    NormalisedAlike(a, b);
  }
}
