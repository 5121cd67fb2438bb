/** The installed-resource tables: built-in entries first, then what a scan accepted. */
module Catalogue {
  import opened Wrappers
  import opened DecimalExponents

  datatype Kind = Calendar | Clock

  /** What a scanned module reports about itself. */
  datatype Metadata = Metadata(id: string, name: string, supportsSeconds: bool, requiresLatitude: bool,
                               requiresLongitude: bool)

  datatype Entry =
    | CalendarEntry(id: string, name: string)
    | ClockEntry(id: string, name: string, supportsSeconds: bool, requiresLatitude: bool, requiresLongitude: bool)

  function EntryOf(kind: Kind, m: Metadata): (e: Entry)
    ensures e.id == m.id
  {
    match kind
    case Calendar => CalendarEntry(m.id, m.name)
    case Clock => ClockEntry(m.id, m.name, m.supportsSeconds, m.requiresLatitude, m.requiresLongitude)
  }

  predicate HasId(entries: seq<Entry>, id: string) {
    exists i :: 0 <= i < |entries| && entries[i].id == id
  }

  predicate DistinctIds(entries: seq<Entry>) {
    forall i, j :: 0 <= i < j < |entries| ==> entries[i].id != entries[j].id
  }

  /** A reported module joins the table unless its identifier is taken. */
  ghost function Accept(kind: Kind, builtin: seq<Entry>, table: seq<Entry>, m: Metadata): seq<Entry> {
    if HasId(builtin, m.id) || HasId(table, m.id) then table else table + [EntryOf(kind, m)]
  }

  /** The whole accepted scan. */
  ghost function Accepted(kind: Kind, builtin: seq<Entry>, found: seq<Metadata>): seq<Entry> {
    if found == [] then [] else Accept(kind, builtin, Accepted(kind, builtin, found[..|found| - 1]), found[|found| - 1])
  }

  lemma AcceptedNext(kind: Kind, builtin: seq<Entry>, found: seq<Metadata>, n: nat)
    requires n < |found|
    ensures Accepted(kind, builtin, found[..n + 1])
      == Accept(kind, builtin, Accepted(kind, builtin, found[..n]), found[n])
  {
    assert found[..n + 1][..n] == found[..n];
  }

  /** The table never repeats an identifier, nor one of the built-in ones. */
  lemma {:induction false} AcceptedDistinct(kind: Kind, builtin: seq<Entry>, found: seq<Metadata>)
    requires DistinctIds(builtin)
    ensures DistinctIds(builtin + Accepted(kind, builtin, found))
    decreases |found|
  {
    if found == [] {
      assert builtin + [] == builtin;
    } else {
      var n := |found| - 1;
      var table := Accepted(kind, builtin, found[..n]);
      AcceptedDistinct(kind, builtin, found[..n]);
      AcceptKeepsDistinct(kind, builtin, table, found[n]);
    }
  }

  lemma AcceptKeepsDistinct(kind: Kind, builtin: seq<Entry>, table: seq<Entry>, m: Metadata)
    requires DistinctIds(builtin + table)
    ensures DistinctIds(builtin + Accept(kind, builtin, table, m))
  {
    if !HasId(builtin, m.id) && !HasId(table, m.id) {
      var all := builtin + table;
      assert builtin + (table + [EntryOf(kind, m)]) == all + [EntryOf(kind, m)];
      forall i | 0 <= i < |all|
        ensures all[i].id != m.id
      {
        if i < |builtin| {
          assert builtin[i] == all[i];
        } else {
          assert table[i - |builtin|] == all[i];
        }
      }
    }
  }

  /** Every identifier a scan reports can be found afterwards, built in or installed. */
  lemma {:induction false} AcceptedComplete(kind: Kind, builtin: seq<Entry>, found: seq<Metadata>, k: nat)
    requires k < |found|
    ensures HasId(builtin, found[k].id) || HasId(Accepted(kind, builtin, found), found[k].id)
    decreases |found|
  {
    var n := |found| - 1;
    var table := Accepted(kind, builtin, found[..n]);
    if k < n {
      AcceptedComplete(kind, builtin, found[..n], k);
      if HasId(table, found[k].id) {
        AcceptKeeps(kind, builtin, table, found[n], found[k].id);
      }
    } else if !HasId(builtin, found[k].id) && !HasId(table, found[k].id) {
      assert (table + [EntryOf(kind, found[n])])[|table|].id == found[k].id;
    }
  }

  lemma AcceptKeeps(kind: Kind, builtin: seq<Entry>, table: seq<Entry>, m: Metadata, id: string)
    requires HasId(table, id)
    ensures HasId(Accept(kind, builtin, table, m), id)
  {
    var i :| 0 <= i < |table| && table[i].id == id;
    assert Accept(kind, builtin, table, m)[i].id == id;
  }

  /** The first entry with an identifier. */
  function FirstWith(entries: seq<Entry>, id: string): Option<Entry> {
    if entries == [] then None
    else if entries[0].id == id then Some(entries[0])
    else FirstWith(entries[1..], id)
  }

  lemma {:induction false} FirstWithConcat(a: seq<Entry>, b: seq<Entry>, id: string)
    ensures FirstWith(a + b, id) == if FirstWith(a, id).Some? then FirstWith(a, id) else FirstWith(b, id)
  {
    if a == [] {
      assert a + b == b;
    } else {
      FirstWithConcat(a[1..], b, id);
      assert (a + b)[1..] == a[1..] + b;
    }
  }

  lemma {:induction false} FirstWithIff(entries: seq<Entry>, id: string)
    ensures FirstWith(entries, id).Some? <==> HasId(entries, id)
  {
    if entries != [] {
      FirstWithIff(entries[1..], id);
      if entries[0].id != id && HasId(entries, id) {
        var i :| 0 <= i < |entries| && entries[i].id == id;
        assert entries[1..][i - 1].id == id;
      }
      if HasId(entries[1..], id) {
        var i :| 0 <= i < |entries| - 1 && entries[1..][i].id == id;
        assert entries[i + 1].id == id;
      }
    }
  }

  /** With distinct identifiers an entry is found under its own identifier. */
  lemma {:induction false} FindsItself(entries: seq<Entry>, i: nat)
    requires i < |entries| && DistinctIds(entries)
    ensures FirstWith(entries, entries[i].id) == Some(entries[i])
    decreases i
  {
    if i > 0 {
      FindsItself(entries[1..], i - 1);
    }
  }

  /** The first report of its identifier, which no built-in entry has taken. */
  ghost predicate FirstReport(builtin: seq<Entry>, found: seq<Metadata>, k: nat) {
    k < |found| && !HasId(builtin, found[k].id) && forall j :: 0 <= j < k ==> found[j].id != found[k].id
  }

  /** An entry says of a module what the module reported. */
  predicate Reports(kind: Kind, e: Entry, m: Metadata) {
    && e.id == m.id && e.name == m.name
    && match kind
       case Calendar => e.CalendarEntry?
       case Clock =>
         e.ClockEntry? && e.supportsSeconds == m.supportsSeconds && e.requiresLatitude == m.requiresLatitude
         && e.requiresLongitude == m.requiresLongitude
  }

  /** What is found after a scan under an identifier it reported is an entry of the scanned kind, saying
      what its first report said. */
  lemma FoundAsReported(kind: Kind, builtin: seq<Entry>, found: seq<Metadata>, k: nat)
    requires FirstReport(builtin, found, k)
    ensures var e := FirstWith(builtin + Accepted(kind, builtin, found), found[k].id);
      e.Some? && Reports(kind, e.value, found[k])
  {
    FirstWithIff(builtin, found[k].id);
    FirstWithConcat(builtin, Accepted(kind, builtin, found), found[k].id);
    AcceptedReport(kind, builtin, found, k);
  }

  lemma {:induction false} AcceptedReport(kind: Kind, builtin: seq<Entry>, found: seq<Metadata>, k: nat)
    requires FirstReport(builtin, found, k)
    ensures var e := FirstWith(Accepted(kind, builtin, found), found[k].id);
      e.Some? && Reports(kind, e.value, found[k])
    decreases |found|
  {
    var n := |found| - 1;
    var table := Accepted(kind, builtin, found[..n]);
    if k < n {
      AcceptedReport(kind, builtin, found[..n], k);
      FirstWithConcat(table, [EntryOf(kind, found[n])], found[k].id);
    } else {
      NotReported(kind, builtin, found[..n], found[k].id);
      FirstWithIff(table, found[k].id);
      FirstWithConcat(table, [EntryOf(kind, found[n])], found[k].id);
    }
  }

  /** Only reported identifiers are in the table, each as some module reported it. */
  lemma {:induction false} NotReported(kind: Kind, builtin: seq<Entry>, found: seq<Metadata>, id: string)
    requires forall j :: 0 <= j < |found| ==> found[j].id != id
    ensures !HasId(Accepted(kind, builtin, found), id)
    decreases |found|
  {
    if found != [] {
      NotReported(kind, builtin, found[..|found| - 1], id);
    }
  }

  /** Nothing else enters the table: every entry is the report of some module whose identifier was free. */
  lemma {:induction false} OnlyReports(kind: Kind, builtin: seq<Entry>, found: seq<Metadata>, i: nat) returns (k: nat)
    requires i < |Accepted(kind, builtin, found)|
    ensures k < |found| && Reports(kind, Accepted(kind, builtin, found)[i], found[k]) && !HasId(builtin, found[k].id)
    decreases |found|
  {
    var n := |found| - 1;
    if i < |Accepted(kind, builtin, found[..n])| {
      k := OnlyReports(kind, builtin, found[..n], i);
    } else {
      k := n;
    }
  }

  /** Entries keep the places of their first reports: more reports only extend the table. */
  lemma {:induction false} AcceptedGrows(kind: Kind, builtin: seq<Entry>, found: seq<Metadata>, n: nat)
    requires n <= |found|
    ensures Accepted(kind, builtin, found[..n]) <= Accepted(kind, builtin, found)
    decreases |found|
  {
    if n < |found| {
      var front := found[..|found| - 1];
      assert front[..n] == found[..n];
      AcceptedGrows(kind, builtin, front, n);
    } else {
      assert found[..n] == found;
    }
  }

  /** Linear search by identifier. */
  method Search(entries: array<Entry>, count: nat, id: string) returns (e: Option<Entry>)
    requires count <= entries.Length
    ensures e == FirstWith(entries[..count], id)
  {
    var i := 0;
    assert entries[..count][0..] == entries[..count];
    while i < count
      invariant i <= count
      invariant FirstWith(entries[..count], id) == FirstWith(entries[..count][i..], id)
    {
      assert entries[..count][i..][1..] == entries[..count][i + 1..];
      if entries[i].id == id {
        return Some(entries[i]);
      }
      i := i + 1;
    }
    e := None;
  }

  /** The runtime table of one kind, beside the built-in entries. */
  class Table {
    const kind: Kind
    const builtin: array<Entry>
    const entrySize: nat
    var entries: array<Entry>
    var count: nat

    /** How many entries an allocation can hold. */
    function Limit(): nat
      requires entrySize > 0
    {
      SIZE_MAX / entrySize
    }

    ghost predicate Valid()
      reads this
    {
      entrySize > 0 && count <= entries.Length && builtin != entries
    }

    ghost function Builtin(): seq<Entry>
      reads builtin
    {
      builtin[..]
    }

    ghost function Contents(): seq<Entry>
      requires Valid()
      reads this, entries
    {
      entries[..count]
    }

    constructor (kind: Kind, builtin: array<Entry>, entrySize: nat)
      requires entrySize > 0
      ensures Valid() && fresh(entries) && Contents() == []
      ensures this.kind == kind && this.builtin == builtin && this.entrySize == entrySize
    {
      this.kind, this.builtin, this.entrySize := kind, builtin, entrySize;
      entries := new Entry[0];
      count := 0;
    }

    /** calendar_duplicate and clock_duplicate. */
    method Duplicate(id: string) returns (taken: bool)
      requires Valid()
      ensures taken <==> HasId(Builtin(), id) || HasId(Contents(), id)
    {
      FirstWithIff(Builtin(), id);
      FirstWithIff(Contents(), id);
      assert builtin[..builtin.Length] == builtin[..];
      var known := Search(builtin, builtin.Length, id);
      if known.Some? {
        return true;
      }
      known := Search(entries, count, id);
      taken := known.Some?;
    }

    /** Doubles the storage; fails on overflow of the capacity or when no memory is left. */
    method Grow(memory: bool) returns (ok: bool)
      requires Valid() && count == entries.Length
      modifies this`entries
      ensures Valid() && Contents() == old(Contents())
      ensures ok ==> count < entries.Length && fresh(entries)
      ensures ok ==> entries.Length == if old(entries.Length) == 0 then 8 else 2 * old(entries.Length)
      ensures !ok ==> entries == old(entries)
      ensures !ok ==> !memory || 8 + 2 * count > Limit()
    {
      hide Limit;
      var capacity := if entries.Length == 0 then 8 else entries.Length * 2;
      if capacity > Limit() || !memory {
        return false;
      }
      var grown := new Entry[capacity];
      var i := 0;
      while i < count
        invariant i <= count && grown != entries && entries == old(entries) && fresh(grown)
        invariant grown[..i] == entries[..i]
      {
        grown[i] := entries[i];
        i := i + 1;
      }
      entries := grown;
      ok := true;
    }

    /** append_calendar and append_clock: a duplicate is skipped, a failure leaves the table alone. */
    method Append(m: Metadata, memory: bool) returns (ok: bool)
      requires Valid()
      modifies this, entries
      ensures Valid() && (entries == old(entries) || fresh(entries))
      ensures ok ==> Contents() == Accept(kind, Builtin(), old(Contents()), m)
      ensures ok && !HasId(Builtin(), m.id) && !HasId(old(Contents()), m.id) ==>
        |Contents()| == old(|Contents()|) + 1 && Contents()[..old(count)] == old(Contents())
        && Reports(kind, Contents()[old(count)], m)
      ensures !ok ==> Contents() == old(Contents())
      ensures !ok ==> !memory || 8 + 2 * old(count) > Limit()
      ensures Builtin() == old(Builtin())
    {
      var taken := Duplicate(m.id);
      if taken {
        return true;
      }
      if count == entries.Length {
        var grew := Grow(memory);
        if !grew {
          return false;
        }
      }
      if !memory {
        return false;
      }
      entries[count] := EntryOf(kind, m);
      count := count + 1;
      ok := true;
    }

    /** clear_runtime_calendars and clear_runtime_clocks. */
    method Clear()
      requires Valid()
      modifies this
      ensures Valid() && Contents() == [] && fresh(entries)
    {
      entries := new Entry[0];
      count := 0;
    }

    /** One kind of the initialisation: the whole accepted scan, or after any failure nothing. */
    method Install(found: seq<Metadata>, memory: seq<bool>, scanned: bool) returns (ok: bool)
      requires Valid() && Contents() == [] && |memory| == |found|
      modifies this, entries
      ensures Valid() && (entries == old(entries) || fresh(entries)) && Builtin() == old(Builtin())
      ensures Contents() == if ok then Accepted(kind, Builtin(), found) else []
      ensures ok ==> scanned
      ensures scanned && (forall i :: 0 <= i < |memory| ==> memory[i]) && 8 + 2 * |found| <= Limit() ==> ok
    {
      hide Limit;
      var i := 0;
      while i < |found|
        invariant i <= |found|
        invariant Valid() && (entries == old(entries) || fresh(entries)) && Builtin() == old(Builtin())
        invariant Contents() == Accepted(kind, Builtin(), found[..i]) && count <= i
      {
        AcceptedNext(kind, Builtin(), found, i);
        var appended := Append(found[i], memory[i]);
        if !appended {
          Clear();
          return false;
        }
        i := i + 1;
      }
      assert found[..i] == found;
      if !scanned {
        Clear();
        return false;
      }
      ok := true;
    }

    method Count() returns (n: nat)
      requires Valid()
      ensures n == |Builtin() + Contents()|
    {
      n := builtin.Length + count;
    }

    /** The entry at an index: the built-in ones come first. */
    method At(index: nat) returns (e: Option<Entry>)
      requires Valid()
      ensures e == if index < |Builtin() + Contents()| then Some((Builtin() + Contents())[index]) else None
    {
      if index < builtin.Length {
        return Some(builtin[index]);
      }
      if index - builtin.Length >= count {
        return None;
      }
      e := Some(entries[index - builtin.Length]);
    }

    /** The entry with an identifier: a built-in one wins. */
    method Find(id: string) returns (e: Option<Entry>)
      requires Valid()
      ensures e == FirstWith(Builtin() + Contents(), id)
    {
      FirstWithConcat(Builtin(), Contents(), id);
      assert builtin[..builtin.Length] == builtin[..];
      e := Search(builtin, builtin.Length, id);
      if e.Some? {
        return;
      }
      e := Search(entries, count, id);
    }
  }

  /** After any initialisation, find(at(i).id) is entry i. */
  lemma FindOfAt(kind: Kind, builtin: seq<Entry>, found: seq<Metadata>, ok: bool, i: nat)
    requires DistinctIds(builtin)
    requires i < |builtin + (if ok then Accepted(kind, builtin, found) else [])|
    ensures var all := builtin + (if ok then Accepted(kind, builtin, found) else []);
      DistinctIds(all) && FirstWith(all, all[i].id) == Some(all[i])
  {
    if ok {
      AcceptedDistinct(kind, builtin, found);
    } else {
      assert builtin + [] == builtin;
    }
    FindsItself(builtin + (if ok then Accepted(kind, builtin, found) else []), i);
  }
}
