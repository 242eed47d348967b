/**
  * The SMBIOS structure table: structures of a formatted part and a set of
  * strings, one behind the other (section 6.1 of DMTF DSP0134).
  */
module Smbios {
  import opened Machine
  import opened Bytes
  import opened Seqs

  // ---------- encoding ----------

  predicate NoZero(s: seq<byte>) {
    forall i :: 0 <= i < |s| ==> s[i] != 0
  }

  /** A string of a structure; an empty one cannot be told from the end of the set. */
  predicate Proper(s: seq<byte>) {
    s != [] && NoZero(s)
  }

  predicate AllProper(strings: seq<seq<byte>>) {
    forall i :: 0 <= i < |strings| ==> Proper(strings[i])
  }

  datatype Structure = Structure(kind: byte, handle: seq<byte>, body: seq<byte>, strings: seq<seq<byte>>) {

    function Length(): nat {
      4 + |body|
    }

    predicate Valid() {
      && |handle| == 2 && Length() < 256
      && |strings| < 0xFFFF
      && AllProper(strings)
    }

    function Formatted(): (f: seq<byte>)
      requires Valid()
      ensures |f| == Length() && f[0] == kind && f[1] == Length()
    {
      [kind, Length()] + handle + body
    }

    function Encoded(): (e: seq<byte>)
      requires Valid()
    {
      Formatted() + StringSet(strings)
    }
  }

  /** Strings with their terminators, and one more terminator at the end. */
  function Terminated(strings: seq<seq<byte>>): seq<byte> {
    if strings == [] then [0] else strings[0] + [0] + Terminated(strings[1..])
  }

  function StringSet(strings: seq<seq<byte>>): seq<byte> {
    if strings == [] then [0, 0] else Terminated(strings)
  }

  predicate AllValid(structures: seq<Structure>) {
    forall i :: 0 <= i < |structures| ==> structures[i].Valid()
  }

  function Table(structures: seq<Structure>): seq<byte>
    requires AllValid(structures)
  {
    if structures == [] then [] else structures[0].Encoded() + Table(structures[1..])
  }

  /** Bytes `s` stand in memory at `p`. */
  predicate At(mem: seq<byte>, p: nat, s: seq<byte>) {
    p + |s| <= |mem| && mem[p..p + |s|] == s
  }

  lemma AtParts(mem: seq<byte>, p: nat, s: seq<byte>, t: seq<byte>)
    requires At(mem, p, s + t)
    ensures At(mem, p, s) && At(mem, p + |s|, t)
  {
    ConcatParts(s, t);
    SubSlice(mem, p, s + t, 0, |s|);
    SubSlice(mem, p, s + t, |s|, |s + t|);
  }

  lemma AtByte(mem: seq<byte>, p: nat, s: seq<byte>, k: nat)
    requires At(mem, p, s) && k < |s|
    ensures p + k < |mem| && mem[p + k] == s[k]
  {
    assert mem[p..p + |s|][k] == mem[p + k];
  }

  // ---------- strings of a structure ----------

  /** Where string `n`, counted from one, starts in the set. */
  function StringOffset(strings: seq<seq<byte>>, n: nat): nat
    requires 1 <= n <= |strings|
  {
    if n == 1 then 0 else |strings[0]| + 1 + StringOffset(strings[1..], n - 1)
  }

  /** Skips a string and its terminator. */
  method SkipString(mem: seq<byte>, at: nat, ghost s: seq<byte>) returns (next: nat)
    requires At(mem, at, s + [0]) && NoZero(s)
    ensures next == at + |s| + 1
  {
    next := at;
    while true
      invariant at <= next <= at + |s|
      decreases at + |s| - next
    {
      AtByte(mem, at, s + [0], next - at);
      if mem[next] == 0 {
        break;
      }
      next := next + 1;
    }
    next := next + 1;
  }

  lemma TerminatedHead(strings: seq<seq<byte>>)
    requires AllProper(strings)
    ensures Terminated(strings) != [] && (Terminated(strings)[0] == 0 <==> strings == [])
    ensures strings == [] ==> Terminated(strings) == [0]
    ensures strings != [] ==> Terminated(strings) == StringSet(strings)
  {
  }

  lemma OffsetStep(strings: seq<seq<byte>>, k: nat)
    requires k + 1 < |strings|
    ensures StringOffset(strings, k + 2) == StringOffset(strings, k + 1) + |strings[k]| + 1
  {
    if k > 0 {
      OffsetStep(strings[1..], k - 1);
    }
  }

  /**
    * String `number` of the structure at `raw`, or null.  A number behind the last
    * string moves `raw` to the next structure.  Number one is returned unseen, so
    * that without strings it is the empty string.
    */
  method GetString(mem: seq<byte>, raw: nat, number: nat, ghost structure: Structure)
    returns (s: Option<nat>, raw': nat)
    requires structure.Valid() && At(mem, raw, structure.Encoded()) && number < 0x1_0000
    ensures number == 0 ==> s == None && raw' == raw
    ensures 1 <= number <= |structure.strings| ==>
      && raw' == raw
      && s == Some(raw + structure.Length() + StringOffset(structure.strings, number))
      && At(mem, s.value, structure.strings[number - 1] + [0])
    ensures number > |structure.strings| && number > 1 ==> s == None && raw' == raw + |structure.Encoded()|
    ensures number == 1 && structure.strings == [] ==>
      s == Some(raw + structure.Length()) && raw' == raw && At(mem, s.value, [0])
  {
    AtParts(mem, raw, structure.Formatted(), StringSet(structure.strings));
    AtByte(mem, raw, structure.Formatted(), 1);
    var next;
    s, next := FindString(mem, raw + mem[raw + 1], number, structure.strings);
    raw' := if next.Some? then next.value else raw;
  }

  /** The walk through the strings: where string `number` starts, or where the set ends. */
  method FindString(mem: seq<byte>, base: nat, number: nat, ghost strings: seq<seq<byte>>)
    returns (s: Option<nat>, next: Option<nat>)
    requires At(mem, base, StringSet(strings)) && AllProper(strings)
    ensures number == 0 ==> s == None && next == None
    ensures 1 <= number <= |strings| ==>
      s == Some(base + StringOffset(strings, number)) && next == None && At(mem, s.value, strings[number - 1] + [0])
    ensures number > |strings| && number > 1 ==> s == None && next == Some(base + |StringSet(strings)|)
    ensures number == 1 && strings == [] ==> s == Some(base) && next == None && At(mem, base, [0])
  {
    hide At, StringSet, Proper;
    var p: nat := base;
    ghost var k := 0;
    assert strings[0..] == strings;
    var index := 1;
    while index <= number
      invariant index == k + 1 && (index <= number || number == 0) && (k == 0 || k < |strings|)
      invariant At(mem, p, StringSet(strings[k..]))
      invariant k < |strings| ==> p == base + StringOffset(strings, k + 1)
      invariant p + |StringSet(strings[k..])| == base + |StringSet(strings)|
    {
      ghost var first, others := FirstString(mem, p, strings[k..]);
      if number == index {
        assert first == [] ==> first + [0] == [0];
        return Some(p), None;
      }
      p := SkipString(mem, p, first);
      AtByte(mem, p, others, 0);
      if mem[p] == 0 {
        p := p + 1;
        return None, Some(p);
      }
      OffsetStep(strings, k);
      assert strings[k..][1..] == strings[k + 1..];
      k := k + 1;
      index := index + 1;
    }
    return None, None;
  }

  /** A set at `p` starts with a string; behind it is the rest of the set or the last terminator. */
  lemma FirstString(mem: seq<byte>, p: nat, strings: seq<seq<byte>>) returns (first: seq<byte>, others: seq<byte>)
    requires At(mem, p, StringSet(strings)) && AllProper(strings)
    ensures NoZero(first) && first == (if strings == [] then [] else strings[0])
    ensures At(mem, p, first + [0]) && At(mem, p + |first| + 1, others)
    ensures others != [] && |first| + 1 + |others| == |StringSet(strings)|
    ensures others[0] == 0 <==> |strings| <= 1
    ensures others[0] == 0 ==> |others| == 1
    ensures |strings| > 1 ==> others == StringSet(strings[1..])
  {
    if strings == [] {
      first, others := [], [0];
      assert [0, 0] == (first + [0]) + others;
    } else {
      first, others := strings[0], Terminated(strings[1..]);
      TerminatedHead(strings[1..]);
    }
    hide At, Terminated;
    AtParts(mem, p, first + [0], others);
  }

  // ---------- the search for the system's identity ----------

  const SYSTEM := 1
  const WITH_UUID := 0x19
  const SERIAL_NUMBER := 7
  const UUID := 8

  /** The record at which the search stops, if it lies in front of `limit` and is new enough. */
  function Search(structures: seq<Structure>, at: nat, limit: nat): Option<(nat, Structure)>
    requires AllValid(structures)
  {
    if structures == [] || at >= limit then None
    else if structures[0].kind == SYSTEM then
      if structures[0].Length() < WITH_UUID then None else Some((at, structures[0]))
    else Search(structures[1..], at + |structures[0].Encoded()|, limit)
  }

  /** The first system record of a table, or the number of structures. */
  function FirstSystem(structures: seq<Structure>): (k: nat)
    ensures k <= |structures| && (k < |structures| ==> structures[k].kind == SYSTEM)
    ensures forall j :: 0 <= j < k ==> structures[j].kind != SYSTEM
  {
    if structures == [] || structures[0].kind == SYSTEM then 0 else 1 + FirstSystem(structures[1..])
  }

  lemma TableStep(structures: seq<Structure>)
    requires AllValid(structures) && structures != []
    ensures AllValid(structures[1..])
    ensures Table(structures) == structures[0].Encoded() + Table(structures[1..])
    ensures |structures[0].Encoded()| >= 6
  {
    TerminatedHead(structures[0].strings);
    if structures[0].strings != [] {
      assert Terminated(structures[0].strings)
          == structures[0].strings[0] + [0] + Terminated(structures[0].strings[1..]);
      assert Proper(structures[0].strings[0]);
    }
  }

  /**
    * In a table whose stated length is its real length, the search finds the first
    * system record exactly when that record has a UUID; a later record that has one
    * does not help, since the search does not move on from the first.
    */
  lemma {:induction false} FindsFirstSystem(structures: seq<Structure>, at: nat)
    requires AllValid(structures)
    ensures var k := FirstSystem(structures);
            Search(structures, at, at + |Table(structures)|)
            == if k < |structures| && structures[k].Length() >= WITH_UUID
               then Some((at + |Table(structures[..k])|, structures[k]))
               else None
  {
    if structures != [] {
      TableStep(structures);
      if structures[0].kind != SYSTEM {
        var rest, k := structures[1..], FirstSystem(structures);
        FindsFirstSystem(rest, at + |structures[0].Encoded()|);
        assert structures[..k][1..] == rest[..k - 1];
      }
    }
  }

  /** A system record without a UUID hides a later one that has it. */
  lemma OldRecordHides() returns (structures: seq<Structure>)
    ensures AllValid(structures) && |structures| == 2
    ensures structures[1].kind == SYSTEM && structures[1].Length() >= WITH_UUID
    ensures Search(structures, 0, |Table(structures)|) == None
  {
    var older := Structure(SYSTEM, [0, 0], [], []);
    var newer := Structure(SYSTEM, [0, 0], Zeros(21), []);
    structures := [older, newer];
  }

  /** What the search hands back: the UUID and the serial number, or nothing. */
  datatype Identity = Untouched | Identity(uuid: seq<byte>, serial: Option<nat>)

  /** The identity that a system record at `at` gives. */
  ghost predicate Identifies(mem: seq<byte>, at: nat, record: Structure, id: Identity)
    requires record.Valid() && record.Length() >= WITH_UUID
  {
    var number := record.Formatted()[SERIAL_NUMBER];
    && id.Identity? && id.uuid == record.Formatted()[UUID..UUID + 16]
    && (id.serial.None? <==> number == 0 || (number > |record.strings| && number > 1))
    && (1 <= number <= |record.strings| ==>
          && id.serial == Some(at + record.Length() + StringOffset(record.strings, number))
          && At(mem, id.serial.value, record.strings[number - 1] + [0]))
    && (number == 1 && record.strings == [] ==>
          id.serial == Some(at + record.Length()) && At(mem, id.serial.value, [0]))
  }

  /** A system record by its fields (section 7.2 of DMTF DSP0134). */
  datatype SystemRecord = SystemRecord(handle: seq<byte>, manufacturer: byte, productName: byte, version: byte,
                                       serialNumber: byte, uuid: seq<byte>, wakeUpType: byte, more: seq<byte>,
                                       strings: seq<seq<byte>>) {
    function Record(): Structure {
      Structure(1, handle, [manufacturer, productName, version, serialNumber] + uuid + [wakeUpType] + more, strings)
    }
  }

  /**
    * A record with all its fields is found, its UUID is the field of that name, and its
    * serial number the string that the field of that name gives the number of.
    */
  lemma IdentityByFields(mem: seq<byte>, at: nat, r: SystemRecord, id: Identity)
    requires |r.uuid| == 16 && r.Record().Valid()
    ensures r.Record().kind == SYSTEM && r.Record().Length() >= WITH_UUID
    ensures Identifies(mem, at, r.Record(), id) ==>
      && id.Identity? && id.uuid == r.uuid
      && (id.serial.None? <==> r.serialNumber == 0 || (r.serialNumber > |r.strings| && r.serialNumber > 1))
      && (1 <= r.serialNumber <= |r.strings| ==>
            id.serial.Some? && At(mem, id.serial.value, r.strings[r.serialNumber - 1] + [0]))
  {
    hide At, AllProper, StringSet;
    var f := r.Record().Formatted();
    var front := [1, r.Record().Length()] + r.handle;
    assert f == front + ([r.manufacturer, r.productName, r.version, r.serialNumber] + r.uuid + [r.wakeUpType] + r.more);
    assert f[7] == r.serialNumber;
    assert f[8..24] == r.uuid;
  }

  /** The record of version 2.0, without a UUID, is too short. */
  lemma OldRecordIsShort(handle: seq<byte>, strings: seq<seq<byte>>, a: byte, b: byte, c: byte, d: byte)
    ensures Structure(1, handle, [a, b, c, d], strings).Length() < WITH_UUID
  {
  }

  /**
    * Looks for the system record in a table of `limit` bytes.  An old record is
    * looked at again and again until the counter has run out.
    */
  method GetSystemGuidAndSerialNumber(mem: seq<byte>, limit: nat, ghost structures: seq<Structure>)
    returns (id: Identity)
    requires AllValid(structures) && At(mem, 0, Table(structures)) && limit <= |Table(structures)| && limit < 0x1_0000
    ensures id.Identity? <==> Search(structures, 0, limit).Some?
    ensures id.Identity? ==> var (at, record) := Search(structures, 0, limit).value;
                             record.Valid() && record.Length() >= WITH_UUID && Identifies(mem, at, record, id)
  {
    hide At, Table, Search, AllValid, Identifies;
    var raw: nat := 0;
    ghost var rest := structures;
    var index := 0;
    if limit > 0 {
      NotEmpty(structures);
    } else {
      SearchNowhere(structures, 0, limit);
    }
    while index < limit
      invariant index <= limit && AllValid(rest) && At(mem, raw, Table(rest))
      invariant raw + |Table(rest)| == |Table(structures)|
      invariant Search(rest, raw, limit) == Search(structures, 0, limit)
      invariant limit == 0 || (rest != [] && raw < limit)
      invariant index <= raw || Search(rest, raw, limit) == None
    {
      TableStep(rest);
      SearchStep(rest, raw, limit);
      ghost var record := rest[0];
      AtParts(mem, raw, record.Encoded(), Table(rest[1..]));
      HeaderAt(mem, raw, record);
      if mem[raw] == SYSTEM {
        if mem[raw + 1] < WITH_UUID {
          index := index + 1;
          continue;
        }
        id := ReadIdentity(mem, raw, record);
        return;
      }
      var _, next := GetString(mem, raw, 0xFFFF, record);
      raw := next;
      rest := rest[1..];
      if raw >= limit {
        SearchNowhere(rest, raw, limit);
        return Untouched;
      }
      NotEmpty(rest);
      index := index + 1;
    }
    return Untouched;
  }

  lemma NotEmpty(structures: seq<Structure>)
    requires AllValid(structures) && |Table(structures)| > 0
    ensures structures != []
  {
  }

  lemma SearchNowhere(structures: seq<Structure>, at: nat, limit: nat)
    requires AllValid(structures) && at >= limit
    ensures Search(structures, at, limit) == None
  {
  }

  lemma SearchStep(structures: seq<Structure>, at: nat, limit: nat)
    requires AllValid(structures) && structures != [] && at < limit
    ensures structures[0].Valid() && AllValid(structures[1..])
    ensures structures[0].kind == SYSTEM && structures[0].Length() < WITH_UUID ==> Search(structures, at, limit) == None
    ensures structures[0].kind == SYSTEM && structures[0].Length() >= WITH_UUID ==>
      Search(structures, at, limit) == Some((at, structures[0]))
    ensures structures[0].kind != SYSTEM ==>
      Search(structures, at, limit) == Search(structures[1..], at + |structures[0].Encoded()|, limit)
  {
  }

  lemma HeaderAt(mem: seq<byte>, raw: nat, record: Structure)
    requires record.Valid() && At(mem, raw, record.Encoded())
    ensures raw + record.Length() <= |mem| && mem[raw..raw + record.Length()] == record.Formatted()
    ensures mem[raw] == record.kind && mem[raw + 1] == record.Length()
  {
    AtParts(mem, raw, record.Formatted(), StringSet(record.strings));
    AtByte(mem, raw, record.Formatted(), 0);
    AtByte(mem, raw, record.Formatted(), 1);
  }

  method ReadIdentity(mem: seq<byte>, raw: nat, ghost record: Structure) returns (id: Identity)
    requires record.Valid() && record.Length() >= WITH_UUID && At(mem, raw, record.Encoded())
    ensures id.Identity? && Identifies(mem, raw, record, id)
  {
    HeaderAt(mem, raw, record);
    SubSlice(mem, raw, record.Formatted(), UUID, UUID + 16);
    assert mem[raw..raw + record.Length()][SERIAL_NUMBER] == mem[raw + SERIAL_NUMBER];
    hide At, StringSet;
    var uuid := mem[raw + UUID..raw + UUID + 16];
    var serial, _ := GetString(mem, raw, mem[raw + SERIAL_NUMBER], record);
    id := Identity(uuid, serial);
  }
}
