/** `main` of vita-mksfoex.c: the table of options in its array, and the three buffers of the file. */
module SfoWriter {
  import opened Sfo
  import opened SfoTable
  import opened Wrappers
  import E = ExportYaml

  /** The named entries at the start of the table. */
  function Named(s: seq<Option<Entry>>): (es: seq<Entry>)
    ensures |es| <= |s| && forall i :: 0 <= i < |es| ==> s[i] == Some(es[i])
    ensures |es| < |s| ==> s[|es|].None?
  {
    if s == [] || s[0].None? then [] else [s[0].value] + Named(s[1..])
  }

  lemma NamedIs(s: seq<Option<Entry>>, es: seq<Entry>)
    requires |es| <= |s| && (forall i :: 0 <= i < |es| ==> s[i] == Some(es[i])) && (|es| < |s| ==> s[|es|].None?)
    ensures Named(s) == es
  {
    var n := Named(s);
    assert !(|n| < |es|) && !(|es| < |n|);
  }

  function Behind(before: string, r: Option<(string, string)>): Option<(string, string)> {
    if r.None? then None else Some((before + r.value.0, r.value.1))
  }

  lemma BehindOne(s: string, i: nat)
    requires i < |s| && s[i] != '='
    ensures Behind(s[..i], SplitEquals(s[i..])) == Behind(s[..i + 1], SplitEquals(s[i + 1..]))
  {
    assert s[i..][1..] == s[i + 1..];
    var t := SplitEquals(s[i + 1..]);
    assert t.Some? ==> s[..i] + ([s[i]] + t.value.0) == s[..i + 1] + t.value.0;
  }

  /** `g_vals`; an entry without a name is free. */
  class Table {
    const vals: array<Option<Entry>>

    ghost predicate Valid()
      reads this, vals
    {
      vals.Length == MAX_OPTIONS && forall i :: |View()| <= i < MAX_OPTIONS ==> vals[i].None?
    }

    function View(): seq<Entry>
      reads this, vals
    {
      Named(vals[..])
    }

    constructor ()
      ensures Valid() && View() == [] && fresh(vals)
    {
      vals := new Option<Entry>[MAX_OPTIONS](_ => None);
    }

    /** `find_free`. */
    method FindFree() returns (i: nat)
      requires Valid()
      ensures i == |View()|
    {
      i := 0;
      while i < MAX_OPTIONS && vals[i].Some?
        invariant i <= |View()|
      {
        i := i + 1;
      }
    }

    /** `find_name`. */
    method FindName(name: string) returns (i: nat)
      requires Valid()
      ensures i == if Find(View(), name) < |View()| then Find(View(), name) else MAX_OPTIONS
    {
      i := 0;
      while i < MAX_OPTIONS
        invariant i <= MAX_OPTIONS && forall j :: 0 <= j < i && j < |View()| ==> View()[j].name != name
      {
        if vals[i].Some? && vals[i].value.name == name {
          FindIs(View(), name, i);
          return;
        }
        i := i + 1;
      }
      FindIs(View(), name, |View()|);
    }

    /** One entry of the table is overwritten, or the first free one is taken. */
    method Put(i: nat, e: Entry)
      requires Valid() && i <= |View()| && i < MAX_OPTIONS
      modifies vals
      ensures Valid() && View() == if i < |old(View())| then old(View())[i := e] else old(View()) + [e]
    {
      ghost var es := if i < |View()| then View()[i := e] else View() + [e];
      vals[i] := Some(e);
      NamedIs(vals[..], es);
    }

    /** The new entry for a name that is not there; false when the table is full. */
    method Add(e: Entry) returns (ok: bool)
      requires Valid()
      modifies vals
      ensures Valid() && ok == (|old(View())| < MAX_OPTIONS)
      ensures View() == if ok then old(View()) + [e] else old(View())
    {
      var i := FindFree();
      if i == MAX_OPTIONS {
        return false;
      }
      Put(i, e);
      ok := true;
    }

    /** `strchr(str, '=')`, and the string cut there. */
    method Split(s: string) returns (r: Option<(string, string)>)
      ensures r == SplitEquals(s)
    {
      var i := 0;
      assert s[0..] == s && (SplitEquals(s).Some? ==> s[..0] + SplitEquals(s).value.0 == SplitEquals(s).value.0);
      while i < |s| && s[i] != '='
        invariant i <= |s|
        invariant SplitEquals(s) == Behind(s[..i], SplitEquals(s[i..]))
      {
        assert s[i..][1..] == s[i + 1..];
        BehindOne(s, i);
        i := i + 1;
      }
      if i == |s| {
        assert s[i..] == "";
        return None;
      }
      assert s[i..][1..] == s[i + 1..] && s[..i] + "" == s[..i];
      r := Some((s[..i], s[i + 1..]));
    }

    /** `add_string`. */
    method AddString(arg: string) returns (ok: bool)
      requires Valid()
      modifies vals
      ensures Valid()
      ensures var r := WithSetting(old(View()), TextArg(arg));
        ok == (r.Some? && |r.value| <= MAX_OPTIONS) && View() == if ok then r.value else old(View())
    {
      var p := Split(arg);
      if p.None? {
        return false;
      }
      var i := FindName(p.value.0);
      if i < MAX_OPTIONS {
        Put(i, vals[i].value.(data := Some(p.value.1)));
        ok := true;
      } else {
        ok := Add(Entry(p.value.0, STR, 0, Some(p.value.1)));
      }
    }

    /** `add_dword`. */
    method AddDword(arg: string) returns (ok: bool)
      requires Valid()
      modifies vals
      ensures Valid()
      ensures var r := WithSetting(old(View()), NumberArg(arg));
        ok == (r.Some? && |r.value| <= MAX_OPTIONS) && View() == if ok then r.value else old(View())
    {
      var p := Split(arg);
      if p.None? {
        return false;
      }
      var value := E.StrToUl(p.value.1).0;
      var i := FindName(p.value.0);
      if i < MAX_OPTIONS {
        Put(i, vals[i].value.(value := value));
        ok := true;
      } else {
        ok := Add(Entry(p.value.0, VAL, value, None));
      }
    }

    /** One default, unless its name is there; false when the table is full. */
    method AddDefault(e: Entry) returns (ok: bool)
      requires Valid()
      modifies vals
      ensures Valid() && ok == (|WithDefault(old(View()), e)| <= MAX_OPTIONS)
      ensures ok ==> View() == WithDefault(old(View()), e)
    {
      var i := FindName(e.name);
      if i == MAX_OPTIONS {
        ok := Add(e);
      } else {
        ok := true;
      }
    }

    /** The default entries, or the titles, in order. */
    method AddDefaults(ds: seq<Entry>) returns (ok: bool)
      requires Valid()
      modifies vals
      ensures Valid() && ok == (|WithDefaults(old(View()), ds)| <= MAX_OPTIONS)
      ensures ok ==> View() == WithDefaults(old(View()), ds)
    {
      var k := 0;
      assert ds[0..] == ds;
      hide *;
      TableHolds(this);
      while k < |ds|
        invariant k <= |ds| && Valid() && WithDefaults(View(), ds[k..]) == WithDefaults(old(View()), ds)
        invariant |View()| <= MAX_OPTIONS
      {
        DefaultsFirst(View(), ds[k..]);
        assert ds[k..][1..] == ds[k + 1..];
        OnlyGrows(WithDefault(View(), ds[k]), ds[k + 1..]);
        ok := AddDefault(ds[k]);
        if !ok {
          return;
        }
        k := k + 1;
      }
      DefaultsNone(View(), ds[k..]);
      ok := true;
    }

    /** `sortkeys`; `qsort` leaves the one ascending order of distinct names. */
    method SortKeys()
      requires Valid() && Unique(View())
      modifies vals
      ensures Valid() && View() == Sort(old(View())) && Ascending(View())
    {
      var count := 0;
      while count < MAX_OPTIONS && vals[count].Some?
        invariant count <= |View()|
      {
        count := count + 1;
      }
      ghost var es := View();
      SortSorts(es);
      Qsort(count);
      NamedIs(vals[..], Sort(es));
    }

    method Qsort(count: nat)
      requires Valid() && count == |View()|
      modifies vals
      ensures |Sort(old(View()))| == count <= vals.Length
      ensures forall i :: 0 <= i < count ==> vals[i] == Some(Sort(old(View()))[i])
      ensures forall i :: count <= i < vals.Length ==> vals[i] == old(vals[i])
    {
      var sorted := Sort(View());
      SortSorts(View());
      forall i | 0 <= i < count {
        vals[i] := Some(sorted[i]);
      }
    }
  }

  lemma DefaultsFirst(es: seq<Entry>, ds: seq<Entry>)
    requires ds != []
    ensures WithDefaults(es, ds) == WithDefaults(WithDefault(es, ds[0]), ds[1..])
  {
  }

  lemma DefaultsNone(es: seq<Entry>, ds: seq<Entry>)
    requires ds == []
    ensures WithDefaults(es, ds) == es
  {
  }

  lemma {:induction false} OnlyGrows(es: seq<Entry>, ds: seq<Entry>)
    ensures |WithDefaults(es, ds)| >= |es|
    decreases ds
  {
    if ds != [] {
      OnlyGrows(WithDefault(es, ds[0]), ds[1..]);
    }
  }

  // ---- the layout ----

  /** `strcpy` and `memcpy`. */
  method CopyInto(a: array<char>, at: nat, s: string)
    requires at + |s| <= a.Length
    modifies a
    ensures a[..] == Store(old(a[..]), at, s)
  {
    var i := 0;
    while i < |s|
      invariant i <= |s|
      invariant forall j :: 0 <= j < a.Length ==> a[j] == if at <= j < at + i then s[j - at] else old(a[j])
    {
      a[at + i] := s[i];
      i := i + 1;
    }
    StoreIs(old(a[..]), at, s, a[..]);
  }

  lemma StoreBytes(b: string, at: nat, s: string)
    requires at + |s| <= |b|
    ensures forall i :: 0 <= i < |b| ==> Store(b, at, s)[i] == if at <= i < at + |s| then s[i - at] else b[i]
  {
  }

  /** `struct SfoEntry`, field by field in the order of the assignments. */
  method PutRecord(head: array<char>, e: nat, nameOffset: nat, entry: Entry, dataOffset: nat)
    requires e + 16 <= head.Length
    modifies head
    ensures head[..] == Store(old(head[..]), e, Record(nameOffset, entry, dataOffset))
  {
    ghost var was := head[..];
    hide *;
    CopyInto(head, e, Half(nameOffset));
    CopyInto(head, e + 12, Word(dataOffset));
    head[e + 2] := Byte(4);
    head[e + 3] := Byte(entry.kind);
    CopyInto(head, e + 4, Word(Length(entry)));
    CopyInto(head, e + 8, Word(Room(entry)));
    RecordStored(was, e, nameOffset, entry, dataOffset);
  }

  lemma RecordStored(was: string, e: nat, nameOffset: nat, entry: Entry, dataOffset: nat)
    requires e + 16 <= |was|
    ensures var mid := Store(Store(was, e, Half(nameOffset)), e + 12, Word(dataOffset))[e + 2 := Byte(4)][e + 3 := Byte(entry.kind)];
      Store(Store(mid, e + 4, Word(Length(entry))), e + 8, Word(Room(entry))) == Store(was, e, Record(nameOffset, entry, dataOffset))
  {
    var h, d, l, r := Half(nameOffset), Word(dataOffset), Word(Length(entry)), Word(Room(entry));
    RecordBytes(nameOffset, entry, dataOffset);
    StoreBytes(was, e, h);
    StoreBytes(Store(was, e, h), e + 12, d);
    var mid := Store(Store(was, e, h), e + 12, d)[e + 2 := Byte(4)][e + 3 := Byte(entry.kind)];
    StoreBytes(mid, e + 4, l);
    StoreBytes(Store(mid, e + 4, l), e + 8, r);
    hide *;
    StoreIs(was, e, Record(nameOffset, entry, dataOffset), Store(Store(mid, e + 4, l), e + 8, r));
  }

  lemma RecordBytes(nameOffset: nat, e: Entry, dataOffset: nat)
    ensures var r := Record(nameOffset, e, dataOffset);
      && (forall j :: 0 <= j < 2 ==> r[j] == Half(nameOffset)[j]) && r[2] == Byte(4) && r[3] == Byte(e.kind)
      && (forall j :: 4 <= j < 8 ==> r[j] == Word(Length(e))[j - 4])
      && (forall j :: 8 <= j < 12 ==> r[j] == Word(Room(e))[j - 8])
      && (forall j :: 12 <= j < 16 ==> r[j] == Word(dataOffset)[j - 12])
  {
    hide Half, Word, Length, Room, Byte;
  }

  lemma StoreIs(b: string, at: nat, s: string, r: string)
    requires at + |s| <= |b| == |r|
    requires forall i :: 0 <= i < |b| ==> r[i] == if at <= i < at + |s| then s[i - at] else b[i]
    ensures r == Store(b, at, s)
  {
    assert r[..at] == b[..at] && r[at..at + |s|] == s && r[at + |s|..] == b[at + |s|..];
    assert r == r[..at] + r[at..at + |s|] + r[at + |s|..];
  }

  /** The rounding loop: a 32-bit counter that starts at 3 when nothing is missing, and that wraps
      below zero when enough bytes have been added. */
  method AlignKeys(used: nat) returns (k: nat)
    ensures k == RoundUp(used)
  {
    k := used;
    var align := 3 - used % 4;
    while align < 3
      invariant 0 <= align
      invariant align < 3 ==> k + align + 1 == RoundUp(used)
      invariant align >= 3 ==> k == RoundUp(used)
      decreases if align < 3 then align + 1 else 0
    {
      k := k + 1;
      align := if align == 0 then 0xFFFF_FFFF else align - 1;
    }
  }

  /** The header fields that are known while the entries are written, and the records so far. */
  ghost predicate HeadHolds(head: string, es: seq<Entry>) {
    && |head| == BUFFER && 20 + 16 * |es| <= BUFFER
    && head[..4] == Word(0x46535000) && head[4..8] == Word(0x101) && head[16..20] == Word(|es|)
    && head[20..20 + 16 * |es|] == Index(es)
  }

  /** The value of an entry goes into the data buffer. */
  method PutValue(data: array<char>, d: nat, entry: Entry) returns (d': nat)
    requires d + Length(entry) <= data.Length && d + Room(entry) <= data.Length
    modifies data
    ensures data[..] == Fill(old(data[..]), d, entry) && d' == d + Room(entry)
  {
    if entry.kind == VAL {
      CopyInto(data, d, Word(entry.value));
      d' := d + 4;
    } else {
      var valsize := 0;
      if entry.data.Some? {
        valsize := |entry.data.value| + 1;
      }
      var totalsize := if entry.value != 0 then entry.value else (valsize + 3) / 4 * 4;
      CopyInto(data, d, Zeros(totalsize));
      if entry.data.Some? {
        CopyInto(data, d, entry.data.value + "\0");
      }
      d' := d + totalsize;
    }
  }

  lemma HeadGrows(head: string, head': string, es: seq<Entry>, e: Entry)
    requires HeadHolds(head, es) && 20 + 16 * |es| + 16 <= BUFFER
    requires head' == Store(Store(head, 16, Word(|es| + 1)), 20 + 16 * |es|, Record(|Keys(es)|, e, Rooms(es)))
    ensures HeadHolds(head', es + [e])
  {
    var all, at, record := es + [e], 20 + 16 * |es|, Record(|Keys(es)|, e, Rooms(es));
    assert all[..|es|] == es && Index(all) == Index(es) + record;
    assert |record| == 16 && |Word(|es| + 1)| == 4;
    var mid := Store(head, 16, Word(|es| + 1));
    hide *;
    Elsewhere(head, 16, Word(|es| + 1), 0, 4);
    Elsewhere(head, 16, Word(|es| + 1), 4, 8);
    Elsewhere(head, 16, Word(|es| + 1), 20, at);
    Elsewhere(mid, at, record, 0, 4);
    Elsewhere(mid, at, record, 4, 8);
    Elsewhere(mid, at, record, 16, 20);
    Elsewhere(mid, at, record, 20, at);
    Joined(head', 20, at, at + 16);
    HeadFrom(head, head', es, all);
  }

  lemma Elsewhere(b: string, at: nat, s: string, from: nat, to: nat)
    requires at + |s| <= |b| && from <= to <= |b| && (to <= at || at + |s| <= from)
    ensures Store(b, at, s)[from..to] == b[from..to]
  {
  }

  lemma Joined(s: string, a: nat, b: nat, c: nat)
    requires a <= b <= c <= |s|
    ensures s[a..c] == s[a..b] + s[b..c]
  {
  }

  lemma HeadFrom(head: string, head': string, es: seq<Entry>, all: seq<Entry>)
    requires HeadHolds(head, es) && |head'| == BUFFER && 20 + 16 * |all| <= BUFFER
    requires head'[0..4] == head[0..4] && head'[4..8] == head[4..8] && head'[16..20] == Word(|all|)
    requires head'[20..20 + 16 * |all|] == Index(all)
    ensures HeadHolds(head', all)
  {
    hide Word, Index;
    assert head'[..4] == head'[0..4] && head[..4] == head[0..4];
  }

  lemma OneMoreEntry(es: seq<Entry>, e: Entry)
    requires InBuffers(es) && InBuffers(es + [e])
    ensures var all := es + [e];
      && 20 + 16 * |es| + 16 <= BUFFER && Keys(all) == Keys(es) + e.name + "\0" && |Keys(all)| <= BUFFER && |all| == |es| + 1
      && Rooms(all) == Rooms(es) + Room(e) && Fitting(es) && Fitting(all)
      && Rooms(es) + Length(e) <= BUFFER && Rooms(es) + Room(e) <= BUFFER
      && DataBuffer(all) == Fill(DataBuffer(es), Rooms(es), e)
  {
    assert (es + [e])[..|es|] == es;
  }

  /** A name behind the names; the rest of the buffer stays zero. */
  lemma NameStored(keys: string, name: string, k: nat)
    requires k == |keys| && k + |name| + 1 <= BUFFER
    ensures Store(keys + Zeros(BUFFER - k), k, name + "\0") == keys + name + "\0" + Zeros(BUFFER - k - |name| - 1)
  {
    var b, n := keys + Zeros(BUFFER - k), k + |name| + 1;
    assert b[..k] == keys && b[n..] == Zeros(BUFFER - n);
  }

  method PutHead(head: array<char>, e: nat, k: nat, d: nat, count: nat, entry: Entry, ghost es: seq<Entry>)
    requires head.Length == BUFFER && HeadHolds(head[..], es) && e + 16 <= BUFFER
    requires count == |es| && e == 20 + 16 * count && k == |Keys(es)| && d == Rooms(es)
    modifies head
    ensures HeadHolds(head[..], es + [entry])
  {
    hide *;
    ghost var was := head[..];
    CopyInto(head, 16, Word(count + 1));
    PutRecord(head, e, k, entry, d);
    HeadGrows(was, head[..], es, entry);
  }

  method PutName(keys: array<char>, k: nat, name: string, ghost names: string) returns (k': nat)
    requires keys.Length == BUFFER && k == |names| && k + |name| + 1 <= BUFFER
    requires keys[..] == names + Zeros(BUFFER - k)
    modifies keys
    ensures k' == k + |name| + 1 && keys[..] == names + name + "\0" + Zeros(BUFFER - k')
  {
    NameStored(names, name, k);
    CopyInto(keys, k, name + "\0");
    k' := k + |name| + 1;
  }

  /** One turn of the layout loop: `e`, `k` and `d` move behind what the entry took. */
  method PutEntry(head: array<char>, keys: array<char>, data: array<char>, e: nat, k: nat, d: nat, count: nat,
        entry: Entry, ghost es: seq<Entry>)
    returns (e': nat, k': nat, d': nat)
    requires head.Length == keys.Length == data.Length == BUFFER && head != keys && head != data && keys != data
    requires count == |es| && e == 20 + 16 * count && k == |Keys(es)| && d == Rooms(es)
    requires InBuffers(es) && InBuffers(es + [entry])
    requires HeadHolds(head[..], es) && keys[..] == Keys(es) + Zeros(BUFFER - k) && data[..] == DataBuffer(es)
    modifies head, keys, data
    ensures var all := es + [entry];
      && e' == 20 + 16 * |all| && k' == |Keys(all)| <= BUFFER && d' == Rooms(all)
      && HeadHolds(head[..], all) && keys[..] == Keys(all) + Zeros(BUFFER - k') && data[..] == DataBuffer(all)
  {
    ghost var all := es + [entry];
    OneMoreEntry(es, entry);
    hide *;
    PutHead(head, e, k, d, count, entry, es);
    k' := PutName(keys, k, entry.name, Keys(es));
    d' := PutValue(data, d, entry);
    e' := e + 16;
  }

  /** The three cleared buffers, and the two constants of the header. */
  method Blank() returns (head: array<char>, keys: array<char>, data: array<char>)
    ensures fresh(head) && fresh(keys) && fresh(data) && head != keys && head != data && keys != data
    ensures keys.Length == data.Length == BUFFER && HeadHolds(head[..], [])
    ensures keys[..] == Keys([]) + Zeros(BUFFER) && data[..] == DataBuffer([])
  {
    head := new char[BUFFER](_ => '\0');
    keys := new char[BUFFER](_ => '\0');
    data := new char[BUFFER](_ => '\0');
    CopyInto(head, 0, Word(0x46535000));
    CopyInto(head, 4, Word(0x101));
    Nothing(head[..], keys[..], data[..]);
  }

  /** The layout loop: the three buffers hold the index, the names and the values of the table. */
  method LayOut(table: Table) returns (head: array<char>, keys: array<char>, data: array<char>, e: nat, k: nat, d: nat)
    requires table.Valid() && |table.View()| < MAX_OPTIONS && InBuffers(table.View())
    ensures fresh(head) && fresh(keys) && fresh(data) && head != keys && head != data && keys != data
    ensures keys.Length == data.Length == BUFFER && HeadHolds(head[..], table.View())
    ensures var es := table.View();
      && e == 20 + 16 * |es| && k == |Keys(es)| <= BUFFER && d == Rooms(es) && Fitting(es)
      && keys[..] == Keys(es) + Zeros(BUFFER - k) && data[..] == DataBuffer(es)
  {
    hide HeadHolds, InBuffers, Fitting, Keys, Rooms, DataBuffer, Zeros;
    ghost var es := table.View();
    head, keys, data := Blank();
    e, k, d := 20, 0, 0;
    NoEntries();
    assert es[..0] == [];
    var i := 0;
    while table.vals[i].Some?
      invariant i <= |es| && table.View() == es && table.Valid()
      invariant fresh(head) && fresh(keys) && fresh(data)
      invariant e == 20 + 16 * i && k == |Keys(es[..i])| <= BUFFER && d == Rooms(es[..i]) && Fitting(es[..i])
      invariant HeadHolds(head[..], es[..i]) && keys[..] == Keys(es[..i]) + Zeros(BUFFER - k) && data[..] == DataBuffer(es[..i])
      decreases |es| - i
    {
      assert i < |es| && table.vals[i].value == es[i];
      TakeMore(es, i);
      e, k, d := PutEntry(head, keys, data, e, k, d, i, table.vals[i].value, es[..i]);
      i := i + 1;
    }
    assert es[..i] == es;
  }

  lemma NoEntries()
    ensures Keys([]) == "" && Rooms([]) == 0 && Fitting([])
  {
  }

  lemma TakeMore(es: seq<Entry>, i: nat)
    requires i < |es| && InBuffers(es)
    ensures es[..i] + [es[i]] == es[..i + 1] && InBuffers(es[..i]) && InBuffers(es[..i + 1])
  {
    RoomsGrow(es, i);
    RoomsGrow(es, i + 1);
    KeysGrow(es, i);
    KeysGrow(es, i + 1);
  }

  lemma Nothing(head: string, keys: string, data: string)
    requires |head| == |keys| == |data| == BUFFER
    requires head[..4] == Word(0x46535000) && head[4..8] == Word(0x101) && forall i :: 8 <= i < BUFFER ==> head[i] == '\0'
    requires forall i :: 0 <= i < BUFFER ==> keys[i] == '\0' && data[i] == '\0'
    ensures HeadHolds(head, []) && keys == Keys([]) + Zeros(BUFFER) && data == DataBuffer([])
  {
    assert head[16..20] == Word(0);
    assert Keys([]) == "" && Index([]) == "" && DataBuffer([]) == Zeros(BUFFER);
    assert keys == Zeros(BUFFER) && data == Zeros(BUFFER);
  }

  /** The finished header and the records, as the first part of the file. */
  lemma HeadDone(head: string, es: seq<Entry>, v: nat)
    requires HeadHolds(head, es) && v == RoundUp(|Keys(es)|)
    ensures var e := 20 + 16 * |es|;
      Store(Store(head, 8, Word(e)), 12, Word(e + v))[..e] == Header(es) + Index(es)
  {
    hide *;
    var e := 20 + 16 * |es|;
    var a, b := Word(e), Word(e + v);
    HeadParts(head, es);
    TwoWords(head, e, a, b);
    SixParts(Store(Store(head, 8, a), 12, b), e, Word(0x46535000), Word(0x101), a, b, Word(|es|), Index(es));
    HeaderParts(es);
  }

  lemma HeaderParts(es: seq<Entry>)
    ensures var e := 20 + 16 * |es|;
      Header(es) == Word(0x46535000) + Word(0x101) + Word(e) + Word(e + RoundUp(|Keys(es)|)) + Word(|es|)
  {
    hide Word, Keys, RoundUp;
  }

  lemma TwoWords(head: string, e: nat, a: string, b: string)
    requires |a| == |b| == 4 && 20 <= e <= |head|
    ensures var done := Store(Store(head, 8, a), 12, b);
      && done[0..4] == head[0..4] && done[4..8] == head[4..8] && done[8..12] == a && done[12..16] == b
      && done[16..20] == head[16..20] && done[20..e] == head[20..e]
  {
    StoreBytes(head, 8, a);
    StoreBytes(Store(head, 8, a), 12, b);
    hide Store;
  }

  lemma HeadParts(head: string, es: seq<Entry>)
    requires HeadHolds(head, es)
    ensures |head| == BUFFER && 20 + 16 * |es| <= BUFFER == 8192
    ensures head[0..4] == Word(0x46535000) && head[4..8] == Word(0x101) && head[16..20] == Word(|es|)
    ensures head[20..20 + 16 * |es|] == Index(es)
  {
    hide Word, Index;
    assert head[..4] == head[0..4];
  }

  lemma SixParts(s: string, e: nat, a: string, b: string, c: string, d: string, f: string, g: string)
    requires 20 <= e <= |s| && s[0..4] == a && s[4..8] == b && s[8..12] == c && s[12..16] == d && s[16..20] == f && s[20..e] == g
    ensures s[..e] == a + b + c + d + f + g
  {
    assert s[..e] == s[0..4] + s[4..8] + s[8..12] + s[12..16] + s[16..20] + s[20..e];
  }

  /** The names with their padding, and the slots. */
  lemma RestDone(keys: string, data: string, es: seq<Entry>)
    requires InBuffers(es) && keys == Keys(es) + Zeros(BUFFER - |Keys(es)|) && data == DataBuffer(es)
    ensures var k := RoundUp(|Keys(es)|);
      k <= BUFFER && keys[..k] + data[..Rooms(es)] == Keys(es) + Zeros(k - |Keys(es)|) + DataBuffer(es)[..Rooms(es)]
  {
    hide Keys, DataBuffer, Rooms, Fitting;
    var k := RoundUp(|Keys(es)|);
    assert keys[..k] == Keys(es) + Zeros(k - |Keys(es)|);
  }

  lemma FileParts(es: seq<Entry>)
    requires InBuffers(es)
    ensures |Keys(es)| <= RoundUp(|Keys(es)|)
    ensures File(es) == (Header(es) + Index(es)) + (Keys(es) + Zeros(RoundUp(|Keys(es)|) - |Keys(es)|) + DataBuffer(es)[..Rooms(es)])
  {
    hide Header, Index, Keys, Zeros, DataBuffer, Rooms, Fitting;
  }

  /** The offsets go into the header, the names are padded, and what is used of the three buffers is
      written one behind the other. */
  method WriteFile(table: Table) returns (file: string)
    requires table.Valid() && |table.View()| < MAX_OPTIONS && InBuffers(table.View())
    ensures file == File(table.View())
  {
    hide *;
    ghost var es := table.View();
    var head, keys, data, e, k, d := LayOut(table);
    Assembled(head[..], keys[..], data[..], es);
    CopyInto(head, 8, Word(e));
    var k' := AlignKeys(k);
    CopyInto(head, 12, Word(e + k'));
    file := head[..][..e] + (keys[..][..k'] + data[..][..d]);
  }

  lemma Assembled(head: string, keys: string, data: string, es: seq<Entry>)
    requires InBuffers(es) && HeadHolds(head, es)
    requires keys == Keys(es) + Zeros(BUFFER - |Keys(es)|) && data == DataBuffer(es)
    ensures var e, k := 20 + 16 * |es|, RoundUp(|Keys(es)|);
      && 20 <= e <= |head| && k <= |keys| && Rooms(es) <= |data|
      && Store(Store(head, 8, Word(e)), 12, Word(e + k))[..e] + (keys[..k] + data[..Rooms(es)]) == File(es)
  {
    hide *;
    BuffersFit(es);
    HeadDone(head, es, RoundUp(|Keys(es)|));
    HeadParts(head, es);
    RestDone(keys, data, es);
    FileParts(es);
  }

  // ---- a run of the program ----

  ghost function Settings(es: seq<Entry>, os: seq<Setting>): Option<seq<Entry>>
    decreases os
  {
    if os == [] then Some(es)
    else
      var r := WithSetting(es, os[0]);
      if r.None? || |r.value| > MAX_OPTIONS then None else Settings(r.value, os[1..])
  }

  lemma SettingKeeps(es: seq<Entry>, o: Setting)
    requires Unique(es) && WithSetting(es, o).Some?
    ensures Unique(WithSetting(es, o).value)
  {
    var p := SplitEquals(o.arg).value;
    if o.NumberArg? {
      NumberKeeps(es, p.0, E.StrToUl(p.1).0);
    } else {
      TextKeeps(es, p.0, p.1);
    }
  }

  lemma {:induction false} SettingsKeep(es: seq<Entry>, os: seq<Setting>)
    requires Unique(es) && Settings(es, os).Some?
    ensures Unique(Settings(es, os).value)
    decreases os
  {
    if os != [] {
      SettingKeeps(es, os[0]);
      SettingsKeep(WithSetting(es, os[0]).value, os[1..]);
    }
  }

  lemma {:induction false} DefaultsUnique(es: seq<Entry>, ds: seq<Entry>)
    requires Unique(es)
    ensures Unique(WithDefaults(es, ds))
  {
    DefaultsKeep(es, ds, "");
  }

  /** The table that a run writes, in order. */
  ghost function Written(os: seq<Setting>, empty: bool, title: string): Option<seq<Entry>> {
    var given := Settings([], os);
    if given.None? || |Final(given.value, empty, title)| > MAX_OPTIONS then None else Some(Sort(Final(given.value, empty, title)))
  }

  /** The options, in order; false when one has no '=' or the table is full. */
  method Enter(table: Table, os: seq<Setting>) returns (ok: bool)
    requires table.Valid() && table.View() == []
    modifies table.vals
    ensures table.Valid() && ok == Settings([], os).Some?
    ensures ok ==> table.View() == Settings([], os).value && Unique(table.View())
  {
    var i := 0;
    assert os[0..] == os && Unique([]);
    hide *;
    while i < |os|
      invariant i <= |os| && table.Valid() && Unique(table.View())
      invariant Settings(table.View(), os[i..]) == Settings([], os)
    {
      assert os[i..][1..] == os[i + 1..];
      SettingsFirst(table.View(), os[i..]);
      ok := EnterOne(table, os[i]);
      if !ok {
        return;
      }
      i := i + 1;
    }
    SettingsNone(table.View(), os[i..]);
    ok := true;
  }

  method EnterOne(table: Table, o: Setting) returns (ok: bool)
    requires table.Valid() && Unique(table.View())
    modifies table.vals
    ensures var r := WithSetting(old(table.View()), o);
      && table.Valid() && ok == (r.Some? && |r.value| <= MAX_OPTIONS)
      && (ok ==> table.View() == r.value && Unique(r.value))
  {
    hide table.Valid, table.View, Unique, WithSetting;
    ghost var es := table.View();
    match o {
      case NumberArg(arg) => ok := table.AddDword(arg);
      case TextArg(arg) => ok := table.AddString(arg);
    }
    if ok {
      SettingKeeps(es, o);
    }
  }

  lemma SettingsFirst(es: seq<Entry>, os: seq<Setting>)
    requires os != []
    ensures var r := WithSetting(es, os[0]);
      Settings(es, os) == if r.None? || |r.value| > MAX_OPTIONS then None else Settings(r.value, os[1..])
  {
  }

  lemma SettingsNone(es: seq<Entry>, os: seq<Setting>)
    requires os == []
    ensures Settings(es, os) == Some(es)
  {
  }

  /** The defaults, then the titles; false when the table is full. */
  method Complete(table: Table, title: string) returns (ok: bool)
    requires table.Valid() && Unique(table.View())
    modifies table.vals
    ensures table.Valid() && ok == (|Final(old(table.View()), false, title)| <= MAX_OPTIONS)
    ensures ok ==> table.View() == Final(old(table.View()), false, title) && Unique(table.View())
  {
    ghost var given := table.View();
    OnlyGrows(WithDefaults(given, DEFAULTS), Titles(title));
    DefaultsUnique(given, DEFAULTS);
    DefaultsUnique(WithDefaults(given, DEFAULTS), Titles(title));
    hide WithDefaults, Unique, table.Valid, table.View;
    ok := table.AddDefaults(DEFAULTS);
    if ok {
      ok := table.AddDefaults(Titles(title));
    }
  }

  /** Options, defaults, titles, sorting, and the file; false when an option has no '=' or the table is
      full. */
  method MakeSfo(os: seq<Setting>, empty: bool, title: string) returns (ok: bool, file: string)
    requires var w := Written(os, empty, title); w.Some? ==> |w.value| < MAX_OPTIONS && InBuffers(w.value)
    ensures ok <==> Written(os, empty, title).Some?
    ensures ok ==> file == File(Written(os, empty, title).value) && Ascending(Written(os, empty, title).value)
  {
    file := "";
    var table := new Table();
    hide table.Valid, table.View, Unique, Ascending, InBuffers, File, WithDefaults, Settings;
    ok := Enter(table, os);
    if !ok {
      return;
    }
    TableHolds(table);
    if !empty {
      ok := Complete(table, title);
      if !ok {
        return;
      }
    }
    TableHolds(table);
    table.SortKeys();
    file := WriteFile(table);
  }

  lemma TableHolds(table: Table)
    requires table.Valid()
    ensures |table.View()| <= MAX_OPTIONS
  {
  }

  /** What a run writes is the table, each entry once, in strictly ascending order of the names; it reads
      back as those entries exactly when every text fits its slot or is continued behind it, which it
      always is when the values of the table fit their slots. */
  lemma RunReadsBack(os: seq<Setting>, empty: bool, title: string)
    requires Written(os, empty, title).Some? && InBuffers(Written(os, empty, title).value)
    requires forall e :: e in Final(Settings([], os).value, empty, title) ==> Proper(e)
    ensures var es, w := Final(Settings([], os).value, empty, title), Written(os, empty, title).value;
      && multiset(w) == multiset(es) && Ascending(w)
      && (ReadSfo(File(w)) == Some(Meanings(w)) <==> forall i :: 0 <= i < |w| ==> Holds(w, i))
      && (SlotsHold(es) ==> ReadSfo(File(w)) == Some(Meanings(w)))
  {
    hide InBuffers, File, ReadSfo, Proper, Holds, Room, Length, Meanings, WithDefaults;
    var given, es := Settings([], os).value, Final(Settings([], os).value, empty, title);
    SettingsKeep([], os);
    if !empty {
      DefaultsUnique(given, DEFAULTS);
      DefaultsUnique(WithDefaults(given, DEFAULTS), Titles(title));
    }
    SortSorts(es);
    forall e | e in Sort(es)
      ensures e in es
    {
      assert e in multiset(Sort(es));
    }
    FileReadsBackIff(Sort(es));
    if SlotsHold(es) {
      FileReadsBack(Sort(es));
    }
  }

  /** If the options leave all slots at multiples of 4, every value offset of the file is one too. */
  lemma RunAligned(os: seq<Setting>, empty: bool, title: string)
    requires Written(os, empty, title).Some? && AllAligned(Settings([], os).value)
    ensures OffsetsAligned(Written(os, empty, title).value)
  {
    var given := Settings([], os).value;
    var es := Final(given, empty, title);
    var w := Sort(es);
    FinalAligned(given, empty, title);
    SortSorts(es);
    forall i | 0 <= i < |w|
      ensures Room(w[i]) % 4 == 0
    {
      assert w[i] in multiset(w);
      assert w[i] in es;
    }
    OffsetsOnFour(w);
  }

  /** The name an option gives, and its number. */
  function NameOf(o: Setting): Option<string> {
    var p := SplitEquals(o.arg);
    if p.None? then None else Some(p.value.0)
  }

  function NumberOf(o: Setting): nat {
    var p := SplitEquals(o.arg);
    if p.None? then 0 else E.StrToUl(p.value.1).0
  }

  /** Every number for a name that was given as a text before is a multiple of 4. */
  ghost predicate NumbersOnFour(os: seq<Setting>) {
    forall i, j :: 0 <= i < j < |os| && os[i].TextArg? && os[j].NumberArg? && NameOf(os[i]) == NameOf(os[j]) ==> NumberOf(os[j]) % 4 == 0
  }

  /** The texts of the table come from options. */
  ghost predicate TextsFrom(es: seq<Entry>, os: seq<Setting>) {
    forall e :: e in es ==> e.kind == VAL || (e.kind == STR && exists i :: 0 <= i < |os| && os[i].TextArg? && NameOf(os[i]) == Some(e.name))
  }

  lemma SettingAligned(es: seq<Entry>, before: seq<Setting>, o: Setting)
    requires AllAligned(es) && TextsFrom(es, before) && NumbersOnFour(before + [o]) && WithSetting(es, o).Some?
    ensures var r := WithSetting(es, o).value; AllAligned(r) && TextsFrom(r, before + [o])
  {
    hide AllAligned, NumbersOnFour;
    var p, os := SplitEquals(o.arg).value, before + [o];
    var r, i := WithSetting(es, o).value, Find(es, p.0);
    assert os[|before|] == o && forall k :: 0 <= k < |before| ==> os[k] == before[k];
    if o.NumberArg? {
      if i < |es| && es[i].kind == STR {
        assert es[i] in es;
        var k :| 0 <= k < |before| && before[k].TextArg? && NameOf(before[k]) == Some(es[i].name);
        NumberOnFour(os, k, |before|);
      }
      NumberAlignedIff(es, p.0, E.StrToUl(p.1).0);
    } else {
      TextAligned(es, p.0, p.1);
    }
    forall e | e in r
      ensures e.kind == VAL || (e.kind == STR && exists k :: 0 <= k < |os| && os[k].TextArg? && NameOf(os[k]) == Some(e.name))
    {
      EntryFrom(es, before, o, e);
    }
  }

  lemma NumberOnFour(os: seq<Setting>, i: nat, j: nat)
    requires NumbersOnFour(os) && i < j < |os| && os[i].TextArg? && os[j].NumberArg? && NameOf(os[i]) == NameOf(os[j])
    ensures NumberOf(os[j]) % 4 == 0
  {
  }

  lemma EntryFrom(es: seq<Entry>, before: seq<Setting>, o: Setting, e: Entry)
    requires TextsFrom(es, before) && WithSetting(es, o).Some? && e in WithSetting(es, o).value
    ensures var os := before + [o];
      e.kind == VAL || (e.kind == STR && exists k :: 0 <= k < |os| && os[k].TextArg? && NameOf(os[k]) == Some(e.name))
  {
    var p, os := SplitEquals(o.arg).value, before + [o];
    var r, i := WithSetting(es, o).value, Find(es, p.0);
    assert os[|before|] == o && forall k :: 0 <= k < |before| ==> os[k] == before[k];
    var j :| 0 <= j < |r| && r[j] == e;
    if j < |es| {
      assert es[j] in es && e.kind == es[j].kind && e.name == es[j].name;
      if e.kind == STR {
        var k :| 0 <= k < |before| && before[k].TextArg? && NameOf(before[k]) == Some(e.name);
        assert os[k] == before[k];
      }
    } else if e.kind == STR {
      assert o.TextArg? && e.name == p.0;
    }
  }

  lemma {:induction false} SettingsAligned(es: seq<Entry>, before: seq<Setting>, os: seq<Setting>)
    requires AllAligned(es) && TextsFrom(es, before) && NumbersOnFour(before + os) && Settings(es, os).Some?
    ensures AllAligned(Settings(es, os).value)
    decreases os
  {
    hide AllAligned, TextsFrom, WithSetting, NumberOf, NameOf;
    if os != [] {
      var more := before + [os[0]];
      assert more + os[1..] == before + os && more == (before + os)[..|more|];
      assert NumbersOnFour(more);
      SettingAligned(es, before, os[0]);
      hide NumbersOnFour;
      SettingsAligned(WithSetting(es, os[0]).value, more, os[1..]);
    }
  }

  /** Read off the options alone: if every number for a text is a multiple of 4, every value offset of
      the file is one. */
  lemma OptionsAligned(os: seq<Setting>, empty: bool, title: string)
    requires Written(os, empty, title).Some? && NumbersOnFour(os)
    ensures OffsetsAligned(Written(os, empty, title).value)
  {
    assert [] + os == os;
    SettingsAligned([], [], os);
    RunAligned(os, empty, title);
  }
}
