/** The parameter file of vita-mksfoex.c: an index of entries, a table of keys, and a table of value
    slots. A byte is a `char` below 256. `ReadSfo` reads a file by the offsets it finds in it, as the
    reader of test/test_mksfoex.py does. */
module Sfo {
  import opened Wrappers

  const STR := 2
  const VAL := 4
  const BUFFER := 8192

  /** `struct EntryContainer`; a text has a slot of `value` bytes, or what it needs if that is 0. */
  datatype Entry = Entry(name: string, kind: nat, value: nat, data: Option<string>)

  /** The bytes of a C string, without its end. */
  predicate CString(s: string) {
    forall c :: c in s ==> '\0' < c < 256 as char
  }

  predicate Proper(e: Entry) {
    && CString(e.name) && (e.kind == STR || e.kind == VAL) && e.value < 0x1_0000_0000
    && (e.data.Some? ==> CString(e.data.value)) && (e.kind == STR ==> e.data.Some?)
  }

  // ---- numbers as bytes ----

  function Byte(v: nat): char {
    (v % 256) as char
  }

  function Half(v: nat): (s: string)
    ensures |s| == 2
  {
    [Byte(v), Byte(v / 256)]
  }

  function Word(v: nat): (s: string)
    ensures |s| == 4
  {
    [Byte(v), Byte(v / 256), Byte(v / 0x1_0000), Byte(v / 0x100_0000)]
  }

  function ReadHalf(s: string): nat
    requires |s| == 2
  {
    s[0] as nat + 256 * s[1] as nat
  }

  function ReadWord(s: string): nat
    requires |s| == 4
  {
    s[0] as nat + 256 * s[1] as nat + 0x1_0000 * s[2] as nat + 0x100_0000 * s[3] as nat
  }

  lemma HalfReads(v: nat)
    requires v < 0x1_0000
    ensures ReadHalf(Half(v)) == v
  {
  }

  lemma WordReads(v: nat)
    requires v < 0x1_0000_0000
    ensures ReadWord(Word(v)) == v
  {
    var a, b, c := v / 256, v / 0x1_0000, v / 0x100_0000;
    assert b == a / 256 && c == b / 256;
  }

  // ---- the file ----

  /** `valsize`. */
  function Length(e: Entry): nat {
    if e.kind == VAL then 4 else if e.data.Some? then |e.data.value| + 1 else 0
  }

  /** `totalsize`. */
  function Room(e: Entry): nat {
    if e.kind == VAL then 4 else if e.value != 0 then e.value else (Length(e) + 3) / 4 * 4
  }

  function Zeros(n: nat): (s: string)
    ensures |s| == n && forall c :: c in s ==> c == '\0'
  {
    seq(n, i => '\0')
  }

  function Store(buffer: string, at: nat, bytes: string): (r: string)
    requires at + |bytes| <= |buffer|
    ensures |r| == |buffer|
    ensures r[..at] == buffer[..at] && r[at..at + |bytes|] == bytes && r[at + |bytes|..] == buffer[at + |bytes|..]
  {
    buffer[..at] + bytes + buffer[at + |bytes|..]
  }

  /** The names one after the other, each with its end. */
  function Keys(es: seq<Entry>): string {
    if es == [] then "" else Keys(es[..|es| - 1]) + es[|es| - 1].name + "\0"
  }

  function Rooms(es: seq<Entry>): nat {
    if es == [] then 0 else Rooms(es[..|es| - 1]) + Room(es[|es| - 1])
  }

  /** `struct SfoEntry`. */
  function Record(nameOffset: nat, e: Entry, dataOffset: nat): (s: string)
    ensures |s| == 16
  {
    Half(nameOffset) + [Byte(4), Byte(e.kind)] + Word(Length(e)) + Word(Room(e)) + Word(dataOffset)
  }

  function Index(es: seq<Entry>): (s: string)
    ensures |s| == 16 * |es|
  {
    if es == [] then "" else
      var before, e := es[..|es| - 1], es[|es| - 1];
      Index(before) + Record(|Keys(before)|, e, Rooms(before))
  }

  /** A value goes to the start of its slot, whatever the size of the slot; the slot is cleared first. */
  function Fill(data: string, at: nat, e: Entry): (r: string)
    requires at + Length(e) <= |data| && at + Room(e) <= |data|
    ensures |r| == |data| && r[..at] == data[..at]
  {
    if e.kind == VAL then Store(data, at, Word(e.value))
    else
      var cleared := Store(data, at, Zeros(Room(e)));
      if e.data.None? then cleared else Store(cleared, at, e.data.value + "\0")
  }

  predicate Fitting(es: seq<Entry>) {
    es != [] ==>
      var before, e := es[..|es| - 1], es[|es| - 1];
      Fitting(before) && Rooms(before) + Length(e) <= BUFFER && Rooms(before) + Room(e) <= BUFFER
  }

  function DataBuffer(es: seq<Entry>): (s: string)
    requires Fitting(es)
    ensures |s| == BUFFER && Rooms(es) <= BUFFER
  {
    if es == [] then Zeros(BUFFER) else
      var before, e := es[..|es| - 1], es[|es| - 1];
      Fill(DataBuffer(before), Rooms(before), e)
  }

  /** Nothing is written behind the three buffers. */
  predicate InBuffers(es: seq<Entry>) {
    20 + 16 * |es| <= BUFFER && |Keys(es)| <= BUFFER && Fitting(es)
  }

  lemma BuffersFit(es: seq<Entry>)
    requires InBuffers(es)
    ensures Fitting(es)
  {
  }

  function RoundUp(n: nat): nat {
    (n + 3) / 4 * 4
  }

  /** `struct SfoHeader`. */
  function Header(es: seq<Entry>): (s: string)
    ensures |s| == 20
  {
    var keyOffset := 20 + 16 * |es|;
    Word(0x46535000) + Word(0x101) + Word(keyOffset) + Word(keyOffset + RoundUp(|Keys(es)|)) + Word(|es|)
  }

  function File(es: seq<Entry>): string
    requires InBuffers(es)
  {
    Header(es) + Index(es) + Keys(es) + Zeros(RoundUp(|Keys(es)|) - |Keys(es)|) + DataBuffer(es)[..Rooms(es)]
  }

  // ---- reading ----

  datatype Value = Text(text: string) | Number(number: nat) | Raw(bytes: string)

  /** Both ends are cut to the file. */
  function Slice(d: string, from: nat, to: nat): string {
    var a, b := if from < |d| then from else |d|, if to < |d| then to else |d|;
    if a <= b then d[a..b] else ""
  }

  function FindNul(d: string, from: nat): (r: Option<nat>)
    ensures r.Some? ==> from <= r.value < |d|
    decreases |d| - from
  {
    if from >= |d| then None else if d[from] == '\0' then Some(from) else FindNul(d, from + 1)
  }

  function Strip(s: string): string {
    if s != "" && s[|s| - 1] == '\0' then Strip(s[..|s| - 1]) else s
  }

  function ReadValue(kind: nat, raw: string): Option<Value> {
    if kind == 2 then Some(Text(Strip(raw)))
    else if kind == 4 then if |raw| < 4 then None else Some(Number(ReadWord(raw[..4])))
    else Some(Raw(raw))
  }

  function ReadName(d: string, at: nat): Option<string> {
    var end := FindNul(d, at);
    if end.None? then None else Some(d[at..end.value])
  }

  function Pair(name: Option<string>, value: Option<Value>): Option<(string, Value)> {
    if name.None? || value.None? then None else Some((name.value, value.value))
  }

  /** A record and what it points to. */
  function ReadRecord(d: string, keyOffset: nat, valueOffset: nat, r: string): Option<(string, Value)>
    requires |r| == 16
  {
    var at := valueOffset + ReadWord(r[12..16]);
    Pair(ReadName(d, keyOffset + ReadHalf(r[..2])), ReadValue(r[3] as nat, Slice(d, at, at + ReadWord(r[4..8]))))
  }

  function ReadEntry(d: string, keyOffset: nat, valueOffset: nat, pos: nat): Option<(string, Value)> {
    if pos + 16 > |d| then None else ReadRecord(d, keyOffset, valueOffset, d[pos..pos + 16])
  }

  function ReadEntries(d: string, keyOffset: nat, valueOffset: nat, pos: nat, count: nat): Option<seq<(string, Value)>>
    decreases count
  {
    if count == 0 then Some([])
    else
      var first := ReadEntry(d, keyOffset, valueOffset, pos);
      var rest := ReadEntries(d, keyOffset, valueOffset, pos + 16, count - 1);
      Cons(first, rest)
  }

  function Cons<T>(first: Option<T>, rest: Option<seq<T>>): Option<seq<T>> {
    if first.None? || rest.None? then None else Some([first.value] + rest.value)
  }

  function ReadSfo(d: string): Option<seq<(string, Value)>> {
    if |d| < 20 || ReadWord(d[0..4]) != 0x46535000 then None
    else ReadEntries(d, ReadWord(d[8..12]), ReadWord(d[12..16]), 20, ReadWord(d[16..20]))
  }

  function Meaning(e: Entry): (string, Value) {
    (e.name, if e.kind == VAL then Number(e.value) else if e.data.Some? then Text(e.data.value) else Text(""))
  }

  function Meanings(es: seq<Entry>): seq<(string, Value)> {
    seq(|es|, i requires 0 <= i < |es| => Meaning(es[i]))
  }

  // ---- reading back ----

  /** The fields of a record. */
  lemma RecordReads(nameOffset: nat, e: Entry, dataOffset: nat)
    requires nameOffset < 0x1_0000 && Length(e) < 0x1_0000_0000 && Room(e) < 0x1_0000_0000 && dataOffset < 0x1_0000_0000 && e.kind < 256
    ensures var r := Record(nameOffset, e, dataOffset);
      && ReadHalf(r[..2]) == nameOffset && r[2] as nat == 4 && r[3] as nat == e.kind
      && ReadWord(r[4..8]) == Length(e) && ReadWord(r[8..12]) == Room(e) && ReadWord(r[12..16]) == dataOffset
  {
    hide Length, Room, ReadHalf, ReadWord, Half, Word;
    var r := Record(nameOffset, e, dataOffset);
    assert r[..2] == Half(nameOffset) && r[4..8] == Word(Length(e)) && r[8..12] == Word(Room(e)) && r[12..16] == Word(dataOffset);
    HalfReads(nameOffset);
    WordReads(Length(e));
    WordReads(Room(e));
    WordReads(dataOffset);
  }

  lemma {:induction false} FindsEnd(d: string, from: nat, name: string)
    requires CString(name) && from + |name| < |d| && d[from..from + |name|] == name && d[from + |name|] == '\0'
    ensures FindNul(d, from) == Some(from + |name|)
    decreases |name|
  {
    if name != "" {
      assert d[from] == name[0] && d[from + 1..from + |name|] == name[1..];
      assert name[0] in name && forall c :: c in name[1..] ==> c in name;
      FindsEnd(d, from + 1, name[1..]);
    }
  }

  lemma StripsEnd(s: string)
    requires CString(s)
    ensures Strip(s + "\0") == s
  {
    assert (s + "\0")[..|s|] == s;
    assert s != "" ==> s[|s| - 1] in s;
  }

  lemma ValueMeans(e: Entry)
    requires Proper(e)
    ensures ReadValue(e.kind, ValueBytes(e)) == Some(Meaning(e).1)
  {
    if e.kind == VAL {
      WordReads(e.value);
      assert Word(e.value)[..4] == Word(e.value);
    } else {
      StripsEnd(e.data.value);
    }
  }

  // ---- what is where ----

  lemma Prefix(es: seq<Entry>, j: nat)
    requires j < |es|
    ensures es[..j] == es[..|es| - 1][..j]
  {
  }

  lemma {:induction false} IndexGrows(es: seq<Entry>, j: nat)
    requires j <= |es|
    ensures Index(es[..j]) <= Index(es)
  {
    if j == |es| {
      assert es[..j] == es;
    } else {
      Prefix(es, j);
      IndexGrows(es[..|es| - 1], j);
    }
  }

  lemma {:induction false} KeysGrow(es: seq<Entry>, j: nat)
    requires j <= |es|
    ensures Keys(es[..j]) <= Keys(es)
  {
    if j == |es| {
      assert es[..j] == es;
    } else {
      Prefix(es, j);
      KeysGrow(es[..|es| - 1], j);
    }
  }

  lemma {:induction false} RoomsGrow(es: seq<Entry>, j: nat)
    requires j <= |es| && Fitting(es)
    ensures Fitting(es[..j]) && Rooms(es[..j]) <= Rooms(es)
  {
    if j == |es| {
      assert es[..j] == es;
    } else {
      Prefix(es, j);
      RoomsGrow(es[..|es| - 1], j);
    }
  }

  /** The bytes of a value that its entry claims. */
  function ValueBytes(e: Entry): (s: string)
    ensures |s| == Length(e)
  {
    if e.kind == VAL then Word(e.value) else if e.data.Some? then e.data.value + "\0" else ""
  }

  /** What a slot holds in the end: its value, cut off at the end of the slot or followed by zeros. */
  function SlotBytes(e: Entry): (s: string)
    ensures |s| == Room(e)
  {
    var b := ValueBytes(e);
    if |b| <= Room(e) then b + Zeros(Room(e) - |b|) else b[..Room(e)]
  }

  function Slots(es: seq<Entry>): (s: string)
    ensures |s| == Rooms(es)
  {
    if es == [] then "" else Slots(es[..|es| - 1]) + SlotBytes(es[|es| - 1])
  }

  lemma Filled(data: string, at: nat, e: Entry)
    requires at + Length(e) <= |data| && at + Room(e) <= |data|
    ensures Fill(data, at, e)[at..at + Room(e)] == SlotBytes(e)
  {
    if e.kind != VAL {
      var cleared := Store(data, at, Zeros(Room(e)));
      assert cleared[at..at + Room(e)] == Zeros(Room(e));
      if e.data.Some? {
        Stored(cleared, at, e.data.value + "\0", Room(e));
      }
    }
  }

  lemma Stored(buffer: string, at: nat, bytes: string, room: nat)
    requires at + |bytes| <= |buffer| && at + room <= |buffer| && buffer[at..at + room] == Zeros(room)
    ensures Store(buffer, at, bytes)[at..at + room] == if |bytes| <= room then bytes + Zeros(room - |bytes|) else bytes[..room]
  {
    var r := Store(buffer, at, bytes);
    if |bytes| <= room {
      assert r[at..at + room] == bytes + r[at + |bytes|..at + room];
      assert r[at + |bytes|..at + room] == buffer[at + |bytes|..at + room] == buffer[at..at + room][|bytes|..];
    }
  }

  lemma LastSlot(es: seq<Entry>)
    requires es != [] && Fitting(es)
    ensures var before, e := es[..|es| - 1], es[|es| - 1];
      && Fitting(before) && Rooms(es) == Rooms(before) + Room(e) && Slots(es) == Slots(before) + SlotBytes(e)
      && DataBuffer(es)[..Rooms(before)] == DataBuffer(before)[..Rooms(before)]
      && DataBuffer(es)[Rooms(before)..Rooms(es)] == SlotBytes(e)
  {
    hide Fill, SlotBytes, Room, Length;
    var before, e := es[..|es| - 1], es[|es| - 1];
    Filled(DataBuffer(before), Rooms(before), e);
    assert DataBuffer(es) == Fill(DataBuffer(before), Rooms(before), e);
  }

  lemma Joined(d: string, a: nat, b: nat)
    requires a <= b <= |d|
    ensures d[..b] == d[..a] + d[a..b]
  {
  }

  /** The value area is the slots one after the other: what runs over the end of a slot is overwritten
      by the slots behind it. */
  lemma {:induction false} DataIsSlots(es: seq<Entry>)
    requires Fitting(es)
    ensures DataBuffer(es)[..Rooms(es)] == Slots(es)
  {
    if es != [] {
      LastSlot(es);
      hide *;
      DataIsSlots(es[..|es| - 1]);
      Joined(DataBuffer(es), Rooms(es[..|es| - 1]), Rooms(es));
    }
  }

  lemma SlotsLast(es: seq<Entry>)
    ensures es == [] ==> Slots(es) == ""
    ensures es != [] ==> Slots(es) == Slots(es[..|es| - 1]) + SlotBytes(es[|es| - 1])
  {
    hide SlotBytes;
  }

  lemma {:induction false} SlotsFrom(es: seq<Entry>, i: nat)
    requires i < |es|
    ensures Slots(es) == Slots(es[..i]) + (SlotBytes(es[i]) + Slots(es[i + 1..]))
    decreases |es|
  {
    hide *;
    var n, rest := |es| - 1, es[i + 1..];
    SlotsLast(es);
    SlotsLast(rest);
    if i == n {
      assert SlotBytes(es[i]) + "" == SlotBytes(es[i]);
    } else {
      var front := es[..n];
      SlotsFrom(front, i);
      assert front[..i] == es[..i] && rest[..|rest| - 1] == front[i + 1..] && rest[|rest| - 1] == es[n];
      Regroup(Slots(es[..i]), SlotBytes(es[i]), Slots(front[i + 1..]), SlotBytes(es[n]));
    }
  }

  lemma Regroup(a: string, b: string, c: string, d: string)
    ensures (a + (b + c)) + d == a + (b + (c + d))
  {
  }

  lemma RecordAt(es: seq<Entry>, i: nat)
    requires i < |es|
    ensures Index(es)[16 * i..16 * i + 16] == Record(|Keys(es[..i])|, es[i], Rooms(es[..i]))
  {
    hide Keys, Record, Rooms;
    var upto := es[..i + 1];
    IndexGrows(es, i + 1);
    assert upto[..i] == es[..i] && upto[i] == es[i];
    var record := Record(|Keys(es[..i])|, es[i], Rooms(es[..i]));
    assert Index(upto) == Index(es[..i]) + record;
    Middle(Index(es), Index(es[..i]), record);
  }

  lemma Middle(s: string, before: string, part: string)
    requires before + part <= s
    ensures s[|before|..|before| + |part|] == part
  {
    assert s[..|before| + |part|] == before + part;
    assert s[|before|..|before| + |part|] == s[..|before| + |part|][|before|..];
  }

  lemma NameAt(es: seq<Entry>, i: nat)
    requires i < |es|
    ensures Keys(es[..i]) + es[i].name + "\0" <= Keys(es)
  {
    var upto := es[..i + 1];
    KeysGrow(es, i + 1);
    assert upto[..i] == es[..i] && upto[i] == es[i];
  }

  lemma SlotAt(es: seq<Entry>, i: nat)
    requires i < |es| && Fitting(es)
    ensures Rooms(es[..i]) + Room(es[i]) <= Rooms(es) && Rooms(es[..i]) + Length(es[i]) <= BUFFER
  {
    var upto := es[..i + 1];
    RoomsGrow(es, i + 1);
    assert upto[..i] == es[..i] && upto[i] == es[i];
  }

  /** The three tables in the file. */
  lemma Tables(es: seq<Entry>)
    requires InBuffers(es)
    ensures var d, k, v := File(es), 20 + 16 * |es|, 20 + 16 * |es| + RoundUp(|Keys(es)|);
      && |d| == v + Rooms(es) && d[..20] == Header(es) && d[20..k] == Index(es)
      && |Keys(es)| <= RoundUp(|Keys(es)|) && d[k..k + |Keys(es)|] == Keys(es) && d[v..] == DataBuffer(es)[..Rooms(es)]
  {
    hide DataBuffer, Fitting, Header, Index, Keys, Rooms, RoundUp, Zeros;
    Rounded(|Keys(es)|);
    var n := RoundUp(|Keys(es)|) - |Keys(es)|;
    assert Fitting(es);
    var a, b, c, d, e := Header(es), Index(es), Keys(es), Zeros(n), DataBuffer(es)[..Rooms(es)];
    FiveParts(a, b, c, d, e);
    assert File(es) == a + b + c + d + e;
  }

  lemma Rounded(n: nat)
    ensures n <= RoundUp(n) < n + 4 && RoundUp(n) % 4 == 0
  {
  }

  lemma FiveParts(a: string, b: string, c: string, d: string, e: string)
    ensures var s := a + b + c + d + e;
      && s[..|a|] == a && s[|a|..|a| + |b|] == b
      && s[|a| + |b|..|a| + |b| + |c|] == c && s[|a| + |b| + |c| + |d|..] == e
  {
  }

  lemma HeaderReads(es: seq<Entry>)
    requires InBuffers(es)
    ensures var h, k := Header(es), 20 + 16 * |es|;
      && ReadWord(h[0..4]) == 0x46535000 && ReadWord(h[4..8]) == 0x101 && ReadWord(h[8..12]) == k
      && ReadWord(h[12..16]) == k + RoundUp(|Keys(es)|) && ReadWord(h[16..20]) == |es|
  {
    var h, k := Header(es), 20 + 16 * |es|;
    var v := k + RoundUp(|Keys(es)|);
    hide ReadWord, Word;
    assert h[0..4] == Word(0x46535000) && h[4..8] == Word(0x101) && h[8..12] == Word(k) && h[12..16] == Word(v) && h[16..20] == Word(|es|);
    WordReads(0x46535000);
    WordReads(0x101);
    WordReads(k);
    WordReads(v);
    WordReads(|es|);
  }

  /** Every entry: the record, the name and the place of the value, in the file. */
  lemma EntryInFile(es: seq<Entry>, i: nat)
    requires InBuffers(es) && i < |es| && Proper(es[i])
    ensures var d, k := File(es), 20 + 16 * |es|;
      var a, v := k + |Keys(es[..i])|, k + RoundUp(|Keys(es)|) + Rooms(es[..i]);
      && 20 + 16 * i + 16 <= k <= |d| && d[20 + 16 * i..20 + 16 * i + 16] == Record(|Keys(es[..i])|, es[i], Rooms(es[..i]))
      && a + |es[i].name| < |d| && d[a..a + |es[i].name|] == es[i].name && d[a + |es[i].name|] == '\0'
      && |Keys(es[..i])| < 0x1_0000 && v + Room(es[i]) <= |d|
  {
    hide DataBuffer, File, Fitting, Header, Index, Keys, Length, Proper, Record, Room, Rooms, RoundUp;
    var d, k, n := File(es), 20 + 16 * |es|, Keys(es[..i]);
    Tables(es);
    RecordAt(es, i);
    NameAt(es, i);
    SlotAt(es, i);
    Inside(d, 20, k, 16 * i, 16);
    assert n + (es[i].name + "\0") <= Keys(es);
    Middle(Keys(es), n, es[i].name + "\0");
    Inside(d, k, k + |Keys(es)|, |n|, |es[i].name| + 1);
    var a := k + |n|;
    assert d[a..a + |es[i].name| + 1] == es[i].name + "\0";
    Ended(d, a, es[i].name);
  }

  lemma Ended(d: string, a: nat, name: string)
    requires a + |name| + 1 <= |d| && d[a..a + |name| + 1] == name + "\0"
    ensures d[a..a + |name|] == name && d[a + |name|] == '\0'
  {
    assert d[a..a + |name| + 1][..|name|] == d[a..a + |name|] && d[a..a + |name| + 1][|name|] == d[a + |name|];
  }

  lemma Inside(d: string, from: nat, to: nat, at: nat, n: nat)
    requires from + at + n <= to <= |d|
    ensures d[from..to][at..at + n] == d[from + at..from + at + n]
  {
    var part := d[from..to];
    assert forall i :: 0 <= i < |part| ==> part[i] == d[from + i];
  }

  /** An entry reads back as the name, and as what its kind makes of the bytes found at its offset. */
  lemma EntryReads(es: seq<Entry>, i: nat)
    requires InBuffers(es) && i < |es| && Proper(es[i])
    ensures var d, k := File(es), 20 + 16 * |es|;
      var v := k + RoundUp(|Keys(es)|);
      var raw := Slice(d, v + Rooms(es[..i]), v + Rooms(es[..i]) + Length(es[i]));
      var r := ReadValue(es[i].kind, raw);
      ReadEntry(d, k, v, 20 + 16 * i) == Pair(Some(es[i].name), r)
  {
    hide CString, DataBuffer, File, FindNul, Fitting, Header, Index, Keys, Length, Pair, ReadHalf, ReadValue,
      ReadWord, Record, Room, Rooms, RoundUp, Slice;
    EntryInFile(es, i);
    SlotAt(es, i);
    var d, k, v, n, at, e := File(es), 20 + 16 * |es|, 20 + 16 * |es| + RoundUp(|Keys(es)|), |Keys(es[..i])|, Rooms(es[..i]), es[i];
    assert Length(e) <= BUFFER && Room(e) <= BUFFER && at <= BUFFER by { Tables(es); }
    assert CString(e.name) && e.kind < 256;
    RecordReads(n, e, at);
    FindsEnd(d, k + n, e.name);
  }

  function Cut(s: string, n: nat): string {
    if n <= |s| then s[..n] else s
  }

  /** The bytes a reader finds for entry i. */
  function Found(es: seq<Entry>, i: nat): string
    requires i < |es|
  {
    Cut(SlotBytes(es[i]) + Slots(es[i + 1..]), Length(es[i]))
  }

  lemma SliceBehind(d: string, v: nat, before: string, rest: string, n: nat)
    requires v <= |d| && d[v..] == before + rest
    ensures Slice(d, v + |before|, v + |before| + n) == Cut(rest, n)
  {
    assert d[v + |before|..] == d[v..][|before|..] == rest;
    if n <= |rest| {
      assert d[v + |before|..v + |before| + n] == d[v + |before|..][..n];
    }
  }

  lemma ValueInFile(es: seq<Entry>, i: nat)
    requires InBuffers(es) && i < |es|
    ensures var d, v := File(es), 20 + 16 * |es| + RoundUp(|Keys(es)|);
      Slice(d, v + Rooms(es[..i]), v + Rooms(es[..i]) + Length(es[i])) == Found(es, i)
  {
    hide DataBuffer, File, Fitting, Header, Index, Keys, Length, Room, Rooms, RoundUp, SlotBytes, Slots;
    Tables(es);
    assert Fitting(es);
    DataIsSlots(es);
    SlotsFrom(es, i);
    SliceBehind(File(es), 20 + 16 * |es| + RoundUp(|Keys(es)|), Slots(es[..i]), SlotBytes(es[i]) + Slots(es[i + 1..]), Length(es[i]));
  }

  // ---- which values read back ----

  /** The bytes behind the slot of a text that is too long happen to be the rest of the text: with its
      end, or up to the end of the file. */
  ghost predicate Continued(es: seq<Entry>, i: nat)
    requires i < |es|
  {
    && es[i].data.Some? && Room(es[i]) <= |es[i].data.value|
    && var tail, rest := es[i].data.value[Room(es[i])..], Slots(es[i + 1..]);
       tail + "\0" <= rest || rest == tail
  }

  ghost predicate Holds(es: seq<Entry>, i: nat)
    requires i < |es|
  {
    Length(es[i]) <= Room(es[i]) || Continued(es, i)
  }

  lemma {:induction false} StripShortens(s: string)
    ensures |Strip(s)| <= |s| && (|Strip(s)| == |s| ==> Strip(s) == s)
  {
    if s != "" && s[|s| - 1] == '\0' {
      StripShortens(s[..|s| - 1]);
    }
  }

  lemma StripIff(raw: string, text: string)
    requires CString(text) && |raw| <= |text| + 1
    ensures Strip(raw) == text <==> raw == text || raw == text + "\0"
  {
    StripsEnd(text);
    assert text != "" ==> text[|text| - 1] in text;
    if raw != "" && raw[|raw| - 1] == '\0' {
      var front := raw[..|raw| - 1];
      assert raw == front + "\0";
      StripShortens(front);
    }
  }

  lemma CutIff(head: string, tail: string, rest: string)
    ensures var raw := Cut(head + rest, |head + tail| + 1);
      raw == head + tail || raw == head + tail + "\0" <==> tail + "\0" <= rest || rest == tail
  {
    var raw, end := Cut(head + rest, |head + tail| + 1), Cut(rest, |tail| + 1);
    assert raw == head + end;
    assert raw[|head|..] == end && (head + tail)[|head|..] == tail && (head + tail + "\0")[|head|..] == tail + "\0";
    assert head + tail + "\0" == head + (tail + "\0");
  }

  /** A text is read from the bytes found exactly when it holds. */
  lemma TextFoundIff(es: seq<Entry>, i: nat)
    requires i < |es| && Proper(es[i]) && es[i].kind == STR
    ensures Strip(Found(es, i)) == es[i].data.value <==> Holds(es, i)
  {
    hide Slots, Strip, Room;
    var e, rest := es[i], Slots(es[i + 1..]);
    var text := e.data.value;
    assert Length(e) == |text| + 1 && ValueBytes(e) == text + "\0";
    if Length(e) <= Room(e) {
      var padding := Zeros(Room(e) - Length(e));
      assert Found(es, i) == (text + "\0" + padding + rest)[..Length(e)] == text + "\0";
      StripIff(Found(es, i), text);
    } else {
      var head, tail := text[..Room(e)], text[Room(e)..];
      assert text == head + tail && (text + "\0")[..Room(e)] == head;
      CutIff(head, tail, rest);
      StripIff(Found(es, i), text);
    }
  }

  lemma NumberFound(es: seq<Entry>, i: nat)
    requires i < |es| && es[i].kind == VAL
    ensures Found(es, i) == ValueBytes(es[i]) && Holds(es, i)
  {
    hide Slots;
    var w := Word(es[i].value);
    assert w + Zeros(0) == w;
    assert (w + Slots(es[i + 1..]))[..4] == w;
  }

  ghost predicate SlotsHold(es: seq<Entry>) {
    forall e :: e in es ==> Proper(e) && Length(e) <= Room(e)
  }

  ghost predicate AllHold(es: seq<Entry>) {
    (forall e :: e in es ==> Proper(e)) && forall i :: 0 <= i < |es| ==> Holds(es, i)
  }

  lemma {:induction false} EntriesRead(es: seq<Entry>, i: nat)
    requires InBuffers(es) && AllHold(es) && i <= |es|
    ensures var d, k := File(es), 20 + 16 * |es|;
      ReadEntries(d, k, k + RoundUp(|Keys(es)|), 20 + 16 * i, |es| - i) == Some(Meanings(es)[i..])
    decreases |es| - i
  {
    hide File, InBuffers, Keys, Holds, Meaning, Proper, ReadEntries, ReadEntry, RoundUp;
    var d, k := File(es), 20 + 16 * |es|;
    var v, pos, left := k + RoundUp(|Keys(es)|), 20 + 16 * i, |es| - i;
    assert |Meanings(es)| == |es|;
    ReadsOn(d, k, v, pos, left);
    if i < |es| {
      EntriesRead(es, i + 1);
      assert pos + 16 == 20 + 16 * (i + 1) && left - 1 == |es| - (i + 1);
      assert Proper(es[i]) && Holds(es, i);
      EntryReadsIff(es, i);
      MeaningsFrom(es, i);
    } else {
      assert Meanings(es)[i..] == [];
    }
  }

  lemma ReadsOn(d: string, k: nat, v: nat, pos: nat, count: nat)
    ensures ReadEntries(d, k, v, pos, count) ==
      if count == 0 then Some([]) else Cons(ReadEntry(d, k, v, pos), ReadEntries(d, k, v, pos + 16, count - 1))
  {
  }

  lemma MeaningsFrom(es: seq<Entry>, i: nat)
    requires i < |es|
    ensures Meanings(es)[i..] == [Meaning(es[i])] + Meanings(es)[i + 1..]
  {
  }

  /** Entry i reads back exactly when its value fits its slot, or is continued behind it. */
  lemma EntryReadsIff(es: seq<Entry>, i: nat)
    requires InBuffers(es) && i < |es| && Proper(es[i])
    ensures var k := 20 + 16 * |es|;
      ReadEntry(File(es), k, k + RoundUp(|Keys(es)|), 20 + 16 * i) == Some(Meaning(es[i])) <==> Holds(es, i)
  {
    hide File, Found, Holds, InBuffers, Keys, Length, ReadEntry, Room, Rooms, RoundUp, Slice, Strip, ValueBytes;
    EntryReads(es, i);
    ValueInFile(es, i);
    if es[i].kind == STR {
      TextFoundIff(es, i);
    } else {
      NumberFound(es, i);
      ValueMeans(es[i]);
    }
  }

  /** The header leads to the records. */
  lemma ReadsTable(es: seq<Entry>)
    requires InBuffers(es)
    ensures var k := 20 + 16 * |es|; ReadSfo(File(es)) == ReadEntries(File(es), k, k + RoundUp(|Keys(es)|), 20, |es|)
  {
    hide File, InBuffers, Keys, Rooms, RoundUp, Header, Index, DataBuffer, ReadWord, ReadEntries, Fitting;
    HeaderReads(es);
    Tables(es);
    var d := File(es);
    assert d[0..4] == d[..20][0..4] && d[8..12] == d[..20][8..12] && d[12..16] == d[..20][12..16] && d[16..20] == d[..20][16..20];
  }

  /** For every list of entries, whatever the lengths of their texts: the file reads back as exactly the
      entries, in order, if and only if every text fits its slot or is continued by the slots behind it. */
  lemma FileReadsBackIff(es: seq<Entry>)
    requires InBuffers(es) && forall e :: e in es ==> Proper(e)
    ensures ReadSfo(File(es)) == Some(Meanings(es)) <==> forall i :: 0 <= i < |es| ==> Holds(es, i)
  {
    hide File, InBuffers, Holds, Meanings, Proper, ReadSfo;
    if AllHold(es) {
      AllRead(es);
    } else if ReadSfo(File(es)) == Some(Meanings(es)) {
      forall i | 0 <= i < |es|
        ensures Holds(es, i)
      {
        assert es[i] in es;
        ReadHolds(es, i);
      }
    }
  }

  lemma AllRead(es: seq<Entry>)
    requires InBuffers(es) && AllHold(es)
    ensures ReadSfo(File(es)) == Some(Meanings(es))
  {
    MeaningsAll(es);
    hide *;
    EntriesRead(es, 0);
    ReadsTable(es);
  }

  lemma ReadHolds(es: seq<Entry>, i: nat)
    requires InBuffers(es) && i < |es| && Proper(es[i]) && ReadSfo(File(es)) == Some(Meanings(es))
    ensures Holds(es, i)
  {
    MeaningsAll(es);
    hide *;
    var k := 20 + 16 * |es|;
    ReadsTable(es);
    ReadEach(File(es), k, k + RoundUp(|Keys(es)|), 20, |es|, i);
    EntryReadsIff(es, i);
  }

  /** If no value is longer than its slot, the file reads back as exactly the entries, in order. */
  lemma FileReadsBack(es: seq<Entry>)
    requires InBuffers(es) && SlotsHold(es)
    ensures ReadSfo(File(es)) == Some(Meanings(es))
  {
    hide File, InBuffers, Length, Meanings, Proper, ReadSfo, Room;
    assert forall i :: 0 <= i < |es| ==> es[i] in es && Holds(es, i);
    FileReadsBackIff(es);
  }

  lemma MeaningsAll(es: seq<Entry>)
    ensures Meanings(es)[0..] == Meanings(es)
    ensures |Meanings(es)| == |es| && forall i :: 0 <= i < |es| ==> Meanings(es)[i] == Meaning(es[i])
  {
  }

  // ---- alignment ----

  lemma RoomOnFour(e: Entry)
    ensures Room(e) % 4 == 0 <==> e.kind == VAL || e.value % 4 == 0
  {
  }

  ghost predicate OffsetsAligned(es: seq<Entry>) {
    forall i :: 0 <= i < |es| ==> Rooms(es[..i]) % 4 == 0
  }

  ghost predicate SlotsAligned(es: seq<Entry>) {
    forall i :: 0 <= i < |es| - 1 ==> Room(es[i]) % 4 == 0
  }

  lemma OffsetsSnoc(es: seq<Entry>)
    requires |es| > 1
    ensures var n := |es| - 1;
      && (OffsetsAligned(es) <==> OffsetsAligned(es[..n]) && Rooms(es[..n]) % 4 == 0)
      && (OffsetsAligned(es[..n]) ==> (Rooms(es[..n]) % 4 == 0 <==> Room(es[n - 1]) % 4 == 0))
  {
    var n := |es| - 1;
    assert forall i :: 0 <= i < n ==> es[..n][..i] == es[..i];
    assert Rooms(es[..n]) == Rooms(es[..n][..n - 1]) + Room(es[n - 1]);
    hide Rooms, Room;
  }

  /** All value offsets are multiples of 4 exactly when every slot but the last has a multiple of 4. */
  lemma {:induction false} OffsetsOnFour(es: seq<Entry>)
    ensures OffsetsAligned(es) <==> SlotsAligned(es)
  {
    if |es| <= 1 {
      assert forall i :: 0 <= i < |es| ==> es[..i] == [];
    } else {
      OffsetsSnoc(es);
      OffsetsOnFour(es[..|es| - 1]);
      hide OffsetsAligned, Rooms, Room;
      SlotsSnoc(es);
    }
  }

  lemma SlotsSnoc(es: seq<Entry>)
    requires |es| > 1
    ensures var n := |es| - 1; SlotsAligned(es) <==> SlotsAligned(es[..n]) && Room(es[n - 1]) % 4 == 0
  {
    hide Room;
    assert forall i :: 0 <= i < |es| - 1 ==> es[..|es| - 1][i] == es[i];
  }

  /** `-s A=abc -d A=5 -d B=1`: the second option changes the size of A's slot, so B's value is at 5. */
  lemma OffsetOffFour()
    ensures var es := [Entry("A", STR, 5, Some("abc")), Entry("B", VAL, 1, None)];
      InBuffers(es) && SlotsHold(es) && Rooms(es[..1]) == 5
  {
    var a, b := Entry("A", STR, 5, Some("abc")), Entry("B", VAL, 1, None);
    var es := [a, b];
    assert Room(a) == 5 && Length(a) == 4 && Room(b) == Length(b) == 4 && Rooms([]) == 0 && Fitting([]);
    assert es[..1] == [a] && [a][..0] == [] && es[..|es| - 1] == [a];
    assert Rooms([a]) == Rooms([]) + Room(a) && Keys([a]) == Keys([]) + a.name + "\0";
    assert Keys(es) == Keys([a]) + b.name + "\0";
    assert Fitting([a]);
  }

  // ---- a value that is longer than its slot ----

  /** A title that is given once, for both entries: the short title reads back exactly when it has at
      most 51 bytes, or at least 180 of which all but the first 52 are also those behind its slot. */
  lemma ShortTitleIff(es: seq<Entry>, i: nat, title: string)
    requires InBuffers(es) && i + 1 < |es| && CString(title)
    requires es[i] == Entry("STITLE", STR, 52, Some(title)) && es[i + 1] == Entry("TITLE", STR, 0x80, Some(title))
    ensures var k := 20 + 16 * |es|;
      ReadEntry(File(es), k, k + RoundUp(|Keys(es)|), 20 + 16 * i) == Some(("STITLE", Text(title))) <==>
        |title| <= 51 || (|title| >= 180 && Continued(es, i))
  {
    hide InBuffers, File, ReadEntry, RoundUp, Keys, Meaning, Continued, Proper, Room, Length, CString;
    ShortTitle(title);
    EntryReadsIff(es, i);
    if 52 <= |title| < 180 {
      NotContinued(es, i, title);
    }
  }

  lemma ShortTitle(title: string)
    requires CString(title)
    ensures var e := Entry("STITLE", STR, 52, Some(title));
      Proper(e) && Room(e) == 52 && Length(e) == |title| + 1 && Meaning(e) == ("STITLE", Text(title))
  {
    assert CString("STITLE");
  }

  lemma TitleSlot(title: string, n: nat)
    requires n < 0x80 && n < |title|
    ensures SlotBytes(Entry("TITLE", STR, 0x80, Some(title)))[n] == title[n]
  {
  }

  lemma FirstSlot(es: seq<Entry>, n: nat)
    requires es != [] && n < |SlotBytes(es[0])|
    ensures n < |Slots(es)| && Slots(es)[n] == SlotBytes(es[0])[n]
  {
    hide *;
    SlotsFrom(es, 0);
    SlotsLast(es[..0]);
  }

  lemma NotContinued(es: seq<Entry>, i: nat, title: string)
    requires i + 1 < |es| && CString(title) && 52 <= |title| < 180
    requires es[i] == Entry("STITLE", STR, 52, Some(title)) && es[i + 1] == Entry("TITLE", STR, 0x80, Some(title))
    ensures !Continued(es, i)
  {
    var rest, n := es[i + 1..], |title| - 52;
    assert Room(es[i]) == 52 && Room(rest[0]) == 0x80 && title[n] in title;
    TitleSlot(title, n);
    hide SlotBytes, Slots, Room;
    FirstSlot(rest, n);
    assert (title[52..] + "\0")[n] == '\0';
  }

  lemma {:induction false} ReadEach(d: string, k: nat, v: nat, pos: nat, count: nat, j: nat)
    requires ReadEntries(d, k, v, pos, count).Some? && j < count
    ensures |ReadEntries(d, k, v, pos, count).value| == count
    ensures ReadEntry(d, k, v, pos + 16 * j) == Some(ReadEntries(d, k, v, pos, count).value[j])
    decreases count
  {
    hide ReadEntry;
    var first, rest := ReadEntry(d, k, v, pos), ReadEntries(d, k, v, pos + 16, count - 1);
    assert ReadEntries(d, k, v, pos, count) == Cons(first, rest) && first.Some? && rest.Some?;
    if j > 0 {
      ReadEach(d, k, v, pos + 16, count - 1, j - 1);
      assert pos + 16 + 16 * (j - 1) == pos + 16 * j;
    } else if count > 1 {
      ReadEach(d, k, v, pos + 16, count - 1, 0);
    }
  }

  /** The tool's own table with a title of 60 bytes. */
  lemma LongTitleLost()
    ensures var t := seq(60, i => 'x');
      var es := [Entry("STITLE", STR, 52, Some(t)), Entry("TITLE", STR, 0x80, Some(t))];
      InBuffers(es) && (forall e :: e in es ==> Proper(e)) && ReadSfo(File(es)) != Some(Meanings(es))
  {
    var t := seq(60, i => 'x');
    var a, b := Entry("STITLE", STR, 52, Some(t)), Entry("TITLE", STR, 0x80, Some(t));
    var es := [a, b];
    assert Room(a) == 52 && Length(a) == 61 && Room(b) == 0x80 && Length(b) == 61 && Rooms([]) == 0 && Fitting([]);
    assert es[..1] == [a] && [a][..0] == [] && es[..|es| - 1] == [a];
    assert Rooms([a]) == Rooms([]) + Room(a) && Keys([a]) == Keys([]) + a.name + "\0";
    assert Keys(es) == Keys([a]) + b.name + "\0";
    assert Fitting([a]) && InBuffers(es);
    assert Proper(a) && Proper(b) && es[0] == a && es[1] == b;
    hide InBuffers, File, Meanings, ReadSfo, Continued, Proper;
    NotContinued(es, 0, t);
    assert !Holds(es, 0);
    FileReadsBackIff(es);
  }
}
