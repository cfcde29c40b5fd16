/** What an export description means, item by item as it is written by hand: the reference that
    `read_module_exports` (vita-export-parse.c) is measured against. */
module ExportMeaning {
  import opened Wrappers
  import opened YamlTree
  import opened ExportYaml

  // ---- descriptions as they are written ----

  datatype Numeral = Hex(n: nat) | Decimal(n: nat) | Octal(n: nat) {
    function Text(): string {
      match this
      case Hex(n) => HexToStr(n)
      case Decimal(n) => Digits(n, 10)
      case Octal(n) => "0" + Digits(n, 8)
    }
  }

  predicate Word(x: Numeral) {
    x.n <= 0xFFFF_FFFF
  }

  /** An exported symbol: its name alone, or with its NID. */
  datatype Entry = Plain(name: string) | Numbered(name: string, nid: Numeral) | WrongEntry(node: Node)

  datatype LibraryItem =
    | Syscall(yes: bool) | Version(version: Numeral) | LibraryNid(nid: Numeral)
    | Functions(entries: seq<Entry>) | Variables(entries: seq<Entry>) | WrongItem(key: Node, child: Node)

  datatype LibraryText = LibraryText(name: string, items: seq<LibraryItem>) | WrongLibrary(key: Node, child: Node)

  datatype VersionItem = Major(n: Numeral) | Minor(n: Numeral) | WrongVersion(key: Node, child: Node)

  datatype MainItem = EntryPoint(point: string, symbol: string) | WrongMain(key: Node, child: Node)

  datatype ModuleItem =
    | Attributes(attributes: Numeral) | ProcessImage(yes: bool) | ImageModule(yes: bool)
    | ModuleVersion(version: seq<VersionItem>) | ModuleNid(nid: Numeral) | Main(main: seq<MainItem>)
    | Libraries(deprecatedKey: bool, libs: seq<LibraryText>) | WrongField(key: Node, child: Node)

  datatype Description = Description(name: string, items: seq<ModuleItem>) | WrongDocument(node: Node)

  // ---- as YAML ----

  function BoolNode(yes: bool): Node {
    Scalar(if yes then "true" else "false")
  }

  function EntryNode(e: Entry): Node {
    match e
    case Plain(name) => Scalar(name)
    case Numbered(name, nid) => Mapping([Field(name, nid.Text())])
    case WrongEntry(node) => node
  }

  function LibraryItemPair(x: LibraryItem): Pair {
    match x
    case Syscall(yes) => Pair(Scalar("syscall"), BoolNode(yes))
    case Version(v) => Field("version", v.Text())
    case LibraryNid(n) => Field("nid", n.Text())
    case Functions(es) => Pair(Scalar("functions"), Sequence(Nodes(es)))
    case Variables(es) => Pair(Scalar("variables"), Sequence(Nodes(es)))
    case WrongItem(key, child) => Pair(key, child)
  }

  function LibraryPair(x: LibraryText): Pair {
    match x
    case LibraryText(name, items) => Pair(Scalar(name), Mapping(Each(LibraryItemPair, items)))
    case WrongLibrary(key, child) => Pair(key, child)
  }

  function VersionPair(x: VersionItem): Pair {
    match x
    case Major(n) => Field("major", n.Text())
    case Minor(n) => Field("minor", n.Text())
    case WrongVersion(key, child) => Pair(key, child)
  }

  function MainItemPair(x: MainItem): Pair {
    match x
    case EntryPoint(point, symbol) => Field(point, symbol)
    case WrongMain(key, child) => Pair(key, child)
  }

  function ModuleItemPair(x: ModuleItem): Pair {
    match x
    case Attributes(n) => Field("attributes", n.Text())
    case ProcessImage(yes) => Pair(Scalar("process_image"), BoolNode(yes))
    case ImageModule(yes) => Pair(Scalar("imagemodule"), BoolNode(yes))
    case ModuleVersion(vs) => Pair(Scalar("version"), Mapping(Each(VersionPair, vs)))
    case ModuleNid(n) => Field("nid", n.Text())
    case Main(ms) => Pair(Scalar("main"), Mapping(Each(MainItemPair, ms)))
    case Libraries(deprecated, ls) => Pair(Scalar(if deprecated then "modules" else "libraries"), Mapping(Each(LibraryPair, ls)))
    case WrongField(key, child) => Pair(key, child)
  }

  function Document(d: Description): Node {
    match d
    case Description(name, items) => Mapping([Pair(Scalar(name), Mapping(Each(ModuleItemPair, items)))])
    case WrongDocument(node) => node
  }

  function Nodes(es: seq<Entry>): (ns: seq<Node>)
    ensures |ns| == |es|
  {
    seq(|es|, i requires 0 <= i < |es| => EntryNode(es[i]))
  }

  function Each<T>(f: T -> Pair, xs: seq<T>): (ps: seq<Pair>)
    ensures |ps| == |xs|
  {
    seq(|xs|, i requires 0 <= i < |xs| => f(xs[i]))
  }

  // ---- what may stand where ----

  // Told: numbers have at most 32 bits, and what is called wrong is. Fits: nothing is wrong.

  predicate EntryTold(e: Entry) {
    match e
    case Plain(_) => true
    case Numbered(_, nid) => Word(nid)
    case WrongEntry(node) =>
      !node.Scalar? && (node.Mapping? ==> |node.pairs| != 1 || !node.pairs[0].lhs.Scalar? || !node.pairs[0].rhs.Scalar?)
  }

  predicate EntriesTold(es: seq<Entry>) {
    forall i :: 0 <= i < |es| ==> EntryTold(es[i])
  }

  predicate EntriesFit(es: seq<Entry>) {
    forall i :: 0 <= i < |es| ==> !es[i].WrongEntry?
  }

  predicate IsBool(n: Node) {
    n == Scalar("true") || n == Scalar("false")
  }

  predicate ItemTold(x: LibraryItem) {
    match x
    case Syscall(_) => true
    case Version(v) => Word(v)
    case LibraryNid(n) => Word(n)
    case Functions(es) => EntriesTold(es)
    case Variables(es) => EntriesTold(es)
    case WrongItem(key, child) =>
      || !key.Scalar?
      || key.value !in {"syscall", "version", "nid", "functions", "variables"}
      || (key.value == "syscall" && !IsBool(child))
      || ((key.value == "version" || key.value == "nid") && !child.Scalar?)
      || ((key.value == "functions" || key.value == "variables") && !child.Sequence?)
  }

  /** A library version has 16 bits. */
  predicate ItemFits(x: LibraryItem) {
    match x
    case Syscall(_) => true
    case Version(v) => v.n <= 0xFFFF
    case LibraryNid(_) => true
    case Functions(es) => EntriesFit(es)
    case Variables(es) => EntriesFit(es)
    case WrongItem(_, _) => false
  }

  predicate LibraryTold(x: LibraryText) {
    match x
    case LibraryText(_, items) => forall i :: 0 <= i < |items| ==> ItemTold(items[i])
    case WrongLibrary(key, child) => !key.Scalar? || !child.Mapping?
  }

  predicate LibraryFits(x: LibraryText) {
    x.LibraryText? && forall i :: 0 <= i < |x.items| ==> ItemFits(x.items[i])
  }

  predicate VersionTold(x: VersionItem) {
    match x
    case WrongVersion(key, child) => !key.Scalar? || key.value !in {"major", "minor"} || !child.Scalar?
    case _ => Word(x.n)
  }

  predicate VersionFits(x: VersionItem) {
    !x.WrongVersion? && x.n.n <= 0xFF
  }

  predicate MainTold(x: MainItem) {
    match x
    case EntryPoint(point, _) => point in {"start", "bootstart", "stop", "exit"}
    case WrongMain(key, child) => !key.Scalar? || !child.Scalar? || key.value !in {"start", "bootstart", "stop", "exit"}
  }

  predicate FieldTold(x: ModuleItem) {
    match x
    case Attributes(n) => Word(n)
    case ProcessImage(_) => true
    case ImageModule(_) => true
    case ModuleVersion(vs) => forall i :: 0 <= i < |vs| ==> VersionTold(vs[i])
    case ModuleNid(n) => Word(n)
    case Main(ms) => forall i :: 0 <= i < |ms| ==> MainTold(ms[i])
    case Libraries(_, ls) => forall i :: 0 <= i < |ls| ==> LibraryTold(ls[i])
    case WrongField(key, child) =>
      || !key.Scalar?
      || key.value !in {"attributes", "process_image", "imagemodule", "version", "nid", "main", "modules", "libraries"}
      || ((key.value == "attributes" || key.value == "nid") && !child.Scalar?)
      || ((key.value == "process_image" || key.value == "imagemodule") && !IsBool(child))
      || (key.value in {"version", "main", "modules", "libraries"} && !child.Mapping?)
  }

  predicate FieldFits(x: ModuleItem) {
    match x
    case Attributes(n) => n.n <= 0xFFFF
    case ModuleVersion(vs) => forall i :: 0 <= i < |vs| ==> VersionFits(vs[i])
    case Main(ms) => forall i :: 0 <= i < |ms| ==> ms[i].EntryPoint?
    case Libraries(_, ls) => forall i :: 0 <= i < |ls| ==> LibraryFits(ls[i])
    case WrongField(_, _) => false
    case _ => true
  }

  predicate Told(d: Description) {
    match d
    case Description(_, items) => forall i :: 0 <= i < |items| ==> FieldTold(items[i])
    case WrongDocument(node) => !node.Mapping? || |node.pairs| != 1 || !node.pairs[0].lhs.Scalar? || !node.pairs[0].rhs.Mapping?
  }

  /** A module name has at most 26 bytes. */
  predicate Fits(d: Description) {
    d.Description? && |d.name| <= 26 && forall i :: 0 <= i < |d.items| ==> FieldFits(d.items[i])
  }

  // ---- what it means ----

  /** The version in force behind these items: the last one given, or 1. */
  function VersionIn(items: seq<LibraryItem>): nat {
    if items == [] then 1
    else
      var last := items[|items| - 1];
      if last.Version? then last.version.n else VersionIn(items[..|items| - 1])
  }

  function SyscallIn(items: seq<LibraryItem>): bool {
    if items == [] then false
    else
      var last := items[|items| - 1];
      if last.Syscall? then last.yes else SyscallIn(items[..|items| - 1])
  }

  /** A 32-bit number, most significant byte first. */
  function BigEndian(v: nat): string {
    [(v / 0x100_0000 % 256) as char, (v / 0x1_0000 % 256) as char, (v / 0x100 % 256) as char, (v % 256) as char]
  }

  /** The hash of the name, until a version or an NID is given. */
  function LibraryNidIn(h: Hash, name: string, items: seq<LibraryItem>): nat {
    if items == [] then h([name])
    else
      var last := items[|items| - 1];
      if last.LibraryNid? then last.nid.n
      else if last.Version? then h([BigEndian(last.version.n), name])
      else LibraryNidIn(h, name, items[..|items| - 1])
  }

  /** Versions 0 and 1, and system calls, hash the name of a symbol alone. */
  function SymbolOf(h: Hash, library: string, version: nat, syscall: bool, e: Entry): Symbol
    requires !e.WrongEntry?
  {
    match e
    case Numbered(name, nid) => Symbol(name, nid.n)
    case Plain(name) => Symbol(name, if version > 1 && !syscall then h([BigEndian(version), library, name]) else h([name]))
  }

  function SymbolsOf(h: Hash, library: string, version: nat, syscall: bool, es: seq<Entry>): (ss: seq<Symbol>)
    requires EntriesFit(es)
    ensures |ss| == |es|
  {
    seq(|es|, i requires 0 <= i < |es| => SymbolOf(h, library, version, syscall, es[i]))
  }

  /** All functions or all variables, each under the version and flag in force where it is listed. */
  function SymbolsIn(h: Hash, library: string, items: seq<LibraryItem>, functions: bool): seq<Symbol>
    requires forall i :: 0 <= i < |items| ==> ItemFits(items[i])
  {
    if items == [] then []
    else
      var front, last := items[..|items| - 1], items[|items| - 1];
      assert ItemFits(last);
      var before := SymbolsIn(h, library, front, functions);
      if functions && last.Functions? then before + SymbolsOf(h, library, VersionIn(front), SyscallIn(front), last.entries)
      else if !functions && last.Variables? then before + SymbolsOf(h, library, VersionIn(front), SyscallIn(front), last.entries)
      else before
  }

  function LibraryMeant(h: Hash, name: string, items: seq<LibraryItem>): Library
    requires forall i :: 0 <= i < |items| ==> ItemFits(items[i])
  {
    Library(name, VersionIn(items), if SyscallIn(items) then 1 else 0, LibraryNidIn(h, name, items),
            SymbolsIn(h, name, items, true), SymbolsIn(h, name, items, false))
  }

  function LibrariesMeant(h: Hash, ls: seq<LibraryText>): (r: seq<Library>)
    requires forall i :: 0 <= i < |ls| ==> LibraryFits(ls[i])
    ensures |r| == |ls|
  {
    seq(|ls|, i requires 0 <= i < |ls| => assert LibraryFits(ls[i]); LibraryMeant(h, ls[i].name, ls[i].items))
  }

  /** The last major or minor number in a list, or d. */
  function LastPart(vs: seq<VersionItem>, major: bool, d: nat): nat
    requires forall i :: 0 <= i < |vs| ==> VersionFits(vs[i])
  {
    if vs == [] then d
    else
      var last := vs[|vs| - 1];
      assert VersionFits(last);
      if last.Major? == major then last.n.n else LastPart(vs[..|vs| - 1], major, d)
  }

  function LastSymbol(ms: seq<MainItem>, key: string, d: Option<string>): Option<string> {
    if ms == [] then d
    else
      var last := ms[|ms| - 1];
      if last.EntryPoint? && last.point == key then Some(last.symbol) else LastSymbol(ms[..|ms| - 1], key, d)
  }

  function PartIn(items: seq<ModuleItem>, major: bool): nat
    requires forall i :: 0 <= i < |items| ==> FieldFits(items[i])
  {
    if items == [] then 0
    else
      var last, d := items[|items| - 1], PartIn(items[..|items| - 1], major);
      assert FieldFits(last);
      if last.ModuleVersion? then LastPart(last.version, major, d) else d
  }

  function SymbolIn(items: seq<ModuleItem>, key: string): Option<string> {
    if items == [] then None
    else
      var last, d := items[|items| - 1], SymbolIn(items[..|items| - 1], key);
      if last.Main? then LastSymbol(last.main, key, d) else d
  }

  function AttributesIn(items: seq<ModuleItem>): nat {
    if items == [] then 0
    else
      var last := items[|items| - 1];
      if last.Attributes? then last.attributes.n else AttributesIn(items[..|items| - 1])
  }

  function ModuleNidIn(items: seq<ModuleItem>, d: nat): nat {
    if items == [] then d
    else
      var last := items[|items| - 1];
      if last.ModuleNid? then last.nid.n else ModuleNidIn(items[..|items| - 1], d)
  }

  function ImageIn(items: seq<ModuleItem>, process: bool): bool {
    if items == [] then false
    else
      var last := items[|items| - 1];
      if process && last.ProcessImage? then last.yes
      else if !process && last.ImageModule? then last.yes
      else ImageIn(items[..|items| - 1], process)
  }

  function LibrariesIn(h: Hash, items: seq<ModuleItem>): seq<Library>
    requires forall i :: 0 <= i < |items| ==> FieldFits(items[i])
  {
    if items == [] then []
    else
      var last, before := items[|items| - 1], LibrariesIn(h, items[..|items| - 1]);
      assert FieldFits(last);
      if last.Libraries? then before + LibrariesMeant(h, last.libs) else before
  }

  function Meant(h: Hash, d: Description, defaultNid: nat): Module
    requires Fits(d)
  {
    ModuleMeant(h, d.name, d.items, defaultNid)
  }

  function ModuleMeant(h: Hash, name: string, items: seq<ModuleItem>, defaultNid: nat): Module
    requires forall i :: 0 <= i < |items| ==> FieldFits(items[i])
  {
    Module(name, PartIn(items, true), PartIn(items, false), AttributesIn(items), ModuleNidIn(items, defaultNid),
           ImageIn(items, true), ImageIn(items, false), SymbolIn(items, "bootstart"), SymbolIn(items, "start"),
           SymbolIn(items, "stop"), SymbolIn(items, "exit"), LibrariesIn(h, items))
  }

  // ---- reading it ----

  lemma NumeralReads(x: Numeral)
    requires Word(x)
    ensures Integer(Scalar(x.Text())) == Some(x.n)
  {
    hide HexToStr, Digits, StrToUl;
    match x {
      case Hex(n) => HexReads(n);
      case Decimal(n) => DecimalReads(n);
      case Octal(n) => OctalReads(n);
    }
  }

  lemma NoNumeral(n: Node)
    requires !n.Scalar?
    ensures Integer(n) == None
  {
  }

  lemma EntryReads(h: Hash, l: Library, e: Entry)
    requires EntryTold(e)
    ensures ReadSymbol(h, l, EntryNode(e))
         == if e.WrongEntry? then None else Some(SymbolOf(h, l.name, l.version, l.syscall != 0, e))
  {
    hide Integer, Numeral.Text;
    if e.Numbered? {
      NumeralReads(e.nid);
    }
  }

  lemma {:induction false} EntriesRead(h: Hash, l: Library, ss: seq<Symbol>, es: seq<Entry>)
    requires EntriesTold(es)
    ensures Collect(SymbolReader(h, l), ss, Nodes(es))
         == if EntriesFit(es) then Some(ss + SymbolsOf(h, l.name, l.version, l.syscall != 0, es)) else None
  {
    hide ReadSymbol, SymbolOf, EntryTold, EntryNode;
    if es == [] {
      assert Nodes(es) == [] && ss + [] == ss;
    } else {
      var n := |es| - 1;
      assert es == es[..n] + [es[n]] && Nodes(es)[..n] == Nodes(es[..n]);
      EntriesRead(h, l, ss, es[..n]);
      EntryReads(h, l, es[n]);
      if EntriesFit(es) {
        var f := SymbolsOf(h, l.name, l.version, l.syscall != 0, es[..n]);
        assert ss + f + [SymbolOf(h, l.name, l.version, l.syscall != 0, es[n])]
            == ss + SymbolsOf(h, l.name, l.version, l.syscall != 0, es);
      }
    }
  }

  function NextLibrary(h: Hash, l: Library, x: LibraryItem): Library
    requires ItemFits(x)
  {
    match x
    case Syscall(yes) => l.(syscall := if yes then 1 else 0)
    case Version(v) => l.(version := v.n, nid := h([BigEndian(v.n), l.name]))
    case LibraryNid(n) => l.(nid := n.n)
    case Functions(es) => l.(functions := l.functions + SymbolsOf(h, l.name, l.version, l.syscall != 0, es))
    case Variables(es) => l.(variables := l.variables + SymbolsOf(h, l.name, l.version, l.syscall != 0, es))
  }

  lemma LibraryNext(h: Hash, name: string, front: seq<LibraryItem>, x: LibraryItem)
    requires (forall i :: 0 <= i < |front| ==> ItemFits(front[i])) && ItemFits(x)
    ensures forall i :: 0 <= i < |front + [x]| ==> ItemFits((front + [x])[i])
    ensures LibraryMeant(h, name, front + [x]) == NextLibrary(h, LibraryMeant(h, name, front), x)
  {
    hide BigEndian, SymbolsOf, EntriesFit;
    var all := front + [x];
    assert all[..|all| - 1] == front && all[|all| - 1] == x;
  }

  lemma LibraryFieldReads(h: Hash, l: Library, x: LibraryItem)
    requires ItemTold(x)
    ensures var p := LibraryItemPair(x);
      ReadLibraryField(h, l, p.lhs, p.rhs) == if ItemFits(x) then Some(NextLibrary(h, l, x)) else None
  {
    hide Integer, Numeral.Text, ReadSymbol, Collect, SymbolsOf, EntriesTold, EntriesFit, SymbolReader;
    match x {
      case Version(v) => NumeralReads(v);
      case LibraryNid(n) => NumeralReads(n);
      case Functions(es) => EntriesRead(h, l, l.functions, es);
      case Variables(es) => EntriesRead(h, l, l.variables, es);
      case WrongItem(_, child) =>
        if !child.Scalar? {
          NoNumeral(child);
        }
      case Syscall(_) =>
    }
  }

  lemma LibraryItemReads(h: Hash, name: string, front: seq<LibraryItem>, x: LibraryItem)
    requires (forall i :: 0 <= i < |front| ==> ItemFits(front[i])) && ItemTold(x)
    ensures ItemFits(x) ==> forall i :: 0 <= i < |front + [x]| ==> ItemFits((front + [x])[i])
    ensures var p := LibraryItemPair(x);
      ReadLibraryField(h, LibraryMeant(h, name, front), p.lhs, p.rhs)
      == if ItemFits(x) then Some(LibraryMeant(h, name, front + [x])) else None
  {
    hide *;
    LibraryFieldReads(h, LibraryMeant(h, name, front), x);
    if ItemFits(x) {
      LibraryNext(h, name, front, x);
    }
  }

  lemma {:induction false} LibraryReadsBack(h: Hash, name: string, items: seq<LibraryItem>)
    requires forall i :: 0 <= i < |items| ==> ItemTold(items[i])
    ensures FoldPairs(LibraryStep(h), NewLibrary(h, name), Each(LibraryItemPair, items))
         == if LibraryFits(LibraryText(name, items)) then Some(LibraryMeant(h, name, items)) else None
  {
    hide ReadLibraryField, LibraryMeant, LibraryItemPair, ItemTold, ItemFits, NewLibrary;
    var ps := Each(LibraryItemPair, items);
    if items == [] {
      assert NewLibrary(h, name) == LibraryMeant(h, name, items) by { NewMeans(h, name); }
    } else {
      var n := |items| - 1;
      var front, x := items[..n], items[n];
      assert front + [x] == items && ps[..n] == Each(LibraryItemPair, front);
      assert ItemTold(x);
      LibraryReadsBack(h, name, front);
      if LibraryFits(LibraryText(name, front)) {
        LibraryItemReads(h, name, front, x);
      }
    }
  }

  lemma NewMeans(h: Hash, name: string)
    ensures NewLibrary(h, name) == LibraryMeant(h, name, [])
  {
  }

  lemma LibraryTextReads(h: Hash, m: Module, x: LibraryText)
    requires LibraryTold(x)
    ensures LibraryFits(x) ==> x.LibraryText? && forall i :: 0 <= i < |x.items| ==> ItemFits(x.items[i])
    ensures var p := LibraryPair(x);
      ReadLibrary(h, m, p.lhs, p.rhs)
      == if LibraryFits(x) then Some(m.(libs := m.libs + [LibraryMeant(h, x.name, x.items)])) else None
  {
    hide FoldPairs, Each, NewLibrary, LibraryMeant, ItemTold, ItemFits;
    if x.LibraryText? {
      LibraryReadsBack(h, x.name, x.items);
    }
  }

  lemma {:induction false} LibrariesReadBack(h: Hash, m: Module, ls: seq<LibraryText>)
    requires forall i :: 0 <= i < |ls| ==> LibraryTold(ls[i])
    ensures FoldPairs(LibrariesStep(h), m, Each(LibraryPair, ls))
         == if (forall i :: 0 <= i < |ls| ==> LibraryFits(ls[i])) then Some(m.(libs := m.libs + LibrariesMeant(h, ls))) else None
  {
    hide ReadLibrary, LibraryMeant, LibraryPair, LibraryTold, LibraryFits;
    var ps := Each(LibraryPair, ls);
    if ls == [] {
      assert m.libs + [] == m.libs;
    } else {
      var n := |ls| - 1;
      var front, x := ls[..n], ls[n];
      assert ps[..n] == Each(LibraryPair, front);
      assert LibraryTold(x);
      LibrariesReadBack(h, m, front);
      if forall i :: 0 <= i < |front| ==> LibraryFits(front[i]) {
        var m1 := m.(libs := m.libs + LibrariesMeant(h, front));
        LibraryTextReads(h, m1, x);
        if LibraryFits(x) {
          assert forall i :: 0 <= i < |ls| ==> LibraryFits(ls[i]);
          assert m.libs + LibrariesMeant(h, front) + [LibraryMeant(h, x.name, x.items)] == m.libs + LibrariesMeant(h, ls);
        }
      } else {
        var i :| 0 <= i < |front| && !LibraryFits(front[i]);
        assert !LibraryFits(ls[i]);
      }
    }
  }

  lemma VersionPartReads(m: Module, d: Module, front: seq<VersionItem>, x: VersionItem)
    requires VersionTold(x) && forall i :: 0 <= i < |front| ==> VersionFits(front[i])
    requires m == d.(verMajor := LastPart(front, true, d.verMajor), verMinor := LastPart(front, false, d.verMinor))
    ensures VersionFits(x) ==> forall i :: 0 <= i < |front + [x]| ==> VersionFits((front + [x])[i])
    ensures var p, all := VersionPair(x), front + [x];
      ReadVersionField(m, p.lhs, p.rhs)
      == if VersionFits(x) then Some(d.(verMajor := LastPart(all, true, d.verMajor), verMinor := LastPart(all, false, d.verMinor)))
         else None
  {
    hide Integer, Numeral.Text;
    var all := front + [x];
    assert all[..|all| - 1] == front && all[|all| - 1] == x;
    if !x.WrongVersion? {
      NumeralReads(x.n);
    } else if !x.child.Scalar? {
      NoNumeral(x.child);
    }
  }

  lemma {:induction false} VersionReadsBack(m: Module, vs: seq<VersionItem>)
    requires forall i :: 0 <= i < |vs| ==> VersionTold(vs[i])
    ensures FoldPairs(ReadVersionField, m, Each(VersionPair, vs))
         == if (forall i :: 0 <= i < |vs| ==> VersionFits(vs[i]))
            then Some(m.(verMajor := LastPart(vs, true, m.verMajor), verMinor := LastPart(vs, false, m.verMinor))) else None
  {
    hide ReadVersionField, VersionPair, VersionTold, VersionFits;
    var ps := Each(VersionPair, vs);
    if vs != [] {
      var n := |vs| - 1;
      var front, x := vs[..n], vs[n];
      assert front + [x] == vs && ps[..n] == Each(VersionPair, front);
      assert VersionTold(x);
      VersionReadsBack(m, front);
      hide LastPart;
      if forall i :: 0 <= i < |front| ==> VersionFits(front[i]) {
        var r := m.(verMajor := LastPart(front, true, m.verMajor), verMinor := LastPart(front, false, m.verMinor));
        VersionPartReads(r, m, front, x);
      } else {
        var i :| 0 <= i < |front| && !VersionFits(front[i]);
        assert !VersionFits(vs[i]);
      }
    }
  }

  function WithEntries(m: Module, ms: seq<MainItem>): Module {
    m.(bootstart := LastSymbol(ms, "bootstart", m.bootstart), start := LastSymbol(ms, "start", m.start),
       stop := LastSymbol(ms, "stop", m.stop), exit := LastSymbol(ms, "exit", m.exit))
  }

  lemma MainItemReads(m: Module, front: seq<MainItem>, x: MainItem)
    requires MainTold(x)
    ensures var p := MainItemPair(x);
      ReadMainField(WithEntries(m, front), p.lhs, p.rhs) == if x.EntryPoint? then Some(WithEntries(m, front + [x])) else None
  {
    var all := front + [x];
    assert all[..|all| - 1] == front && all[|all| - 1] == x;
  }

  lemma {:induction false} MainReadsBack(m: Module, ms: seq<MainItem>)
    requires forall i :: 0 <= i < |ms| ==> MainTold(ms[i])
    ensures FoldPairs(ReadMainField, m, Each(MainItemPair, ms))
         == if (forall i :: 0 <= i < |ms| ==> ms[i].EntryPoint?) then Some(WithEntries(m, ms)) else None
  {
    hide ReadMainField, MainItemPair, MainTold, LastSymbol;
    var ps := Each(MainItemPair, ms);
    if ms == [] {
      assert WithEntries(m, []) == m by { NoEntries(m); }
    } else {
      var n := |ms| - 1;
      var front, x := ms[..n], ms[n];
      assert front + [x] == ms && ps[..n] == Each(MainItemPair, front);
      assert MainTold(x);
      MainReadsBack(m, front);
      MainItemReads(m, front, x);
      hide WithEntries;
      if !(forall i :: 0 <= i < |front| ==> front[i].EntryPoint?) {
        var i :| 0 <= i < |front| && !front[i].EntryPoint?;
        assert !ms[i].EntryPoint?;
      }
    }
  }

  lemma NoEntries(m: Module)
    ensures WithEntries(m, []) == m
  {
  }

  function NextModule(h: Hash, m: Module, x: ModuleItem): Module
    requires FieldFits(x)
  {
    match x
    case Attributes(n) => m.(attributes := n.n)
    case ProcessImage(yes) => m.(isProcessImage := yes)
    case ImageModule(yes) => m.(isImageModule := yes)
    case ModuleVersion(vs) => m.(verMajor := LastPart(vs, true, m.verMajor), verMinor := LastPart(vs, false, m.verMinor))
    case ModuleNid(n) => m.(nid := n.n)
    case Main(ms) => WithEntries(m, ms)
    case Libraries(_, ls) => m.(libs := m.libs + LibrariesMeant(h, ls))
  }

  lemma ModuleNext(h: Hash, name: string, front: seq<ModuleItem>, x: ModuleItem, defaultNid: nat)
    requires (forall i :: 0 <= i < |front| ==> FieldFits(front[i])) && FieldFits(x)
    ensures forall i :: 0 <= i < |front + [x]| ==> FieldFits((front + [x])[i])
    ensures ModuleMeant(h, name, front + [x], defaultNid) == NextModule(h, ModuleMeant(h, name, front, defaultNid), x)
  {
    hide LastPart, LastSymbol, LibrariesMeant, VersionFits, LibraryFits;
    var all := front + [x];
    assert all[..|all| - 1] == front && all[|all| - 1] == x;
  }

  lemma ModuleFieldReads(h: Hash, m: Module, x: ModuleItem)
    requires FieldTold(x)
    ensures var p := ModuleItemPair(x);
      ReadModuleField(h, m, p.lhs, p.rhs) == if FieldFits(x) then Some(NextModule(h, m, x)) else None
  {
    hide Integer, Numeral.Text, FoldPairs, LastPart, WithEntries, LibrariesMeant, VersionTold, VersionFits, MainTold, LibraryTold,
      LibraryFits, Each;
    match x {
      case Attributes(n) => NumeralReads(n);
      case ModuleVersion(vs) => VersionReadsBack(m, vs);
      case ModuleNid(n) => NumeralReads(n);
      case Main(ms) => MainReadsBack(m, ms);
      case Libraries(_, ls) => LibrariesReadBack(h, m, ls);
      case WrongField(_, child) =>
        if !child.Scalar? {
          NoNumeral(child);
        }
      case ProcessImage(_) =>
      case ImageModule(_) =>
    }
  }

  lemma FieldReads(h: Hash, name: string, front: seq<ModuleItem>, x: ModuleItem, defaultNid: nat)
    requires (forall i :: 0 <= i < |front| ==> FieldFits(front[i])) && FieldTold(x)
    ensures FieldFits(x) ==> forall i :: 0 <= i < |front + [x]| ==> FieldFits((front + [x])[i])
    ensures var p := ModuleItemPair(x);
      ReadModuleField(h, ModuleMeant(h, name, front, defaultNid), p.lhs, p.rhs)
      == if FieldFits(x) then Some(ModuleMeant(h, name, front + [x], defaultNid)) else None
  {
    hide *;
    ModuleFieldReads(h, ModuleMeant(h, name, front, defaultNid), x);
    if FieldFits(x) {
      ModuleNext(h, name, front, x, defaultNid);
    }
  }

  lemma {:induction false} FieldsRead(h: Hash, name: string, items: seq<ModuleItem>, defaultNid: nat)
    requires forall i :: 0 <= i < |items| ==> FieldTold(items[i])
    ensures FoldPairs(ModuleStep(h), NewModule(name, defaultNid), Each(ModuleItemPair, items))
         == if (forall i :: 0 <= i < |items| ==> FieldFits(items[i])) then Some(ModuleMeant(h, name, items, defaultNid)) else None
  {
    hide ReadModuleField, ModuleItemPair, FieldTold, FieldFits;
    var ps := Each(ModuleItemPair, items);
    if items != [] {
      var n := |items| - 1;
      var front, x := items[..n], items[n];
      assert front + [x] == items && ps[..n] == Each(ModuleItemPair, front);
      assert FieldTold(x);
      FieldsRead(h, name, front, defaultNid);
      if forall i :: 0 <= i < |front| ==> FieldFits(front[i]) {
        FieldReads(h, name, front, x, defaultNid);
      } else {
        var i :| 0 <= i < |front| && !FieldFits(front[i]);
        assert !FieldFits(items[i]);
      }
    }
  }

  /** Whatever is written, in whatever order and however often: reading fails exactly when something is
      wrong or too large, and otherwise gives what the description means. */
  lemma DescriptionReads(h: Hash, d: Description, defaultNid: nat)
    requires Told(d)
    ensures ReadModule(h, Document(d), defaultNid) == if Fits(d) then Some(Meant(h, d, defaultNid)) else None
  {
    hide FoldPairs, FieldTold, FieldFits, Each, ModuleMeant, NewModule;
    if d.Description? {
      FieldsRead(h, d.name, d.items, defaultNid);
    }
  }

  /** `read_module_exports` on any description. */
  method ReadDescription(h: Hash, d: Description, defaultNid: nat) returns (r: ModuleExport?)
    requires Told(d)
    ensures (r != null) == Fits(d)
    ensures r != null ==> r.View() == Meant(h, d, defaultNid)
  {
    DescriptionReads(h, d, defaultNid);
    r := ReadModuleExports(h, Document(d), defaultNid);
  }
}
