/** The export description: `write_exports` (vita-elf-create.c) prints it as YAML events and
    `read_module_exports` (vita-export-parse.c) reads it back from the tree. */
module ExportYaml {
  import opened Wrappers
  import opened YamlTree

  // ---- numbers as text ----

  function DigitValue(c: char): nat {
    if '0' <= c <= '9' then (c - '0') as nat
    else if 'a' <= c <= 'f' then (c - 'a') as nat + 10
    else if 'A' <= c <= 'F' then (c - 'A') as nat + 10
    else 16
  }

  /** The length of the longest prefix of s that is made of digits. */
  function DigitCount(s: string, base: nat): (n: nat)
    ensures n <= |s|
  {
    if s != [] && DigitValue(s[0]) < base then 1 + DigitCount(s[1..], base) else 0
  }

  function Value(s: string, base: nat): nat {
    if s == [] then 0 else Value(s[..|s| - 1], base) * base + DigitValue(s[|s| - 1])
  }

  const ULONG_LIMIT := 0x1_0000_0000_0000_0000

  predicate IsSpace(c: char) {
    c == ' ' || '\t' <= c <= '\r'
  }

  function SkipSpace(s: string): (r: string) {
    if s != [] && IsSpace(s[0]) then SkipSpace(s[1..]) else s
  }

  /** The digits that a number starts with: 64 bits, negated if asked for, cut to 32 bits, and
      whether nothing else follows. */
  function Number(digits: string, base: nat, negative: bool): (nat, bool) {
    var n := DigitCount(digits, base);
    var v := Value(digits[..n], base);
    var w := if v >= ULONG_LIMIT then ULONG_LIMIT - 1 else if negative then (ULONG_LIMIT - v) % ULONG_LIMIT else v;
    (w % 0x1_0000_0000, n == |digits|)
  }

  /** The prefix that base 0 looks at. */
  function BaseOf(u: string): nat {
    if |u| >= 3 && u[0] == '0' && (u[1] == 'x' || u[1] == 'X') && DigitValue(u[2]) < 16 then 16
    else if u != [] && u[0] == '0' then 8
    else 10
  }

  /** `strtoul` of s with base 0: the value cut to 32 bits, and whether all of s was used. An
      empty string is used up and stands for 0; a value that is too large for the largest. */
  function StrToUl(s: string): (nat, bool) {
    var t := SkipSpace(s);
    var negative := t != [] && t[0] == '-';
    var u := if t != [] && (t[0] == '-' || t[0] == '+') then t[1..] else t;
    var base := BaseOf(u);
    var digits := if base == 16 then u[2..] else u;
    if DigitCount(digits, base) == 0 then (0, s == []) else Number(digits, base, negative)
  }

  function HexDigit(d: nat): (c: char)
    requires d < 16
    ensures DigitValue(c) == d
  {
    if d < 10 then '0' + d as char else 'a' + (d - 10) as char
  }

  /** %x. */
  function HexDigits(n: nat): (s: string)
    ensures s != [] && forall i :: 0 <= i < |s| ==> DigitValue(s[i]) < 16
  {
    if n < 16 then [HexDigit(n)] else HexDigits(n / 16) + [HexDigit(n % 16)]
  }

  /** `hextostr`. */
  function HexToStr(n: nat): string {
    "0x" + HexDigits(n)
  }

  lemma {:induction false} HexValue(n: nat)
    ensures Value(HexDigits(n), 16) == n
  {
    hide DigitValue, HexDigit;
    if n < 16 {
      assert Value([HexDigit(n)], 16) == Value([HexDigit(n)][..0], 16) * 16 + n;
    } else {
      HexValue(n / 16);
      var s := HexDigits(n);
      assert s[..|s| - 1] == HexDigits(n / 16);
    }
  }

  lemma {:induction false} AllDigits(s: string, base: nat)
    requires forall i :: 0 <= i < |s| ==> DigitValue(s[i]) < base
    ensures DigitCount(s, base) == |s|
  {
    hide DigitValue;
    if s != [] {
      AllDigits(s[1..], base);
    }
  }

  /** Every 32-bit number is read back from its printed form. */
  lemma HexReads(n: nat)
    requires n < 0x1_0000_0000
    ensures StrToUl(HexToStr(n)) == (n, true)
  {
    var d := HexDigits(n);
    HexPrefix(d);
    HexValue(n);
    AllDigits(d, 16);
    assert HexToStr(n) == "0x" + d;
    SmallNumber(d, 16, n);
    HexNumber("0x" + d);
  }

  function Digit(d: nat): (c: char)
    requires d < 10
    ensures '0' <= c <= '9' && DigitValue(c) == d && (d > 0 ==> c != '0')
  {
    '0' + d as char
  }

  /** %u and %o. */
  function Digits(n: nat, base: nat): (s: string)
    requires base == 8 || base == 10
    ensures s != [] && (n > 0 ==> s[0] != '0') && forall i :: 0 <= i < |s| ==> '0' <= s[i] <= '9' && DigitValue(s[i]) < base
  {
    if n < base then [Digit(n)] else Digits(n / base, base) + [Digit(n % base)]
  }

  lemma {:induction false} DigitsValue(n: nat, base: nat)
    requires base == 8 || base == 10
    ensures Value(Digits(n, base), base) == n
  {
    hide DigitValue, Digit;
    if n < base {
      assert Value([Digit(n)], base) == Value([Digit(n)][..0], base) * base + n;
    } else {
      DigitsValue(n / base, base);
      var s := Digits(n, base);
      assert s[..|s| - 1] == Digits(n / base, base);
      assert base == 8 ==> n / 8 * 8 + n % 8 == n;
    }
  }

  lemma PlainNumber(s: string, base: nat, n: nat)
    requires s != [] && '0' <= s[0] <= '9' && BaseOf(s) == base && base != 16
    requires DigitCount(s, base) == |s| && Value(s, base) == n < 0x1_0000_0000
    ensures StrToUl(s) == (n, true)
  {
    hide DigitCount, Value, BaseOf;
    SmallNumber(s, base, n);
  }

  /** Every 32-bit number is read back from its decimal form. */
  lemma DecimalReads(n: nat)
    requires n < 0x1_0000_0000
    ensures StrToUl(Digits(n, 10)) == (n, true)
  {
    var s := Digits(n, 10);
    DigitsValue(n, 10);
    if n == 0 {
      assert s == "0";
      assert Value(s[..0], 8) == 0 && Value(s, 8) == Value(s[..0], 8) * 8 + DigitValue(s[0]);
      AllDigits(s, 8);
      PlainNumber(s, 8, 0);
    } else {
      AllDigits(s, 10);
      PlainNumber(s, 10, n);
    }
  }

  lemma {:induction false} LeadingZero(s: string, base: nat)
    ensures Value("0" + s, base) == Value(s, base)
  {
    var z := "0" + s;
    if s == [] {
      assert z[..0] == [] && Value([], base) == 0;
    } else {
      assert z[..|z| - 1] == "0" + s[..|s| - 1];
      LeadingZero(s[..|s| - 1], base);
    }
  }

  /** And from its octal form, which starts with 0. */
  lemma OctalReads(n: nat)
    requires n < 0x1_0000_0000
    ensures StrToUl("0" + Digits(n, 8)) == (n, true)
  {
    var s := "0" + Digits(n, 8);
    DigitsValue(n, 8);
    LeadingZero(Digits(n, 8), 8);
    AllDigits(s, 8);
    PlainNumber(s, 8, n);
  }

  lemma {:induction false} SpacesSkipped(space: string, t: string)
    requires (forall c :: c in space ==> IsSpace(c)) && (t != [] ==> !IsSpace(t[0]))
    ensures SkipSpace(space + t) == t
  {
    if space == [] {
      assert space + t == t;
    } else {
      assert space[0] in space && (space + t)[1..] == space[1..] + t && forall c :: c in space[1..] ==> c in space;
      SpacesSkipped(space[1..], t);
    }
  }

  lemma {:induction false} DigitsCounted(d: string, rest: string, base: nat)
    requires forall i :: 0 <= i < |d| ==> DigitValue(d[i]) < base
    requires rest != [] ==> DigitValue(rest[0]) >= base
    ensures DigitCount(d + rest, base) == |d|
  {
    hide DigitValue;
    if d == [] {
      assert d + rest == rest;
    } else {
      assert (d + rest)[1..] == d[1..] + rest;
      DigitsCounted(d[1..], rest, base);
    }
  }

  /** A decimal number of any size, between white space and a sign before it and anything that is no digit
      behind it: it saturates at 64 bits, is negated modulo 2^64, and is cut to 32 bits; what follows it
      makes the string as a whole invalid. */
  lemma NumberInContext(space: string, sign: string, n: nat, rest: string)
    requires (forall c :: c in space ==> IsSpace(c)) && sign in {"", "+", "-"} && n > 0
    requires rest != [] ==> DigitValue(rest[0]) >= 10
    ensures StrToUl(space + sign + Digits(n, 10) + rest)
         == ((if n >= 0x1_0000_0000_0000_0000 then 0xFFFF_FFFF else if sign == "-" then (0x1_0000_0000 - n % 0x1_0000_0000) % 0x1_0000_0000
              else n % 0x1_0000_0000), rest == [])
  {
    hide *;
    var d := Digits(n, 10);
    DecimalDigits(n, rest);
    Parts(space, sign, d, rest);
    UnsignedNumber(sign + (d + rest), sign, d + rest, space);
    NumberIs(d, rest, n, sign == "-");
  }

  lemma DecimalDigits(n: nat, rest: string)
    requires n > 0 && (rest != [] ==> DigitValue(rest[0]) >= 10)
    ensures var d := Digits(n, 10);
      d != [] && '0' < (d + rest)[0] <= '9' && DigitCount(d + rest, 10) == |d| && Value(d, 10) == n
  {
    hide *;
    DigitsValue(n, 10);
    DigitsCounted(Digits(n, 10), rest, 10);
  }

  lemma Parts(space: string, sign: string, d: string, rest: string)
    ensures space + sign + d + rest == space + (sign + (d + rest))
  {
  }

  lemma UnsignedNumber(t: string, sign: string, u: string, space: string)
    requires (forall c :: c in space ==> IsSpace(c)) && sign in {"", "+", "-"} && t == sign + u
    requires u != [] && '0' < u[0] <= '9' && DigitCount(u, 10) > 0
    ensures StrToUl(space + t) == Number(u, 10, sign == "-")
  {
    assert (sign == "-" ==> t[0] == '-') && (sign == "+" ==> t[0] == '+') && (sign == [] ==> t[0] == u[0]);
    assert sign != [] ==> t[1..] == u;
    assert sign == [] ==> t == u;
    SpacesSkipped(space, t);
    hide SkipSpace, DigitCount, Number;
  }

  lemma NumberIs(d: string, rest: string, n: nat, negative: bool)
    requires DigitCount(d + rest, 10) == |d| && Value(d, 10) == n > 0
    ensures Number(d + rest, 10, negative)
         == ((if n >= 0x1_0000_0000_0000_0000 then 0xFFFF_FFFF else if negative then (0x1_0000_0000 - n % 0x1_0000_0000) % 0x1_0000_0000
              else n % 0x1_0000_0000), rest == [])
  {
    assert (d + rest)[..|d|] == d && (|d| == |d + rest| <==> rest == []);
    hide DigitCount, Value;
    Negated(n);
  }

  lemma Negated(n: nat)
    ensures 0 < n < ULONG_LIMIT ==>
      (ULONG_LIMIT - n) % ULONG_LIMIT % 0x1_0000_0000 == (0x1_0000_0000 - n % 0x1_0000_0000) % 0x1_0000_0000
  {
    var k, r := n / 0x1_0000_0000, n % 0x1_0000_0000;
    assert n == k * 0x1_0000_0000 + r;
    if 0 < n < ULONG_LIMIT {
      assert ULONG_LIMIT - n == (0x1_0000_0000 - k) * 0x1_0000_0000 - r;
    }
  }

  lemma SmallNumber(d: string, base: nat, n: nat)
    requires DigitCount(d, base) == |d| && Value(d, base) == n < 0x1_0000_0000
    ensures Number(d, base, false) == (n, true)
  {
    hide DigitCount, Value;
    assert d[..|d|] == d;
  }

  lemma HexNumber(s: string)
    requires SkipSpace(s) == s && s != [] && s[0] == '0' && BaseOf(s) == 16 && DigitCount(s[2..], 16) > 0
    ensures StrToUl(s) == Number(s[2..], 16, false)
  {
    hide SkipSpace, DigitCount, Number;
  }

  lemma HexPrefix(d: string)
    requires d != [] && DigitValue(d[0]) < 16
    ensures var s := "0x" + d; s[0] == '0' && SkipSpace(s) == s && BaseOf(s) == 16 && s[2..] == d
  {
    hide DigitValue;
    var s := "0x" + d;
    assert s[0] == '0' && s[1] == 'x' && s[2] == d[0];
  }

  // ---- vita_export_t ----

  datatype Symbol = Symbol(name: string, nid: nat)

  datatype Library = Library(name: string, version: nat, syscall: int, nid: nat, functions: seq<Symbol>, variables: seq<Symbol>)

  datatype Module = Module(name: string, verMajor: nat, verMinor: nat, attributes: nat, nid: nat,
                           isProcessImage: bool, isImageModule: bool, bootstart: Option<string>,
                           start: Option<string>, stop: Option<string>, exit: Option<string>, libs: seq<Library>)

  const U32 := 0x1_0000_0000

  /** The ranges of the C fields. */
  predicate InRange(m: Module) {
    m.verMajor < 256 && m.verMinor < 256 && m.attributes < 0x1_0000 && m.nid < U32 && forall l :: l in m.libs ==> LibraryInRange(l)
  }

  predicate LibraryInRange(l: Library) {
    l.version < U32 && l.nid < U32 && (forall s :: s in l.functions ==> s.nid < U32) && (forall s :: s in l.variables ==> s.nid < U32)
  }

  // ---- the tree that is printed ----

  function Field(key: string, value: string): Pair {
    Pair(Scalar(key), Scalar(value))
  }

  function SymbolNode(s: Symbol): Node {
    Mapping([Field(s.name, HexToStr(s.nid))])
  }

  function SymbolNodes(ss: seq<Symbol>): (ns: seq<Node>)
    ensures |ns| == |ss|
  {
    seq(|ss|, i requires 0 <= i < |ss| => SymbolNode(ss[i]))
  }

  /** `booltostr`. */
  function BoolToStr(b: int): string {
    if b != 0 then "true" else "false"
  }

  function SymbolsField(key: string, ss: seq<Symbol>): seq<Pair> {
    if ss == [] then [] else [Pair(Scalar(key), Sequence(SymbolNodes(ss)))]
  }

  function LibraryFields(l: Library): seq<Pair> {
    [Field("version", HexToStr(l.version)), Field("syscall", BoolToStr(l.syscall)), Field("nid", HexToStr(l.nid))]
    + SymbolsField("functions", l.functions) + SymbolsField("variables", l.variables)
  }

  function LibraryPairs(ls: seq<Library>): seq<Pair> {
    if ls == [] then []
    else LibraryPairs(ls[..|ls| - 1]) + [Pair(Scalar(ls[|ls| - 1].name), Mapping(LibraryFields(ls[|ls| - 1])))]
  }

  function Optional(key: string, value: Option<string>): seq<Pair> {
    if value.Some? then [Field(key, value.value)] else []
  }

  function MainFields(m: Module): seq<Pair> {
    Optional("start", m.start) + Optional("stop", m.stop) + Optional("exit", m.exit)
  }

  function MainPair(m: Module): seq<Pair> {
    if m.start == None && m.stop == None && m.exit == None then [] else [Pair(Scalar("main"), Mapping(MainFields(m)))]
  }

  function LibrariesPair(m: Module): seq<Pair> {
    if m.libs == [] then [] else [Pair(Scalar("libraries"), Mapping(LibraryPairs(m.libs)))]
  }

  function VersionNode(m: Module): Node {
    Mapping([Field("major", HexToStr(m.verMajor)), Field("minor", HexToStr(m.verMinor))])
  }

  function ModulePairs(m: Module): seq<Pair> {
    [Field("attributes", HexToStr(m.attributes)), Pair(Scalar("version"), VersionNode(m)), Field("nid", HexToStr(m.nid))]
    + MainPair(m) + LibrariesPair(m)
  }

  function ExportNode(m: Module): Node {
    Mapping([Pair(Scalar(m.name), Mapping(ModulePairs(m)))])
  }

  // ---- the reader's handlers, on values ----

  /** `yaml_iterate_mapping`. */
  function FoldPairs<S>(f: (S, Node, Node) -> Option<S>, s: S, pairs: seq<Pair>): Option<S> {
    if pairs == [] then Some(s)
    else
      var r := FoldPairs(f, s, pairs[..|pairs| - 1]);
      if r == None then None else f(r.value, pairs[|pairs| - 1].lhs, pairs[|pairs| - 1].rhs)
  }

  function OverMapping<S>(f: (S, Node, Node) -> Option<S>, s: S, node: Node): Option<S> {
    if node.Mapping? then FoldPairs(f, s, node.pairs) else None
  }

  /** `yaml_iterate_sequence` with a handler that makes one symbol of each entry. */
  function Collect(f: Node -> Option<Symbol>, ss: seq<Symbol>, nodes: seq<Node>): Option<seq<Symbol>> {
    if nodes == [] then Some(ss)
    else
      var r := Collect(f, ss, nodes[..|nodes| - 1]);
      if r == None then None
      else
        var s := f(nodes[|nodes| - 1]);
        if s == None then None else Some(r.value + [s.value])
  }

  /** `process_32bit_integer`. */
  function Integer(n: Node): Option<nat> {
    if n.Scalar? && StrToUl(n.value).1 then Some(StrToUl(n.value).0) else None
  }

  /** htonl: the bytes of a version, the most significant first. */
  function VersionBytes(v: nat): string {
    [(v / 0x100_0000 % 256) as char, (v / 0x1_0000 % 256) as char, (v / 0x100 % 256) as char, (v % 256) as char]
  }

  /** `sha256_32_vector` of a list of fragments. */
  type Hash = seq<string> -> nat

  /** `process_functions`, `process_variables`: a name, whose NID is computed, or a name with its NID. */
  function ReadSymbol(h: Hash, l: Library, entry: Node): Option<Symbol> {
    match entry
    case Scalar(v) =>
      if l.version == 0 || l.version == 1 || l.syscall != 0 then Some(Symbol(v, h([v])))
      else Some(Symbol(v, h([VersionBytes(l.version), l.name, v])))
    case Mapping(pairs) =>
      if |pairs| != 1 || !pairs[0].lhs.Scalar? || !pairs[0].rhs.Scalar? || Integer(pairs[0].rhs) == None then None
      else Some(Symbol(pairs[0].lhs.value, Integer(pairs[0].rhs).value))
    case _ => None
  }

  function SymbolReader(h: Hash, l: Library): Node -> Option<Symbol> {
    e => ReadSymbol(h, l, e)
  }

  /** `process_boolean`. */
  function Boolean(n: Node): Option<int> {
    if n == Scalar("true") then Some(1) else if n == Scalar("false") then Some(0) else None
  }

  /** `process_export`. */
  function ReadLibraryField(h: Hash, l: Library, key: Node, child: Node): Option<Library> {
    if !key.Scalar? then None
    else if key.value == "syscall" then
      if Boolean(child) == None then None else Some(l.(syscall := Boolean(child).value))
    else if key.value == "functions" then
      if !child.Sequence? then None
      else
        var r := Collect(SymbolReader(h, l), l.functions, child.nodes);
        if r == None then None else Some(l.(functions := r.value))
    else if key.value == "variables" then
      if !child.Sequence? then None
      else
        var r := Collect(SymbolReader(h, l), l.variables, child.nodes);
        if r == None then None else Some(l.(variables := r.value))
    else if key.value == "nid" then
      if Integer(child) == None then None else Some(l.(nid := Integer(child).value))
    else if key.value == "version" then
      if Integer(child) == None || Integer(child).value > 0xFFFF then None
      else Some(l.(version := Integer(child).value, nid := h([VersionBytes(Integer(child).value), l.name])))
    else None
  }

  function NewLibrary(h: Hash, name: string): Library {
    Library(name, 1, 0, h([name]), [], [])
  }

  function LibraryStep(h: Hash): (Library, Node, Node) -> Option<Library> {
    (l, k, c) => ReadLibraryField(h, l, k, c)
  }

  /** `process_export_list`. */
  function ReadLibrary(h: Hash, m: Module, key: Node, child: Node): Option<Module> {
    if !key.Scalar? then None
    else
      var l := OverMapping(LibraryStep(h), NewLibrary(h, key.value), child);
      if l == None then None else Some(m.(libs := m.libs + [l.value]))
  }

  function LibrariesStep(h: Hash): (Module, Node, Node) -> Option<Module> {
    (m, k, c) => ReadLibrary(h, m, k, c)
  }

  /** `process_syslib_list`. */
  function ReadMainField(m: Module, key: Node, child: Node): Option<Module> {
    if !key.Scalar? || !child.Scalar? then None
    else if key.value == "start" then Some(m.(start := Some(child.value)))
    else if key.value == "bootstart" then Some(m.(bootstart := Some(child.value)))
    else if key.value == "stop" then Some(m.(stop := Some(child.value)))
    else if key.value == "exit" then Some(m.(exit := Some(child.value)))
    else None
  }

  /** `process_module_version`. */
  function ReadVersionField(m: Module, key: Node, child: Node): Option<Module> {
    if !key.Scalar? || Integer(child) == None || Integer(child).value > 0xFF then None
    else if key.value == "major" then Some(m.(verMajor := Integer(child).value))
    else if key.value == "minor" then Some(m.(verMinor := Integer(child).value))
    else None
  }

  /** `process_module_info`. */
  function ReadModuleField(h: Hash, m: Module, key: Node, child: Node): Option<Module> {
    if !key.Scalar? then None
    else if key.value == "attributes" then
      if Integer(child) == None || Integer(child).value > 0xFFFF then None else Some(m.(attributes := Integer(child).value))
    else if key.value == "process_image" then
      if Boolean(child) == None then None else Some(m.(isProcessImage := Boolean(child) == Some(1)))
    else if key.value == "imagemodule" then
      if Boolean(child) == None then None else Some(m.(isImageModule := Boolean(child) == Some(1)))
    else if key.value == "version" then OverMapping(ReadVersionField, m, child)
    else if key.value == "nid" then
      if Integer(child) == None then None else Some(m.(nid := Integer(child).value))
    else if key.value == "main" then OverMapping(ReadMainField, m, child)
    else if key.value == "modules" || key.value == "libraries" then OverMapping(LibrariesStep(h), m, child)
    else None
  }

  function ModuleStep(h: Hash): (Module, Node, Node) -> Option<Module> {
    (m, k, c) => ReadModuleField(h, m, k, c)
  }

  function NewModule(name: string, nid: nat): Module {
    Module(name, 0, 0, 0, nid, false, false, None, None, None, None, [])
  }

  /** `read_module_exports`. */
  function ReadModule(h: Hash, doc: Node, defaultNid: nat): Option<Module> {
    if !doc.Mapping? || |doc.pairs| != 1 || !doc.pairs[0].lhs.Scalar? || |doc.pairs[0].lhs.value| >= 27 then None
    else OverMapping(ModuleStep(h), NewModule(doc.pairs[0].lhs.value, defaultNid), doc.pairs[0].rhs)
  }

  // ---- reading what was printed ----

  /** What the printed form keeps: not bootstart nor the image flags, and syscall as 0 or 1. */
  function Kept(m: Module): Module {
    m.(isProcessImage := false, isImageModule := false, bootstart := None, libs := KeptLibraries(m.libs))
  }

  function KeptLibrary(l: Library): Library {
    l.(syscall := if l.syscall != 0 then 1 else 0)
  }

  function KeptLibraries(ls: seq<Library>): (r: seq<Library>)
    ensures |r| == |ls|
  {
    seq(|ls|, i requires 0 <= i < |ls| => KeptLibrary(ls[i]))
  }

  lemma {:induction false} FoldAppend<S>(f: (S, Node, Node) -> Option<S>, s: S, a: seq<Pair>, b: seq<Pair>)
    ensures FoldPairs(f, s, a + b) == if FoldPairs(f, s, a) == None then None else FoldPairs(f, FoldPairs(f, s, a).value, b)
  {
    if b == [] {
      assert a + b == a;
    } else {
      FoldAppend(f, s, a, b[..|b| - 1]);
      assert (a + b)[..|a + b| - 1] == a + b[..|b| - 1];
    }
  }

  lemma FoldOne<S>(f: (S, Node, Node) -> Option<S>, s: S, p: Pair)
    ensures FoldPairs(f, s, [p]) == f(s, p.lhs, p.rhs) && FoldPairs(f, s, []) == Some(s)
  {
    assert [p][..0] == [];
  }

  lemma IntegerOfHex(n: nat)
    requires n < U32
    ensures Integer(Scalar(HexToStr(n))) == Some(n)
  {
    HexReads(n);
  }

  lemma {:induction false} SymbolsRead(h: Hash, l: Library, ss: seq<Symbol>, before: seq<Symbol>)
    requires forall s :: s in ss ==> s.nid < U32
    ensures Collect(SymbolReader(h, l), before, SymbolNodes(ss)) == Some(before + ss)
  {
    hide HexToStr, Integer;
    if ss == [] {
      assert before + ss == before;
    } else {
      var n := |ss| - 1;
      assert SymbolNodes(ss)[..n] == SymbolNodes(ss[..n]);
      assert ss[n] in ss && forall s :: s in ss[..n] ==> s in ss;
      SymbolsRead(h, l, ss[..n], before);
      IntegerOfHex(ss[n].nid);
      assert ReadSymbol(h, l, SymbolNodes(ss)[n]) == Some(ss[n]);
      assert before + ss[..n] + [ss[n]] == before + ss;
    }
  }

  lemma FixedFieldsRead(h: Hash, l: Library)
    requires LibraryInRange(l)
    ensures var fixed := [Field("version", HexToStr(l.version)), Field("syscall", BoolToStr(l.syscall)), Field("nid", HexToStr(l.nid))];
      FoldPairs(LibraryStep(h), NewLibrary(h, l.name), fixed)
      == if l.version <= 0xFFFF then Some(KeptLibrary(l).(functions := [], variables := [])) else None
  {
    hide HexToStr, Integer, FoldPairs, VersionBytes;
    var f, s := LibraryStep(h), NewLibrary(h, l.name);
    var a, b, c := Field("version", HexToStr(l.version)), Field("syscall", BoolToStr(l.syscall)), Field("nid", HexToStr(l.nid));
    IntegerOfHex(l.version);
    IntegerOfHex(l.nid);
    assert [a, b, c] == [a] + [b] + [c];
    FoldOne(f, s, a);
    FoldAppend(f, s, [a], [b]);
    FoldAppend(f, s, [a] + [b], [c]);
    if l.version <= 0xFFFF {
      var s1 := s.(version := l.version, nid := h([VersionBytes(l.version), l.name]));
      var s2 := s1.(syscall := if l.syscall != 0 then 1 else 0);
      FoldOne(f, s1, b);
      FoldOne(f, s2, c);
    }
  }

  lemma FunctionsRead(h: Hash, l: Library, ss: seq<Symbol>)
    requires l.functions == [] && forall s :: s in ss ==> s.nid < U32
    ensures FoldPairs(LibraryStep(h), l, SymbolsField("functions", ss)) == Some(l.(functions := ss))
  {
    hide SymbolNodes, Collect, ReadSymbol, FoldPairs;
    SymbolsRead(h, l, ss, []);
    assert [] + ss == ss;
    if ss == [] {
      FoldOne(LibraryStep(h), l, Field("", ""));
    } else {
      FoldOne(LibraryStep(h), l, Pair(Scalar("functions"), Sequence(SymbolNodes(ss))));
    }
  }

  lemma VariablesRead(h: Hash, l: Library, ss: seq<Symbol>)
    requires l.variables == [] && forall s :: s in ss ==> s.nid < U32
    ensures FoldPairs(LibraryStep(h), l, SymbolsField("variables", ss)) == Some(l.(variables := ss))
  {
    hide SymbolNodes, Collect, ReadSymbol, FoldPairs;
    SymbolsRead(h, l, ss, []);
    assert [] + ss == ss;
    if ss == [] {
      FoldOne(LibraryStep(h), l, Field("", ""));
    } else {
      FoldOne(LibraryStep(h), l, Pair(Scalar("variables"), Sequence(SymbolNodes(ss))));
    }
  }

  lemma LibraryReads(h: Hash, l: Library)
    requires LibraryInRange(l)
    ensures FoldPairs(LibraryStep(h), NewLibrary(h, l.name), LibraryFields(l))
         == if l.version <= 0xFFFF then Some(KeptLibrary(l)) else None
  {
    FixedFieldsRead(h, l);
    hide FoldPairs, SymbolsField, HexToStr, LibraryStep;
    var f, s := LibraryStep(h), NewLibrary(h, l.name);
    var fixed := [Field("version", HexToStr(l.version)), Field("syscall", BoolToStr(l.syscall)), Field("nid", HexToStr(l.nid))];
    var fs, vs := SymbolsField("functions", l.functions), SymbolsField("variables", l.variables);
    FoldAppend(f, s, fixed, fs);
    FoldAppend(f, s, fixed + fs, vs);
    if l.version <= 0xFFFF {
      var s1 := KeptLibrary(l).(functions := [], variables := []);
      FunctionsRead(h, s1, l.functions);
      VariablesRead(h, s1.(functions := l.functions), l.variables);
    }
  }

  ghost predicate VersionsFit(ls: seq<Library>) {
    forall l :: l in ls ==> l.version <= 0xFFFF
  }

  lemma OneLibraryReads(h: Hash, m: Module, l: Library)
    requires LibraryInRange(l)
    ensures ReadLibrary(h, m, Scalar(l.name), Mapping(LibraryFields(l)))
         == if l.version <= 0xFFFF then Some(m.(libs := m.libs + [KeptLibrary(l)])) else None
  {
    hide LibraryFields, FoldPairs;
    LibraryReads(h, l);
  }

  lemma {:induction false} LibrariesRead(h: Hash, m: Module, ls: seq<Library>)
    requires forall l :: l in ls ==> LibraryInRange(l)
    ensures FoldPairs(LibrariesStep(h), m, LibraryPairs(ls))
         == if VersionsFit(ls) then Some(m.(libs := m.libs + KeptLibraries(ls))) else None
  {
    hide LibraryFields, ReadLibrary, LibraryInRange;
    if ls == [] {
      assert m.libs + KeptLibraries(ls) == m.libs;
    } else {
      var n := |ls| - 1;
      assert ls == ls[..n] + [ls[n]];
      assert LibraryInRange(ls[n]);
      LibrariesRead(h, m, ls[..n]);
      var p := Pair(Scalar(ls[n].name), Mapping(LibraryFields(ls[n])));
      assert LibraryPairs(ls)[..|LibraryPairs(ls)| - 1] == LibraryPairs(ls[..n]) && LibraryPairs(ls)[|LibraryPairs(ls)| - 1] == p;
      if VersionsFit(ls[..n]) {
        OneLibraryReads(h, m.(libs := m.libs + KeptLibraries(ls[..n])), ls[n]);
        assert m.libs + KeptLibraries(ls[..n]) + [KeptLibrary(ls[n])] == m.libs + KeptLibraries(ls);
      }
    }
  }

  lemma VersionReads(m: Module, x: Module)
    requires InRange(x)
    ensures OverMapping(ReadVersionField, m, VersionNode(x)) == Some(m.(verMajor := x.verMajor, verMinor := x.verMinor))
  {
    hide HexToStr, Integer, FoldPairs;
    var a, b := Field("major", HexToStr(x.verMajor)), Field("minor", HexToStr(x.verMinor));
    IntegerOfHex(x.verMajor);
    IntegerOfHex(x.verMinor);
    assert [a, b] == [a] + [b];
    FoldAppend(ReadVersionField, m, [a], [b]);
    FoldOne(ReadVersionField, m, a);
    FoldOne(ReadVersionField, m.(verMajor := x.verMajor), b);
  }

  lemma OptionalReads(m: Module, key: string, value: Option<string>)
    requires key == "start" || key == "stop" || key == "exit"
    ensures value == None ==> FoldPairs(ReadMainField, m, Optional(key, value)) == Some(m)
    ensures value.Some? && key == "start" ==> FoldPairs(ReadMainField, m, Optional(key, value)) == Some(m.(start := value))
    ensures value.Some? && key == "stop" ==> FoldPairs(ReadMainField, m, Optional(key, value)) == Some(m.(stop := value))
    ensures value.Some? && key == "exit" ==> FoldPairs(ReadMainField, m, Optional(key, value)) == Some(m.(exit := value))
  {
    hide FoldPairs;
    FoldOne(ReadMainField, m, Field(key, if value.Some? then value.value else ""));
  }

  lemma MainReads(m: Module, x: Module)
    requires m.start == None && m.stop == None && m.exit == None
    ensures FoldPairs(ReadMainField, m, MainFields(x)) == Some(m.(start := x.start, stop := x.stop, exit := x.exit))
  {
    hide FoldPairs, Optional, ReadMainField;
    var a, b, c := Optional("start", x.start), Optional("stop", x.stop), Optional("exit", x.exit);
    FoldAppend(ReadMainField, m, a, b);
    FoldAppend(ReadMainField, m, a + b, c);
    OptionalReads(m, "start", x.start);
    OptionalReads(m.(start := x.start), "stop", x.stop);
    OptionalReads(m.(start := x.start, stop := x.stop), "exit", x.exit);
  }

  lemma HeadReads(h: Hash, m: Module, x: Module)
    requires InRange(x)
    ensures var head := [Field("attributes", HexToStr(x.attributes)), Pair(Scalar("version"), VersionNode(x)), Field("nid", HexToStr(x.nid))];
      FoldPairs(ModuleStep(h), m, head)
      == Some(m.(attributes := x.attributes, verMajor := x.verMajor, verMinor := x.verMinor, nid := x.nid))
  {
    hide HexToStr, Integer, FoldPairs, OverMapping, VersionNode;
    var f := ModuleStep(h);
    var a, b, c := Field("attributes", HexToStr(x.attributes)), Pair(Scalar("version"), VersionNode(x)), Field("nid", HexToStr(x.nid));
    assert x.attributes < 0x1_0000 && x.nid < U32;
    IntegerOfHex(x.attributes);
    IntegerOfHex(x.nid);
    assert [a, b, c] == [a] + [b] + [c];
    FoldAppend(f, m, [a], [b]);
    FoldAppend(f, m, [a] + [b], [c]);
    var m1 := m.(attributes := x.attributes);
    var m2 := m1.(verMajor := x.verMajor, verMinor := x.verMinor);
    VersionReads(m1, x);
    FoldOne(f, m, a);
    FoldOne(f, m1, b);
    FoldOne(f, m2, c);
  }

  lemma TailReads(h: Hash, m: Module, x: Module)
    requires InRange(x) && m.start == None && m.stop == None && m.exit == None && m.libs == []
    ensures FoldPairs(ModuleStep(h), m, MainPair(x) + LibrariesPair(x))
         == if VersionsFit(x.libs) then Some(m.(start := x.start, stop := x.stop, exit := x.exit, libs := KeptLibraries(x.libs))) else None
  {
    hide FoldPairs, MainFields, LibraryPairs, LibraryInRange, ReadMainField;
    var f, m1 := ModuleStep(h), m.(start := x.start, stop := x.stop, exit := x.exit);
    FoldAppend(f, m, MainPair(x), LibrariesPair(x));
    MainReads(m, x);
    LibrariesRead(h, m1, x.libs);
    FoldOne(f, m, Pair(Scalar("main"), Mapping(MainFields(x))));
    FoldOne(f, m1, Pair(Scalar("libraries"), Mapping(LibraryPairs(x.libs))));
    assert [] + KeptLibraries(x.libs) == KeptLibraries(x.libs);
    assert x.libs == [] ==> KeptLibraries(x.libs) == [];
  }

  /** What is printed is read back, up to what the printed form keeps, exactly when the name has
      at most 26 characters and no library version is above 0xFFFF. */
  lemma ExportsReadBackIff(h: Hash, x: Module, defaultNid: nat)
    requires InRange(x)
    ensures ReadModule(h, ExportNode(x), defaultNid)
         == if |x.name| <= 26 && VersionsFit(x.libs) then Some(Kept(x)) else None
  {
    hide FoldPairs, MainPair, LibrariesPair, HexToStr, VersionNode, ModuleStep, VersionsFit, InRange;
    var f, m := ModuleStep(h), NewModule(x.name, defaultNid);
    var head := [Field("attributes", HexToStr(x.attributes)), Pair(Scalar("version"), VersionNode(x)), Field("nid", HexToStr(x.nid))];
    var tail := MainPair(x) + LibrariesPair(x);
    assert ModulePairs(x) == head + tail;
    FoldAppend(f, m, head, tail);
    HeadReads(h, m, x);
    TailReads(h, m.(attributes := x.attributes, verMajor := x.verMajor, verMinor := x.verMinor, nid := x.nid), x);
  }

  // ---- the printer ----

  lemma {:induction false} PairEventsAppend(a: seq<Pair>, b: seq<Pair>)
    ensures PairEvents(a + b) == PairEvents(a) + PairEvents(b)
  {
    hide EventsOfPair;
    if a == [] {
      assert a + b == b;
    } else {
      assert (a + b)[1..] == a[1..] + b;
      PairEventsAppend(a[1..], b);
    }
  }

  lemma {:induction false} EventsOfAppend(a: seq<Node>, b: seq<Node>)
    ensures EventsOf(a + b) == EventsOf(a) + EventsOf(b)
  {
    hide Events;
    if a == [] {
      assert a + b == b;
    } else {
      assert (a + b)[1..] == a[1..] + b;
      EventsOfAppend(a[1..], b);
    }
  }

  lemma OnePair(k: string, n: Node)
    ensures PairEvents([Pair(Scalar(k), n)]) == [ScalarOf(k)] + Events(n)
  {
    var p := Pair(Scalar(k), n);
    assert [p][1..] == [] && PairEvents([]) == [];
    assert PairEvents([p]) == EventsOfPair(p) + [];
    assert EventsOfPair(p) == [ScalarOf(k)] + Events(n);
  }

  /** `yaml_emitter_t`: the events it was given. */
  class Emitter {
    var out: seq<Event>

    constructor ()
      ensures out == []
    {
      out := [];
    }

    method Emit(e: Event)
      modifies this
      ensures out == old(out) + [e]
    {
      out := out + [e];
    }

    /** `yamlemitter_key_value`. */
    method KeyValue(key: string, value: string)
      modifies this
      ensures out == old(out) + PairEvents([Field(key, value)])
    {
      OnePair(key, Scalar(value));
      Emit(ScalarOf(key));
      Emit(ScalarOf(value));
    }

    method WriteSymbol(s: Symbol)
      modifies this
      ensures out == old(out) + Events(SymbolNode(s))
    {
      hide PairEvents, HexToStr;
      Emit(MapStart);
      KeyValue(s.name, HexToStr(s.nid));
      Emit(MapEnd);
    }

    /** `pack_export_symbols`. */
    method PackSymbols(ss: seq<Symbol>)
      modifies this
      ensures out == old(out) + Events(Sequence(SymbolNodes(ss)))
    {
      hide SymbolNode;
      Emit(SeqStart);
      ghost var start := out;
      assert EventsOf(SymbolNodes([])) == [];
      for i := 0 to |ss|
        invariant out == start + EventsOf(SymbolNodes(ss[..i]))
      {
        hide Events;
        WriteSymbol(ss[i]);
        assert SymbolNodes(ss[..i + 1]) == SymbolNodes(ss[..i]) + [SymbolNode(ss[i])];
        hide SymbolNodes;
        EventsOfAppend(SymbolNodes(ss[..i]), [SymbolNode(ss[i])]);
        OneNode(SymbolNode(ss[i]));
      }
      assert ss[..|ss|] == ss;
      Emit(SeqEnd);
    }

    /** A table of symbols, if there are any. */
    method WriteSymbols(key: string, ss: seq<Symbol>)
      modifies this
      ensures out == old(out) + PairEvents(SymbolsField(key, ss))
    {
      hide Events, PairEvents, SymbolNodes;
      NoPairs();
      if ss != [] {
        Emit(ScalarOf(key));
        PackSymbols(ss);
        OnePair(key, Sequence(SymbolNodes(ss)));
      }
    }

    /** The three fields every library has. */
    method WriteFixed(l: Library)
      modifies this
      ensures out == old(out)
        + PairEvents([Field("version", HexToStr(l.version)), Field("syscall", BoolToStr(l.syscall)), Field("nid", HexToStr(l.nid))])
    {
      hide PairEvents, HexToStr, BoolToStr;
      ghost var a, b, c := Field("version", HexToStr(l.version)), Field("syscall", BoolToStr(l.syscall)), Field("nid", HexToStr(l.nid));
      KeyValue("version", HexToStr(l.version));
      KeyValue("syscall", BoolToStr(l.syscall));
      KeyValue("nid", HexToStr(l.nid));
      assert [a, b, c] == [a] + [b] + [c];
      PairEventsAppend([a], [b]);
      PairEventsAppend([a] + [b], [c]);
    }

    /** One library: its name and its fields. */
    method WriteLibrary(l: Library)
      modifies this
      ensures out == old(out) + PairEvents([Pair(Scalar(l.name), Mapping(LibraryFields(l)))])
    {
      ghost var fixed := [Field("version", HexToStr(l.version)), Field("syscall", BoolToStr(l.syscall)), Field("nid", HexToStr(l.nid))];
      ghost var fs, vs := SymbolsField("functions", l.functions), SymbolsField("variables", l.variables);
      Emit(ScalarOf(l.name));
      Emit(MapStart);
      WriteFixed(l);
      WriteSymbols("functions", l.functions);
      WriteSymbols("variables", l.variables);
      Emit(MapEnd);
      PairEventsAppend(fixed, fs);
      PairEventsAppend(fixed + fs, vs);
      OnePair(l.name, Mapping(LibraryFields(l)));
      assert Events(Mapping(LibraryFields(l))) == [MapStart] + PairEvents(LibraryFields(l)) + [MapEnd];
    }

    method WriteOptional(key: string, value: Option<string>)
      modifies this
      ensures out == old(out) + PairEvents(Optional(key, value))
    {
      hide PairEvents;
      NoPairs();
      if value.Some? {
        KeyValue(key, value.value);
      }
    }

    /** The entry points, if there are any. */
    method WriteMain(x: Module)
      modifies this
      ensures out == old(out) + PairEvents(MainPair(x))
    {
      hide PairEvents, Optional;
      NoPairs();
      if x.start.Some? || x.stop.Some? || x.exit.Some? {
        Emit(ScalarOf("main"));
        Emit(MapStart);
        WriteOptional("start", x.start);
        WriteOptional("stop", x.stop);
        WriteOptional("exit", x.exit);
        Emit(MapEnd);
        var a, b, c := Optional("start", x.start), Optional("stop", x.stop), Optional("exit", x.exit);
        PairEventsAppend(a, b);
        PairEventsAppend(a + b, c);
        OnePair("main", Mapping(MainFields(x)));
        assert Events(Mapping(MainFields(x))) == [MapStart] + PairEvents(MainFields(x)) + [MapEnd];
      }
    }

    method WriteLibraries(x: Module)
      modifies this
      ensures out == old(out) + PairEvents(LibrariesPair(x))
    {
      hide PairEvents, LibraryFields;
      NoPairs();
      if |x.libs| > 0 {
        Emit(ScalarOf("libraries"));
        Emit(MapStart);
        ghost var start := out;
        for i := 0 to |x.libs|
          invariant out == start + PairEvents(LibraryPairs(x.libs[..i]))
        {
          WriteLibrary(x.libs[i]);
          assert x.libs[..i + 1][..i] == x.libs[..i];
          PairEventsAppend(LibraryPairs(x.libs[..i]), [Pair(Scalar(x.libs[i].name), Mapping(LibraryFields(x.libs[i])))]);
        }
        assert x.libs[..|x.libs|] == x.libs;
        Emit(MapEnd);
        OnePair("libraries", Mapping(LibraryPairs(x.libs)));
      }
    }

    /** The fields of the module. */
    method WriteFields(x: Module)
      modifies this
      ensures out == old(out) + PairEvents(ModulePairs(x))
    {
      hide PairEvents, HexToStr, MainPair, LibrariesPair;
      ghost var a, c := Field("attributes", HexToStr(x.attributes)), Field("nid", HexToStr(x.nid));
      ghost var b := Pair(Scalar("version"), VersionNode(x));
      ghost var major, minor := Field("major", HexToStr(x.verMajor)), Field("minor", HexToStr(x.verMinor));
      KeyValue("attributes", HexToStr(x.attributes));
      Emit(ScalarOf("version"));
      Emit(MapStart);
      KeyValue("major", HexToStr(x.verMajor));
      KeyValue("minor", HexToStr(x.verMinor));
      Emit(MapEnd);
      assert [major, minor] == [major] + [minor];
      PairEventsAppend([major], [minor]);
      OnePair("version", VersionNode(x));
      assert out == old(out) + PairEvents([a]) + PairEvents([b]);
      KeyValue("nid", HexToStr(x.nid));
      WriteMain(x);
      WriteLibraries(x);
      assert [a, b, c] == [a] + [b] + [c];
      PairEventsAppend([a], [b]);
      PairEventsAppend([a] + [b], [c]);
      PairEventsAppend([a, b, c], MainPair(x));
      PairEventsAppend([a, b, c] + MainPair(x), LibrariesPair(x));
    }

    /** `write_exports`. */
    method WriteExports(x: Module)
      requires out == []
      modifies this
      ensures out == StreamEvents([ExportNode(x)])
    {
      hide PairEvents, ModulePairs;
      Emit(StreamStart);
      Emit(DocStart);
      Emit(MapStart);
      Emit(ScalarOf(x.name));
      Emit(MapStart);
      WriteFields(x);
      Emit(MapEnd);
      Emit(MapEnd);
      Emit(DocEnd);
      Emit(StreamEnd);
      OnePair(x.name, Mapping(ModulePairs(x)));
      var body := PairEvents(ModulePairs(x));
      assert Events(ExportNode(x)) == [MapStart] + ([ScalarOf(x.name)] + ([MapStart] + body + [MapEnd])) + [MapEnd];
      hide Events, ExportNode;
      OneDocument(ExportNode(x));
    }
  }

  lemma NoPairs()
    ensures PairEvents([]) == []
  {
  }

  lemma OneNode(n: Node)
    ensures EventsOf([n]) == Events(n)
  {
    hide Events;
    assert [n][1..] == [] && EventsOf([]) == [];
  }

  lemma OneDocument(n: Node)
    ensures StreamEvents([n]) == [StreamStart, DocStart] + Events(n) + [DocEnd, StreamEnd]
  {
    hide Events;
    assert [n][1..] == [] && DocumentsEvents([]) == [];
  }

  lemma {:induction false} PairsAliasFreeAppend(a: seq<Pair>, b: seq<Pair>)
    ensures PairsAliasFree(a + b) == (PairsAliasFree(a) && PairsAliasFree(b))
  {
    hide PairAliasFree;
    if a == [] {
      assert a + b == b;
    } else {
      assert (a + b)[1..] == a[1..] + b;
      PairsAliasFreeAppend(a[1..], b);
    }
  }

  lemma PairsPlain(ps: seq<Pair>)
    requires forall p :: p in ps ==> PairAliasFree(p)
    ensures PairsAliasFree(ps)
  {
    hide PairAliasFree;
    if ps != [] {
      assert ps[0] in ps && forall p :: p in ps[1..] ==> p in ps;
      PairsPlain(ps[1..]);
    }
  }

  lemma {:induction false} SymbolNodesPlain(ss: seq<Symbol>)
    ensures AllAliasFree(SymbolNodes(ss))
  {
    if ss != [] {
      var ns := SymbolNodes(ss);
      assert ns[1..] == SymbolNodes(ss[1..]);
      SymbolNodesPlain(ss[1..]);
      PairsPlain([Field(ss[0].name, HexToStr(ss[0].nid))]);
      hide SymbolNodes, HexToStr, PairsAliasFree;
      assert AliasFree(ns[0]);
    }
  }

  lemma LibraryPlain(l: Library)
    ensures PairAliasFree(Pair(Scalar(l.name), Mapping(LibraryFields(l))))
  {
    hide HexToStr, BoolToStr;
    SymbolNodesPlain(l.functions);
    SymbolNodesPlain(l.variables);
    hide SymbolNodes;
    assert forall p :: p in LibraryFields(l) ==> PairAliasFree(p) by { hide PairsAliasFree, AllAliasFree; }
    PairsPlain(LibraryFields(l));
    hide LibraryFields, PairsAliasFree;
  }

  lemma {:induction false} LibrariesPlain(ls: seq<Library>)
    ensures PairsAliasFree(LibraryPairs(ls))
  {
    hide PairAliasFree, LibraryFields;
    if ls != [] {
      var n := |ls| - 1;
      LibrariesPlain(ls[..n]);
      LibraryPlain(ls[n]);
      var p := [Pair(Scalar(ls[n].name), Mapping(LibraryFields(ls[n])))];
      PairsPlain(p);
      PairsAliasFreeAppend(LibraryPairs(ls[..n]), p);
    }
  }

  /** There are no aliases in what is printed, so the stream parser returns exactly it. */
  lemma PrintedStreamParses(x: Module)
    ensures AliasFree(ExportNode(x))
    ensures var es := StreamEvents([ExportNode(x)]); ParseDocuments(es) == Some(([ExportNode(x)], |es|))
  {
    ModulePlain(x);
    hide AliasFree, ExportNode, ParseDocuments, StreamEvents;
    StreamParsesIff([ExportNode(x)]);
  }

  lemma MainPlain(x: Module)
    ensures forall p :: p in MainPair(x) ==> PairAliasFree(p)
  {
    PairsPlain(MainFields(x));
    hide MainFields, PairsAliasFree;
  }

  lemma LibrariesPairPlain(x: Module)
    ensures forall p :: p in LibrariesPair(x) ==> PairAliasFree(p)
  {
    LibrariesPlain(x.libs);
    hide LibraryPairs, PairsAliasFree;
  }

  lemma HeadPlain(x: Module)
    ensures PairAliasFree(Field("attributes", HexToStr(x.attributes))) && PairAliasFree(Field("nid", HexToStr(x.nid)))
    ensures PairAliasFree(Pair(Scalar("version"), VersionNode(x)))
  {
    hide HexToStr;
    PairsPlain([Field("major", HexToStr(x.verMajor)), Field("minor", HexToStr(x.verMinor))]);
    hide PairsAliasFree;
  }

  lemma ModulePlain(x: Module)
    ensures AliasFree(ExportNode(x))
  {
    var m := ModulePairs(x);
    MainPlain(x);
    LibrariesPairPlain(x);
    HeadPlain(x);
    assert forall p :: p in m ==> PairAliasFree(p) by {
      hide PairAliasFree, HexToStr, VersionNode, MainPair, LibrariesPair;
    }
    PairsPlain(m);
    hide ModulePairs;
    var p := Pair(Scalar(x.name), Mapping(m));
    assert PairAliasFree(p) by { hide PairsAliasFree; }
    PairsPlain([p]);
    hide PairsAliasFree;
  }

  // ---- the reader ----

  lemma {:induction false} FoldPrefixFails<S>(f: (S, Node, Node) -> Option<S>, s: S, pairs: seq<Pair>, i: nat)
    requires i <= |pairs| && FoldPairs(f, s, pairs[..i]) == None
    ensures FoldPairs(f, s, pairs) == None
  {
    FoldAppend(f, s, pairs[..i], pairs[i..]);
    assert pairs[..i] + pairs[i..] == pairs;
  }

  lemma {:induction false} CollectPrefixFails(f: Node -> Option<Symbol>, ss: seq<Symbol>, nodes: seq<Node>, i: nat)
    requires i <= |nodes| && Collect(f, ss, nodes[..i]) == None
    ensures Collect(f, ss, nodes) == None
  {
    if i < |nodes| {
      assert nodes[..|nodes| - 1][..i] == nodes[..i];
      CollectPrefixFails(f, ss, nodes[..|nodes| - 1], i);
    } else {
      assert nodes[..i] == nodes;
    }
  }

  /** `vita_library_export` while it is being read. */
  class LibraryExport {
    const name: string
    var version: nat
    var syscall: int
    var nid: nat
    var functions: seq<Symbol>
    var variables: seq<Symbol>

    function View(): Library
      reads this
    {
      Library(name, version, syscall, nid, functions, variables)
    }

    constructor (h: Hash, name: string)
      ensures View() == NewLibrary(h, name)
    {
      this.name := name;
      nid := h([name]);
      syscall, version, functions, variables := 0, 1, [], [];
    }

    /** `process_functions` and `process_variables`. */
    method ProcessSymbol(h: Hash, entry: Node) returns (s: Option<Symbol>)
      ensures s == ReadSymbol(h, View(), entry)
    {
      match entry
      case Scalar(v) =>
        if version == 0 || version == 1 || syscall != 0 {
          s := Some(Symbol(v, h([v])));
        } else {
          s := Some(Symbol(v, h([VersionBytes(version), name, v])));
        }
      case Mapping(pairs) =>
        if |pairs| != 1 || !pairs[0].lhs.Scalar? || !pairs[0].rhs.Scalar? {
          return None;
        }
        var n := Integer(pairs[0].rhs);
        s := if n == None then None else Some(Symbol(pairs[0].lhs.value, n.value));
      case _ =>
        s := None;
    }

    /** The symbols of a sequence, appended one by one. */
    method AppendSymbols(h: Hash, ss: seq<Symbol>, child: Node) returns (r: Option<seq<Symbol>>)
      ensures child.Sequence? ==> r == Collect(SymbolReader(h, View()), ss, child.nodes)
      ensures !child.Sequence? ==> r == None
    {
      if !child.Sequence? {
        return None;
      }
      ghost var l := View();
      ghost var f := SymbolReader(h, l);
      var nodes, all := child.nodes, ss;
      for i := 0 to |nodes|
        invariant Collect(f, ss, nodes[..i]) == Some(all)
      {
        assert nodes[..i + 1][..i] == nodes[..i];
        var s := ProcessSymbol(h, nodes[i]);
        if s == None {
          CollectPrefixFails(f, ss, nodes, i + 1);
          return None;
        }
        all := all + [s.value];
      }
      assert nodes[..|nodes|] == nodes;
      r := Some(all);
    }

    /** `process_export`. */
    method ProcessExport(h: Hash, parent: Node, child: Node) returns (ok: bool)
      modifies this
      ensures var r := ReadLibraryField(h, old(View()), parent, child); ok == r.Some? && (ok ==> View() == r.value)
    {
      hide Integer, Boolean, ReadSymbol, Collect, VersionBytes;
      if !parent.Scalar? {
        return false;
      }
      var key := parent.value;
      if key == "syscall" {
        var b := Boolean(child);
        if b == None {
          return false;
        }
        syscall := b.value;
      } else if key == "functions" {
        var r := AppendSymbols(h, functions, child);
        if r == None {
          return false;
        }
        functions := r.value;
      } else if key == "variables" {
        var r := AppendSymbols(h, variables, child);
        if r == None {
          return false;
        }
        variables := r.value;
      } else if key == "nid" {
        var n := Integer(child);
        if n == None {
          return false;
        }
        nid := n.value;
      } else if key == "version" {
        var n := Integer(child);
        if n == None {
          return false;
        }
        version := n.value;
        if version > 0xFFFF {
          return false;
        }
        nid := h([VersionBytes(version), name]);
      } else {
        return false;
      }
      ok := true;
    }
  }

  /** `vita_export_t` while it is being read. */
  class ModuleExport {
    const name: string
    var verMajor: nat
    var verMinor: nat
    var attributes: nat
    var nid: nat
    var isProcessImage: bool
    var isImageModule: bool
    var bootstart: Option<string>
    var start: Option<string>
    var stop: Option<string>
    var exit: Option<string>
    var libs: seq<Library>

    function View(): Module
      reads this
    {
      Module(name, verMajor, verMinor, attributes, nid, isProcessImage, isImageModule, bootstart, start, stop, exit, libs)
    }

    constructor (name: string, defaultNid: nat)
      ensures View() == NewModule(name, defaultNid)
    {
      this.name, nid := name, defaultNid;
      verMajor, verMinor, attributes, isProcessImage, isImageModule := 0, 0, 0, false, false;
      bootstart, start, stop, exit, libs := None, None, None, None, [];
    }

    /** `process_module_version`. */
    method ProcessModuleVersion(parent: Node, child: Node) returns (ok: bool)
      modifies this
      ensures var r := ReadVersionField(old(View()), parent, child); ok == r.Some? && (ok ==> View() == r.value)
    {
      hide Integer;
      if !parent.Scalar? {
        return false;
      }
      var key, n := parent.value, Integer(child);
      if key == "major" {
        if n == None || n.value > 0xFF {
          return false;
        }
        verMajor := n.value;
      } else if key == "minor" {
        if n == None || n.value > 0xFF {
          return false;
        }
        verMinor := n.value;
      } else {
        return false;
      }
      ok := true;
    }

    /** `process_syslib_list`. */
    method ProcessSyslibList(parent: Node, child: Node) returns (ok: bool)
      modifies this
      ensures var r := ReadMainField(old(View()), parent, child); ok == r.Some? && (ok ==> View() == r.value)
    {
      if !parent.Scalar? || !child.Scalar? {
        return false;
      }
      var key := parent.value;
      if key == "start" {
        start := Some(child.value);
      } else if key == "bootstart" {
        bootstart := Some(child.value);
      } else if key == "stop" {
        stop := Some(child.value);
      } else if key == "exit" {
        exit := Some(child.value);
      } else {
        return false;
      }
      ok := true;
    }

    /** `process_export_list`: the library is filled before it is appended. */
    method ProcessExportList(h: Hash, parent: Node, child: Node) returns (ok: bool)
      modifies this
      ensures var r := ReadLibrary(h, old(View()), parent, child); ok == r.Some? && (ok ==> View() == r.value)
    {
      hide ReadLibraryField, FoldPairs;
      if !parent.Scalar? {
        return false;
      }
      var lib := new LibraryExport(h, parent.value);
      if !child.Mapping? {
        return false;
      }
      ghost var f, l := LibraryStep(h), NewLibrary(h, parent.value);
      FoldOne(f, l, Field("", ""));
      for i := 0 to |child.pairs|
        invariant fresh(lib) && FoldPairs(f, l, child.pairs[..i]) == Some(lib.View()) && View() == old(View())
      {
        FoldLast(f, l, child.pairs, i);
        ok := lib.ProcessExport(h, child.pairs[i].lhs, child.pairs[i].rhs);
        if !ok {
          FoldPrefixFails(f, l, child.pairs, i + 1);
          return false;
        }
      }
      assert child.pairs[..|child.pairs|] == child.pairs;
      libs := libs + [lib.View()];
      ok := true;
    }

    /** `yaml_iterate_mapping` with the three handlers above. */
    method IterateVersion(child: Node) returns (ok: bool)
      modifies this
      ensures var r := OverMapping(ReadVersionField, old(View()), child); ok == r.Some? && (ok ==> View() == r.value)
    {
      hide ReadVersionField, FoldPairs;
      if !child.Mapping? {
        return false;
      }
      ghost var m := View();
      FoldOne(ReadVersionField, m, Field("", ""));
      for i := 0 to |child.pairs|
        invariant FoldPairs(ReadVersionField, m, child.pairs[..i]) == Some(View())
      {
        FoldLast(ReadVersionField, m, child.pairs, i);
        ok := ProcessModuleVersion(child.pairs[i].lhs, child.pairs[i].rhs);
        if !ok {
          FoldPrefixFails(ReadVersionField, m, child.pairs, i + 1);
          return;
        }
      }
      assert child.pairs[..|child.pairs|] == child.pairs;
      ok := true;
    }

    method IterateMain(child: Node) returns (ok: bool)
      modifies this
      ensures var r := OverMapping(ReadMainField, old(View()), child); ok == r.Some? && (ok ==> View() == r.value)
    {
      hide ReadMainField, FoldPairs;
      if !child.Mapping? {
        return false;
      }
      ghost var m := View();
      FoldOne(ReadMainField, m, Field("", ""));
      for i := 0 to |child.pairs|
        invariant FoldPairs(ReadMainField, m, child.pairs[..i]) == Some(View())
      {
        FoldLast(ReadMainField, m, child.pairs, i);
        ok := ProcessSyslibList(child.pairs[i].lhs, child.pairs[i].rhs);
        if !ok {
          FoldPrefixFails(ReadMainField, m, child.pairs, i + 1);
          return;
        }
      }
      assert child.pairs[..|child.pairs|] == child.pairs;
      ok := true;
    }

    method IterateLibraries(h: Hash, child: Node) returns (ok: bool)
      modifies this
      ensures var r := OverMapping(LibrariesStep(h), old(View()), child); ok == r.Some? && (ok ==> View() == r.value)
    {
      hide ReadLibrary, FoldPairs;
      if !child.Mapping? {
        return false;
      }
      ghost var m, f := View(), LibrariesStep(h);
      FoldOne(f, m, Field("", ""));
      for i := 0 to |child.pairs|
        invariant FoldPairs(f, m, child.pairs[..i]) == Some(View())
      {
        FoldLast(f, m, child.pairs, i);
        ok := ProcessExportList(h, child.pairs[i].lhs, child.pairs[i].rhs);
        if !ok {
          FoldPrefixFails(f, m, child.pairs, i + 1);
          return;
        }
      }
      assert child.pairs[..|child.pairs|] == child.pairs;
      ok := true;
    }

    /** `process_module_info`. */
    method ProcessModuleInfo(h: Hash, parent: Node, child: Node) returns (ok: bool)
      modifies this
      ensures var r := ReadModuleField(h, old(View()), parent, child); ok == r.Some? && (ok ==> View() == r.value)
    {
      hide Integer, Boolean, OverMapping, ReadMainField, ReadVersionField, LibrariesStep;
      if !parent.Scalar? {
        return false;
      }
      var key := parent.value;
      if key == "attributes" {
        var n := Integer(child);
        if n == None || n.value > 0xFFFF {
          return false;
        }
        attributes := n.value;
        ok := true;
      } else if key == "process_image" {
        var b := Boolean(child);
        if b == None {
          return false;
        }
        isProcessImage := b == Some(1);
        ok := true;
      } else if key == "imagemodule" {
        var b := Boolean(child);
        if b == None {
          return false;
        }
        isImageModule := b == Some(1);
        ok := true;
      } else if key == "version" {
        ok := IterateVersion(child);
      } else if key == "nid" {
        var n := Integer(child);
        if n == None {
          return false;
        }
        nid := n.value;
        ok := true;
      } else if key == "main" {
        ok := IterateMain(child);
      } else if key == "modules" || key == "libraries" {
        ok := IterateLibraries(h, child);
      } else {
        ok := false;
      }
    }
  }

  lemma FoldLast<S>(f: (S, Node, Node) -> Option<S>, s: S, pairs: seq<Pair>, i: nat)
    requires i < |pairs| && FoldPairs(f, s, pairs[..i]).Some?
    ensures FoldPairs(f, s, pairs[..i + 1]) == f(FoldPairs(f, s, pairs[..i]).value, pairs[i].lhs, pairs[i].rhs)
  {
    assert pairs[..i + 1][..i] == pairs[..i];
  }

  /** `read_module_exports`. */
  method ReadModuleExports(h: Hash, doc: Node, defaultNid: nat) returns (r: ModuleExport?)
    ensures (r != null) == ReadModule(h, doc, defaultNid).Some?
    ensures r != null ==> fresh(r) && r.View() == ReadModule(h, doc, defaultNid).value
  {
    hide ReadModuleField, FoldPairs;
    if !doc.Mapping? || |doc.pairs| != 1 || !doc.pairs[0].lhs.Scalar? || |doc.pairs[0].lhs.value| >= 27 {
      return null;
    }
    var name, rest := doc.pairs[0].lhs.value, doc.pairs[0].rhs;
    var e := new ModuleExport(name, defaultNid);
    if !rest.Mapping? {
      return null;
    }
    ghost var m, f := e.View(), ModuleStep(h);
    FoldOne(f, m, Field("", ""));
    for i := 0 to |rest.pairs|
      invariant fresh(e) && FoldPairs(f, m, rest.pairs[..i]) == Some(e.View())
    {
      FoldLast(f, m, rest.pairs, i);
      var ok := e.ProcessModuleInfo(h, rest.pairs[i].lhs, rest.pairs[i].rhs);
      if !ok {
        FoldPrefixFails(f, m, rest.pairs, i + 1);
        return null;
      }
    }
    assert rest.pairs[..|rest.pairs|] == rest.pairs;
    r := e;
  }

  /** Printing, parsing the events and reading: the whole way round, for every export
      description and every answer of the hash. */
  method RoundTrip(h: Hash, x: Module, defaultNid: nat) returns (r: ModuleExport?)
    requires InRange(x)
    ensures (r != null) == (|x.name| <= 26 && VersionsFit(x.libs))
    ensures r != null ==> r.View() == Kept(x)
  {
    var emitter := new Emitter();
    emitter.WriteExports(x);
    var parser := new Parser(emitter.out, false);
    PrintedStreamParses(x);
    assert parser.Ready(-1);
    assert emitter.out != [] && emitter.out[0] == StreamStart;
    var docs := parser.ParseStream();
    assert docs == Some([ExportNode(x)]);
    ExportsReadBackIff(h, x, defaultNid);
    r := ReadModuleExports(h, docs.value[0], defaultNid);
  }
}
