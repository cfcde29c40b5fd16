/** The argument scanner of vita-mksfoex (getopt_long.c). `Scan` is a reference
    parser that reads the original words once, left to right, and never moves
    anything; the class `Scanner` is the C state machine, which permutes nargv
    as it goes and is proved to agree with `Scan` call by call. */
module Getopt {
  import opened PermuteArgs
  import opened Wrappers

  datatype HasArg = NoArgument | RequiredArgument | OptionalArgument

  /** `struct option`; `flag` says whether the flag pointer is set. */
  datatype LongOption = LongOption(name: string, hasArg: HasArg, flag: bool, val: int)

  /** The caller's option tables and the environment's POSIXLY_CORRECT. */
  datatype Config = Config(options: string, longs: seq<LongOption>, posixlyCorrect: bool) {
    predicate IgnoreFirst() {
      options != "" && (options[0] == '-' || options[0] == '+')
    }
    predicate InOrder() {
      !posixlyCorrect && options != "" && options[0] == '-'
    }
    predicate Permuting() {
      !posixlyCorrect && !IgnoreFirst()
    }
    function BadArg(): int {
      if (IgnoreFirst() && |options| > 1 && options[1] == ':') || (options != "" && options[0] == ':')
      then ':' as int else '?' as int
    }
  }

  const BADCH := '?' as int
  const INORDER := 1

  /** What one call hands to the caller: the return value and optarg. */
  datatype Event = Event(ret: int, arg: Option<string>)

  // ---- reference parser ----

  /** One call's effect: an event, the number of words it finishes and what is left
      of the current cluster; or the end of the options. */
  datatype Step = Step(event: Event, used: nat, rest: string) | End(used: nat)

  /** The first index at or after `from` holding c, or |s|: `strchr`. */
  function IndexOf(s: string, c: char, from: nat): (i: nat)
    requires from <= |s|
    ensures from <= i <= |s| && (i < |s| ==> s[i] == c)
    ensures forall j :: from <= j < i ==> s[j] != c
    decreases |s| - from
  {
    if from == |s| || s[from] == c then from else IndexOf(s, c, from + 1)
  }

  predicate IsNonOption(word: string) {
    word == "" || word[0] != '-' || |word| == 1
  }

  function At(args: seq<string>, k: nat): Option<string> {
    if k < |args| then Some(args[k]) else None
  }

  datatype Match = Found(index: nat) | Ambiguous | NotFound

  /** Matching of a long option name from table entry i on, `best` being the partial match
      seen so far: an exact name ends the search, a second partial match ends it in error. */
  function LongMatch(longs: seq<LongOption>, name: string, i: nat, best: Option<nat>): (m: Match)
    requires i <= |longs| && (best.Some? ==> best.value < i)
    ensures m.Found? ==> m.index < |longs|
    decreases |longs| - i
  {
    if i == |longs| then
      if best.Some? then Found(best.value) else NotFound
    else if !(name <= longs[i].name) then LongMatch(longs, name, i + 1, best)
    else if |longs[i].name| == |name| then Found(i)
    else if best == None then LongMatch(longs, name, i + 1, Some(i))
    else Ambiguous
  }

  /** A long option text (after "--", or the argument of -W) with `used` words already
      consumed; next is the word that a required argument may take. */
  function LongStep(cfg: Config, text: string, used: nat, next: Option<string>): (s: Step)
    ensures s.used == used || (s.Step? && next.Some? && s.used == used + 1)
    ensures s.Step? ==> s.rest == ""
  {
    if text == "" then End(used)
    else
      var eq := IndexOf(text, '=', 0);
      var hasEqual := eq < |text|;
      match LongMatch(cfg.longs, text[..eq], 0, None)
      case NotFound => Step(Event(BADCH, None), used, "")
      case Ambiguous => Step(Event(BADCH, None), used, "")
      case Found(i) =>
        var o := cfg.longs[i];
        var ret := if o.flag then 0 else o.val;
        if o.hasArg == NoArgument then
          Step(if hasEqual then Event(cfg.BadArg(), None) else Event(ret, None), used, "")
        else if hasEqual then Step(Event(ret, Some(text[eq + 1..])), used, "")
        else if o.hasArg == OptionalArgument then Step(Event(ret, None), used, "")
        else if next.Some? then Step(Event(ret, next), used + 1, "")
        else Step(Event(cfg.BadArg(), None), used, "")
  }

  /** The next letter of a cluster p that belongs to word k. */
  function ShortStep(cfg: Config, args: seq<string>, k: nat, p: string): (s: Step)
    requires k < |args| && p != ""
    ensures k + s.used <= |args|
    ensures s.Step? ==> if s.used == 0 then s.rest == p[1..] && s.rest != "" else s.rest == ""
    ensures s.End? ==> s.used > 0
  {
    var o := cfg.options;
    var rest := p[1..];
    var i := IndexOf(o, p[0], if cfg.IgnoreFirst() then 1 else 0);
    var keep := if rest == "" then 1 else 0;
    if p[0] == ':' || i == |o| then Step(Event(BADCH, None), keep, rest)
    else if p[0] == 'W' && i + 1 < |o| && o[i + 1] == ';' then
      if rest != "" then LongStep(cfg, rest, 1, At(args, k + 1))
      else if k + 1 == |args| then Step(Event(cfg.BadArg(), None), 1, "")
      else LongStep(cfg, args[k + 1], 2, At(args, k + 2))
    else if !(i + 1 < |o| && o[i + 1] == ':') then Step(Event(p[0] as int, None), keep, rest)
    else if rest != "" then Step(Event(p[0] as int, Some(rest)), 1, "")
    else if i + 2 < |o| && o[i + 2] == ':' then Step(Event(p[0] as int, None), 1, "")
    else if k + 1 == |args| then Step(Event(cfg.BadArg(), None), 1, "")
    else Step(Event(p[0] as int, Some(args[k + 1])), 2, "")
  }

  /** The first call on option word k. */
  function WordStep(cfg: Config, args: seq<string>, k: nat): (s: Step)
    requires k < |args| && !IsNonOption(args[k])
    ensures k + s.used <= |args|
    ensures s.Step? ==> if s.used == 0 then s.rest != "" else s.rest == ""
    ensures s.End? ==> s.used > 0
  {
    if args[k][1] == '-' then LongStep(cfg, args[k][2..], 1, At(args, k + 1))
    else ShortStep(cfg, args, k, args[k][1..])
  }

  /** The whole parse: the events in order, the words taken as options, option arguments
      and terminator, and the words left for the caller. */
  datatype Parse = Parse(events: seq<Event>, taken: seq<string>, left: seq<string>) {
    function Before(e: seq<Event>, t: seq<string>, l: seq<string>): Parse {
      Parse(e + events, t + taken, l + left)
    }

    lemma BeforeTwice(e1: seq<Event>, t1: seq<string>, l1: seq<string>, e2: seq<Event>, t2: seq<string>, l2: seq<string>)
      ensures Before(e2, t2, l2).Before(e1, t1, l1) == Before(e1 + e2, t1 + t2, l1 + l2)
    {
      assert e1 + (e2 + events) == (e1 + e2) + events;
      assert t1 + (t2 + taken) == (t1 + t2) + taken;
      assert l1 + (l2 + left) == (l1 + l2) + left;
    }
  }

  function NextStep(cfg: Config, args: seq<string>, k: nat, p: string): (s: Step)
    requires k < |args| && (p == "" ==> !IsNonOption(args[k]))
    ensures k + s.used <= |args|
    ensures s.Step? ==> if s.used == 0 then s.rest != "" && (p != "" ==> |s.rest| < |p|) else s.rest == ""
  {
    if p == "" then WordStep(cfg, args, k) else ShortStep(cfg, args, k, p)
  }

  /** Parse from word k on, p being what is left of word k's cluster. */
  ghost function Scan(cfg: Config, args: seq<string>, k: nat, p: string): Parse
    requires k <= |args| && (p != "" ==> k < |args|)
    decreases |args| - k, if p == "" then 1 else 0, |p|, 0
  {
    if k == |args| then Parse([], [], [])
    else if p == "" && IsNonOption(args[k]) then
      if cfg.InOrder() then
        Scan(cfg, args, k + 1, "").Before([Event(INORDER, Some(args[k]))], [args[k]], [])
      else if !cfg.Permuting() then Parse([], [], args[k..])
      else Scan(cfg, args, k + 1, "").Before([], [], [args[k]])
    else Resume(cfg, args, k, NextStep(cfg, args, k, p))
  }

  /** The parse once the step s has been decided at word k. */
  ghost function Resume(cfg: Config, args: seq<string>, k: nat, s: Step): Parse
    requires k < |args| && k + s.used <= |args|
    requires s.Step? && s.used == 0 ==> s.rest != ""
    requires s.Step? && s.used > 0 ==> s.rest == ""
    decreases |args| - k, 0, if s.Step? then |s.rest| else 0, 1
  {
    if s.End? then Parse([], args[k..k + s.used], args[k + s.used..])
    else Scan(cfg, args, k + s.used, s.rest).Before([s.event], args[k..k + s.used], [])
  }

  // ---- what the reference parse promises ----

  /** s consists of a and b, each in its own order. */
  ghost predicate Merges<T>(a: seq<T>, b: seq<T>, s: seq<T>) {
    if s == [] then a == [] && b == []
    else
      || (a != [] && a[0] == s[0] && Merges(a[1..], b, s[1..]))
      || (b != [] && b[0] == s[0] && Merges(a, b[1..], s[1..]))
  }

  lemma {:induction false} MergesFront<T>(t: seq<T>, a: seq<T>, b: seq<T>, s: seq<T>)
    requires Merges(a, b, s)
    ensures Merges(t + a, b, t + s)
  {
    if t == [] {
      assert t + a == a && t + s == s;
    } else {
      MergesFront(t[1..], a, b, s);
      assert (t + a)[1..] == t[1..] + a && (t + s)[1..] == t[1..] + s;
    }
  }

  lemma {:induction false} MergesRest<T>(b: seq<T>)
    ensures Merges([], b, b)
  {
    if b != [] {
      MergesRest(b[1..]);
    }
  }

  lemma {:induction false} MergesMultiset<T>(a: seq<T>, b: seq<T>, s: seq<T>)
    requires Merges(a, b, s)
    ensures multiset(a + b) == multiset(s)
  {
    if s != [] {
      assert s == [s[0]] + s[1..];
      if a != [] && a[0] == s[0] && Merges(a[1..], b, s[1..]) {
        MergesMultiset(a[1..], b, s[1..]);
        assert a + b == [a[0]] + (a[1..] + b);
      } else {
        MergesMultiset(a, b[1..], s[1..]);
        assert b == [b[0]] + b[1..];
        assert multiset(a + b) == multiset(a) + multiset(b);
        assert multiset(a + b[1..]) == multiset(a) + multiset(b[1..]);
      }
    }
  }

  lemma MergesSkip<T>(w: T, a: seq<T>, b: seq<T>, s: seq<T>)
    requires Merges(a, b, s)
    ensures Merges(a, [w] + b, [w] + s)
  {
    assert ([w] + b)[1..] == b && ([w] + s)[1..] == s;
  }

  lemma NonOptionMerges(cfg: Config, args: seq<string>, k: nat)
    requires k < |args| && IsNonOption(args[k])
    requires var u := Scan(cfg, args, k + 1, ""); Merges(u.taken, u.left, args[k + 1..])
    ensures Merges(Scan(cfg, args, k, "").taken, Scan(cfg, args, k, "").left, args[k..])
  {
    var u, s := Scan(cfg, args, k + 1, ""), Scan(cfg, args, k, "");
    assert args[k..] == [args[k]] + args[k + 1..];
    assert [] + u.left == u.left && [] + u.taken == u.taken;
    MergesFront([args[k]], u.taken, u.left, args[k + 1..]);
    MergesSkip(args[k], u.taken, u.left, args[k + 1..]);
    MergesRest(args[k..]);
    hide Merges;
  }

  lemma StepMerges(cfg: Config, args: seq<string>, k: nat, s: Step)
    requires k < |args| && k + s.used <= |args|
    requires s.Step? ==> (s.used == 0 <==> s.rest != "")
    requires s.Step? ==> var u := Scan(cfg, args, k + s.used, s.rest); Merges(u.taken, u.left, args[k + s.used..])
    ensures Merges(Resume(cfg, args, k, s).taken, Resume(cfg, args, k, s).left, args[k..])
  {
    hide Merges, Scan, LongStep;
    var t, rest := args[k..k + s.used], args[k + s.used..];
    assert args[k..] == t + rest && t + [] == t;
    MergesRest(rest);
    MergesFront(t, [], rest, rest);
    if s.Step? {
      var u := Scan(cfg, args, k + s.used, s.rest);
      MergesFront(t, u.taken, u.left, rest);
      assert [] + u.left == u.left;
    }
  }

  /** Every word is either taken or left, and both keep the original order. */
  lemma {:induction false} ScanMerges(cfg: Config, args: seq<string>, k: nat, p: string)
    requires k <= |args| && (p != "" ==> k < |args|)
    ensures Merges(Scan(cfg, args, k, p).taken, Scan(cfg, args, k, p).left, args[k..])
    decreases |args| - k, if p == "" then 1 else 0, |p|
  {
    if k == |args| {
      assert args[k..] == [];
    } else if p == "" && IsNonOption(args[k]) {
      ScanMerges(cfg, args, k + 1, "");
      NonOptionMerges(cfg, args, k);
    } else {
      var s := NextStep(cfg, args, k, p);
      if s.Step? {
        ScanMerges(cfg, args, k + s.used, s.rest);
      }
      StepMerges(cfg, args, k, s);
    }
  }

  /** Nothing is lost or invented. */
  lemma ScanPermutes(cfg: Config, args: seq<string>, k: nat)
    requires k <= |args|
    ensures var s := Scan(cfg, args, k, "");
            multiset(args[..k] + s.taken + s.left) == multiset(args)
  {
    var s := Scan(cfg, args, k, "");
    ScanMerges(cfg, args, k, "");
    MergesMultiset(s.taken, s.left, args[k..]);
    assert args == args[..k] + args[k..];
    assert args[..k] + s.taken + s.left == args[..k] + (s.taken + s.left);
  }

  /** How many table entries from i on, but before `end`, does the name abbreviate? */
  ghost function Abbreviated(longs: seq<LongOption>, name: string, i: nat, end: nat): nat
    requires i <= end <= |longs|
    decreases end - i
  {
    if i == end then 0
    else (if name <= longs[i].name then 1 else 0) + Abbreviated(longs, name, i + 1, end)
  }

  /** An option spelled out in full is found exactly when at most one earlier table entry
      starts with it; otherwise the search reports an ambiguity before reaching it. */
  lemma {:induction false} ExactName(longs: seq<LongOption>, name: string, e: nat, i: nat, best: Option<nat>)
    requires i <= e < |longs| && longs[e].name == name && (best.Some? ==> best.value < i)
    requires forall j :: i <= j < e ==> longs[j].name != name
    ensures LongMatch(longs, name, i, best) ==
            if Abbreviated(longs, name, i, e) + (if best.Some? then 1 else 0) <= 1 then Found(e) else Ambiguous
    decreases e - i
  {
    if i < e {
      if !(name <= longs[i].name) {
        ExactName(longs, name, e, i + 1, best);
      } else if best == None {
        ExactName(longs, name, e, i + 1, Some(i));
      }
    }
  }

  /** A name no entry spells out is found exactly when it abbreviates one entry only. */
  lemma {:induction false} AbbreviatedName(longs: seq<LongOption>, name: string, i: nat, best: Option<nat>)
    requires i <= |longs| && (best.Some? ==> best.value < i)
    requires forall j :: i <= j < |longs| ==> longs[j].name != name
    ensures var n := Abbreviated(longs, name, i, |longs|) + (if best.Some? then 1 else 0);
            var m := LongMatch(longs, name, i, best);
            && (m == NotFound <==> n == 0)
            && (m == Ambiguous <==> n >= 2)
            && (m.Found? ==> m.index < |longs| && (best == Some(m.index) || (i <= m.index && name <= longs[m.index].name)))
    decreases |longs| - i
  {
    if i < |longs| {
      if !(name <= longs[i].name) {
        AbbreviatedName(longs, name, i + 1, best);
      } else if best == None {
        AbbreviatedName(longs, name, i + 1, Some(i));
      }
    }
  }

  /** An exact name can be refused: with entries foobar, foobaz and foo, "--foo" is ambiguous. */
  lemma ExactNameRefused()
    ensures var longs := [LongOption("foobar", NoArgument, false, 1), LongOption("foobaz", NoArgument, false, 2),
                          LongOption("foo", NoArgument, false, 3)];
            longs[2].name == "foo" && LongMatch(longs, "foo", 0, None) == Ambiguous
  {
    var longs := [LongOption("foobar", NoArgument, false, 1), LongOption("foobaz", NoArgument, false, 2),
                  LongOption("foo", NoArgument, false, 3)];
    assert "foo" <= "foobar" && "foo" <= "foobaz";
    assert LongMatch(longs, "foo", 1, Some(0)) == Ambiguous;
  }

  // ---- the words during a permuting scan ----

  lemma ExchangeBlocks<T>(h: seq<T>, a: seq<T>, b: seq<T>, c: seq<T>, d: seq<T>)
    ensures var i := |h| + |a|;
            Exchanged(h + a + b + c + d, i, i + |b|, i + |b| + |c|) == h + (a + c) + b + d
  {
    var s, i := h + a + b + c + d, |h| + |a|;
    assert s[..i] == h + a;
    assert s[i..i + |b|] == b;
    assert s[i + |b|..i + |b| + |c|] == c;
    assert s[i + |b| + |c|..] == d;
  }

  /** The history of a scan: the words as they stood when it began at index base, the
      options taken before and after the block of skipped non-options, that block, and
      the events returned so far. */
  datatype Trace = Trace(args: seq<string>, base: nat, opts1: seq<string>, skipped: seq<string>,
                         opts2: seq<string>, seen: seq<Event>) {

    /** Scanning stands at word k: `now` is the original with the skipped block somewhere
        behind the options taken before it; words from k on are untouched. `start` and
        `end` are the C cursors of the block, -1 when unset. */
    ghost predicate Laid(now: seq<string>, k: int, start: int, end: int) {
      && 0 < base <= k <= |args|
      && now == args[..base] + opts1 + skipped + opts2 + args[k..]
      && base + |opts1| + |skipped| + |opts2| == k
      && start == (if skipped == [] then -1 else base + |opts1|)
      && (end == -1 || (skipped != [] && end == base + |opts1| + |skipped|))
      && (end == -1 ==> opts2 == [])
    }

    /** The same scan, at some other point. */
    ghost predicate SameScan(other: Trace) {
      args == other.args && base == other.base && seen == other.seen
    }

    ghost function Total(rest: Parse): Parse {
      rest.Before(seen, opts1 + opts2, skipped)
    }

    ghost function Took(k: int, used: nat): Trace
      requires 0 <= k && k + used <= |args|
    {
      if skipped == [] then this.(opts1 := opts1 + args[k..k + used])
      else this.(opts2 := opts2 + args[k..k + used])
    }

    ghost function Saw(e: Event): Trace {
      this.(seen := seen + [e])
    }

    ghost function Moved(): Trace {
      this.(opts1 := opts1 + opts2, opts2 := [])
    }

    ghost function Skip(k: int): Trace
      requires 0 <= k < |args|
    {
      this.(opts1 := opts1 + opts2, opts2 := [], skipped := skipped + [args[k]])
    }

    lemma FreshLaid()
      requires 0 < base <= |args| && opts1 == skipped == opts2 == [] && seen == []
      ensures Laid(args, base, -1, -1)
      ensures forall p :: Total(p) == p
    {
      assert args == args[..base] + [] + [] + [] + args[base..];
      forall p: Parse
        ensures Total(p) == p
      {
        assert [] + p.events == p.events && [] + p.taken == p.taken && [] + p.left == p.left;
        assert opts1 + opts2 == [];
      }
    }

    lemma LaidLength(now: seq<string>, k: int, start: int, end: int)
      requires Laid(now, k, start, end)
      ensures |now| == |args|
      ensures k < |args| ==> now[k] == args[k]
    {
    }

    lemma LaidAhead(cfg: Config, now: seq<string>, k: int, start: int, end: int, p: string)
      requires Laid(now, k, start, end) && k < |args| && p != ""
      ensures |now| == |args| && ShortStep(cfg, now, k, p) == ShortStep(cfg, args, k, p)
      ensures At(now, k + 1) == At(args, k + 1) && At(now, k + 2) == At(args, k + 2)
    {
      assert k + 1 < |args| ==> now[k + 1] == args[k + 1];
      assert k + 2 < |args| ==> now[k + 2] == args[k + 2];
    }

    lemma TookLaid(now: seq<string>, k: int, used: nat, start: int, end: int)
      requires Laid(now, k, start, end) && k + used <= |args| && (start != -1 ==> end != -1)
      ensures Took(k, used).Laid(now, k + used, start, end)
      ensures used > 0 && end != -1 ==> Took(k, used).opts2 != []
    {
      assert args[k..] == args[k..k + used] + args[k + used..];
    }

    lemma TookTotal(k: int, used: nat, rest: Parse, e: seq<Event>)
      requires 0 <= k && k + used <= |args| && (skipped == [] ==> opts2 == [])
      ensures Total(rest.Before(e, args[k..k + used], [])) == Took(k, used).Total(rest.Before(e, [], []))
    {
      var t := args[k..k + used];
      rest.BeforeTwice(seen, opts1 + opts2, skipped, e, t, []);
      rest.BeforeTwice(seen, Took(k, used).opts1 + Took(k, used).opts2, skipped, e, [], []);
      assert Took(k, used).opts1 + Took(k, used).opts2 == (opts1 + opts2) + t;
    }

    lemma StepTotal(cfg: Config, k: int, s: Step)
      requires 0 <= k < |args| && k + s.used <= |args| && (skipped == [] ==> opts2 == [])
      requires s.Step? && (s.used == 0 <==> s.rest != "")
      ensures Total(Resume(cfg, args, k, s)) ==
              Took(k, s.used).Total(Scan(cfg, args, k + s.used, s.rest).Before([s.event], [], []))
    {
      TookTotal(k, s.used, Scan(cfg, args, k + s.used, s.rest), [s.event]);
    }

    lemma EndTotal(cfg: Config, k: int, used: nat)
      requires 0 <= k < |args| && k + used <= |args| && (skipped == [] ==> opts2 == [])
      ensures Total(Resume(cfg, args, k, End(used))) ==
              Took(k, used).Total(Parse([], [], args[k + used..]))
    {
      var t, l, w := args[k..k + used], args[k + used..], Took(k, used);
      assert Resume(cfg, args, k, End(used)) == Parse([], t, l);
      assert w.opts1 + w.opts2 == (opts1 + opts2) + t;
      assert (w.opts1 + w.opts2) + [] == w.opts1 + w.opts2;
      hide *;
    }

    lemma MovedTotal(rest: Parse)
      ensures Moved().Total(rest) == Total(rest)
    {
      assert (opts1 + opts2) + [] == opts1 + opts2;
    }

    lemma SawTotal(rest: Parse, e: Event)
      ensures Total(rest.Before([e], [], [])) == Saw(e).Total(rest)
    {
      rest.BeforeTwice(seen, opts1 + opts2, skipped, [e], [], []);
    }

    /** `permute_args` on the cursors brings the options found after the block in front of it. */
    lemma MovedLaid(now: seq<string>, k: int, start: int, end: int)
      requires Laid(now, k, start, end) && end != -1 && opts2 != []
      ensures 0 <= start < end < k <= |now|
      ensures Exchanged(now, start, end, k) == args[..base] + Moved().opts1 + skipped + args[k..]
      ensures Moved().Laid(Exchanged(now, start, end, k), k, k - (end - start), -1)
    {
      ExchangeBlocks(args[..base], opts1, skipped, opts2, args[k..]);
      assert args[..base] + (opts1 + opts2) + skipped + args[k..]
          == args[..base] + (opts1 + opts2) + skipped + [] + args[k..];
    }

    lemma SkipLaid(now: seq<string>, k: int, start: int)
      requires Laid(now, k, start, -1) && k < |args|
      ensures Skip(k).Laid(now, k + 1, if start == -1 then k else start, -1)
    {
      assert args[k..] == [args[k]] + args[k + 1..];
    }

    lemma MovedSkip(k: int)
      requires 0 <= k < |args|
      ensures Moved().Skip(k) == Skip(k)
    {
      assert (opts1 + opts2) + [] == opts1 + opts2;
    }

    lemma SkipTotal(k: int, rest: Parse)
      requires 0 <= k < |args|
      ensures Total(rest.Before([], [], [args[k]])) == Skip(k).Total(rest)
    {
      rest.BeforeTwice(seen, opts1 + opts2, skipped, [], [], [args[k]]);
    }

    /** Nothing more to take: the words are the options, then everything left. */
    ghost predicate Settled(now: seq<string>, optind: int, t: Parse) {
      && base <= |args|
      && now == args[..base] + t.taken + t.left
      && optind == base + |t.taken|
      && seen == t.events
    }

    lemma LaidSettled(now: seq<string>, k: int, start: int)
      requires Laid(now, k, start, -1)
      ensures Settled(now, if start == -1 then k else start, Total(Parse([], [], args[k..])))
    {
    }
  }

  // ---- the C state machine ----

  /** How one pass of the `start:` loop of `getopt_internal` ends. */
  datatype Word = AtEnd | StopHere | InOrderArgument | OptionWord | Skipped

  class Scanner {
    var optind: int
    var optarg: Option<string>
    var optopt: int
    var optreset: bool
    var place: string
    var nonoptStart: int
    var nonoptEnd: int
    ghost var trace: Trace

    /** The static initialisers, for a scan of nargv. */
    constructor (ghost cfg: Config, ghost nargv: array<string>)
      requires 0 < nargv.Length
      ensures Valid(cfg, nargv) && optind == 1 && place == ""
      ensures trace == Trace(nargv[..], 1, [], [], [], [])
      ensures Expected(cfg, nargv) == Scan(cfg, nargv[..], 1, "")
    {
      optind, optopt, optarg, optreset, place := 1, BADCH, None, false, "";
      nonoptStart, nonoptEnd := -1, -1;
      trace := Trace(nargv[..], 1, [], [], [], []);
      new;
      trace.FreshLaid();
    }

    ghost predicate Laid(nargv: array<string>, k: int)
      reads this`trace, this`nonoptStart, this`nonoptEnd, nargv
    {
      trace.Laid(nargv[..], k, nonoptStart, nonoptEnd)
    }

    /** A skipped block has been closed by an option word. */
    ghost predicate Closed()
      reads this`nonoptStart, this`nonoptEnd
    {
      nonoptStart != -1 ==> nonoptEnd != -1
    }

    /** The state between two calls. */
    ghost predicate Valid(cfg: Config, nargv: array<string>)
      reads this, nargv
    {
      && Laid(nargv, optind) && !optreset && (nonoptStart != -1 ==> cfg.Permuting())
      && (place == "" && nonoptEnd != -1 ==> trace.opts2 != [])
      && (place != "" ==> optind < nargv.Length && Closed())
    }

    /** The caller asks for a new scan: it set optreset, or optind to 0 when nothing is pending. */
    ghost predicate Restarting(nargv: array<string>)
      reads this
    {
      0 <= optind <= nargv.Length && 0 < nargv.Length
      && (optreset || (optind == 0 && place == "" && nonoptStart == nonoptEnd == -1))
    }

    /** The parse that this call and all later ones are to deliver, with what was delivered before. */
    ghost function Expected(cfg: Config, nargv: array<string>): Parse
      requires Restarting(nargv) || Valid(cfg, nargv)
      reads this, nargv
    {
      if Restarting(nargv) then Scan(cfg, nargv[..], if optind == 0 then 1 else optind, "")
      else trace.Total(Scan(cfg, trace.args, optind, place))
    }

    /** What one pass of the `start:` loop, or all of them, leaves behind when the parse
        of everything is t. */
    ghost predicate Outcome(cfg: Config, nargv: array<string>, w: Word, t: Parse)
      reads this, nargv
    {
      match w
      case AtEnd => trace.Settled(nargv[..], optind, t) && place == "" && nonoptStart == nonoptEnd == -1
      case StopHere => trace.Settled(nargv[..], optind, t) && place == ""
      case InOrderArgument =>
        && Valid(cfg, nargv) && place == ""
        && t == trace.Total(Scan(cfg, trace.args, optind, "").Before([Event(INORDER, optarg)], [], []))
      case OptionWord =>
        && Laid(nargv, optind) && optind < nargv.Length && Closed()
        && (nonoptStart != -1 ==> cfg.Permuting())
        && optind < |trace.args| && place == trace.args[optind] && !IsNonOption(place)
        && t == trace.Total(Resume(cfg, trace.args, optind, WordStep(cfg, trace.args, optind)))
      case Skipped =>
        && Laid(nargv, optind) && nonoptEnd == -1 && cfg.Permuting()
        && t == trace.Total(Scan(cfg, trace.args, optind, ""))
    }

    /** Permute at the end of a scan: the options after the skipped block go in front of it. */
    method Unskip(nargv: array<string>)
      requires Laid(nargv, optind) && nonoptEnd != -1 && trace.opts2 != []
      modifies this`trace, this`optind, nargv
      ensures trace.Settled(nargv[..], optind, old(trace.Total(Parse([], [], trace.args[optind..]))))
      ensures trace.SameScan(old(trace))
    {
      trace.MovedLaid(nargv[..], optind, nonoptStart, nonoptEnd);
      trace.MovedTotal(Parse([], [], trace.args[optind..]));
      Permute(nonoptStart, nonoptEnd, optind, nargv);
      trace := trace.Moved();
      trace.LaidSettled(nargv[..], optind, optind - (nonoptEnd - nonoptStart));
      optind := optind - (nonoptEnd - nonoptStart);
    }

    /** The end of the words: permute if options were found after the skipped block,
        otherwise step back to the block. */
    method EndOfWords(cfg: Config, nargv: array<string>)
      requires Laid(nargv, optind) && optind >= nargv.Length
      requires nonoptEnd != -1 ==> trace.opts2 != []
      modifies this, nargv
      ensures Outcome(cfg, nargv, AtEnd, old(trace.Total(Scan(cfg, trace.args, optind, ""))))
      ensures optarg == old(optarg) && !optreset
      ensures trace.SameScan(old(trace))
    {
      optreset := false;
      place := "";
      trace.LaidLength(nargv[..], optind, nonoptStart, nonoptEnd);
      assert trace.args[optind..] == [];
      if nonoptEnd != -1 {
        Unskip(nargv);
      } else {
        trace.LaidSettled(nargv[..], optind, nonoptStart);
        if nonoptStart != -1 {
          optind := nonoptStart;
        }
      }
      nonoptStart, nonoptEnd := -1, -1;
    }

    /** Bring the skipped block up to the word being looked at, behind the options found since. */
    method MoveBlock(nargv: array<string>)
      requires Laid(nargv, optind) && nonoptEnd != -1 && trace.opts2 != []
      modifies this`trace, this`nonoptStart, this`nonoptEnd, nargv
      ensures Laid(nargv, optind) && nonoptEnd == -1 && nonoptStart != -1
      ensures trace == old(trace.Moved())
    {
      trace.MovedLaid(nargv[..], optind, nonoptStart, nonoptEnd);
      Permute(nonoptStart, nonoptEnd, optind, nargv);
      nonoptStart := optind - (nonoptEnd - nonoptStart);
      nonoptEnd := -1;
      trace := trace.Moved();
      hide Trace.Moved;
    }

    /** A non-option in a permuting scan joins the skipped block. */
    method SkipWord(nargv: array<string>)
      requires Laid(nargv, optind) && optind < nargv.Length
      requires nonoptEnd != -1 ==> trace.opts2 != []
      modifies this`trace, this`optind, this`nonoptStart, this`nonoptEnd, nargv
      ensures Laid(nargv, optind) && nonoptEnd == -1 && optind == old(optind) + 1
      ensures trace == old(trace.Skip(optind))
    {
      trace.LaidLength(nargv[..], optind, nonoptStart, nonoptEnd);
      if nonoptStart == -1 {
        trace.SkipLaid(nargv[..], optind, -1);
        nonoptStart := optind;
      } else {
        if nonoptEnd != -1 {
          trace.MovedSkip(optind);
          MoveBlock(nargv);
        }
        trace.SkipLaid(nargv[..], optind, nonoptStart);
      }
      trace := trace.Skip(optind);
      optind := optind + 1;
      hide Trace.Skip, Trace.Laid;
    }

    /** GNU's "-": a non-option is returned as the argument of option 1. */
    method ReturnInOrder(cfg: Config, nargv: array<string>)
      requires Laid(nargv, optind) && optind < nargv.Length && !optreset && place == ""
      requires IsNonOption(trace.args[optind]) && cfg.InOrder()
      requires nonoptStart != -1 ==> cfg.Permuting()
      modifies this`trace, this`optind, this`optarg
      ensures Outcome(cfg, nargv, InOrderArgument, old(trace.Total(Scan(cfg, trace.args, optind, ""))))
      ensures trace.SameScan(old(trace))
    {
      ghost var tr, k := trace, optind;
      trace.LaidLength(nargv[..], optind, nonoptStart, nonoptEnd);
      trace.TookLaid(nargv[..], optind, 1, nonoptStart, nonoptEnd);
      optarg := Some(nargv[optind]);
      optind := optind + 1;
      trace := trace.Took(k, 1);
      assert tr.args[k..k + 1] == [tr.args[k]];
      tr.TookTotal(k, 1, Scan(cfg, tr.args, optind, ""), [Event(INORDER, optarg)]);
    }

    /** The non-option branch of the `start:` loop. */
    method NonOption(cfg: Config, nargv: array<string>) returns (w: Word)
      requires Laid(nargv, optind) && optind < nargv.Length && !optreset
      requires IsNonOption(trace.args[optind])
      requires nonoptEnd != -1 ==> trace.opts2 != []
      requires nonoptStart != -1 ==> cfg.Permuting()
      modifies this, nargv
      ensures Outcome(cfg, nargv, w, old(trace.Total(Scan(cfg, trace.args, optind, ""))))
      ensures w != AtEnd && w != OptionWord && !optreset
      ensures w == Skipped ==> optind == old(optind) + 1
      ensures w != InOrderArgument ==> optarg == old(optarg)
      ensures trace.SameScan(old(trace))
    {
      ghost var tr, k := trace, optind;
      place := "";
      if cfg.InOrder() {
        ReturnInOrder(cfg, nargv);
        return InOrderArgument;
      }
      if !cfg.Permuting() {
        tr.LaidSettled(nargv[..], k, nonoptStart);
        return StopHere;
      }
      SkipWord(nargv);
      tr.SkipTotal(k, Scan(cfg, tr.args, k + 1, ""));
      return Skipped;
    }

    /** One pass of the `start:` loop of `getopt_internal`. */
    method TryWord(cfg: Config, nargv: array<string>) returns (w: Word)
      requires Laid(nargv, optind) && (nonoptEnd != -1 ==> trace.opts2 != [])
      requires nonoptStart != -1 ==> cfg.Permuting()
      modifies this, nargv
      ensures Outcome(cfg, nargv, w, old(trace.Total(Scan(cfg, trace.args, optind, "")))) && !optreset
      ensures w != InOrderArgument ==> optarg == old(optarg)
      ensures w == Skipped ==> optind == old(optind) + 1
      ensures trace.SameScan(old(trace))
    {
      optreset := false;
      trace.LaidLength(nargv[..], optind, nonoptStart, nonoptEnd);
      if optind >= nargv.Length {
        EndOfWords(cfg, nargv);
        return AtEnd;
      }
      place := nargv[optind];
      if IsNonOption(place) {
        w := NonOption(cfg, nargv);
        return;
      }
      if nonoptStart != -1 && nonoptEnd == -1 {
        nonoptEnd := optind;
      }
      return OptionWord;
    }

    /** The whole `start:` loop: skip, permute or return non-options until an option word
        or the end is found. */
    method FindWord(cfg: Config, nargv: array<string>) returns (w: Word)
      requires Laid(nargv, optind) && (nonoptEnd != -1 ==> trace.opts2 != [])
      requires nonoptStart != -1 ==> cfg.Permuting()
      modifies this, nargv
      ensures w != Skipped && Outcome(cfg, nargv, w, old(trace.Total(Scan(cfg, trace.args, optind, ""))))
      ensures w != InOrderArgument ==> optarg == old(optarg)
      ensures !optreset
      ensures trace.SameScan(old(trace))
    {
      ghost var t := trace.Total(Scan(cfg, trace.args, optind, ""));
      w := TryWord(cfg, nargv);
      while w == Skipped
        invariant Outcome(cfg, nargv, w, t) && !optreset && trace.SameScan(old(trace))
        invariant w != InOrderArgument ==> optarg == old(optarg)
        decreases w == Skipped, nargv.Length - optind
      {
        w := TryWord(cfg, nargv);
      }
    }

    /** One letter of a cluster. -2 hands the text at `place` on as a long option. */
    method ShortOption(cfg: Config, nargv: array<string>) returns (ret: int)
      requires 0 <= optind < nargv.Length && place != "" && optarg == None
      modifies this`optind, this`place, this`optarg, this`optopt
      ensures var k, s := old(optind), ShortStep(cfg, nargv[..], old(optind), old(place));
        if ret == -2 then
          && k <= optind <= k + 1 && optind < nargv.Length && optarg == None
          && s == LongStep(cfg, place, optind + 1 - k, At(nargv[..], optind + 1))
        else
          0 <= ret && k <= optind && s == Step(Event(ret, optarg), optind - k, place)
    {
      var optchar := place[0];
      place := place[1..];
      var o := cfg.options;
      var oli := IndexOf(o, optchar, if cfg.IgnoreFirst() then 1 else 0);
      if optchar == ':' || oli == |o| {
        if place == "" {
          optind := optind + 1;
        }
        optopt := optchar as int;
        return BADCH;
      }
      if optchar == 'W' && oli + 1 < |o| && o[oli + 1] == ';' {
        if place != "" {
          return -2;
        }
        optind := optind + 1;
        if optind >= nargv.Length {
          place := "";
          optopt := optchar as int;
          return cfg.BadArg();
        }
        place := nargv[optind];
        return -2;
      }
      oli := oli + 1;
      if !(oli < |o| && o[oli] == ':') {
        if place == "" {
          optind := optind + 1;
        }
      } else {
        optarg := None;
        if place != "" {
          optarg := Some(place);
        } else if !(oli + 1 < |o| && o[oli + 1] == ':') {
          optind := optind + 1;
          if optind >= nargv.Length {
            place := "";
            optopt := optchar as int;
            return cfg.BadArg();
          }
          optarg := Some(nargv[optind]);
        }
        place := "";
        optind := optind + 1;
      }
      return optchar as int;
    }

    /** What `getopt_internal` leaves behind when t is the parse of everything: -1 ends the
        scan, -2 leaves at `place` a long option text that belongs to word k. */
    ghost predicate Internally(cfg: Config, nargv: array<string>, ret: int, k: int, t: Parse)
      reads this, nargv
    {
      && (ret == -1 ==> place == "" && !optreset && trace.Settled(nargv[..], optind, t))
      && (ret == -2 ==>
            && Laid(nargv, k) && k <= optind <= k + 1 && optind < nargv.Length && Closed()
            && optarg == None && !optreset && (nonoptStart != -1 ==> cfg.Permuting())
            && t == trace.Total(Resume(cfg, trace.args, k,
                      LongStep(cfg, place, optind + 1 - k, At(trace.args, optind + 1)))))
      && (ret != -1 && ret != -2 ==>
            && Valid(cfg, nargv) && 0 <= ret
            && t == trace.Total(Scan(cfg, trace.args, optind, place).Before([Event(ret, optarg)], [], [])))
    }

    /** Record a step that left the C variables at its end. */
    ghost method Advance(cfg: Config, nargv: array<string>, k: nat, s: Step)
      requires Laid(nargv, k) && k < nargv.Length && Closed() && !optreset
      requires nonoptStart != -1 ==> cfg.Permuting()
      requires s.Step? && (s.used == 0 <==> s.rest != "") && k + s.used <= nargv.Length
      requires optind == k + s.used && place == s.rest && |trace.args| == nargv.Length
      modifies this`trace
      ensures Valid(cfg, nargv)
      ensures old(trace.Total(Resume(cfg, trace.args, k, s))) ==
              trace.Total(Scan(cfg, trace.args, optind, place).Before([s.event], [], []))
      ensures trace.SameScan(old(trace))
    {
      trace.TookLaid(nargv[..], k, s.used, nonoptStart, nonoptEnd);
      trace.StepTotal(cfg, k, s);
      trace := trace.Took(k, s.used);
    }

    /** The part of `getopt_internal` after the scanning pointer is set. */
    method Cluster(cfg: Config, nargv: array<string>) returns (ret: int, ghost k: int)
      requires Laid(nargv, optind) && optind < nargv.Length && Closed()
      requires place != "" && optarg == None && !optreset && (nonoptStart != -1 ==> cfg.Permuting())
      modifies this`trace, this`optind, this`place, this`optarg, this`optopt
      ensures Internally(cfg, nargv, ret, k,
                old(trace.Total(Resume(cfg, trace.args, optind, ShortStep(cfg, trace.args, optind, place)))))
      ensures ret != -1
      ensures trace.SameScan(old(trace))
    {
      k := optind;
      ghost var s := ShortStep(cfg, trace.args, k, place);
      trace.LaidAhead(cfg, nargv[..], k, nonoptStart, nonoptEnd, place);
      ret := ShortOption(cfg, nargv);
      hide ShortStep, LongStep, At, Scan, Resume, Trace.Laid, Trace.Total;
      if ret != -2 {
        Advance(cfg, nargv, k, s);
      }
    }

    /** The start of `getopt_internal`: optind 0 means 1, optreset forgets the skipped block. */
    method Prologue(cfg: Config, nargv: array<string>)
      requires Restarting(nargv) || Valid(cfg, nargv)
      modifies this`trace, this`optarg, this`optind, this`nonoptStart, this`nonoptEnd
      ensures Laid(nargv, optind) && optarg == None && (nonoptStart != -1 ==> cfg.Permuting())
      ensures optreset || place == "" ==>
        && (nonoptEnd != -1 ==> trace.opts2 != [])
        && old(Expected(cfg, nargv)) == trace.Total(Scan(cfg, trace.args, optind, ""))
      ensures !(optreset || place == "") ==>
        && optind < nargv.Length && Closed()
        && old(Expected(cfg, nargv)) ==
           trace.Total(Resume(cfg, trace.args, optind, ShortStep(cfg, trace.args, optind, place)))
      ensures !old(Restarting(nargv)) ==> trace.SameScan(old(trace))
    {
      optarg := None;
      if Restarting(nargv) {
        trace := Trace(nargv[..], if optind == 0 then 1 else optind, [], [], [], []);
        trace.FreshLaid();
      }
      if optind == 0 {
        optind := 1;
      }
      if optreset {
        nonoptStart, nonoptEnd := -1, -1;
      }
    }

    /** Set the scanning pointer to an option word's text, past "-" or "--". */
    method OpenWord(cfg: Config, nargv: array<string>) returns (isLong: bool)
      requires 0 <= optind < |trace.args| && place == trace.args[optind] && !IsNonOption(place)
      modifies this`place
      ensures var s := WordStep(cfg, trace.args, optind);
        if isLong then s == LongStep(cfg, place, 1, At(trace.args, optind + 1))
        else place != "" && s == ShortStep(cfg, trace.args, optind, place)
    {
      place := place[1..];
      isLong := place[0] == '-';
      if isLong {
        place := place[1..];
      }
    }

    /** `getopt_internal`: the return value, and (ghost) the word k that -2 is about. */
    method Internal(cfg: Config, nargv: array<string>) returns (ret: int, ghost k: int)
      requires Restarting(nargv) || Valid(cfg, nargv)
      modifies this, nargv
      ensures Internally(cfg, nargv, ret, k, old(Expected(cfg, nargv)))
      ensures !old(Restarting(nargv)) ==> trace.SameScan(old(trace))
    {
      k := 0;
      Prologue(cfg, nargv);
      hide ShortStep, LongStep, At, Scan, Resume, Trace.Laid, Trace.Total;
      if optreset || place == "" {
        var w := FindWord(cfg, nargv);
        if w == AtEnd || w == StopHere {
          return -1, k;
        }
        if w == InOrderArgument {
          return INORDER, k;
        }
        k := optind;
        var isLong := OpenWord(cfg, nargv);
        if isLong {
          return -2, k;
        }
      }
      ret, k := Cluster(cfg, nargv);
    }

    /** The table search of `getopt_long`. */
    method FindLong(longs: seq<LongOption>, name: string) returns (m: Match)
      ensures m == LongMatch(longs, name, 0, None)
    {
      var best: Option<nat> := None;
      for i := 0 to |longs|
        invariant best.Some? ==> best.value < i
        invariant LongMatch(longs, name, 0, None) == LongMatch(longs, name, i, best)
      {
        if name <= longs[i].name {
          if |longs[i].name| == |name| {
            return Found(i);
          }
          if best.Some? {
            return Ambiguous;
          }
          best := Some(i);
        }
      }
      return if best.Some? then Found(best.value) else NotFound;
    }

    /** The option branch of `getopt_long`, on the text left by -2 at word k. */
    method LongOptionText(cfg: Config, nargv: array<string>, text: string, ghost k: nat) returns (ret: int)
      requires text != "" && k < optind <= nargv.Length && optarg == None && place == ""
      modifies this`optind, this`optarg, this`optopt
      ensures (forall o :: o in cfg.longs ==> o.val != -1) ==> ret != -1
      ensures optind >= old(optind) && LongStep(cfg, text, old(optind) - k, At(nargv[..], old(optind)))
              == Step(Event(ret, optarg), optind - k, place)
    {
      var eq := IndexOf(text, '=', 0);
      var hasEqual := eq < |text|;
      var m := FindLong(cfg.longs, text[..eq]);
      match m
      case NotFound =>
        optopt := 0;
        return BADCH;
      case Ambiguous =>
        optopt := 0;
        return BADCH;
      case Found(i) =>
        var o := cfg.longs[i];
        if o.hasArg == NoArgument && hasEqual {
          optopt := if o.flag then 0 else o.val;
          return cfg.BadArg();
        }
        if o.hasArg == RequiredArgument || o.hasArg == OptionalArgument {
          if hasEqual {
            optarg := Some(text[eq + 1..]);
          } else if o.hasArg == RequiredArgument {
            // the vector ends with a null word, so reading past the last one gives none
            optarg := if optind < nargv.Length then Some(nargv[optind]) else None;
            optind := optind + 1;
          }
        }
        if o.hasArg == RequiredArgument && optarg == None {
          optopt := if o.flag then 0 else o.val;
          optind := optind - 1;
          return cfg.BadArg();
        }
        ret := if o.flag then 0 else o.val;
    }

    /** Record the words up to and including a terminator as taken. */
    ghost method TakeEnd(cfg: Config, nargv: array<string>, k: nat)
      requires Laid(nargv, k) && k < optind <= nargv.Length && Closed() && |trace.args| == nargv.Length
      modifies this`trace
      ensures trace.SameScan(old(trace)) && Laid(nargv, optind)
      ensures nonoptEnd != -1 ==> trace.opts2 != []
      ensures old(trace.Total(Resume(cfg, trace.args, k, End(optind - k)))) ==
              trace.Total(Parse([], [], trace.args[optind..]))
    {
      trace.TookLaid(nargv[..], k, optind - k, nonoptStart, nonoptEnd);
      trace.EndTotal(cfg, k, optind - k);
      trace := trace.Took(k, optind - k);
      hide Trace.Laid, Trace.Total, Resume;
    }

    /** `getopt_long` on "--": permute if non-options were skipped. */
    method Terminator(cfg: Config, nargv: array<string>, ghost k: nat)
      requires Laid(nargv, k) && k < optind <= nargv.Length && Closed() && |trace.args| == nargv.Length
      modifies this`trace, this`optind, this`nonoptStart, this`nonoptEnd, nargv
      ensures trace.Settled(nargv[..], optind,
                old(trace.Total(Resume(cfg, trace.args, k, End(optind - k)))))
      ensures trace.SameScan(old(trace))
    {
      TakeEnd(cfg, nargv, k);
      if nonoptEnd != -1 {
        Unskip(nargv);
      } else {
        trace.LaidSettled(nargv[..], optind, nonoptStart);
      }
      nonoptStart, nonoptEnd := -1, -1;
    }

    /** `getopt_long` on the text of a long option that belongs to word k. */
    method LongOption(cfg: Config, nargv: array<string>, text: string, ghost k: nat) returns (ret: int)
      requires text != "" && k < optind <= nargv.Length && optarg == None && place == "" && !optreset
      requires Laid(nargv, k) && Closed() && (nonoptStart != -1 ==> cfg.Permuting()) && |trace.args| == nargv.Length
      modifies this`trace, this`optind, this`optarg, this`optopt
      ensures trace.SameScan(old(trace)) && Valid(cfg, nargv)
      ensures var s := LongStep(cfg, text, old(optind) - k, At(nargv[..], old(optind)));
              k + s.used <= nargv.Length &&
              old(trace).Total(Resume(cfg, old(trace).args, k, s)) ==
              trace.Total(Scan(cfg, trace.args, optind, place).Before([Event(ret, optarg)], [], []))
      ensures (forall o :: o in cfg.longs ==> o.val != -1) ==> ret != -1
    {
      ghost var s := LongStep(cfg, text, optind - k, At(nargv[..], optind));
      ret := LongOptionText(cfg, nargv, text, k);
      hide LongStep, Scan, Resume, Trace.Laid, Trace.Total;
      Advance(cfg, nargv, k, s);
    }

    /** `getopt_long` after -2: a terminator or a long option. */
    method LongOrEnd(cfg: Config, nargv: array<string>, ghost k: int, ghost t: Parse) returns (ret: int, ghost ended: bool)
      requires Internally(cfg, nargv, -2, k, t)
      modifies this, nargv
      ensures trace.SameScan(old(trace))
      ensures ended ==> ret == -1 && !optreset && trace.Settled(nargv[..], optind, t)
      ensures !ended ==>
        && Valid(cfg, nargv)
        && t == trace.Total(Scan(cfg, trace.args, optind, place).Before([Event(ret, optarg)], [], []))
        && ((forall o :: o in cfg.longs ==> o.val != -1) ==> ret != -1)
    {
      var text := place;
      hide ShortStep, At, Scan, Resume, Valid, Closed, Trace.Total, Trace.Took, Trace.Settled, Trace.SameScan;
      trace.LaidAhead(cfg, nargv[..], k, nonoptStart, nonoptEnd, "-");
      hide Trace.Laid;
      assert text == "" ==> LongStep(cfg, text, optind + 1 - k, At(nargv[..], optind + 1)) == End(optind + 1 - k);
      optind := optind + 1;
      place := "";
      if text == "" {
        Terminator(cfg, nargv, k);
        return -1, true;
      }
      ret := LongOption(cfg, nargv, text, k);
      ended := false;
    }

    /** `getopt_long`. Each call delivers the next event of the reference parse; the call
        that ends the scan leaves nargv with the taken words first and the rest after them. */
    method Next(cfg: Config, nargv: array<string>) returns (ret: int, ghost ended: bool)
      requires Restarting(nargv) || Valid(cfg, nargv)
      modifies this, nargv
      ensures ended ==> ret == -1 && !optreset && trace.Settled(nargv[..], optind, old(Expected(cfg, nargv)))
      ensures !ended ==>
        && Valid(cfg, nargv) && Expected(cfg, nargv) == old(Expected(cfg, nargv))
        && ((forall o :: o in cfg.longs ==> o.val != -1) ==> ret != -1)
        && !Restarting(nargv) && |trace.seen| <= |Expected(cfg, nargv).events|
      ensures !old(Restarting(nargv)) ==>
        && trace.args == old(trace.args) && trace.base == old(trace.base)
        && trace.seen == old(trace.seen) + (if ended then [] else [Event(ret, optarg)])
    {
      ghost var t, k := Expected(cfg, nargv), 0;
      ret, k := Internal(cfg, nargv);
      hide LongStep, At, Scan, Resume, Trace.Laid, Trace.Total, Trace.Took;
      ended := ret == -1;
      if ret == -2 {
        ret, ended := LongOrEnd(cfg, nargv, k, t);
      }
      if !ended {
        SawEvent(cfg, nargv, Event(ret, optarg));
      }
    }

    /** Record the event a call is about to return. */
    ghost method SawEvent(cfg: Config, nargv: array<string>, e: Event)
      requires Valid(cfg, nargv)
      modifies this`trace
      ensures trace == old(trace).Saw(e) && Valid(cfg, nargv) && !Restarting(nargv)
      ensures |trace.seen| <= |Expected(cfg, nargv).events|
      ensures Expected(cfg, nargv) ==
              old(trace.Total(Scan(cfg, trace.args, optind, place).Before([e], [], [])))
    {
      trace.SawTotal(Scan(cfg, trace.args, optind, place), e);
      trace := trace.Saw(e);
    }
  }

  /** The calls of `process_args` until -1: the events are those of the reference parse, and
      nargv ends as the words taken followed by the words left, optind at the latter. */
  method ScanAll(cfg: Config, nargv: array<string>) returns (events: seq<Event>, optind: int)
    requires 0 < nargv.Length
    requires forall o :: o in cfg.longs ==> o.val != -1
    modifies nargv
    ensures var t := Scan(cfg, old(nargv[..]), 1, "");
      && events == t.events
      && nargv[..] == old(nargv[..1]) + t.taken + t.left
      && optind == 1 + |t.taken|
  {
    var s := new Scanner(cfg, nargv);
    ghost var t := s.Expected(cfg, nargv);
    assert !s.Restarting(nargv);
    events := [];
    var ret, ended := s.Next(cfg, nargv);
    hide Scan, Trace.Total, Trace.Laid;
    while ret != -1
      invariant ended <==> ret == -1
      invariant s.trace.args == old(nargv[..]) && s.trace.base == 1
      invariant ended ==> s.trace.Settled(nargv[..], s.optind, t)
      invariant !ended ==> s.Valid(cfg, nargv) && !s.Restarting(nargv) && s.Expected(cfg, nargv) == t
      invariant !ended ==> s.trace.seen == events + [Event(ret, s.optarg)] && |s.trace.seen| <= |t.events|
      invariant ended ==> s.trace.seen == events
      decreases |t.events| - |events|
    {
      events := events + [Event(ret, s.optarg)];
      ret, ended := s.Next(cfg, nargv);
    }
    optind := s.optind;
  }
}
