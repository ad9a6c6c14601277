/** What options look like on a command line, and that the scanner reads them back. */
module GetoptRoundTrip {
  import opened Common
  import opened GetoptScan

  /** One item of a command line.  `joined` arguments share the element of their option. */
  datatype Setting =
    | Flag(c: char)
    | Valued(c: char, arg: string, joined: bool)
    | LongFlag(i: nat)
    | LongValued(i: nat, arg: string, joined: bool)
    | Operand(text: string)

  /** `c` is among the short options, and takes an argument or not. */
  predicate IsShort(cfg: Config, c: char, takesArg: bool) {
    exists p | 0 <= p < |cfg.optstring| ::
      && cfg.optstring[p] == c && (forall j | 0 <= j < p :: cfg.optstring[j] != c)
      && takesArg == (p + 1 < |cfg.optstring| && cfg.optstring[p + 1] == ':')
  }

  /** Option `i` is the first of its name, which can be written. */
  predicate IsLong(cfg: Config, i: nat) {
    && cfg.longs.Some? && i < |cfg.longs.value|
    && var name := cfg.longs.value[i].name;
       0 < |name| < 128 && '=' !in name && forall j | 0 <= j < i :: cfg.longs.value[j].name != name
  }

  predicate CanWrite(cfg: Config, x: Setting) {
    match x
    case Flag(c) => c != '-' && IsShort(cfg, c, false)
    case Valued(c, arg, joined) => c != '-' && IsShort(cfg, c, true) && (joined ==> arg != "")
    case LongFlag(i) => IsLong(cfg, i) && cfg.longs.value[i].hasArg != 1
    case LongValued(i, arg, joined) =>
      && IsLong(cfg, i) && cfg.longs.value[i].hasArg != 0
      && (!joined ==> cfg.longs.value[i].hasArg == 1)
    case Operand(text) => text == "" || text == "-" || text[0] != '-'
  }

  /** The elements of argv that say it. */
  function Written(cfg: Config, x: Setting): (r: seq<string>)
    requires CanWrite(cfg, x)
    ensures 1 <= |r| <= 2
  {
    match x
    case Flag(c) => [['-', c]]
    case Valued(c, arg, joined) => if joined then [['-', c] + arg] else [['-', c], arg]
    case LongFlag(i) => ["--" + cfg.longs.value[i].name]
    case LongValued(i, arg, joined) =>
      if joined then ["--" + cfg.longs.value[i].name + "=" + arg] else ["--" + cfg.longs.value[i].name, arg]
    case Operand(text) => [text]
  }

  /** Which of its elements belong to an option. */
  function Marks(cfg: Config, x: Setting): (r: seq<bool>)
    requires CanWrite(cfg, x)
    ensures |r| == |Written(cfg, x)|
  {
    if x.Operand? then [false] else if |Written(cfg, x)| == 1 then [true] else [true, true]
  }

  /** The value that getopt returns for it. */
  function Value(cfg: Config, x: Setting): int
    requires CanWrite(cfg, x) && !x.Operand?
  {
    match x
    case Flag(c) => c as int
    case Valued(c, _, _) => c as int
    case LongFlag(i) => if cfg.longs.value[i].flag then 0 else cfg.longs.value[i].val
    case LongValued(i, _, _) => if cfg.longs.value[i].flag then 0 else cfg.longs.value[i].val
  }

  function Argument(x: Setting): Option<string> {
    match x
    case Valued(_, arg, _) => Some(arg)
    case LongValued(_, arg, _) => Some(arg)
    case _ => None
  }

  /** What is written for `x` lies at position `p`. */
  ghost predicate LiesAt(cfg: Config, a: seq<string>, p: nat, x: Setting) {
    CanWrite(cfg, x) && p + |Written(cfg, x)| <= |a| && a[p..p + |Written(cfg, x)|] == Written(cfg, x)
  }

  // ----- one item -----

  lemma FirstIndex(s: string, c: char, p: nat)
    requires p < |s| && s[p] == c && forall j | 0 <= j < p :: s[j] != c
    ensures IndexOf(s, c) == p
  {
  }

  /** The element of a short option as a cluster. */
  lemma ShortElement(cfg: Config, a: seq<string>, p: nat, x: Setting)
    requires (x.Flag? || x.Valued?) && LiesAt(cfg, a, p, x)
    ensures p < |a| && |a[p]| >= 2 && a[p][0] == '-' && a[p][1] == x.c != '-'
    ensures a[p][1..][1..] == if x.Valued? && x.joined then x.arg else ""
    ensures x.Valued? && !x.joined ==> p + 1 < |a| && a[p + 1] == x.arg
  {
    hide IsShort;
    var w := Written(cfg, x);
    assert a[p] == a[p..p + |w|][0] == w[0];
    if |w| == 2 { assert a[p + 1] == a[p..p + |w|][1] == w[1]; }
    if x.Valued? && x.joined {
      assert w[0][1..][1..] == x.arg;
    } else {
      assert w[0][1..][1..] == "";
    }
  }

  /** A short option, alone in its element. */
  lemma ReadsShort(cfg: Config, a: seq<string>, s: Scan, x: Setting)
    requires s.cluster == [] && (x.Flag? || x.Valued?) && LiesAt(cfg, a, s.Pos(), x) && !cfg.longOnly
    ensures s.Pos() < |a|
    ensures exists s' :: Call(cfg, a, s, Value(cfg, x), s') && s'.marks == s.marks + Marks(cfg, x) && s'.cluster == []
                         && s'.optarg == Argument(x)
  {
    ShortElement(cfg, a, s.Pos(), x);
    var el := a[s.Pos()];
    var t := s.(cluster := el[1..]);
    var (ret, s') := ShortStep(cfg, a, t);
    ShortReads(cfg, a, t, x);
    hide ShortStep, IsShort, Written, LiesAt, Marks;
    assert SkipOperands(a, s) == s;
    assert Chosen(cfg, a, s, NotLong, ret, s');
    assert Call(cfg, a, s, ret, s');
  }

  lemma ShortReads(cfg: Config, a: seq<string>, t: Scan, x: Setting)
    requires t.cluster != [] && t.Pos() < |a| && (x.Flag? || x.Valued?) && CanWrite(cfg, x) && t.cluster[0] == x.c
    requires t.cluster[1..] == if x.Valued? && x.joined then x.arg else ""
    requires x.Valued? && !x.joined ==> t.Pos() + 1 < |a| && a[t.Pos() + 1] == x.arg
    ensures var (ret, s') := ShortStep(cfg, a, t);
            && ret == Value(cfg, x) && s'.marks == t.marks + Marks(cfg, x) && s'.cluster == []
            && s'.optarg == Argument(x)
  {
    var takes := x.Valued?;
    var p :| && 0 <= p < |cfg.optstring| && cfg.optstring[p] == x.c
             && (forall j | 0 <= j < p :: cfg.optstring[j] != x.c)
             && takes == (p + 1 < |cfg.optstring| && cfg.optstring[p + 1] == ':');
    FirstIndex(cfg.optstring, x.c, p);
    hide IndexOf;
  }

  /** The name of a long option, in front of `=` or at the end. */
  lemma NameIs(name: string, rest: string)
    requires '=' !in name && (rest == "" || rest[0] == '=')
    ensures IndexOf(name + rest, '=') == |name| && (name + rest)[..|name|] == name
  {
    var s := name + rest;
    assert forall j | 0 <= j < |name| :: s[j] == name[j];
    if rest != "" {
      FirstIndex(s, '=', |name|);
    }
  }

  /** The element of a long option, as its name and what follows it. */
  lemma LongElement(cfg: Config, a: seq<string>, p: nat, x: Setting, rest: string)
    requires (x.LongFlag? || x.LongValued?) && LiesAt(cfg, a, p, x)
    requires rest == if x.LongValued? && x.joined then "=" + x.arg else ""
    ensures p < |a| && |a[p]| > 2 && a[p][1] == '-' && a[p] != "--" && !IsOperand(a[p])
    ensures LongBody(a[p]) == cfg.longs.value[x.i].name + rest
    ensures x.LongValued? && !x.joined ==> p + 1 < |a| && a[p + 1] == x.arg
  {
    var w, name := Written(cfg, x), cfg.longs.value[x.i].name;
    assert a[p] == a[p..p + |w|][0] == w[0];
    if |w| == 2 { assert a[p + 1] == a[p..p + |w|][1] == w[1]; }
    assert w[0] == "--" + (name + rest);
    assert w[0][2..] == name + rest;
  }

  /** What such an element does to the scan. */
  lemma LongStepReads(cfg: Config, a: seq<string>, s: Scan, x: Setting, rest: string)
    requires (x.LongFlag? || x.LongValued?) && CanWrite(cfg, x) && s.Pos() < |a| && s.cluster == []
    requires rest == if x.LongValued? && x.joined then "=" + x.arg else ""
    requires x.LongValued? && !x.joined ==> s.Pos() + 1 < |a| && a[s.Pos() + 1] == x.arg
    ensures var o := cfg.longs.value[x.i];
            var r := LongStep(cfg, a, s, o.name + rest, true, Found(x.i));
            && r.Long? && r.ret == Value(cfg, x) && r.s.marks == s.marks + Marks(cfg, x) && r.s.cluster == []
            && r.s.optarg == Argument(x) && r.s.longindex == Some(x.i)
            && r.s.flagged == s.flagged + (if o.flag then [x.i] else [])
  {
    var name := cfg.longs.value[x.i].name;
    NameIs(name, rest);
    if rest != "" { assert (name + rest)[|name| + 1..] == x.arg; }
    hide IndexOf;
  }

  lemma ReadsLong(cfg: Config, a: seq<string>, s: Scan, x: Setting)
    requires s.cluster == [] && (x.LongFlag? || x.LongValued?) && LiesAt(cfg, a, s.Pos(), x)
    ensures s.Pos() < |a|
    ensures exists s' :: Call(cfg, a, s, Value(cfg, x), s') && s'.marks == s.marks + Marks(cfg, x) && s'.cluster == []
                         && s'.optarg == Argument(x) && s'.longindex == Some(x.i)
                         && s'.flagged == s.flagged + if cfg.longs.value[x.i].flag then [x.i] else []
  {
    var o := cfg.longs.value[x.i];
    var rest := if x.LongValued? && x.joined then "=" + x.arg else "";
    LongElement(cfg, a, s.Pos(), x, rest);
    NameIs(o.name, rest);
    var l := Found(x.i);
    assert Looks(cfg.longs.value, o.name, l);
    var r := LongStep(cfg, a, s, o.name + rest, true, l);
    LongStepReads(cfg, a, s, x, rest);
    assert SkipOperands(a, s) == s;
    hide LongStep, Looks, Written, Marks, Value, LiesAt, IndexOf, SkipOperands, IsOperand;
    assert IsLongStep(cfg, a, s, LongBody(a[s.Pos()]), true, r);
    assert Chosen(cfg, a, s, r, r.ret, r.s);
    assert Call(cfg, a, s, r.ret, r.s);
  }

  /** With getopt_long_only a long option may also have a single dash, and what is no long option then is
      a cluster of short ones. */
  lemma LongOnlyReads(cfg: Config, a: seq<string>, s: Scan, name: string, ret: int, s': Scan)
    requires s.cluster == [] && s.Pos() < |a| && cfg.longOnly && cfg.longs.Some? && Call(cfg, a, s, ret, s')
    requires 0 < |name| < 128 && '=' !in name && name[0] != '-' && a[s.Pos()] == "-" + name
    ensures forall i: nat | IsLong(cfg, i) && cfg.longs.value[i].name == name && cfg.longs.value[i].hasArg == 0 ::
              && ret == (if cfg.longs.value[i].flag then 0 else cfg.longs.value[i].val)
              && s'.longindex == Some(i) && s'.marks == s.marks + [true]
    ensures (forall j | 0 <= j < |cfg.longs.value| :: !IsPrefixOf(name, cfg.longs.value[j].name)) ==>
              Call(cfg, a, s.(cluster := name), ret, s')
  {
    var el := a[s.Pos()];
    assert el[1] == name[0] && LongBody(el) == name && el != "--" && el[1..] == name;
    assert name + "" == name;
    NameIs(name, "");
    assert SkipOperands(a, s) == s;
    hide SkipOperands, ShortStep, PassRest;
    var r :| IsLongStep(cfg, a, s, name, false, r) && Chosen(cfg, a, s, r, ret, s');
    var l :| Looks(cfg.longs.value, name, l) && r == LongStep(cfg, a, s, name, false, l);
    LongErrorCases(cfg, name, l);
  }

  // ----- a whole command line -----

  ghost function AllWritten(cfg: Config, xs: seq<Setting>): seq<string>
    requires forall i | 0 <= i < |xs| :: CanWrite(cfg, xs[i])
  {
    if xs == [] then [] else Written(cfg, xs[0]) + AllWritten(cfg, xs[1..])
  }

  /** The values returned, the arguments that come with them, and -1 at the end. */
  ghost function Values(cfg: Config, xs: seq<Setting>): (r: seq<int>)
    requires forall i | 0 <= i < |xs| :: CanWrite(cfg, xs[i])
    ensures r != []
  {
    if xs == [] then [-1]
    else (if xs[0].Operand? then [] else [Value(cfg, xs[0])]) + Values(cfg, xs[1..])
  }

  ghost function Arguments(xs: seq<Setting>): seq<Option<string>> {
    if xs == [] then [] else (if xs[0].Operand? then [] else [Argument(xs[0])]) + Arguments(xs[1..])
  }

  ghost function AllMarks(cfg: Config, xs: seq<Setting>): seq<bool>
    requires forall i | 0 <= i < |xs| :: CanWrite(cfg, xs[i])
  {
    if xs == [] then [] else Marks(cfg, xs[0]) + AllMarks(cfg, xs[1..])
  }

  /** What a sequence of calls reports: the values returned, what each but the last leaves in optarg, and
      which elements it has passed as options. */
  datatype Report = Report(rets: seq<int>, args: seq<Option<string>>, marks: seq<bool>)

  ghost function Expected(cfg: Config, xs: seq<Setting>): (r: Report)
    requires forall i | 0 <= i < |xs| :: CanWrite(cfg, xs[i])
    ensures r.rets != []
  {
    Report(Values(cfg, xs), Arguments(xs), AllMarks(cfg, xs))
  }

  /** The calls from state `s` on, through `states`, report `r`. */
  ghost predicate Reports(cfg: Config, a: seq<string>, s: Scan, r: Report, states: seq<Scan>) {
    && IsScan(cfg, a, r.rets, states) && states[0] == s && |r.args| + 1 == |r.rets|
    && (forall k | 0 <= k < |r.args| :: states[k + 1].optarg == r.args[k])
    && states[|states| - 1].marks == s.marks + r.marks
  }

  ghost predicate Reads(cfg: Config, a: seq<string>, s: Scan, r: Report) {
    exists states :: Reports(cfg, a, s, r, states)
  }

  /** An operand in front of the next option changes nothing but the marks. */
  lemma CallPassesOperand(cfg: Config, a: seq<string>, s: Scan, ret: int, s': Scan)
    requires s.cluster == [] && s.Pos() < |a| && IsOperand(a[s.Pos()])
    ensures Call(cfg, a, s.Pass(false), ret, s') <==> Call(cfg, a, s, ret, s')
  {
    assert SkipOperands(a, s) == SkipOperands(a, s.Pass(false));
  }

  lemma ReadsPastOperand(cfg: Config, a: seq<string>, s: Scan, r: Report)
    requires s.cluster == [] && s.Pos() < |a| && IsOperand(a[s.Pos()]) && r.rets != []
    requires Reads(cfg, a, s.Pass(false), r)
    ensures Reads(cfg, a, s, r.(marks := [false] + r.marks))
  {
    hide Call;
    var states :| Reports(cfg, a, s.Pass(false), r, states);
    var ss := states[0 := s];
    assert Call(cfg, a, states[0], r.rets[0], states[1]);
    CallPassesOperand(cfg, a, s, r.rets[0], states[1]);
    forall k | 0 <= k < |r.rets|
      ensures Call(cfg, a, ss[k], r.rets[k], ss[k + 1])
    {
      assert Call(cfg, a, states[k], r.rets[k], states[k + 1]);
    }
    assert s.marks + [false] + r.marks == s.marks + ([false] + r.marks);
    assert Reports(cfg, a, s, r.(marks := [false] + r.marks), ss);
  }

  lemma ReadsFirst(cfg: Config, a: seq<string>, s: Scan, ret: int, t: Scan, m: seq<bool>, r: Report)
    requires s.Pos() <= |a| && (s.cluster != [] ==> s.Pos() < |a|) && Call(cfg, a, s, ret, t)
    requires t.marks == s.marks + m && Reads(cfg, a, t, r)
    ensures Reads(cfg, a, s, Report([ret] + r.rets, [t.optarg] + r.args, m + r.marks))
  {
    hide Call;
    var states :| Reports(cfg, a, t, r, states);
    var ss := [s] + states;
    forall k | 0 <= k < |r.rets| + 1
      ensures Call(cfg, a, ss[k], ([ret] + r.rets)[k], ss[k + 1])
    {
      if k > 0 { assert Call(cfg, a, states[k - 1], r.rets[k - 1], states[k]); }
    }
    assert s.marks + m + r.marks == s.marks + (m + r.marks);
    assert Reports(cfg, a, s, Report([ret] + r.rets, [t.optarg] + r.args, m + r.marks), ss);
  }

  /** At the end of argv the scan ends. */
  lemma ReadsEnd(cfg: Config, a: seq<string>, s: Scan)
    requires s.Pos() == |a| && s.cluster == []
    ensures Reads(cfg, a, s, Report([-1], [], []))
  {
    assert Reports(cfg, a, s, Report([-1], [], []), [s, s]);
  }

  /** Any list of options and operands, written down one after the other, is read back: the values and
      arguments of its options in order, then the end, and the elements of options marked as such. */
  lemma {:induction false} ReadsWhatIsWritten(cfg: Config, a: seq<string>, s: Scan, xs: seq<Setting>)
    requires !cfg.longOnly && s.cluster == [] && s.Pos() <= |a|
    requires (forall i | 0 <= i < |xs| :: CanWrite(cfg, xs[i])) && a[s.Pos()..] == AllWritten(cfg, xs)
    ensures Reads(cfg, a, s, Expected(cfg, xs))
    decreases |xs|
  {
    hide Call, Reads, CanWrite;
    if xs == [] {
      ReadsEnd(cfg, a, s);
    } else {
      var x := xs[0];
      WrittenFirst(cfg, a, s.Pos(), xs);
      if x.Operand? {
        ReadsWhatIsWritten(cfg, a, s.Pass(false), xs[1..]);
        ReadsPastOperand(cfg, a, s, Expected(cfg, xs[1..]));
        assert Values(cfg, xs) == Values(cfg, xs[1..]) && Arguments(xs) == Arguments(xs[1..]);
      } else {
        var t := ReadsOption(cfg, a, s, x);
        ReadsWhatIsWritten(cfg, a, t, xs[1..]);
        ReadsFirst(cfg, a, s, Value(cfg, x), t, Marks(cfg, x), Expected(cfg, xs[1..]));
      }
    }
  }

  lemma ReadsOption(cfg: Config, a: seq<string>, s: Scan, x: Setting) returns (t: Scan)
    requires !cfg.longOnly && s.cluster == [] && s.Pos() <= |a| && !x.Operand? && LiesAt(cfg, a, s.Pos(), x)
    ensures Call(cfg, a, s, Value(cfg, x), t) && t.marks == s.marks + Marks(cfg, x) && t.cluster == []
    ensures t.optarg == Argument(x)
  {
    hide Call, CanWrite, Written, Marks;
    if x.Flag? || x.Valued? { ReadsShort(cfg, a, s, x); } else { ReadsLong(cfg, a, s, x); }
    t :| Call(cfg, a, s, Value(cfg, x), t) && t.marks == s.marks + Marks(cfg, x) && t.cluster == []
         && t.optarg == Argument(x);
  }

  lemma WrittenFirst(cfg: Config, a: seq<string>, p: nat, xs: seq<Setting>)
    requires xs != [] && p <= |a| && (forall i | 0 <= i < |xs| :: CanWrite(cfg, xs[i])) && a[p..] == AllWritten(cfg, xs)
    ensures var w := Written(cfg, xs[0]);
            p + |w| <= |a| && LiesAt(cfg, a, p, xs[0]) && a[p + |w|..] == AllWritten(cfg, xs[1..])
    ensures xs[0].Operand? ==> IsOperand(a[p])
  {
    hide IsShort, IsLong;
    var w, rest := Written(cfg, xs[0]), AllWritten(cfg, xs[1..]);
    assert a[p..] == w + rest;
    assert |a| - p == |w| + |rest|;
    assert a[p..p + |w|] == a[p..][..|w|] == w;
    assert a[p + |w|..] == a[p..][|w|..] == rest;
    assert a[p] == a[p..][0] == w[0];
  }

  // ----- what is not an option -----

  /** A character that is no option is reported by `?`, and one whose argument is missing by `?`, or by `:`
      if the option string begins with one; both are left in optopt. */
  lemma ShortErrors(cfg: Config, a: seq<string>, s: Scan, ret: int, s': Scan)
    requires s.cluster != [] && s.Pos() < |a| && Call(cfg, a, s, ret, s')
    ensures s.cluster[0] !in cfg.optstring ==> ret == 63 && s'.optopt == s.cluster[0] as int
    ensures IsShort(cfg, s.cluster[0], true) && |s.cluster| == 1 && s.Pos() + 1 == |a| ==>
              && ret == (if cfg.optstring[0] == ':' then 58 else 63)
              && s'.optopt == s.cluster[0] as int && s'.Pos() == |a|
  {
    var c := s.cluster[0];
    if IsShort(cfg, c, true) {
      var p :| 0 <= p < |cfg.optstring| && cfg.optstring[p] == c && (forall j | 0 <= j < p :: cfg.optstring[j] != c)
               && p + 1 < |cfg.optstring| && cfg.optstring[p + 1] == ':';
      FirstIndex(cfg.optstring, c, p);
    }
  }

  /** Short options may share an element: each but the last is reported and leaves the rest. */
  lemma ClusterStep(cfg: Config, a: seq<string>, s: Scan, ret: int, s': Scan)
    requires |s.cluster| > 1 && s.Pos() < |a| && IsShort(cfg, s.cluster[0], false) && Call(cfg, a, s, ret, s')
    ensures ret == s.cluster[0] as int && s'.cluster == s.cluster[1..] && s'.Pos() == s.Pos() && s'.optarg == None
  {
    var c := s.cluster[0];
    var p :| 0 <= p < |cfg.optstring| && cfg.optstring[p] == c && (forall j | 0 <= j < p :: cfg.optstring[j] != c)
             && !(p + 1 < |cfg.optstring| && cfg.optstring[p + 1] == ':');
    FirstIndex(cfg.optstring, c, p);
  }

  /** A long name that is none, an ambiguous one, an argument to an option that takes none, and a missing
      one are errors; the element is passed. */
  lemma LongErrors(cfg: Config, a: seq<string>, s: Scan, name: string, rest: string, ret: int, s': Scan)
    requires s.cluster == [] && s.Pos() < |a| && a[s.Pos()] == "--" + (name + rest) && cfg.longs.Some?
    requires 0 < |name| < 128 && '=' !in name && (rest == "" || rest[0] == '=') && Call(cfg, a, s, ret, s')
    ensures var lo := cfg.longs.value;
            && ((forall j | 0 <= j < |lo| :: !IsPrefixOf(name, lo[j].name)) ==> ret == 63 && s'.Pos() == s.Pos() + 1)
            && ((forall j | 0 <= j < |lo| :: lo[j].name != name)
                && (exists j, k | 0 <= j < k < |lo| :: IsPrefixOf(name, lo[j].name) && IsPrefixOf(name, lo[k].name)) ==>
                  ret == 63 && s'.Pos() == s.Pos() + 1)
            && forall i: nat | IsLong(cfg, i) && lo[i].name == name ::
                 && (lo[i].hasArg == 0 && rest != "" ==> ret == 63 && s'.Pos() == s.Pos() + 1)
                 && (lo[i].hasArg == 1 && rest == "" && s.Pos() + 1 == |a| ==>
                       ret == (if cfg.optstring != "" && cfg.optstring[0] == ':' then 58 else 63) && s'.Pos() == |a|)
  {
    var el := a[s.Pos()];
    assert el[1] == '-' && LongBody(el) == name + rest && el != "--";
    NameIs(name, rest);
    assert SkipOperands(a, s) == s;
    hide SkipOperands, ShortStep, PassRest;
    var r :| IsLongStep(cfg, a, s, name + rest, true, r) && Chosen(cfg, a, s, r, ret, s');
    var l :| Looks(cfg.longs.value, name, l) && r == LongStep(cfg, a, s, name + rest, true, l);
    LongErrorCases(cfg, name, l);
  }

  lemma LongErrorCases(cfg: Config, name: string, l: Lookup)
    requires cfg.longs.Some? && Looks(cfg.longs.value, name, l)
    ensures var lo := cfg.longs.value;
            && ((forall j | 0 <= j < |lo| :: !IsPrefixOf(name, lo[j].name)) ==> l.Unknown?)
            && ((forall j | 0 <= j < |lo| :: lo[j].name != name)
                && (exists j, k | 0 <= j < k < |lo| :: IsPrefixOf(name, lo[j].name) && IsPrefixOf(name, lo[k].name)) ==>
                  l.Ambiguous?)
            && forall i: nat | IsLong(cfg, i) && lo[i].name == name :: l == Found(i)
  {
    var lo := cfg.longs.value;
    if forall j | 0 <= j < |lo| :: !IsPrefixOf(name, lo[j].name) {
      LooksUnique(lo, name, l, Unknown);
    }
    if forall j | 0 <= j < |lo| :: lo[j].name != name {
      if exists j, k | 0 <= j < k < |lo| :: IsPrefixOf(name, lo[j].name) && IsPrefixOf(name, lo[k].name) {
        LooksUnique(lo, name, l, Ambiguous);
      }
    }
    forall i: nat | IsLong(cfg, i) && lo[i].name == name
      ensures l == Found(i)
    {
      LooksUnique(lo, name, l, Found(i));
    }
  }

  /** Everything behind `--` is an operand, and so is a lone `-`. */
  lemma DashDashEnds(cfg: Config, a: seq<string>, s: Scan, ret: int, s': Scan)
    requires s.cluster == [] && s.Pos() < |a| && a[s.Pos()] == "--" && Call(cfg, a, s, ret, s')
    ensures ret == -1 && s'.Pos() == |a| && s'.marks[|s.marks|]
    ensures forall k | |s.marks| < k < |s'.marks| :: !s'.marks[k]
  {
    assert SkipOperands(a, s) == s;
    RestAreOperands(a, s.Pass(true));
  }

  lemma {:induction false} RestAreOperands(a: seq<string>, s: Scan)
    requires s.Pos() <= |a|
    ensures var r := PassRest(a, s); s.marks <= r.marks && forall k | |s.marks| <= k < |r.marks| :: !r.marks[k]
    decreases |a| - s.Pos()
  {
    if s.Pos() < |a| { RestAreOperands(a, s.Pass(false)); }
  }
}
