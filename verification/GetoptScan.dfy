/** What getopt, getopt_long and getopt_long_only report, as a left-to-right scan of an
    argv that nobody permutes. */
module GetoptScan {
  import opened Common

  /** struct option; `hasArg` is 0, 1 or 2 for no, a required and an optional argument. */
  datatype LongOpt = LongOpt(name: string, hasArg: int, flag: bool, val: int)

  datatype Config = Config(optstring: string, longs: Option<seq<LongOpt>>, longOnly: bool)

  /** The negative values -1, -2 and -3 mean something else inside and outside the scanner. */
  ghost predicate WfConfig(cfg: Config) {
    cfg.longs.Some? ==> forall i | 0 <= i < |cfg.longs.value| :: !(-3 <= cfg.longs.value[i].val <= -1)
  }

  /** How far the scan is: a mark for every element behind the program name that it has
      passed, the rest of the current cluster of short options, and what it has told the
      caller so far. */
  datatype Scan = Scan(marks: seq<bool>, cluster: string, optarg: Option<string>, optopt: int,
                       longindex: Option<nat>, flagged: seq<nat>) {
    function Pos(): nat { 1 + |marks| }

    /** Passing one more element. */
    function Pass(option: bool): Scan { this.(marks := marks + [option]) }
  }

  const QUESTION: int := '?' as int
  const COLON: int := ':' as int
  const NAME_MAX: nat := 128

  predicate IsOperand(s: string) {
    |s| == 0 || s[0] != '-' || |s| == 1
  }

  function IndexOf(s: string, c: char): (i: nat)
    ensures i <= |s| && (i < |s| ==> s[i] == c) && forall j | 0 <= j < i :: s[j] != c
  {
    if s == [] then 0 else if s[0] == c then 0 else 1 + IndexOf(s[1..], c)
  }

  /** What a missing argument is reported as. */
  function Missing(cfg: Config): int {
    if cfg.optstring != [] && cfg.optstring[0] == ':' then COLON else QUESTION
  }

  // ----- long options -----

  /** Which long option a name means: an exact name, or else a unique prefix. */
  datatype Lookup = Found(i: nat) | Ambiguous | Unknown

  predicate IsPrefixOf(s: string, t: string) {
    |s| <= |t| && t[..|s|] == s
  }

  ghost predicate Looks(lo: seq<LongOpt>, name: string, r: Lookup) {
    match r
    case Found(i) =>
      && i < |lo|
      && ((lo[i].name == name && forall j | 0 <= j < i :: lo[j].name != name)
          || ((forall j | 0 <= j < |lo| :: lo[j].name != name)
              && forall j | 0 <= j < |lo| :: IsPrefixOf(name, lo[j].name) <==> j == i))
    case Ambiguous =>
      && (forall j | 0 <= j < |lo| :: lo[j].name != name)
      && exists j, k | 0 <= j < k < |lo| :: IsPrefixOf(name, lo[j].name) && IsPrefixOf(name, lo[k].name)
    case Unknown =>
      forall j | 0 <= j < |lo| :: !IsPrefixOf(name, lo[j].name)
  }

  /** The three outcomes exclude each other. */
  lemma LooksUnique(lo: seq<LongOpt>, name: string, r: Lookup, r': Lookup)
    requires Looks(lo, name, r) && Looks(lo, name, r')
    ensures r == r'
  {
    if r.Found? && lo[r.i].name == name {
      assert IsPrefixOf(name, lo[r.i].name);
    }
    if r'.Found? && lo[r'.i].name == name {
      assert IsPrefixOf(name, lo[r'.i].name);
    }
  }

  /** An option element of long form, at the scan's position. */
  datatype LongResult = NotLong | Long(ret: int, s: Scan)

  /** What a long option with name and possible `=value` does; `l` is how its name looks up. */
  function LongStep(cfg: Config, a: seq<string>, s: Scan, body: string, doubleDash: bool, l: Lookup): LongResult
    requires cfg.longs.Some? && s.Pos() < |a| && (l.Found? ==> l.i < |cfg.longs.value|)
  {
    var eq := IndexOf(body, '=');
    if eq == 0 || eq >= NAME_MAX then NotLong
    else
      match l
      case Ambiguous => Long(QUESTION, s.Pass(true))
      case Unknown =>
        if cfg.longOnly && !doubleDash then NotLong else Long(QUESTION, s.Pass(true).(optopt := 0))
      case Found(i) =>
        var o := cfg.longs.value[i];
        var given := eq < |body|;
        if o.hasArg == 0 && given then Long(QUESTION, s.Pass(true))
        else if o.hasArg == 1 && !given && s.Pos() + 1 >= |a| then Long(Missing(cfg), s.Pass(true))
        else
          var next := o.hasArg == 1 && !given;
          var arg := if given then Some(body[eq + 1..]) else if next then Some(a[s.Pos() + 1]) else None;
          var s1 := (if next then s.Pass(true).Pass(true) else s.Pass(true)).(optarg := arg, longindex := Some(i));
          if o.flag then Long(0, s1.(flagged := s1.flagged + [i])) else Long(o.val, s1)
  }

  /** The same, with the lookup done. */
  ghost predicate IsLongStep(cfg: Config, a: seq<string>, s: Scan, body: string, doubleDash: bool, r: LongResult)
    requires cfg.longs.Some? && s.Pos() < |a|
  {
    exists l :: Looks(cfg.longs.value, body[..IndexOf(body, '=')], l) && r == LongStep(cfg, a, s, body, doubleDash, l)
  }

  // ----- short options -----

  /** The next character of a non-empty cluster. */
  function ShortStep(cfg: Config, a: seq<string>, s: Scan): (r: (int, Scan))
    requires s.cluster != [] && s.Pos() < |a|
    ensures r.0 >= 0 && |s.marks| <= |r.1.marks| && r.1.Pos() <= |a|
    ensures r.1.cluster != [] ==> r.1.Pos() < |a|
  {
    var c, rest := s.cluster[0], s.cluster[1..];
    var p := IndexOf(cfg.optstring, c);
    var s1 := s.(cluster := rest);
    var done := if rest == [] then s1.Pass(true) else s1;
    if p == |cfg.optstring| then (QUESTION, done.(optopt := c as int))
    else if p + 1 < |cfg.optstring| && cfg.optstring[p + 1] == ':' then
      if rest != [] then (c as int, s1.(cluster := "", optarg := Some(rest)).Pass(true))
      else if s.Pos() + 1 < |a| then (c as int, s1.(optarg := Some(a[s.Pos() + 1])).Pass(true).Pass(true))
      else (Missing(cfg), s1.(optopt := c as int).Pass(true))
    else (c as int, done.(optarg := None))
  }

  // ----- one call -----

  /** Passing operands up to the next option element or the end. */
  function SkipOperands(a: seq<string>, s: Scan): (r: Scan)
    requires s.Pos() <= |a|
    ensures r == s.(marks := r.marks) && |s.marks| <= |r.marks| && r.Pos() <= |a|
    ensures r.Pos() < |a| ==> !IsOperand(a[r.Pos()])
    decreases |a| - s.Pos()
  {
    if s.Pos() < |a| && IsOperand(a[s.Pos()]) then SkipOperands(a, s.Pass(false)) else s
  }

  /** Everything behind `--` is an operand. */
  function PassRest(a: seq<string>, s: Scan): (r: Scan)
    requires s.Pos() <= |a|
    ensures r == s.(marks := r.marks) && r.Pos() == |a|
    decreases |a| - s.Pos()
  {
    if s.Pos() < |a| then PassRest(a, s.Pass(false)) else s
  }

  /** The part of an element that may name a long option. */
  function LongBody(arg: string): string
    requires |arg| >= 2
  {
    if arg[1] == '-' then arg[2..] else arg[1..]
  }

  /** What an option element gives: a long option, or the first of a cluster of short ones. */
  ghost predicate Element(cfg: Config, a: seq<string>, t: Scan, ret: int, s': Scan)
    requires t.Pos() < |a| && |a[t.Pos()]| >= 2
  {
    var arg := a[t.Pos()];
    if cfg.longs.Some? && (arg[1] == '-' || cfg.longOnly) then
      exists r :: IsLongStep(cfg, a, t, LongBody(arg), arg[1] == '-', r) && Chosen(cfg, a, t, r, ret, s')
    else Chosen(cfg, a, t, NotLong, ret, s')
  }

  ghost predicate Chosen(cfg: Config, a: seq<string>, t: Scan, r: LongResult, ret: int, s': Scan)
    requires t.Pos() < |a| && |a[t.Pos()]| >= 2
  {
    match r
    case Long(ret', s2) => ret == ret' && s' == s2
    case NotLong => (ret, s') == ShortStep(cfg, a, t.(cluster := a[t.Pos()][1..]))
  }

  /** One call of the scanner in state `s` returns `ret` and leaves state `s'`. */
  ghost predicate Call(cfg: Config, a: seq<string>, s: Scan, ret: int, s': Scan)
    requires s.Pos() <= |a| && (s.cluster != [] ==> s.Pos() < |a|)
  {
    if s.cluster != [] then (ret, s') == ShortStep(cfg, a, s)
    else
      var t := SkipOperands(a, s);
      if t.Pos() == |a| then ret == -1 && s' == t
      else if a[t.Pos()] == "--" then ret == -1 && s' == PassRest(a, t.Pass(true))
      else Element(cfg, a, t, ret, s')
  }

  /** The result of a call is determined. */
  lemma CallUnique(cfg: Config, a: seq<string>, s: Scan, ret: int, s': Scan, ret2: int, s2: Scan)
    requires s.Pos() <= |a| && (s.cluster != [] ==> s.Pos() < |a|)
    requires Call(cfg, a, s, ret, s') && Call(cfg, a, s, ret2, s2)
    ensures ret == ret2 && s' == s2
  {
    var t := SkipOperands(a, s);
    if s.cluster == [] && t.Pos() < |a| && a[t.Pos()] != "--" && cfg.longs.Some? {
      hide SkipOperands, ShortStep, Looks, LongStep, PassRest;
      forall l, l', name | Looks(cfg.longs.value, name, l) && Looks(cfg.longs.value, name, l')
        ensures l == l'
      {
        LooksUnique(cfg.longs.value, name, l, l');
      }
    }
  }

  // ----- whole runs -----

  /** Every call that does not end the scan passes an element or a character. */
  ghost predicate Advanced(a: seq<string>, s: Scan, s': Scan) {
    && s'.Pos() <= |a| && (s'.cluster != [] ==> s'.Pos() < |a|)
    && (|s.marks| < |s'.marks|
        || (|s.marks| == |s'.marks| && s'.cluster != [] && (s.cluster == [] || |s'.cluster| < |s.cluster|)))
  }

  lemma ShortAdvances(cfg: Config, a: seq<string>, s: Scan)
    requires s.cluster != [] && s.Pos() < |a|
    ensures Advanced(a, s, ShortStep(cfg, a, s).1)
  {
  }

  lemma LongAdvances(cfg: Config, a: seq<string>, s: Scan, body: string, dd: bool, ret: int, s': Scan)
    requires cfg.longs.Some? && s.Pos() < |a| && s.cluster == [] && IsLongStep(cfg, a, s, body, dd, Long(ret, s'))
    ensures Advanced(a, s, s')
  {
  }

  lemma CallAdvances(cfg: Config, a: seq<string>, s: Scan, ret: int, s': Scan)
    requires s.Pos() <= |a| && (s.cluster != [] ==> s.Pos() < |a|)
    requires Call(cfg, a, s, ret, s')
    ensures ret == -1 || Advanced(a, s, s')
    ensures |s.marks| <= |s'.marks|
  {
    hide SkipOperands, ShortStep, IsLongStep, PassRest;
    if s.cluster != [] {
      ShortAdvances(cfg, a, s);
    } else {
      var t := SkipOperands(a, s);
      if t.Pos() < |a| && a[t.Pos()] != "--" {
        var arg := a[t.Pos()];
        ShortAdvances(cfg, a, t.(cluster := arg[1..]));
        forall r | cfg.longs.Some? && IsLongStep(cfg, a, t, LongBody(arg), arg[1] == '-', r) && r.Long?
          ensures Advanced(a, t, r.s)
        {
          LongAdvances(cfg, a, t, LongBody(arg), arg[1] == '-', r.ret, r.s);
        }
      }
    }
  }

  /** `rets` are the values returned until the scan ends, `states` the states in between. */
  ghost predicate IsScan(cfg: Config, a: seq<string>, rets: seq<int>, states: seq<Scan>) {
    && |states| == |rets| + 1
    && (forall k | 0 <= k < |states| :: states[k].Pos() <= |a| && (states[k].cluster != [] ==> states[k].Pos() < |a|))
    && (forall k | 0 <= k < |rets| :: Call(cfg, a, states[k], rets[k], states[k + 1]))
  }
}
