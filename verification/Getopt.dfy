/** The scanner of src/getopt.c: it keeps its place in static variables across calls and
    permutes argv in place. */
module Getopt {
  import opened Common
  import opened GetoptArgv
  import opened GetoptScan

  function AtMost(x: nat, limit: nat): nat {
    if x > limit then limit else x
  }

  class Getopt {
    const argv: array<string>
    var optind: nat
    var nextchar: string          // the rest of the cluster; empty when there is none
    var firstNonopt: nat
    var lastNonopt: nat
    var optarg: Option<string>
    var optopt: int
    var longindex: Option<nat>
    var flagged: seq<nat>         // long options whose flag variable has been set
    ghost var orig: seq<string>   // argv as the caller passed it
    ghost var marks: seq<bool>

    /** The state of the scan of the original argv. */
    ghost function View(): Scan
      reads this
    {
      Scan(marks, nextchar, optarg, optopt, longindex, flagged)
    }

    /** Between calls: argv is the original with its scanned part partitioned around the
        operands, or untouched before the first call. */
    ghost predicate Valid()
      reads this, argv
    {
      && optind == 1 + |marks| <= |orig| == argv.Length
      && (nextchar != [] ==> optind < argv.Length)
      && (Partitioned(argv[..], orig, marks, firstNonopt, lastNonopt) || Untouched())
    }

    ghost predicate Untouched()
      reads this, argv
    {
      firstNonopt == lastNonopt == 0 && marks == [] && nextchar == [] && argv[..] == orig
    }

    /** After the call that returned -1: the stable partition, `optind` at the first operand. */
    ghost predicate Done()
      reads this, argv
    {
      && 1 + |marks| == |orig| == argv.Length
      && argv[..] == Partition(orig, marks)
      && optind == 1 + |Select(orig, marks, true)|
    }

    constructor (argv: array<string>)
      requires argv.Length >= 1
      ensures Valid() && this.argv == argv && orig == argv[..] && marks == [] && nextchar == []
    {
      this.argv := argv;
      optind, nextchar, firstNonopt, lastNonopt := 1, "", 0, 0;
      optarg, optopt, longindex, flagged := None, 0, None, [];
      orig, marks := argv[..], [];
    }

    /** The first half of a fetch: put the options seen since in front of the operands. */
    method Permute()
      requires Valid() && nextchar == []
      modifies this`firstNonopt, this`lastNonopt, argv
      ensures Partitioned(argv[..], orig, marks, firstNonopt, optind)
    {
      hide Rotated, Partitioned;
      if !Untouched() { PartitionedBounds(argv[..], orig, marks, firstNonopt, lastNonopt); }
      lastNonopt := AtMost(lastNonopt, optind);
      firstNonopt := AtMost(firstNonopt, optind);
      if firstNonopt != lastNonopt && lastNonopt != optind {
        PartitionedExchange(argv[..], orig, marks, firstNonopt, lastNonopt);
        Exchange(argv, firstNonopt, lastNonopt, optind);
        firstNonopt := firstNonopt + (optind - lastNonopt);
        lastNonopt := optind;
      } else if lastNonopt != optind {
        if Untouched() {
          PartitionedStart(orig);
        } else {
          PartitionedNoOperands(argv[..], orig, marks, firstNonopt);
        }
        firstNonopt := optind;
      }
    }

    /** The second half: pass operands. */
    method Skip()
      requires Partitioned(argv[..], orig, marks, firstNonopt, optind) && optind == 1 + |marks|
      requires argv.Length == |orig|
      modifies this`optind, this`lastNonopt, this`marks
      ensures Partitioned(argv[..], orig, marks, firstNonopt, optind) && lastNonopt == optind == 1 + |marks|
      ensures View() == SkipOperands(orig, old(View()))
    {
      hide Partitioned;
      PartitionedBounds(argv[..], orig, marks, firstNonopt, optind);
      while optind < argv.Length && IsOperand(argv[optind])
        invariant Partitioned(argv[..], orig, marks, firstNonopt, optind) && optind == 1 + |marks| <= |orig|
        invariant forall j | optind <= j < |orig| :: argv[j] == orig[j]
        invariant SkipOperands(orig, View()) == SkipOperands(orig, old(View()))
        decreases argv.Length - optind
      {
        PartitionedOperand(argv[..], orig, marks, firstNonopt);
        marks := marks + [false];
        optind := optind + 1;
      }
      lastNonopt := optind;
    }

    /** What has not been scanned yet is as the caller passed it. */
    lemma UnscannedSame()
      requires optind == 1 + |marks| && argv.Length == |orig| && optind <= |orig| && argv[optind..] == orig[optind..]
      ensures forall j | optind <= j < |orig| :: argv[j] == orig[j]
    {
      forall j | optind <= j < |orig|
        ensures argv[j] == orig[j]
      {
        assert argv[optind..][j - optind] == orig[optind..][j - optind];
      }
    }

    /** `--`: step over it, move it in front of the operands, and stop. */
    method StopHere()
      requires Partitioned(argv[..], orig, marks, firstNonopt, optind) && lastNonopt == optind == 1 + |marks|
      requires argv.Length == |orig| && optind < argv.Length
      modifies this`optind, this`firstNonopt, this`lastNonopt, this`marks, argv
      ensures optind == lastNonopt == |orig| == 1 + |marks|
      ensures Partitioned(argv[..], orig, marks, firstNonopt, lastNonopt)
      ensures View() == PassRest(orig, old(View().Pass(true)))
    {
      hide Rotated, PassRest, Partitioned;
      PartitionedBounds(argv[..], orig, marks, firstNonopt, lastNonopt);
      PartitionedOption(argv[..], orig, marks, firstNonopt, lastNonopt);
      marks := marks + [true];
      optind := optind + 1;
      if firstNonopt != lastNonopt && lastNonopt != optind {
        PartitionedExchange(argv[..], orig, marks, firstNonopt, lastNonopt);
        Exchange(argv, firstNonopt, lastNonopt, optind);
        firstNonopt := firstNonopt + (optind - lastNonopt);
      } else if firstNonopt == lastNonopt {
        PartitionedNoOperands(argv[..], orig, marks, firstNonopt);
        firstNonopt := optind;
      }
      PassAll();
      lastNonopt := argv.Length;
      optind := argv.Length;
    }

    /** Every element left is an operand where it is. */
    ghost method PassAll()
      requires Partitioned(argv[..], orig, marks, firstNonopt, 1 + |marks|)
      modifies this`marks
      ensures 1 + |marks| == |orig| && Partitioned(argv[..], orig, marks, firstNonopt, |orig|)
      ensures View() == PassRest(orig, old(View()))
    {
      while 1 + |marks| < |orig|
        invariant Partitioned(argv[..], orig, marks, firstNonopt, 1 + |marks|)
        invariant PassRest(orig, View()) == PassRest(orig, old(View()))
        decreases |orig| - |marks|
      {
        PartitionedOperand(argv[..], orig, marks, firstNonopt);
        marks := marks + [false];
      }
    }

    /** The scanned element, or the option's argument behind it, is done with. */
    method Advance()
      requires Valid() && Partitioned(argv[..], orig, marks, firstNonopt, lastNonopt) && optind < argv.Length
      requires nextchar == []
      modifies this`optind, this`marks
      ensures Valid() && Partitioned(argv[..], orig, marks, firstNonopt, lastNonopt)
      ensures View() == old(View()).Pass(true)
    {
      PartitionedOption(argv[..], orig, marks, firstNonopt, lastNonopt);
      marks := marks + [true];
      optind := optind + 1;
    }

    /** long_match. */
    static method LongMatch(name: string, lo: seq<LongOpt>) returns (l: Lookup)
      ensures Looks(lo, name, l)
    {
      var found, count, i := 0, 0, 0;
      ghost var first := 0;
      while i < |lo|
        invariant 0 <= i <= |lo|
        invariant forall j | 0 <= j < i :: lo[j].name != name
        invariant count == 0 ==> forall j | 0 <= j < i :: !IsPrefixOf(name, lo[j].name)
        invariant count == 1 ==> found < i && forall j | 0 <= j < i :: IsPrefixOf(name, lo[j].name) <==> j == found
        invariant count > 0 ==> found < i && IsPrefixOf(name, lo[found].name)
        invariant count > 1 ==> first < found && IsPrefixOf(name, lo[first].name)
      {
        if lo[i].name == name {
          return Found(i);
        }
        if IsPrefixOf(name, lo[i].name) {
          first := if count == 1 then found else first;
          found, count := i, count + 1;
        }
        i := i + 1;
      }
      return if count == 1 then Found(found) else if count > 1 then Ambiguous else Unknown;
    }

    /** At an option element, everything fetched and argv in order. */
    ghost predicate AtElement()
      reads this, argv
    {
      Valid() && Partitioned(argv[..], orig, marks, firstNonopt, lastNonopt) && optind < argv.Length
    }

    /** do_long: `taken` is false when the element is no long option after all. */
    method DoLong(cfg: Config, body: string, doubleDash: bool) returns (taken: bool, ret: int)
      requires AtElement() && nextchar == [] && cfg.longs.Some?
      modifies this`optind, this`optarg, this`optopt, this`longindex, this`flagged, this`marks
      ensures Valid() && Partitioned(argv[..], orig, marks, firstNonopt, lastNonopt)
      ensures IsLongStep(cfg, orig, old(View()), body, doubleDash, if taken then Long(ret, View()) else NotLong)
      ensures !taken ==> View() == old(View()) && optind < argv.Length
    {
      hide Partitioned;
      ghost var s := View();
      var eq := IndexOf(body, '=');
      var l := LongMatch(body[..eq], cfg.longs.value);
      ghost var spec := LongStep(cfg, orig, s, body, doubleDash, l);
      ret, taken := QUESTION, true;
      if eq == 0 || eq >= NAME_MAX {
        return false, 0;
      }
      if l.Ambiguous? {
        Advance();
        return;
      }
      if l.Unknown? {
        if cfg.longOnly && !doubleDash {
          return false, 0;
        }
        optopt := 0;
        Advance();
        return;
      }
      ret := TakeLong(cfg, body, eq, l.i);
    }

    /** The part of do_long that has found its option. */
    method TakeLong(cfg: Config, body: string, eq: nat, i: nat) returns (ret: int)
      requires AtElement() && nextchar == [] && cfg.longs.Some? && i < |cfg.longs.value|
      requires eq == IndexOf(body, '=') && 0 < eq < NAME_MAX
      modifies this`optind, this`optarg, this`longindex, this`flagged, this`marks
      ensures Valid() && Partitioned(argv[..], orig, marks, firstNonopt, lastNonopt)
      ensures LongStep(cfg, orig, old(View()), body, true, Found(i)) == Long(ret, View())
      ensures LongStep(cfg, orig, old(View()), body, false, Found(i)) == Long(ret, View())
    {
      hide Partitioned, Select;
      var o := cfg.longs.value[i];
      var given := eq < |body|;
      var arg := None;
      UnscannedArg();
      if o.hasArg == 0 {
        if given {
          Advance();
          return QUESTION;
        }
      } else if given {
        arg := Some(body[eq + 1..]);
      } else if o.hasArg == 1 {
        if optind + 1 >= argv.Length {
          Advance();
          return Missing(cfg);
        }
        arg := Some(argv[optind + 1]);
        Advance();
      }
      Advance();
      optarg := arg;
      longindex := Some(i);
      if o.flag {
        flagged := flagged + [i];
        return 0;
      }
      return o.val;
    }

    /** The current element and the one behind it are still the caller's. */
    lemma UnscannedArg()
      requires AtElement()
      ensures argv[optind] == orig[optind]
      ensures optind + 1 < argv.Length ==> argv[optind + 1] == orig[optind + 1]
    {
      UnscannedSame();
    }

    /** The next short option of the cluster. */
    method Short(cfg: Config) returns (ret: int)
      requires AtElement() && nextchar != []
      modifies this`optind, this`nextchar, this`optarg, this`optopt, this`marks
      ensures Valid() && Partitioned(argv[..], orig, marks, firstNonopt, lastNonopt)
      ensures (ret, View()) == ShortStep(cfg, orig, old(View()))
    {
      hide Partitioned, IndexOf;
      var c := nextchar[0];
      var p := IndexOf(cfg.optstring, c);
      nextchar := nextchar[1..];
      if p == |cfg.optstring| {
        optopt := c as int;
        if nextchar == [] {
          Advance();
        }
        return QUESTION;
      }
      if p + 1 < |cfg.optstring| && cfg.optstring[p + 1] == ':' {
        ret := ShortArgument(cfg, c);
        return;
      }
      optarg := None;
      if nextchar == [] {
        Advance();
      }
      return c as int;
    }

    /** A short option's argument: the rest of its element or the next one. */
    method ShortArgument(cfg: Config, c: char) returns (ret: int)
      requires AtElement()
      modifies this`optind, this`nextchar, this`optarg, this`optopt, this`marks
      ensures Valid() && Partitioned(argv[..], orig, marks, firstNonopt, lastNonopt)
      ensures var s, rest := old(View()).(cluster := ""), old(nextchar);
              (ret, View()) ==
              if rest != [] then (c as int, s.(optarg := Some(rest)).Pass(true))
              else if old(optind) + 1 < |orig| then
                (c as int, s.(optarg := Some(orig[old(optind) + 1])).Pass(true).Pass(true))
              else (Missing(cfg), s.(optopt := c as int).Pass(true))
    {
      UnscannedArg();
      if nextchar != [] {
        optarg := Some(nextchar);
        nextchar := "";
      } else if optind + 1 < argv.Length {
        optarg := Some(argv[optind + 1]);
        Advance();
      } else {
        optopt := c as int;
        Advance();
        return Missing(cfg);
      }
      Advance();
      return c as int;
    }

    /** Go to the next option element, if there is one. */
    method Fetch() returns (more: bool)
      requires Valid() && nextchar == []
      modifies this`optind, this`firstNonopt, this`lastNonopt, this`marks, argv
      ensures var t := SkipOperands(orig, old(View()));
              if more then
                AtElement() && View() == t && argv[optind] == orig[optind] && orig[optind] != "--"
                && !IsOperand(orig[optind])
              else
                Done() && View() == if t.Pos() == |orig| then t else PassRest(orig, t.Pass(true))
      ensures !more ==> var t := SkipOperands(orig, old(View())); t.Pos() == |orig| || orig[t.Pos()] == "--"
    {
      hide Partitioned, Select, SkipOperands, PassRest, Partition;
      Permute();
      Skip();
      PartitionedBounds(argv[..], orig, marks, firstNonopt, lastNonopt);
      if optind != argv.Length && argv[optind] == "--" {
        StopHere();
      }
      if optind >= argv.Length {
        PartitionedDone(argv[..], orig, marks, firstNonopt);
        optind := firstNonopt;
        return false;
      }
      return true;
    }

    /** getopt_common: the return value and the new state are those of one call of the scan
        of the original argv; the call that ends it leaves argv stably partitioned. */
    method Next(cfg: Config) returns (ret: int)
      requires Valid() && WfConfig(cfg)
      modifies this, argv
      ensures orig == old(orig)
      ensures Call(cfg, orig, old(View()), ret, View())
      ensures if ret == -1 then Done() else Valid()
    {
      hide Select, SkipOperands, PassRest, ShortStep, Element, Partitioned, Partition, IsOperand;
      if nextchar == [] {
        var more := Fetch();
        if !more {
          return -1;
        }
        OptionShape(argv[optind]);
        ret := OptionElement(cfg);
        return;
      }
      InCluster();
      ret := Short(cfg);
    }

    /** The element just fetched. */
    method OptionElement(cfg: Config) returns (ret: int)
      requires AtElement() && nextchar == [] && WfConfig(cfg)
      requires argv[optind] == orig[optind] && |orig[optind]| >= 2
      modifies this`optind, this`nextchar, this`optarg, this`optopt, this`longindex, this`flagged, this`marks
      ensures Valid() && ret != -1
      ensures Element(cfg, orig, old(View()), ret, View())
    {
      hide ShortStep, IsLongStep, Partitioned;
      ghost var t := View();
      var arg := argv[optind];
      if cfg.longs.Some? && (arg[1] == '-' || cfg.longOnly) {
        var taken;
        taken, ret := DoLong(cfg, LongBody(arg), arg[1] == '-');
        if taken {
          LongReturns(cfg, orig, t, LongBody(arg), arg[1] == '-', ret, View());
          assert Chosen(cfg, orig, t, Long(ret, View()), ret, View());
          nextchar := "";
          return;
        }
      }
      nextchar := arg[1..];
      ret := Short(cfg);
      assert Chosen(cfg, orig, t, NotLong, ret, View());
    }

    lemma InCluster()
      requires Valid() && nextchar != []
      ensures AtElement()
    {
    }
  }

  /** A caller's loop over all options.  The values returned are those of a left-to-right
      scan of the argv passed in, and argv ends as its stable partition. */
  method AllOptions(g: Getopt, cfg: Config) returns (rets: seq<int>, ghost states: seq<Scan>)
    requires g.Valid() && WfConfig(cfg)
    modifies g, g.argv
    ensures g.Done() && g.orig == old(g.orig)
    ensures IsScan(cfg, g.orig, rets, states) && states[0] == old(g.View()) && states[|rets|] == g.View()
    ensures rets != [] && rets[|rets| - 1] == -1 && forall k | 0 <= k < |rets| - 1 :: rets[k] != -1
  {
    hide Call, Partitioned, Partition;
    rets, states := [], [g.View()];
    var r := 0;
    while r != -1
      invariant g.orig == old(g.orig)
      invariant if r == -1 then g.Done() else g.Valid()
      invariant IsScan(cfg, g.orig, rets, states) && states[0] == old(g.View()) && states[|rets|] == g.View()
      invariant r == -1 ==> rets != [] && rets[|rets| - 1] == -1
      invariant forall k | 0 <= k < |rets| :: k < |rets| - 1 || r != -1 ==> rets[k] != -1
      decreases r != -1, |g.orig| - |g.marks|, g.nextchar == [], |g.nextchar|
    {
      ghost var s := g.View();
      r := g.Next(cfg);
      CallAdvances(cfg, g.orig, s, r, g.View());
      EndOfScan(cfg, g.orig, s, r, g.View());
      rets := rets + [r];
      states := states + [g.View()];
    }
  }

  lemma EndOfScan(cfg: Config, a: seq<string>, s: Scan, ret: int, s': Scan)
    requires s.Pos() <= |a| && (s.cluster != [] ==> s.Pos() < |a|) && Call(cfg, a, s, ret, s')
    ensures ret == -1 ==> s'.Pos() <= |a| && s'.cluster == []
  {
  }

  lemma OptionShape(s: string)
    requires !IsOperand(s)
    ensures |s| >= 2
  {
  }

  /** A long option never returns the value that ends the scan. */
  lemma LongReturns(cfg: Config, a: seq<string>, s: Scan, body: string, dd: bool, ret: int, s': Scan)
    requires WfConfig(cfg) && cfg.longs.Some? && s.Pos() < |a| && IsLongStep(cfg, a, s, body, dd, Long(ret, s'))
    ensures ret != -1 && s'.cluster == s.cluster
  {
  }
}
