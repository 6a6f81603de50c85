/** The simulator's option store: a string-to-string map filled from a
    configuration file, first value wins, plus the numeric settings that
    `add` converts as it stores them. */
module Configs {
  import opened ConfigLines

  /** `Config::missing`: what a lookup of an absent option returns. */
  const Missing: string := ""

  /** The value a numeric field holds once `before` has grown to `after` by
      first-wins additions: the converted value if the option was added, else
      what the field held. */
  function Settled(name: string, before: map<string, string>, after: map<string, string>,
                   was: int, toInt: string -> int): (v: int)
    ensures name in before || name !in after ==> v == was
  {
    if name !in before && name in after then toInt(after[name]) else was
  }

  /** Settling a field over two stretches of first-wins additions is
      settling it over both at once. */
  lemma SettledChains(name: string, o0: map<string, string>, o1: map<string, string>, o2: map<string, string>,
                      was: int, toInt: string -> int)
    requires o0.Keys <= o1.Keys <= o2.Keys
    requires forall n :: n in o1 ==> o2[n] == o1[n]
    ensures Settled(name, o1, o2, Settled(name, o0, o1, was, toInt), toInt) == Settled(name, o0, o2, was, toInt)
  {
  }

  /** The options after reading `lines` that contain no malformed line, each
      setting line added in turn, a name already present keeping its value. */
  function Applied(options: map<string, string>, lines: seq<string>): (r: map<string, string>)
    ensures options.Keys <= r.Keys
    ensures forall n :: n in options ==> r[n] == options[n]
    decreases |lines|
  {
    if |lines| == 0 then options
    else
      var before := Applied(options, lines[..|lines| - 1]);
      match LineActionOf(lines[|lines| - 1])
      case Setting(name, value) => if name in before then before else before[name := value]
      case _ => before
  }

  /** Reading one more line applies that line's action to the options so
      far. */
  lemma AppliedStep(options: map<string, string>, lines: seq<string>, i: nat)
    requires i < |lines|
    ensures Applied(options, lines[..i + 1]) ==
      var before := Applied(options, lines[..i]);
      match LineActionOf(lines[i])
      case Setting(name, value) => if name in before then before else before[name := value]
      case _ => before
  {
    assert lines[..i + 1][..i] == lines[..i];
  }

  /** The index of the first malformed line, or `|lines|` when there is none. */
  function FirstMalformed(lines: seq<string>): (stop: nat)
    ensures stop <= |lines|
    ensures forall j :: 0 <= j < stop ==> !LineActionOf(lines[j]).Malformed?
    ensures stop < |lines| ==> LineActionOf(lines[stop]).Malformed?
  {
    if |lines| == 0 then 0
    else if LineActionOf(lines[0]).Malformed? then 0
    else 1 + FirstMalformed(lines[1..])
  }

  /** Reading reaches line `i`: the first malformed line is `i` itself when
      line `i` is malformed, and lies beyond it otherwise. */
  lemma {:induction false} MalformedStops(lines: seq<string>, i: nat)
    requires i < |lines| && i <= FirstMalformed(lines)
    ensures LineActionOf(lines[i]).Malformed? <==> FirstMalformed(lines) == i
    ensures !LineActionOf(lines[i]).Malformed? ==> i + 1 <= FirstMalformed(lines)
  {
  }

  /** What reading a configuration ends with: all lines read, or the process
      exit of a line that is neither blank, a comment, nor two tokens. */
  datatype ParseOutcome = Done | Exit(code: int, line: nat)

  /** An option that is set takes the value of the first line that sets it,
      unless it was set before reading began. */
  lemma {:induction false} FirstSettingWins(options: map<string, string>, lines: seq<string>, i: nat)
    requires i < |lines| && LineActionOf(lines[i]).Setting?
    requires LineActionOf(lines[i]).name !in options
    requires forall j :: 0 <= j < i ==>
               !(LineActionOf(lines[j]).Setting? && LineActionOf(lines[j]).name == LineActionOf(lines[i]).name)
    ensures var name := LineActionOf(lines[i]).name;
      name in Applied(options, lines) && Applied(options, lines)[name] == LineActionOf(lines[i]).value
    decreases |lines|
  {
    var name := LineActionOf(lines[i]).name;
    var init := lines[..|lines| - 1];
    if i < |lines| - 1 {
      assert init[i] == lines[i];
      forall j | 0 <= j < i
        ensures !(LineActionOf(init[j]).Setting? && LineActionOf(init[j]).name == name)
      {
        assert init[j] == lines[j];
      }
      FirstSettingWins(options, init, i);
    } else {
      forall j | 0 <= j < |init|
        ensures !(LineActionOf(init[j]).Setting? && LineActionOf(init[j]).name == name)
      {
        assert init[j] == lines[j];
      }
      UnsetNameStaysAbsent(options, init, name);
    }
  }

  /** A name no line sets stays absent. */
  lemma {:induction false} UnsetNameStaysAbsent(options: map<string, string>, lines: seq<string>, name: string)
    requires name !in options
    requires forall j :: 0 <= j < |lines| ==>
               !(LineActionOf(lines[j]).Setting? && LineActionOf(lines[j]).name == name)
    ensures name !in Applied(options, lines)
    decreases |lines|
  {
    if |lines| > 0 {
      var init := lines[..|lines| - 1];
      forall j | 0 <= j < |init|
        ensures !(LineActionOf(init[j]).Setting? && LineActionOf(init[j]).name == name)
      {
        assert init[j] == lines[j];
      }
      UnsetNameStaysAbsent(options, init, name);
    }
  }

  /** Blank and comment lines leave the options as they were. */
  lemma SkippedLineChangesNothing(options: map<string, string>, line: string)
    requires LineActionOf(line).Skip?
    ensures Applied(options, [line]) == options
  {
    assert [line][..0] == [];
  }

  class Config {
    var options: map<string, string>
    var channels: int
    var ranks: int
    var subarrays: int
    var cpuTick: int
    var memTick: int
    var coreNum: int
    var expectedLimitInsts: int
    var warmupInsts: int

    constructor ()
      ensures options == map[] && coreNum == 0 && expectedLimitInsts == 0 && warmupInsts == 0
    {
      options := map[];
      coreNum := 0;
      expectedLimitInsts := 0;
      warmupInsts := 0;
    }

    /** `operator[]`: the stored value, or `Missing` for an absent option. */
    function Get(name: string): (value: string)
      reads this
      ensures name in options ==> value == options[name]
      ensures name !in options ==> value == Missing
    {
      if name in options then options[name] else Missing
    }

    /** `contains`. */
    function Contains(name: string): (present: bool)
      reads this
      ensures present <==> name in options
      ensures !present ==> Get(name) == Missing
    {
      name in options
    }

    function HasL3Cache(): (r: bool)
      reads this
      ensures r <==> "cache" in options && (options["cache"] == "all" || options["cache"] == "L3")
    {
      var cacheOption := Get("cache");
      cacheOption == "all" || cacheOption == "L3"
    }

    function HasCoreCaches(): (r: bool)
      reads this
      ensures r <==> "cache" in options && (options["cache"] == "all" || options["cache"] == "L1L2")
    {
      var cacheOption := Get("cache");
      cacheOption == "all" || cacheOption == "L1L2"
    }

    /** True exactly when `early_exit` is set to `off`, so false when the
        option is absent. */
    function IsEarlyExit(): (r: bool)
      reads this
      ensures r <==> "early_exit" in options && options["early_exit"] == "off"
    {
      Get("early_exit") == "off"
    }

    function CalcWeightedSpeedup(): (r: bool)
      reads this
      ensures r <==> expectedLimitInsts != 0
    {
      expectedLimitInsts != 0
    }

    function RecordCmdTrace(): (r: bool)
      reads this
      ensures r <==> "record_cmd_trace" in options && options["record_cmd_trace"] == "on"
    {
      Get("record_cmd_trace") == "on"
    }

    function PrintCmdTrace(): (r: bool)
      reads this
      ensures r <==> "print_cmd_trace" in options && options["print_cmd_trace"] == "on"
    {
      Get("print_cmd_trace") == "on"
    }

    method SetCoreNum(n: int)
      modifies this`coreNum
      ensures coreNum == n
    {
      coreNum := n;
    }

    /** `add`: a name already present is left alone; a fresh one is stored
        and, when it names a numeric setting, converted into its field.
        `toInt` stands for `std::stoi` / `std::stol`. */
    method Add(name: string, value: string, toInt: string -> int)
      modifies this
      ensures old(Contains(name)) ==> options == old(options)
      ensures !old(Contains(name)) ==> options == old(options)[name := value]
      ensures Contains(name) && Get(name) == (if old(Contains(name)) then old(Get(name)) else value)
      ensures channels == Settled("channels", old(options), options, old(channels), toInt)
      ensures ranks == Settled("ranks", old(options), options, old(ranks), toInt)
      ensures subarrays == Settled("subarrays", old(options), options, old(subarrays), toInt)
      ensures cpuTick == Settled("cpu_tick", old(options), options, old(cpuTick), toInt)
      ensures memTick == Settled("mem_tick", old(options), options, old(memTick), toInt)
      ensures expectedLimitInsts == Settled("expected_limit_insts", old(options), options, old(expectedLimitInsts), toInt)
      ensures warmupInsts == Settled("warmup_insts", old(options), options, old(warmupInsts), toInt)
      ensures coreNum == old(coreNum)
    {
      if Contains(name) {
        return;
      }

      options := options[name := value];

      if name == "channels" {
        channels := toInt(value);
      } else if name == "ranks" {
        ranks := toInt(value);
      } else if name == "subarrays" {
        subarrays := toInt(value);
      } else if name == "cpu_tick" {
        cpuTick := toInt(value);
      } else if name == "mem_tick" {
        memTick := toInt(value);
      } else if name == "expected_limit_insts" {
        expectedLimitInsts := toInt(value);
      } else if name == "warmup_insts" {
        warmupInsts := toInt(value);
      }
    }

    /** `parse`, over the lines of the file: every setting line is added in
        order until the first malformed line, which ends the reading with
        exit code 2. */
    method Parse(lines: seq<string>, toInt: string -> int) returns (outcome: ParseOutcome)
      modifies this
      ensures var stop := FirstMalformed(lines);
        && outcome == (if stop == |lines| then Done else Exit(2, stop))
        && options == Applied(old(options), lines[..stop])
      ensures channels == Settled("channels", old(options), options, old(channels), toInt)
      ensures ranks == Settled("ranks", old(options), options, old(ranks), toInt)
      ensures subarrays == Settled("subarrays", old(options), options, old(subarrays), toInt)
      ensures cpuTick == Settled("cpu_tick", old(options), options, old(cpuTick), toInt)
      ensures memTick == Settled("mem_tick", old(options), options, old(memTick), toInt)
      ensures expectedLimitInsts == Settled("expected_limit_insts", old(options), options, old(expectedLimitInsts), toInt)
      ensures warmupInsts == Settled("warmup_insts", old(options), options, old(warmupInsts), toInt)
      ensures coreNum == old(coreNum)
    {
      var i := 0;
      while i < |lines|
        invariant 0 <= i <= |lines|
        invariant i <= FirstMalformed(lines)
        invariant options == Applied(old(options), lines[..i])
        invariant channels == Settled("channels", old(options), options, old(channels), toInt)
        invariant ranks == Settled("ranks", old(options), options, old(ranks), toInt)
        invariant subarrays == Settled("subarrays", old(options), options, old(subarrays), toInt)
        invariant cpuTick == Settled("cpu_tick", old(options), options, old(cpuTick), toInt)
        invariant memTick == Settled("mem_tick", old(options), options, old(memTick), toInt)
        invariant expectedLimitInsts == Settled("expected_limit_insts", old(options), options, old(expectedLimitInsts), toInt)
        invariant warmupInsts == Settled("warmup_insts", old(options), options, old(warmupInsts), toInt)
        invariant coreNum == old(coreNum)
      {
        var tokens := Tokenize(lines[i]);
        ghost var action := LineActionOf(lines[i]);
        assert action == ActionOf(tokens);
        AppliedStep(old(options), lines, i);
        if |tokens| == 0 || tokens[0][0] == '#' {
          MalformedStops(lines, i);
          i := i + 1;
          continue;
        } else if |tokens| != 2 {
          MalformedStops(lines, i);
          return Exit(2, i);
        } else {
          ghost var mid := options;
          Add(tokens[0], tokens[1], toInt);
          SettledChains("channels", old(options), mid, options, old(channels), toInt);
          SettledChains("ranks", old(options), mid, options, old(ranks), toInt);
          SettledChains("subarrays", old(options), mid, options, old(subarrays), toInt);
          SettledChains("cpu_tick", old(options), mid, options, old(cpuTick), toInt);
          SettledChains("mem_tick", old(options), mid, options, old(memTick), toInt);
          SettledChains("expected_limit_insts", old(options), mid, options, old(expectedLimitInsts), toInt);
          SettledChains("warmup_insts", old(options), mid, options, old(warmupInsts), toInt);
        }
        MalformedStops(lines, i);
        i := i + 1;
      }
      assert lines[..|lines|] == lines;
      return Done;
    }
  }

  /** Both cache predicates hold exactly for `cache = all`, and neither does
      when the option is absent. */
  lemma CachePredicates(c: Config)
    ensures c.HasL3Cache() && c.HasCoreCaches() <==> c.Get("cache") == "all"
    ensures !c.Contains("cache") ==> !c.HasL3Cache() && !c.HasCoreCaches()
    ensures c.HasL3Cache() && !c.HasCoreCaches() <==> c.Get("cache") == "L3"
  {
  }
}
