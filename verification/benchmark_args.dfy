/**
 * The argument helpers of the SDK's benchmark suites. Options reach a suite as
 * `-D<name>=<value>` arguments: parse_prefixed_args collects the distinct values of one option,
 * parse_prefixed_arg insists on at most one, and the suite-level helpers derive the stage
 * list, the agent-assertion switch and the output directory from them. The wrk driver turns a
 * configuration map into its command-line flags; the microservice suites take their service
 * name from the suite name and drop the last tenth of their data points.
 *
 * An abort of the build tool is a `Failure` carrying its message.
 */
module BenchmarkArgs {
  import opened Wrappers

  // ---------------------------------------------------------------------------------------
  // Text search, as Python's str.split uses it

  /** p occurs in s starting at index k. */
  predicate OccursAt(s: string, p: string, k: nat) {
    k + |p| <= |s| && forall t :: 0 <= t < |p| ==> s[k + t] == p[t]
  }

  /** `s.startswith(p)`. */
  predicate HasPrefix(s: string, p: string) {
    OccursAt(s, p, 0)
  }

  /** The index of the first occurrence of a non-empty p in s at or after `from`. */
  function FindFrom(s: string, p: string, from: nat): (r: Option<nat>)
    requires |p| > 0
    ensures r.Some? ==> from <= r.value && OccursAt(s, p, r.value)
    ensures r.Some? ==> forall k: nat :: from <= k < r.value ==> !OccursAt(s, p, k)
    ensures r.None? ==> forall k: nat :: from <= k ==> !OccursAt(s, p, k)
    decreases |s| - from
  {
    if |s| < from + |p| then None
    else if OccursAt(s, p, from) then Some(from)
    else FindFrom(s, p, from + 1)
  }

  /** The index of the first occurrence of a non-empty p in s. */
  function Find(s: string, p: string): (r: Option<nat>)
    requires |p| > 0
    ensures r.Some? ==> OccursAt(s, p, r.value)
    ensures r.Some? ==> forall k: nat :: k < r.value ==> !OccursAt(s, p, k)
    ensures r.None? ==> forall k: nat :: !OccursAt(s, p, k)
  {
    FindFrom(s, p, 0)
  }

  /** The first piece of `s.split(p)`: the text in front of the first occurrence of p, or all
      of s when p does not occur. */
  function Before(s: string, p: string): (r: string)
    requires |p| > 0
    ensures HasPrefix(s, r)
    ensures forall k: nat :: !OccursAt(r, p, k)
  {
    var r := match Find(s, p) case None => s case Some(i) => s[..i];
    forall k: nat | OccursAt(r, p, k) ensures false {
      assert OccursAt(s, p, k);
    }
    r
  }

  /** The index of the first c in s at or after `from`. */
  function IndexFrom(s: string, c: char, from: nat): (r: Option<nat>)
    ensures r.Some? ==> from <= r.value < |s| && s[r.value] == c
    ensures r.Some? ==> forall k :: from <= k < r.value ==> s[k] != c
    ensures r.None? ==> forall k :: from <= k < |s| ==> s[k] != c
    decreases |s| - from
  {
    if |s| <= from then None
    else if s[from] == c then Some(from)
    else IndexFrom(s, c, from + 1)
  }

  /** The index of the first c in s. */
  function IndexOf(s: string, c: char): (r: Option<nat>)
    ensures r.Some? ==> r.value < |s| && s[r.value] == c && c !in s[..r.value]
    ensures r.None? <==> c !in s
  {
    var r := IndexFrom(s, c, 0);
    if r.Some? then
      assert forall k :: 0 <= k < r.value ==> s[..r.value][k] == s[k];
      r
    else r
  }

  /** `s.split(c)[0]`: the text in front of the first c. */
  function FirstField(s: string, c: char): (r: string)
    ensures HasPrefix(s, r)
    ensures c !in r
    ensures |r| < |s| ==> s[|r|] == c
  {
    match IndexOf(s, c)
    case None => s
    case Some(i) => s[..i]
  }

  /** `s.split(c)` for a one-character separator: the pieces between the separators. */
  function Split(s: string, c: char): (r: seq<string>)
    ensures |r| >= 1
    ensures forall i :: 0 <= i < |r| ==> c !in r[i]
    decreases |s|
  {
    match IndexOf(s, c)
    case None => [s]
    case Some(i) => [s[..i]] + Split(s[i + 1..], c)
  }

  /** The inverse of Split: the pieces with the separator between them. */
  function Join(pieces: seq<string>, c: char): string
    decreases |pieces|
  {
    if |pieces| == 0 then ""
    else if |pieces| == 1 then pieces[0]
    else pieces[0] + [c] + Join(pieces[1..], c)
  }

  /** Joining the pieces of a split gives back the text. */
  lemma {:induction false} SplitJoin(s: string, c: char)
    ensures Join(Split(s, c), c) == s
    decreases |s|
  {
    match IndexOf(s, c)
    case None =>
    case Some(i) =>
      var rest := Split(s[i + 1..], c);
      SplitJoin(s[i + 1..], c);
      assert Split(s, c) == [s[..i]] + rest;
      assert ([s[..i]] + rest)[1..] == rest;
      assert Join(Split(s, c), c) == s[..i] + [c] + Join(rest, c);
      assert s == s[..i] + [c] + s[i + 1..];
  }

  /** Splitting text joined from pieces without the separator gives back the pieces. */
  lemma {:induction false} JoinSplit(pieces: seq<string>, c: char)
    requires |pieces| >= 1
    requires forall i :: 0 <= i < |pieces| ==> c !in pieces[i]
    ensures Split(Join(pieces, c), c) == pieces
    decreases |pieces|
  {
    if |pieces| > 1 {
      var s := Join(pieces, c);
      var rest := Join(pieces[1..], c);
      var p := |pieces[0]|;
      assert s == pieces[0] + [c] + rest;
      assert s[..p] == pieces[0];
      assert s[p] == c;
      assert IndexOf(s, c) == Some(p);
      assert s[p + 1..] == rest;
      JoinSplit(pieces[1..], c);
    }
  }

  // ---------------------------------------------------------------------------------------
  // parse_prefixed_args and parse_prefixed_arg

  /** The option prefixes the suites pass: non-empty and without a space. A prefix outside
      these would make Python's split raise. */
  predicate ValidPrefix(prefix: string) {
    |prefix| > 0 && ' ' !in prefix
  }

  type Prefix = p: string | ValidPrefix(p) witness "-"

  /** `arg.split(' ')[0].split(prefix)[1]` for an argument that starts with the prefix: the
      first space-separated token, without the prefix, up to the prefix's next occurrence. */
  function PrefixedValue(prefix: string, arg: string): (r: string)
    requires ValidPrefix(prefix) && HasPrefix(arg, prefix)
    ensures HasPrefix(arg, prefix + r)
    ensures ' ' !in r
    ensures forall k: nat :: !OccursAt(r, prefix, k)
  {
    var token := FirstField(arg, ' ');
    TokenKeepsPrefix(prefix, arg);
    var rest := token[|prefix|..];
    var r := Before(rest, prefix);
    assert forall i :: 0 <= i < |r| ==> r[i] == token[|prefix| + i];
    r
  }

  /** The token in front of the first space still starts with a prefix that has no space. */
  lemma TokenKeepsPrefix(prefix: string, arg: string)
    requires ValidPrefix(prefix) && HasPrefix(arg, prefix)
    ensures HasPrefix(FirstField(arg, ' '), prefix)
  {
    assert forall k :: 0 <= k < |prefix| ==> arg[k] == prefix[k] && prefix[k] != ' ';
  }

  /** An argument `<prefix><value>`, optionally followed by a space and more text, gives back
      its value when the value has neither a space nor the prefix in it. */
  lemma PrefixedValueRoundTrip(prefix: string, value: string, tail: string)
    requires ValidPrefix(prefix) && ' ' !in value && forall k: nat :: !OccursAt(value, prefix, k)
    requires |tail| == 0 || tail[0] == ' '
    ensures var arg := prefix + value + tail;
            HasPrefix(arg, prefix) && PrefixedValue(prefix, arg) == value
  {
    var arg := prefix + value + tail;
    var token := prefix + value;
    assert HasPrefix(arg, prefix);
    assert ' ' !in token;
    assert arg[..|token|] == token;
    if |tail| == 0 {
      assert arg == token;
    } else {
      assert arg[|token|] == ' ';
    }
    assert FirstField(arg, ' ') == token;
    assert token[|prefix|..] == value;
    assert Find(value, prefix).None?;
  }

  /** The value of every argument that starts with the prefix, in argument order. */
  function Values(prefix: string, args: seq<string>): seq<string>
    requires ValidPrefix(prefix)
    decreases |args|
  {
    if |args| == 0 then []
    else
      var arg := args[|args| - 1];
      Values(prefix, args[..|args| - 1]) + (if HasPrefix(arg, prefix) then [PrefixedValue(prefix, arg)] else [])
  }

  predicate NoDuplicates(s: seq<string>) {
    forall i, j :: 0 <= i < j < |s| ==> s[i] != s[j]
  }

  /** parse_prefixed_args: the loop over the arguments, keeping each new value once. The result
      holds each value of the option exactly once, and its first element is the first value. */
  function ParsePrefixedArgs(prefix: string, args: seq<string>): (r: seq<string>)
    requires ValidPrefix(prefix)
    ensures NoDuplicates(r)
    ensures forall v :: v in r <==> v in Values(prefix, args)
    ensures |r| == 0 <==> |Values(prefix, args)| == 0
    ensures |r| > 0 ==> r[0] == Values(prefix, args)[0]
    decreases |args|
  {
    if |args| == 0 then []
    else
      var ret := ParsePrefixedArgs(prefix, args[..|args| - 1]);
      var arg := args[|args| - 1];
      if HasPrefix(arg, prefix) then
        var parsed := PrefixedValue(prefix, arg);
        if parsed in ret then ret else ret + [parsed]
      else ret
  }

  /** The index of the first occurrence of v in s. */
  function FirstIndex(s: seq<string>, v: string): (r: nat)
    requires v in s
    ensures r < |s| && s[r] == v && v !in s[..r]
    decreases |s|
  {
    if s[0] == v then 0
    else
      var r := FirstIndex(s[1..], v);
      assert s[..r + 1] == [s[0]] + s[1..][..r];
      r + 1
  }

  lemma FirstIndexExtend(s: seq<string>, x: string, v: string)
    requires v in s
    ensures v in s + [x] && FirstIndex(s + [x], v) == FirstIndex(s, v)
  {
    var i := FirstIndex(s, v);
    var t := s + [x];
    assert t[i] == v && t[..i] == s[..i];
  }

  /** Every element of r is among vs, and r lists them in the order they first occur in vs. */
  predicate OrderedByFirst(r: seq<string>, vs: seq<string>) {
    && (forall x :: x in r ==> x in vs)
    && forall i, j :: 0 <= i < j < |r| ==> FirstIndex(vs, r[i]) < FirstIndex(vs, r[j])
  }

  /** The values come out in the order of their first occurrence. */
  lemma {:induction false} ParsePrefixedArgsOrder(prefix: string, args: seq<string>)
    requires ValidPrefix(prefix)
    ensures OrderedByFirst(ParsePrefixedArgs(prefix, args), Values(prefix, args))
    decreases |args|
  {
    if |args| > 0 {
      var init := args[..|args| - 1];
      var arg := args[|args| - 1];
      ParsePrefixedArgsOrder(prefix, init);
      var ret, vs0 := ParsePrefixedArgs(prefix, init), Values(prefix, init);
      if HasPrefix(arg, prefix) {
        var parsed := PrefixedValue(prefix, arg);
        OrderStep(ret, vs0, parsed);
        assert Values(prefix, args) == vs0 + [parsed];
        assert ParsePrefixedArgs(prefix, args) == if parsed in ret then ret else ret + [parsed];
      } else {
        assert Values(prefix, args) == vs0;
        assert ParsePrefixedArgs(prefix, args) == ret;
      }
    }
  }

  /** One value more: a new value goes last, a known one changes nothing. */
  lemma OrderStep(ret: seq<string>, vs0: seq<string>, parsed: string)
    requires OrderedByFirst(ret, vs0)
    requires forall x :: x in vs0 ==> x in ret
    ensures OrderedByFirst(if parsed in ret then ret else ret + [parsed], vs0 + [parsed])
  {
    var vs := vs0 + [parsed];
    forall v | v in vs0 ensures FirstIndex(vs, v) == FirstIndex(vs0, v) {
      FirstIndexExtend(vs0, parsed, v);
    }
    forall i, j | 0 <= i < j < |ret| ensures FirstIndex(vs, ret[i]) < FirstIndex(vs, ret[j]) {
      assert ret[i] in vs0 && ret[j] in vs0;
    }
    if parsed !in ret {
      assert FirstIndex(vs, parsed) == |vs0| by {
        assert vs[|vs0|] == parsed && vs[..|vs0|] == vs0;
      }
      var r := ret + [parsed];
      forall i, j | 0 <= i < j < |r| ensures FirstIndex(vs, r[i]) < FirstIndex(vs, r[j]) {
        assert r[i] == ret[i] && ret[i] in vs0;
        if j < |ret| {
          assert r[j] == ret[j];
        } else {
          assert FirstIndex(vs, ret[i]) == FirstIndex(vs0, ret[i]) < |vs0|;
        }
      }
    }
  }

  /** The option was given with a single value, however often. */
  predicate AllSame(vs: seq<string>) {
    forall i, j :: 0 <= i < |vs| && 0 <= j < |vs| ==> vs[i] == vs[j]
  }

  /** parse_prefixed_arg: no value, exactly one distinct value, or an abort with the caller's
      message when the option carries different values. */
  function ParsePrefixedArg(prefix: string, args: seq<string>, errorMsg: string): (r: Result<Option<string>, string>)
    requires ValidPrefix(prefix)
    ensures r.Failure? <==> !AllSame(Values(prefix, args))
    ensures r.Failure? ==> r.error == errorMsg
    ensures r == Success(None) <==> |Values(prefix, args)| == 0
    ensures r.Success? && r.value.Some? ==> forall v :: v in Values(prefix, args) ==> v == r.value.value
  {
    var ret := ParsePrefixedArgs(prefix, args);
    var vs := Values(prefix, args);
    if |ret| > 1 then
      assert ret[0] in vs && ret[1] in vs;
      var i, j := FirstIndex(vs, ret[0]), FirstIndex(vs, ret[1]);
      assert vs[i] != vs[j];
      Failure(errorMsg)
    else if |ret| < 1 then Success(None)
    else
      assert AllSame(vs) by {
        forall i, j | 0 <= i < |vs| && 0 <= j < |vs| ensures vs[i] == vs[j] {
          assert vs[i] in ret && vs[j] in ret;
        }
      }
      Success(Some(ret[0]))
  }

  // ---------------------------------------------------------------------------------------
  // The suite-level options

  const OptionBase: Prefix := "-Dnative-image.benchmark."
  const StagesPrefix: Prefix := OptionBase + "stages="
  const StagesError: string := "Native Image benchmark stages should only be specified once."
  const DefaultStages: seq<string> := ["agent", "instrument-image", "instrument-run", "image", "run"]
  const SkipAgentAssertionsPrefix: Prefix := OptionBase + "skip-agent-assertions="
  const OutputDirPrefix: Prefix := OptionBase + "benchmark-output-dir="

  /** stages: the comma-separated list of the single stages option, or the default stages
      when the option is absent or empty. */
  function Stages(args: seq<string>): (r: Result<seq<string>, string>)
    ensures r.Failure? <==> ParsePrefixedArg(StagesPrefix, args, StagesError).Failure?
    ensures r.Failure? ==> r.error == StagesError
    ensures r.Success? ==>
              match ParsePrefixedArg(StagesPrefix, args, StagesError).value
              case None => r.value == DefaultStages
              case Some(v) =>
                && (v == "" ==> r.value == DefaultStages)
                && (v != "" ==> Join(r.value, ',') == v && forall i :: 0 <= i < |r.value| ==> ',' !in r.value[i])
  {
    match ParsePrefixedArg(StagesPrefix, args, StagesError)
    case Failure(e) => Failure(e)
    case Success(parsed) =>
      if parsed.Some? && parsed.value != "" then
        SplitJoin(parsed.value, ',');
        Success(Split(parsed.value, ','))
      else Success(DefaultStages)
  }

  /** skip_agent_assertions: true if the option was given as `true` or `True`, otherwise false
      if it was given as `false` or `False`, otherwise absent. */
  function SkipAgentAssertions(args: seq<string>): (r: Option<bool>)
    ensures var vs := Values(SkipAgentAssertionsPrefix, args);
            && (r == Some(true) <==> "true" in vs || "True" in vs)
            && (r == Some(false) <==> !("true" in vs || "True" in vs) && ("false" in vs || "False" in vs))
  {
    var parsed := ParsePrefixedArgs(SkipAgentAssertionsPrefix, args);
    if "true" in parsed || "True" in parsed then Some(true)
    else if "false" in parsed || "False" in parsed then Some(false)
    else None
  }

  /** benchmark_output_dir: the value of the first output-directory argument, if any. */
  function BenchmarkOutputDir(args: seq<string>): (r: Option<string>)
    ensures r.None? <==> forall i :: 0 <= i < |args| ==> !HasPrefix(args[i], OutputDirPrefix)
    ensures r.Some? ==> exists i :: 0 <= i < |args| && HasPrefix(args[i], OutputDirPrefix)
                          && PrefixedValue(OutputDirPrefix, args[i]) == r.value
                          && forall k :: 0 <= k < i ==> !HasPrefix(args[k], OutputDirPrefix)
  {
    var parsed := ParsePrefixedArgs(OutputDirPrefix, args);
    FirstValue(OutputDirPrefix, args);
    if |parsed| > 0 then Some(parsed[0]) else None
  }

  /** The first value is the value of the first argument that starts with the prefix. */
  lemma {:induction false} FirstValue(prefix: string, args: seq<string>)
    requires ValidPrefix(prefix)
    ensures |Values(prefix, args)| == 0 <==> forall i :: 0 <= i < |args| ==> !HasPrefix(args[i], prefix)
    ensures |Values(prefix, args)| > 0 ==>
              exists i :: 0 <= i < |args| && HasPrefix(args[i], prefix)
                && PrefixedValue(prefix, args[i]) == Values(prefix, args)[0]
                && forall k :: 0 <= k < i ==> !HasPrefix(args[k], prefix)
    decreases |args|
  {
    if |args| > 0 {
      var init := args[..|args| - 1];
      FirstValue(prefix, init);
      assert forall i :: 0 <= i < |init| ==> init[i] == args[i];
      if |Values(prefix, init)| > 0 {
        var i :| 0 <= i < |init| && HasPrefix(init[i], prefix)
                 && PrefixedValue(prefix, init[i]) == Values(prefix, init)[0]
                 && forall k :: 0 <= k < i ==> !HasPrefix(init[k], prefix);
        assert args[i] == init[i];
      } else if HasPrefix(args[|args| - 1], prefix) {
        assert forall k :: 0 <= k < |args| - 1 ==> !HasPrefix(args[k], prefix);
      }
    }
  }

  // ---------------------------------------------------------------------------------------
  // The microservice suites

  /** benchMicroserviceName: the suite name up to its first hyphen; a name without a hyphen
      aborts. */
  function BenchMicroserviceName(suiteName: string): (r: Result<string, string>)
    ensures r.Failure? <==> '-' !in suiteName
    ensures r.Failure? ==> r.error == "Invalid benchmark suite name: " + suiteName
    ensures r.Success? ==> '-' !in r.value && HasPrefix(suiteName, r.value + "-")
  {
    var pieces := SplitOnce(suiteName, '-');
    if |pieces| < 2 then Failure("Invalid benchmark suite name: " + suiteName)
    else Success(pieces[0])
  }

  /** `s.split(c, 1)`: the text before the first separator and the rest after it, or s alone. */
  function SplitOnce(s: string, c: char): (r: seq<string>)
    ensures |r| == 1 <==> c !in s
    ensures |r| == 1 ==> r[0] == s
    ensures |r| != 1 ==> |r| == 2 && c !in r[0] && s == r[0] + [c] + r[1]
  {
    match IndexOf(s, c)
    case None => [s]
    case Some(i) =>
      assert s == s[..i] + [c] + s[i + 1..];
      [s[..i], s[i + 1..]]
  }

  /** tailDatapointsToSkip: a tenth of the results, rounded down. */
  function TailDatapointsToSkip(n: nat): (r: nat)
    ensures 10 * r <= n < 10 * (r + 1)
  {
    n / 10
  }

  /** run: the results without the last tenth. */
  function DropTail<T>(results: seq<T>): (r: seq<T>)
    ensures |r| <= |results| && r == results[..|r|]
    ensures 10 * (|results| - |r|) <= |results| < 10 * (|results| - |r| + 1)
  {
    results[..|results| - TailDatapointsToSkip(|results|)]
  }

  // ---------------------------------------------------------------------------------------
  // getWrkFlags

  /** The wrk configuration: each setting as the text str() gives it. */
  type WrkConfig = map<string, string>

  function NotSpecified(key: string): string {
    key + " not specified in Wrk configuration."
  }

  /** getWrkFlags, with the script path getScriptPath resolves passed in: `--latency`, the
      connections, threads and script flags with their values, then the target URL with the
      target path appended when there is one. A missing connections, threads, script or
      target-url setting aborts, naming the first one missing in that order. */
  function GetWrkFlags(config: WrkConfig, scriptPath: string): (r: Result<seq<string>, string>)
    ensures r.Success? <==> "connections" in config && "threads" in config && "script" in config && "target-url" in config
    ensures r.Failure? ==> r.error == NotSpecified(FirstMissing(config))
  {
    if "connections" !in config then Failure(NotSpecified("connections"))
    else if "threads" !in config then Failure(NotSpecified("threads"))
    else if "script" !in config then Failure(NotSpecified("script"))
    else if "target-url" !in config then Failure(NotSpecified("target-url"))
    else
      var url := config["target-url"] + (if "target-path" in config then config["target-path"] else "");
      Success(["--latency", "--connections", config["connections"], "--threads", config["threads"],
               "--script", scriptPath, url])
  }

  /** The first of the required settings that the configuration lacks. */
  function FirstMissing(config: WrkConfig): string {
    if "connections" !in config then "connections"
    else if "threads" !in config then "threads"
    else if "script" !in config then "script"
    else "target-url"
  }

  /** What wrk reads from its command line. */
  datatype WrkSettings = WrkSettings(latency: bool, connections: Option<string>, threads: Option<string>,
                                     script: Option<string>, url: Option<string>)

  /** wrk's reading of a flag list: a flag that takes a value consumes the next element, any
      other element is the URL. */
  function ParseWrkFlags(flags: seq<string>, acc: WrkSettings): WrkSettings
    decreases |flags|
  {
    if |flags| == 0 then acc
    else if flags[0] == "--latency" then ParseWrkFlags(flags[1..], acc.(latency := true))
    else if |flags| >= 2 && flags[0] == "--connections" then ParseWrkFlags(flags[2..], acc.(connections := Some(flags[1])))
    else if |flags| >= 2 && flags[0] == "--threads" then ParseWrkFlags(flags[2..], acc.(threads := Some(flags[1])))
    else if |flags| >= 2 && flags[0] == "--script" then ParseWrkFlags(flags[2..], acc.(script := Some(flags[1])))
    else ParseWrkFlags(flags[1..], acc.(url := Some(flags[0])))
  }

  /** wrk reads back every setting getWrkFlags passes, whatever text the settings hold, as long
      as the URL is not itself the `--latency` flag. */
  lemma WrkFlagsRoundTrip(config: WrkConfig, scriptPath: string)
    requires GetWrkFlags(config, scriptPath).Success?
    requires GetWrkFlags(config, scriptPath).value[7] != "--latency"
    ensures ParseWrkFlags(GetWrkFlags(config, scriptPath).value, WrkSettings(false, None, None, None, None))
            == WrkSettings(true, Some(config["connections"]), Some(config["threads"]), Some(scriptPath),
                           Some(config["target-url"] + (if "target-path" in config then config["target-path"] else "")))
  {
    var flags := GetWrkFlags(config, scriptPath).value;
    var s0 := WrkSettings(false, None, None, None, None);
    var s1 := s0.(latency := true);
    var s2 := s1.(connections := Some(flags[2]));
    var s3 := s2.(threads := Some(flags[4]));
    var s4 := s3.(script := Some(flags[6]));
    assert ParseWrkFlags(flags, s0) == ParseWrkFlags(flags[1..], s1);
    assert flags[1..][2..] == flags[3..];
    assert ParseWrkFlags(flags[1..], s1) == ParseWrkFlags(flags[3..], s2);
    assert flags[3..][2..] == flags[5..];
    assert ParseWrkFlags(flags[3..], s2) == ParseWrkFlags(flags[5..], s3);
    assert flags[5..][2..] == flags[7..];
    assert ParseWrkFlags(flags[5..], s3) == ParseWrkFlags(flags[7..], s4);
    assert flags[7..][1..] == [];
  }
}
