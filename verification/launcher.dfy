/**
 * The native language launcher's handling of its command line before it starts the language
 * runtime. Every argument that starts with `--vm.` is meant for the virtual machine:
 * `--vm.cp=P` and `--vm.classpath=P` add P to the class path, and any other `--vm.X` becomes
 * the VM option `-X`. A bit mask records which argument positions were VM arguments. When the
 * Java side finds the arguments misidentified, the launcher restarts itself with the corrected
 * mask appended as a last argument `--vmargs=<hex>`.
 *
 * Strings are the characters of a C string before its terminator; the machine-dependent
 * pieces (the executable's directory, the separators, the library's relative path, the
 * launcher class path under JVM mode) are parameters.
 */
module Launcher {
  import opened Wrappers

  /** The 32-bit int that records VM-argument positions, as its unsigned bit pattern. */
  type Mask = m: nat | m < 0x1_0000_0000

  const VmArgPrefix: string := "--vm."
  const VmCpPrefix: string := "--vm.cp="
  const VmClasspathPrefix: string := "--vm.classpath="
  /** VM_ARGS, the relaunch marker. */
  const VmArgsMarker: string := "--vmargs="
  /** sizeof(VM_ARGS): the marker's characters plus its terminator. */
  const VmArgsMarkerSize: nat := 10
  /** The buffer main allocates for the relaunch argument: sizeof(VM_ARGS) + 9. */
  const MarkerBufferSize: nat := VmArgsMarkerSize + 9
  const ClassPathProperty: string := "-Djava.class.path="
  const LauncherClassProperty: string := "-Dorg.graalvm.launcher.class="
  const NativeFlag: string := "--native"
  const LongMax: nat := 0x7FFF_FFFF_FFFF_FFFF

  /** The compile-time configuration: JVM mode with its launcher class and launcher class path,
      the directory and class-path separators, and the language library's relative path. */
  datatype Config = Config(jvm: bool, launcherClass: string, launcherClasspath: seq<string>,
                           dirSep: string, cpSep: string, libLangRelPath: string)

  /** In JVM mode the launcher class path is a non-empty C array. */
  predicate ValidConfig(cfg: Config) {
    cfg.jvm ==> |cfg.launcherClasspath| >= 1
  }

  /** What parse_vm_options leaves behind: the argument count (without a relaunch marker), the
      number of VM options allocated, the options written, the VM-argument mask and the size
      allocated for the class-path option. */
  datatype VmInitArgs = VmInitArgs(argc: nat, nOptions: nat, options: seq<string>, vmArgIndices: Mask, cpSize: nat)

  /** `--native` under JVM mode: the launcher prints that the native version of the program
      does not exist and exits with -1. */
  datatype LaunchError = NativeUnavailable(program: string)

  // ---------------------------------------------------------------------------------------
  // String comparison

  /** strncmp(a, b, n) == 0: the first n characters agree, where the end of a string is its
      terminator, which only the other string's terminator matches, and ends the comparison. */
  predicate StrNEqual(a: string, b: string, n: nat)
    decreases n
  {
    if n == 0 then true
    else if |a| == 0 || |b| == 0 then |a| == 0 && |b| == 0
    else a[0] == b[0] && StrNEqual(a[1..], b[1..], n - 1)
  }

  predicate HasPrefix(s: string, p: string) {
    |p| <= |s| && s[..|p|] == p
  }

  /** Comparing as many characters as a literal has is a prefix test. */
  lemma {:induction false} StrNEqualPrefix(a: string, p: string)
    ensures StrNEqual(a, p, |p|) <==> HasPrefix(a, p)
    decreases |p|
  {
    if |p| != 0 && |a| != 0 {
      StrNEqualPrefix(a[1..], p[1..]);
      if HasPrefix(a, p) {
        assert a[1..][..|p| - 1] == a[..|p|][1..];
      }
      if a[0] == p[0] && HasPrefix(a[1..], p[1..]) {
        assert a[..|p|] == [a[0]] + a[1..][..|p| - 1];
        assert p == [p[0]] + p[1..];
      }
    }
  }

  /** Comparing one character more than a literal has, its terminator included, is a test for
      equality with the literal. */
  lemma {:induction false} StrNEqualWhole(a: string, p: string)
    ensures StrNEqual(a, p, |p| + 1) <==> a == p
    decreases |p|
  {
    if |p| != 0 && |a| != 0 {
      StrNEqualWhole(a[1..], p[1..]);
      if a[0] == p[0] && a[1..] == p[1..] {
        assert a == [a[0]] + a[1..] && p == [p[0]] + p[1..];
      }
    }
  }

  /** IS_VM_ARG: the argument starts with `--vm.`. */
  predicate IsVmArg(a: string) {
    HasPrefix(a, VmArgPrefix)
  }

  /** IS_VM_CP_ARG: the argument starts with `--vm.cp=`. */
  predicate IsVmCpArg(a: string) {
    HasPrefix(a, VmCpPrefix)
  }

  /** IS_VM_CLASSPATH_ARG: the argument starts with `--vm.classpath=`. */
  predicate IsVmClasspathArg(a: string) {
    HasPrefix(a, VmClasspathPrefix)
  }

  lemma PrefixTransitive(a: string, p: string, q: string)
    requires HasPrefix(a, p) && HasPrefix(p, q)
    ensures HasPrefix(a, q)
  {
    assert a[..|q|] == a[..|p|][..|q|];
  }

  /** Both class-path forms are VM arguments. */
  lemma ClasspathArgsAreVmArgs(a: string)
    ensures IsVmCpArg(a) || IsVmClasspathArg(a) ==> IsVmArg(a)
  {
    if IsVmCpArg(a) {
      assert HasPrefix(VmCpPrefix, VmArgPrefix);
      PrefixTransitive(a, VmCpPrefix, VmArgPrefix);
    }
    if IsVmClasspathArg(a) {
      assert HasPrefix(VmClasspathPrefix, VmArgPrefix);
      PrefixTransitive(a, VmClasspathPrefix, VmArgPrefix);
    }
  }

  /** The macros compare with strncmp over exactly the length of their literal, which is the
      prefix test each predicate states. */
  lemma ArgumentTests(a: string)
    ensures StrNEqual(a, VmArgPrefix, 5) <==> IsVmArg(a)
    ensures StrNEqual(a, VmCpPrefix, 8) <==> IsVmCpArg(a)
    ensures StrNEqual(a, VmClasspathPrefix, 15) <==> IsVmClasspathArg(a)
  {
    StrNEqualPrefix(a, VmArgPrefix);
    StrNEqualPrefix(a, VmCpPrefix);
    StrNEqualPrefix(a, VmClasspathPrefix);
  }

  // ---------------------------------------------------------------------------------------
  // Hexadecimal text of the relaunch mask

  function HexDigit(d: nat): char
    requires d < 16
  {
    "0123456789abcdef"[d]
  }

  /** printf's %x: lower-case hexadecimal digits without leading zeros. */
  function LowerHex(n: nat): (r: string)
    ensures 1 <= |r|
    decreases n
  {
    if n < 16 then [HexDigit(n)] else LowerHex(n / 16) + [HexDigit(n % 16)]
  }

  /** The value of a hexadecimal digit of either case, if c is one. */
  function HexValue(c: char): Option<nat> {
    if '0' <= c <= '9' then Some(c as nat - '0' as nat)
    else if 'a' <= c <= 'f' then Some(c as nat - 'a' as nat + 10)
    else if 'A' <= c <= 'F' then Some(c as nat - 'A' as nat + 10)
    else None
  }

  /** The value strtol in base 16 reads from a run of hexadecimal digits: digits are taken
      from the left, starting with the accumulated value acc, until the first non-digit. */
  function ReadHex(s: string, acc: nat): nat
    decreases |s|
  {
    if |s| == 0 || HexValue(s[0]).None? then acc
    else ReadHex(s[1..], acc * 16 + HexValue(s[0]).value)
  }

  predicate AllHex(s: string) {
    forall i :: 0 <= i < |s| ==> HexValue(s[i]).Some?
  }

  lemma HexDigitValue(d: nat)
    requires d < 16
    ensures HexValue(HexDigit(d)) == Some(d)
  {
  }

  /** Reading a run of digits followed by more text continues from the run's value. */
  lemma {:induction false} ReadHexAppend(a: string, b: string, acc: nat)
    requires AllHex(a)
    ensures ReadHex(a + b, acc) == ReadHex(b, ReadHex(a, acc))
    decreases |a|
  {
    if |a| == 0 {
      assert a + b == b;
    } else {
      assert (a + b)[0] == a[0];
      assert (a + b)[1..] == a[1..] + b;
      ReadHexAppend(a[1..], b, acc * 16 + HexValue(a[0]).value);
    }
  }

  /** %x prints only hexadecimal digits, and reading them back gives the number. */
  lemma {:induction false} LowerHexRoundTrip(n: nat)
    ensures AllHex(LowerHex(n))
    ensures ReadHex(LowerHex(n), 0) == n
    decreases n
  {
    if n < 16 {
      HexDigitValue(n);
    } else {
      LowerHexRoundTrip(n / 16);
      HexDigitValue(n % 16);
      ReadHexAppend(LowerHex(n / 16), [HexDigit(n % 16)], 0);
    }
  }

  /** A number below 16^k prints in at most k digits. */
  lemma {:induction false} LowerHexLength(n: nat, k: nat, bound: nat)
    requires 1 <= k && bound == Pow16(k) && n < bound
    ensures |LowerHex(n)| <= k
    decreases k
  {
    if n >= 16 {
      assert k != 1;
      LowerHexLength(n / 16, k - 1, Pow16(k - 1));
    }
  }

  function Pow16(k: nat): nat {
    if k == 0 then 1 else 16 * Pow16(k - 1)
  }

  // ---------------------------------------------------------------------------------------
  // The relaunch marker

  /** main's relaunch argument: snprintf of VM_ARGS followed by the mask in %x into a buffer of
      MarkerBufferSize characters, the terminator included. */
  function FormatMarker(m: Mask): (r: string)
    ensures |r| < MarkerBufferSize
  {
    var s := VmArgsMarker + LowerHex(m);
    if |s| < MarkerBufferSize then s else s[..MarkerBufferSize - 1]
  }

  /** The buffer is large enough: the marker is never truncated. */
  lemma FormatMarkerFits(m: Mask)
    ensures FormatMarker(m) == VmArgsMarker + LowerHex(m)
  {
    assert Pow16(8) == 0x1_0000_0000 by {
      assert Pow16(4) == 0x1_0000;
    }
    LowerHexLength(m, 8, Pow16(8));
  }

  /** HAS_VM_ARGS as written: the last argument is compared with VM_ARGS over
      sizeof(VM_ARGS) characters, which takes in the literal's terminator. */
  predicate HasVmArgsAsWritten(last: string) {
    StrNEqual(last, VmArgsMarker, VmArgsMarkerSize)
  }

  /** The marker main writes is never recognised as written: only an argument that is exactly
      `--vmargs=`, with no mask after it, passes the test, and for that argument the mask is
      read at offset sizeof(VM_ARGS), one past its terminator. */
  lemma MarkerNeverDetectedAsWritten(m: Mask)
    ensures !HasVmArgsAsWritten(FormatMarker(m))
    ensures forall last :: HasVmArgsAsWritten(last) ==> last == VmArgsMarker && |last| + 1 == VmArgsMarkerSize
  {
    FormatMarkerFits(m);
    StrNEqualWhole(FormatMarker(m), VmArgsMarker);
    forall last | HasVmArgsAsWritten(last) ensures last == VmArgsMarker {
      StrNEqualWhole(last, VmArgsMarker);
    }
  }

  /** `(int)strtol(s, NULL, 16)` as the mask's bit pattern: the leading hexadecimal digits,
      saturated at LONG_MAX and then cut to the 32 bits of an int. */
  function HexToInt(s: string): Mask {
    var v := ReadHex(s, 0);
    var l := if v > LongMax then LongMax else v;
    l % 0x1_0000_0000
  }

  /** The relaunch test with the marker's own length, strlen(VM_ARGS), reading the mask right
      after the marker. */
  function DetectMarker(last: string): (r: Option<Mask>)
    ensures r.Some? <==> StrNEqual(last, VmArgsMarker, |VmArgsMarker|)
    ensures r.Some? ==> HasPrefix(last, VmArgsMarker) && r.value == HexToInt(last[|VmArgsMarker|..])
  {
    StrNEqualPrefix(last, VmArgsMarker);
    if HasPrefix(last, VmArgsMarker) then Some(HexToInt(last[|VmArgsMarker|..])) else None
  }

  /** The relaunch test and the mask read as written: HAS_VM_ARGS over sizeof(VM_ARGS)
      characters, and strtol at offset sizeof(VM_ARGS). The test passes only for an argument
      that is exactly `--vmargs=`; the read then starts one past that argument's terminator,
      in the bytes `beyond` that happen to follow it in memory. */
  function DetectMarkerAsWritten(last: string, beyond: string): (r: Option<Mask>)
    ensures r.Some? <==> HasVmArgsAsWritten(last)
    ensures r.Some? <==> last == VmArgsMarker
    ensures r.Some? ==> r.value == HexToInt(beyond)
  {
    StrNEqualWhole(last, VmArgsMarker);
    if HasVmArgsAsWritten(last) then Some(HexToInt(beyond)) else None
  }

  /** The corrected test recognises every marker main writes and recovers its mask. */
  lemma MarkerRoundTrip(m: Mask)
    ensures DetectMarker(FormatMarker(m)) == Some(m)
  {
    FormatMarkerFits(m);
    var s := FormatMarker(m);
    assert HasPrefix(s, VmArgsMarker);
    assert s[|VmArgsMarker|..] == LowerHex(m);
    LowerHexRoundTrip(m);
    assert ReadHex(s[|VmArgsMarker|..], 0) == m;
  }

  // ---------------------------------------------------------------------------------------
  // The VM-argument mask

  function Pow2(k: nat): nat {
    if k == 0 then 1 else 2 * Pow2(k - 1)
  }

  lemma {:induction false} Pow2Add(a: nat, b: nat)
    ensures Pow2(a + b) == Pow2(a) * Pow2(b)
    decreases a
  {
    if a > 0 {
      Pow2Add(a - 1, b);
      assert Pow2(a + b) == 2 * Pow2(a - 1 + b);
    }
  }

  lemma Pow2Of32()
    ensures Pow2(32) == 0x1_0000_0000
  {
    assert Pow2(4) == 16;
    Pow2Add(4, 4);
    Pow2Add(8, 8);
    Pow2Add(16, 16);
  }

  /** Bit i of a bit pattern: `(1<<i) & mask` is not zero. */
  predicate Bit(m: nat, i: nat)
    decreases i
  {
    if i == 0 then m % 2 == 1 else Bit(m / 2, i - 1)
  }

  /** The bit pattern with bit i set: `mask | (1<<i)`. */
  function SetBit(m: nat, i: nat): nat
    decreases i
  {
    if i == 0 then (if m % 2 == 1 then m else m + 1) else 2 * SetBit(m / 2, i - 1) + m % 2
  }

  /** Setting bit i sets bit i and leaves every other bit as it was. */
  lemma {:induction false} SetBitEffect(m: nat, i: nat, j: nat)
    ensures Bit(SetBit(m, i), j) <==> Bit(m, j) || i == j
    decreases i
  {
    if i == 0 {
      if j > 0 {
        assert SetBit(m, 0) / 2 == m / 2;
      }
    } else {
      var s := SetBit(m / 2, i - 1);
      assert SetBit(m, i) == 2 * s + m % 2;
      if j != 0 {
        assert SetBit(m, i) / 2 == s;
        SetBitEffect(m / 2, i - 1, j - 1);
      }
    }
  }

  /** Setting a bit below k keeps a pattern of k bits within k bits. */
  lemma {:induction false} SetBitBound(m: nat, i: nat, k: nat)
    requires m < Pow2(k) && i < k
    ensures SetBit(m, i) < Pow2(k)
    decreases i
  {
    if i == 0 {
      if m % 2 == 0 {
        assert Pow2(k) == 2 * Pow2(k - 1);
      }
    } else {
      SetBitBound(m / 2, i - 1, k - 1);
    }
  }

  lemma {:induction false} NoBitOfZero(j: nat)
    ensures !Bit(0, j)
    decreases j
  {
    if j > 0 {
      NoBitOfZero(j - 1);
    }
  }

  /** `mask | (1<<i)` on the 32-bit int. */
  function SetMaskBit(m: Mask, i: nat): Mask
    requires i < 32
  {
    Pow2Of32();
    SetBitBound(m, i, 32);
    SetBit(m, i)
  }

  /** No VM argument below n sits at index 32 or beyond, so the shifts `1<<i` a first launch
      evaluates, which are those of the VM arguments (launcher.cc:211), stay inside the int. */
  predicate VmArgsBelow32(argv: seq<string>, n: nat)
    requires n <= |argv|
  {
    forall i :: 32 <= i < n ==> !IsVmArg(argv[i])
  }

  /** The mask a first launch computes from the value it starts from: the bit of every VM
      argument below n is added. */
  function FirstLaunchMask(argv: seq<string>, start: Mask, n: nat): Mask
    requires n <= |argv| && VmArgsBelow32(argv, n)
    decreases n
  {
    if n == 0 then start
    else
      var m := FirstLaunchMask(argv, start, n - 1);
      if IsVmArg(argv[n - 1]) then SetMaskBit(m, n - 1) else m
  }

  /** Bit j of a first launch's mask is set iff it was set at the start or argument j is a VM
      argument. */
  lemma {:induction false} FirstLaunchMaskBits(argv: seq<string>, start: Mask, n: nat, j: nat)
    requires n <= |argv| && VmArgsBelow32(argv, n)
    ensures Bit(FirstLaunchMask(argv, start, n), j) <==> Bit(start, j) || (j < n && IsVmArg(argv[j]))
    decreases n
  {
    if n > 0 {
      FirstLaunchMaskBits(argv, start, n - 1, j);
      SetBitEffect(FirstLaunchMask(argv, start, n - 1), n - 1, j);
    }
  }

  // ---------------------------------------------------------------------------------------
  // Reference definitions of what parse_vm_options computes

  /** On a relaunch only the positions whose bit is set are considered. */
  predicate Considered(relaunch: bool, mask: Mask, i: nat) {
    !relaunch || Bit(mask, i)
  }

  /** The VM option of `--vm.X`: `-X`. */
  function VmOptionString(a: string): string
    requires IsVmArg(a)
  {
    "-" + a[5..]
  }

  /** What parse_vm_options makes of one argument: a class-path entry for `--vm.cp=P` and
      `--vm.classpath=P`, the option `-X` for any other `--vm.X`, nothing otherwise. */
  datatype ArgKind = ClasspathEntry(entry: string) | VmOption(option: string) | OtherArg

  /** The tests in the order both passes apply them. */
  function Classify(a: string): (k: ArgKind)
    ensures k.OtherArg? <==> !IsVmArg(a)
    ensures k.ClasspathEntry? <==> IsVmCpArg(a) || IsVmClasspathArg(a)
    ensures k.VmOption? ==> k.option == VmOptionString(a)
    ensures k.ClasspathEntry? ==> k.entry == (if IsVmCpArg(a) then a[8..] else a[15..])
  {
    ClasspathArgsAreVmArgs(a);
    if IsVmCpArg(a) then ClasspathEntry(a[8..])
    else if IsVmClasspathArg(a) then ClasspathEntry(a[15..])
    else if IsVmArg(a) then VmOption(VmOptionString(a))
    else OtherArg
  }

  /** The class-path entries of the considered arguments below n, in argument order. */
  function UserCpEntries(argv: seq<string>, relaunch: bool, mask: Mask, n: nat): seq<string>
    requires n <= |argv|
    decreases n
  {
    if n == 0 then []
    else
      var k := Classify(argv[n - 1]);
      UserCpEntries(argv, relaunch, mask, n - 1)
        + (if Considered(relaunch, mask, n - 1) && k.ClasspathEntry? then [k.entry] else [])
  }

  /** The VM options of the considered arguments below n, in argument order. */
  function VmOptions(argv: seq<string>, relaunch: bool, mask: Mask, n: nat): seq<string>
    requires n <= |argv|
    decreases n
  {
    if n == 0 then []
    else
      var k := Classify(argv[n - 1]);
      VmOptions(argv, relaunch, mask, n - 1)
        + (if Considered(relaunch, mask, n - 1) && k.VmOption? then [k.option] else [])
  }

  /** Whether `--native` is among the first n arguments. */
  predicate NativeAmong(argv: seq<string>, n: nat)
    requires n <= |argv|
  {
    exists i :: 0 <= i < n && argv[i] == NativeFlag
  }

  /** The launcher entries of the class path under JVM mode: each entry as
      exeDir + dirSep + entry, separated by cpSep. */
  function LauncherEntries(exeDir: string, dirSep: string, cpSep: string, entries: seq<string>): string
    decreases |entries|
  {
    if |entries| == 0 then ""
    else if |entries| == 1 then exeDir + dirSep + entries[0]
    else exeDir + dirSep + entries[0] + cpSep + LauncherEntries(exeDir, dirSep, cpSep, entries[1..])
  }

  /** The user entries of the class path, each preceded by cpSep. */
  function UserEntriesText(cpSep: string, entries: seq<string>): string
    decreases |entries|
  {
    if |entries| == 0 then "" else cpSep + entries[0] + UserEntriesText(cpSep, entries[1..])
  }

  /** The class-path option: the property, the launcher entries under JVM mode, then the user
      entries. */
  function ClasspathOption(cfg: Config, exeDir: string, userEntries: seq<string>): string {
    ClassPathProperty
      + (if cfg.jvm then LauncherEntries(exeDir, cfg.dirSep, cfg.cpSep, cfg.launcherClasspath) else "")
      + UserEntriesText(cfg.cpSep, userEntries)
  }

  function SumLengths(s: seq<string>): nat
    decreases |s|
  {
    if |s| == 0 then 0 else |s[0]| + SumLengths(s[1..])
  }

  /** cp_size as written: each sizeof counts a terminator. */
  function CpSize(cfg: Config, exeDir: string, userEntries: seq<string>): int {
    var cnt := |cfg.launcherClasspath|;
    (|ClassPathProperty| + 1)
      + (if cfg.jvm then
           (|exeDir| + |cfg.dirSep| + 1) * cnt + (|cfg.cpSep| + 1) * (cnt - 1) + 2 + SumLengths(cfg.launcherClasspath)
         else 0)
      + SumLengths(userEntries) + (|cfg.cpSep| + 1) * |userEntries|
  }

  lemma {:induction false} LauncherEntriesLength(exeDir: string, dirSep: string, cpSep: string, entries: seq<string>)
    requires |entries| >= 1
    ensures |LauncherEntries(exeDir, dirSep, cpSep, entries)|
            == (|exeDir| + |dirSep|) * |entries| + SumLengths(entries) + |cpSep| * (|entries| - 1)
    decreases |entries|
  {
    if |entries| > 1 {
      LauncherEntriesLength(exeDir, dirSep, cpSep, entries[1..]);
    }
  }

  lemma {:induction false} UserEntriesLength(cpSep: string, entries: seq<string>)
    ensures |UserEntriesText(cpSep, entries)| == SumLengths(entries) + |cpSep| * |entries|
    decreases |entries|
  {
    if |entries| > 0 {
      UserEntriesLength(cpSep, entries[1..]);
    }
  }

  /** The allocated class-path buffer holds the assembled option and its terminator. */
  lemma CpSizeFits(cfg: Config, exeDir: string, userEntries: seq<string>)
    requires ValidConfig(cfg)
    ensures CpSize(cfg, exeDir, userEntries) >= |ClasspathOption(cfg, exeDir, userEntries)| + 1
  {
    var sep, u := |cfg.cpSep|, |userEntries|;
    UserEntriesLength(cfg.cpSep, userEntries);
    assert (sep + 1) * u == sep * u + u;
    var launcherLen := if cfg.jvm then |LauncherEntries(exeDir, cfg.dirSep, cfg.cpSep, cfg.launcherClasspath)| else 0;
    var launcherSize := if cfg.jvm then
        (|exeDir| + |cfg.dirSep| + 1) * |cfg.launcherClasspath| + (sep + 1) * (|cfg.launcherClasspath| - 1) + 2
          + SumLengths(cfg.launcherClasspath)
      else 0;
    if cfg.jvm {
      LauncherEntriesLength(exeDir, cfg.dirSep, cfg.cpSep, cfg.launcherClasspath);
      LauncherSizeFits(|exeDir| + |cfg.dirSep|, |cfg.launcherClasspath|, sep, SumLengths(cfg.launcherClasspath));
    }
    assert |ClasspathOption(cfg, exeDir, userEntries)| == |ClassPathProperty| + launcherLen + SumLengths(userEntries) + sep * u;
    assert CpSize(cfg, exeDir, userEntries) == |ClassPathProperty| + 1 + launcherSize + SumLengths(userEntries) + (sep + 1) * u;
  }

  /** Each launcher entry is counted with one character more than it takes. */
  lemma LauncherSizeFits(w: nat, c: nat, sep: nat, total: nat)
    requires c >= 1
    ensures (w + 1) * c + (sep + 1) * (c - 1) + 2 + total >= w * c + total + sep * (c - 1)
  {
    assert (w + 1) * c == w * c + c;
    assert (sep + 1) * (c - 1) == sep * (c - 1) + (c - 1);
  }

  /** The options parse_vm_options writes: the launcher-class property under JVM mode, the VM
      options in argument order, and the class-path option last. */
  function ExpectedOptions(cfg: Config, exeDir: string, argv: seq<string>, relaunch: bool, mask: Mask, argc: nat): seq<string>
    requires argc <= |argv|
  {
    LauncherClassOption(cfg)
      + VmOptions(argv, relaunch, mask, argc)
      + [ClasspathOption(cfg, exeDir, UserCpEntries(argv, relaunch, mask, argc))]
  }

  function LauncherClassOption(cfg: Config): seq<string> {
    if cfg.jvm then [LauncherClassProperty + cfg.launcherClass] else []
  }

  /** One argument further, the selections grow by what that argument contributes. */
  lemma SelectionStep(argv: seq<string>, relaunch: bool, mask: Mask, n: nat)
    requires n < |argv|
    ensures var k := Classify(argv[n]);
            var taken := Considered(relaunch, mask, n);
            && VmOptions(argv, relaunch, mask, n + 1)
               == VmOptions(argv, relaunch, mask, n) + (if taken && k.VmOption? then [k.option] else [])
            && UserCpEntries(argv, relaunch, mask, n + 1)
               == UserCpEntries(argv, relaunch, mask, n) + (if taken && k.ClasspathEntry? then [k.entry] else [])
  {
  }

  /** On a first launch every argument is considered, whatever the mask holds. */
  lemma {:induction false} FirstLaunchSelectionIgnoresMask(argv: seq<string>, m1: Mask, m2: Mask, n: nat)
    requires n <= |argv|
    ensures VmOptions(argv, false, m1, n) == VmOptions(argv, false, m2, n)
    ensures UserCpEntries(argv, false, m1, n) == UserCpEntries(argv, false, m2, n)
    decreases n
  {
    if n > 0 {
      FirstLaunchSelectionIgnoresMask(argv, m1, m2, n - 1);
    }
  }

  lemma NativeAmongStep(argv: seq<string>, n: nat)
    requires n < |argv|
    ensures NativeAmong(argv, n + 1) <==> NativeAmong(argv, n) || argv[n] == NativeFlag
  {
    if NativeAmong(argv, n + 1) && !NativeAmong(argv, n) {
      var i :| 0 <= i < n + 1 && argv[i] == NativeFlag;
      assert i == n;
    }
  }

  // ---------------------------------------------------------------------------------------
  // parse_vm_options

  /** The first pass of parse_vm_options: it stops at `--native` under JVM mode and otherwise
      counts the options (one for the class path, one more under JVM mode) and the class-path
      entries of the considered arguments. */
  method CountVmArgs(argv: seq<string>, argc: nat, jvm: bool, relaunch: bool, mask: Mask)
    returns (native: bool, nOptions: nat, userCpCount: nat)
    requires argc <= |argv|
    ensures native <==> jvm && NativeAmong(argv, argc)
    ensures !native ==> nOptions == (if jvm then 2 else 1) + |VmOptions(argv, relaunch, mask, argc)|
    ensures !native ==> userCpCount == |UserCpEntries(argv, relaunch, mask, argc)|
  {
    nOptions := 1;
    if jvm {
      nOptions := nOptions + 1;
    }
    userCpCount := 0;
    var i := 0;
    while i < argc
      invariant 0 <= i <= argc
      invariant !(jvm && NativeAmong(argv, i))
      invariant userCpCount == |UserCpEntries(argv, relaunch, mask, i)|
      invariant nOptions == (if jvm then 2 else 1) + |VmOptions(argv, relaunch, mask, i)|
    {
      NativeAmongStep(argv, i);
      SelectionStep(argv, relaunch, mask, i);
      if jvm && argv[i] == NativeFlag {
        NativeAmongPrefix(argv, i + 1, argc);
        return true, nOptions, userCpCount;
      }
      if Considered(relaunch, mask, i) {
        match Classify(argv[i]) {
          case ClasspathEntry(_) =>
            userCpCount := userCpCount + 1;
          case VmOption(_) =>
            nOptions := nOptions + 1;
          case OtherArg =>
        }
      }
      i := i + 1;
    }
    native := false;
  }

  lemma NativeAmongPrefix(argv: seq<string>, n: nat, m: nat)
    requires n <= m <= |argv| && NativeAmong(argv, n)
    ensures NativeAmong(argv, m)
  {
    var i :| 0 <= i < n && argv[i] == NativeFlag;
    assert 0 <= i < m && argv[i] == NativeFlag;
  }

  /** The second pass of parse_vm_options: the VM options and class-path entries of the
      considered arguments in argument order and, on a first launch, the mask with the bit of
      every VM argument added. */
  method CollectVmArgs(argv: seq<string>, argc: nat, relaunch: bool, mask: Mask)
    returns (options: seq<string>, userEntries: seq<string>, newMask: Mask)
    requires argc <= |argv| && VmArgsBelow32(argv, argc)
    ensures options == VmOptions(argv, relaunch, mask, argc)
    ensures userEntries == UserCpEntries(argv, relaunch, mask, argc)
    ensures newMask == if relaunch then mask else FirstLaunchMask(argv, mask, argc)
  {
    options := [];
    userEntries := [];
    newMask := mask;
    var i := 0;
    while i < argc
      invariant 0 <= i <= argc
      invariant newMask == if relaunch then mask else FirstLaunchMask(argv, mask, i)
      invariant options == VmOptions(argv, relaunch, mask, i)
      invariant userEntries == UserCpEntries(argv, relaunch, mask, i)
    {
      var kind := Classify(argv[i]);
      SelectionStep(argv, relaunch, mask, i);
      if !kind.OtherArg? {
        if relaunch {
          if !Bit(newMask, i) {
            i := i + 1;
            continue;
          }
        } else {
          newMask := SetMaskBit(newMask, i);
        }
        if kind.ClasspathEntry? {
          userEntries := userEntries + [kind.entry];
        } else {
          options := options + [kind.option];
        }
      }
      i := i + 1;
    }
  }

  /** What parse_vm_options leaves behind once the relaunch test has given `marker` (a mask
      when the last argument was taken for the marker). The marker argument is dropped and
      only the arguments whose bit the mask has are considered. Under JVM mode `--native`
      among the remaining arguments stops the launch. Otherwise the option array holds
      exactly the number of options the first pass counted: the launcher-class property under
      JVM mode, the VM options in argument order and the class-path option last. The
      class-path buffer is large enough for its option, and the mask is the marker's or,
      on a first launch, the caller's value with the bits of the VM arguments added. */
  predicate ParsedAs(argv: seq<string>, exeDir: string, cfg: Config, incomingMask: Mask, marker: Option<Mask>,
                     r: Result<VmInitArgs, LaunchError>)
    requires ShiftsInRange(argv, marker)
  {
    var argc := if marker.Some? then |argv| - 1 else |argv|;
    && (r.Failure? <==> cfg.jvm && NativeAmong(argv, argc))
    && (r.Failure? ==> r.error == NativeUnavailable(argv[0]))
    && (r.Success? ==>
          && r.value.argc == argc
          && r.value.options == ExpectedOptions(cfg, exeDir, argv, marker.Some?, marker.GetOr(0), argc)
          && r.value.nOptions == |r.value.options|
          && r.value.cpSize >= |r.value.options[|r.value.options| - 1]| + 1
          && r.value.vmArgIndices == (if marker.Some? then marker.value else FirstLaunchMask(argv, incomingMask, argc)))
  }

  /** Every shift `1<<i` parse_vm_options evaluates stays inside the int. On a relaunch line
      181 shifts for each of the arguments before the marker, so at most 32 may precede it. On
      a first launch only VM arguments are shifted, so any number of arguments is fine as long
      as none from index 32 on is a VM argument. */
  predicate ShiftsInRange(argv: seq<string>, marker: Option<Mask>) {
    && 1 <= |argv|
    && (marker.Some? ==> |argv| - 1 <= 32)
    && (marker.None? ==> VmArgsBelow32(argv, |argv|))
  }

  /** parse_vm_options after its relaunch test, which is passed in as `marker`, starting from
      the mask value the caller's variable holds. */
  method ParseWithMarker(argv: seq<string>, exeDir: string, cfg: Config, incomingMask: Mask, marker: Option<Mask>)
    returns (r: Result<VmInitArgs, LaunchError>)
    requires ShiftsInRange(argv, marker)
    requires ValidConfig(cfg)
    ensures ParsedAs(argv, exeDir, cfg, incomingMask, marker, r)
  {
    var argc := |argv|;
    var relaunch := false;
    var mask := incomingMask;
    if marker.Some? {
      mask := marker.value;
      argc := argc - 1;
      relaunch := true;
    }
    var native, nOptions, userCpCount := CountVmArgs(argv, argc, cfg.jvm, relaunch, mask);
    if native {
      return Failure(NativeUnavailable(argv[0]));
    }
    var vmOptions, userEntries, newMask := CollectVmArgs(argv, argc, relaunch, mask);
    if !relaunch {
      FirstLaunchSelectionIgnoresMask(argv, mask, 0, argc);
    }
    var cp := ClasspathOption(cfg, exeDir, userEntries);
    var cpSize := CpSize(cfg, exeDir, userEntries);
    CpSizeFits(cfg, exeDir, userEntries);
    var options := LauncherClassOption(cfg) + vmOptions + [cp];
    return Success(VmInitArgs(argc, nOptions, options, newMask, cpSize));
  }

  /** parse_vm_options with the corrected relaunch test. */
  method ParseVmOptions(argv: seq<string>, exeDir: string, cfg: Config, incomingMask: Mask) returns (r: Result<VmInitArgs, LaunchError>)
    requires 1 <= |argv| && ShiftsInRange(argv, DetectMarker(argv[|argv| - 1]))
    requires ValidConfig(cfg)
    ensures ParsedAs(argv, exeDir, cfg, incomingMask, DetectMarker(argv[|argv| - 1]), r)
  {
    r := ParseWithMarker(argv, exeDir, cfg, incomingMask, DetectMarker(argv[|argv| - 1]));
  }

  /** parse_vm_options as written, with `beyond` the bytes past the last argument's
      terminator. Only a last argument that is exactly `--vmargs=` is taken for a marker;
      every other argument list, the ones main relaunches with included, is parsed as a first
      launch over all its arguments. */
  method ParseVmOptionsAsWritten(argv: seq<string>, exeDir: string, cfg: Config, incomingMask: Mask, beyond: string)
    returns (r: Result<VmInitArgs, LaunchError>)
    requires 1 <= |argv| && ShiftsInRange(argv, DetectMarkerAsWritten(argv[|argv| - 1], beyond))
    requires ValidConfig(cfg)
    ensures ParsedAs(argv, exeDir, cfg, incomingMask, DetectMarkerAsWritten(argv[|argv| - 1], beyond), r)
    ensures argv[|argv| - 1] != VmArgsMarker ==> ParsedAs(argv, exeDir, cfg, incomingMask, None, r)
  {
    r := ParseWithMarker(argv, exeDir, cfg, incomingMask, DetectMarkerAsWritten(argv[|argv| - 1], beyond));
  }

  /** A first launch, started from a zero mask, sets exactly the bits of the VM arguments. */
  lemma FirstLaunchMaskExact(argv: seq<string>, n: nat, j: nat)
    requires n <= |argv| && VmArgsBelow32(argv, n)
    ensures Bit(FirstLaunchMask(argv, 0, n), j) <==> j < n && IsVmArg(argv[j])
  {
    FirstLaunchMaskBits(argv, 0, n, j);
    NoBitOfZero(j);
  }

  /** main as written passes the address of an uninitialised int: a first launch keeps every
      bit the stack happened to hold. With 2 there and arguments `prog x`, bit 1 ends up set
      although `x` is no VM argument. */
  lemma UninitialisedMaskLeaksBits()
    ensures var argv := ["prog", "x"];
            && !IsVmArg(argv[1])
            && Bit(FirstLaunchMask(argv, 2, 2), 1)
  {
    FirstLaunchMaskBits(["prog", "x"], 2, 2, 1);
  }

  /** The selections up to n depend only on the arguments below n. */
  lemma {:induction false} SelectionIgnoresLaterArgs(argv: seq<string>, longer: seq<string>, relaunch: bool, mask: Mask, n: nat)
    requires n <= |argv| <= |longer| && longer[..|argv|] == argv
    ensures VmOptions(longer, relaunch, mask, n) == VmOptions(argv, relaunch, mask, n)
    ensures UserCpEntries(longer, relaunch, mask, n) == UserCpEntries(argv, relaunch, mask, n)
    decreases n
  {
    if n > 0 {
      SelectionIgnoresLaterArgs(argv, longer, relaunch, mask, n - 1);
      assert longer[n - 1] == longer[..|argv|][n - 1];
    }
  }

  /** An argument that starts with `--vmargs=` is neither a VM argument nor `--native`. */
  lemma MarkerPrefixedIsPlain(a: string)
    requires HasPrefix(a, VmArgsMarker)
    ensures !IsVmArg(a) && a != NativeFlag
  {
    assert a[4] == VmArgsMarker[4] == 'a';
    assert a[2] == 'v';
  }

  /** The marker main writes is neither a VM argument nor `--native`, and the as-written
      test does not take it for a marker. */
  lemma MarkerIsPlainArgument(m: Mask, beyond: string)
    ensures DetectMarkerAsWritten(FormatMarker(m), beyond).None?
    ensures Classify(FormatMarker(m)).OtherArg?
    ensures FormatMarker(m) != NativeFlag
  {
    MarkerNeverDetectedAsWritten(m);
    assert HasPrefix(FormatMarker(m), VmArgsMarker) by {
      FormatMarkerFits(m);
    }
    MarkerPrefixedIsPlain(FormatMarker(m));
  }

  /** A first launch over a list with one more argument that is no VM argument selects what
      it selects over the list without it. */
  lemma AppendPlainArgument(args: seq<string>, x: string)
    requires Classify(x).OtherArg?
    ensures VmOptions(args + [x], false, 0, |args| + 1) == VmOptions(args, false, 0, |args|)
    ensures UserCpEntries(args + [x], false, 0, |args| + 1) == UserCpEntries(args, false, 0, |args|)
  {
    var longer := args + [x];
    SelectionStep(longer, false, 0, |args|);
    assert longer[|args|] == x;
    assert longer[..|args|] == args;
    SelectionIgnoresLaterArgs(args, longer, false, 0, |args|);
  }

  /** As written, the argument list main relaunches with is parsed as a first launch over all
      of it: the marker is not taken for one, it is no VM argument itself, and the first-launch
      selection over the whole list is that of the arguments before it. That parse stays
      inside the int's shifts exactly when the original arguments do. */
  lemma AsWrittenRelaunchIsFirstLaunch(args: seq<string>, m: Mask, beyond: string)
    ensures var relaunched := args + [FormatMarker(m)];
            && DetectMarkerAsWritten(relaunched[|relaunched| - 1], beyond).None?
            && VmOptions(relaunched, false, 0, |relaunched|) == VmOptions(args, false, 0, |args|)
            && UserCpEntries(relaunched, false, 0, |relaunched|) == UserCpEntries(args, false, 0, |args|)
            && (ShiftsInRange(relaunched, None) <==> VmArgsBelow32(args, |args|))
  {
    MarkerIsPlainArgument(m, beyond);
    AppendPlainArgument(args, FormatMarker(m));
    var relaunched := args + [FormatMarker(m)];
    assert relaunched[|args|] == FormatMarker(m);
    assert forall i :: 0 <= i < |args| ==> relaunched[i] == args[i];
  }

  /** On a relaunch by main with the mask of the first launch, the considered arguments are
      exactly the VM arguments, so the relaunch builds the options of the first launch. */
  lemma RelaunchRebuildsFirstLaunchOptions(cfg: Config, exeDir: string, args: seq<string>, n: nat)
    requires n <= |args| <= 32
    ensures var m := FirstLaunchMask(args, 0, |args|);
            var relaunched := args + [FormatMarker(m)];
            && DetectMarker(relaunched[|relaunched| - 1]) == Some(m)
            && VmOptions(relaunched, true, m, n) == VmOptions(args, false, 0, n)
            && UserCpEntries(relaunched, true, m, n) == UserCpEntries(args, false, 0, n)
  {
    var m := FirstLaunchMask(args, 0, |args|);
    var relaunched := args + [FormatMarker(m)];
    MarkerRoundTrip(m);
    forall j | 0 <= j < |args| ensures Bit(m, j) <==> IsVmArg(args[j]) {
      FirstLaunchMaskExact(args, |args|, j);
    }
    assert relaunched[..|args|] == args;
    RelaunchSameSelection(args, relaunched, m, n);
  }

  lemma {:induction false} RelaunchSameSelection(args: seq<string>, relaunched: seq<string>, m: Mask, n: nat)
    requires n <= |args| <= 32 && |args| <= |relaunched| && relaunched[..|args|] == args
    requires forall j :: 0 <= j < |args| ==> (Bit(m, j) <==> IsVmArg(args[j]))
    ensures VmOptions(relaunched, true, m, n) == VmOptions(args, false, 0, n)
    ensures UserCpEntries(relaunched, true, m, n) == UserCpEntries(args, false, 0, n)
    decreases n
  {
    if n > 0 {
      RelaunchSameSelection(args, relaunched, m, n - 1);
      assert relaunched[n - 1] == args[n - 1];
      SameSelectionStep(args, relaunched, m, n);
    }
  }

  /** One argument further: when the argument agrees and is considered on the relaunch exactly
      when it is a VM argument, both selections grow alike. */
  lemma SameSelectionStep(args: seq<string>, relaunched: seq<string>, m: Mask, n: nat)
    requires 0 < n <= |args| <= 32 && n <= |relaunched| && relaunched[n - 1] == args[n - 1]
    requires Bit(m, n - 1) <==> IsVmArg(args[n - 1])
    requires VmOptions(relaunched, true, m, n - 1) == VmOptions(args, false, 0, n - 1)
    requires UserCpEntries(relaunched, true, m, n - 1) == UserCpEntries(args, false, 0, n - 1)
    ensures VmOptions(relaunched, true, m, n) == VmOptions(args, false, 0, n)
    ensures UserCpEntries(relaunched, true, m, n) == UserCpEntries(args, false, 0, n)
  {
  }

  // ---------------------------------------------------------------------------------------
  // VM option strings

  /** The option string as written: a buffer of strlen(X) + 2 characters whose first character
      is set to '-' and whose other characters are whatever malloc left there, then strcat of X,
      which appends after the buffer's first terminator. The result is the text in front of
      that terminator followed by X; `None` when the buffer holds no terminator at all. */
  function OptionStringAsWritten(a: string, buffer: seq<char>): (r: Option<string>)
    requires IsVmArg(a) && |buffer| == |a| - 5 + 2
  {
    var b := buffer[0 := '-'];
    var nul := FirstNul(b);
    if nul < |b| then Some(b[..nul] + a[5..]) else None
  }

  function FirstNul(s: seq<char>): (r: nat)
    ensures r <= |s|
    ensures forall i :: 0 <= i < r ==> s[i] != '\0'
    ensures r < |s| ==> s[r] == '\0'
    decreases |s|
  {
    if |s| == 0 then 0 else if s[0] == '\0' then 0 else 1 + FirstNul(s[1..])
  }

  /** With the buffer left as `?a` followed by a terminator, `--vm.X` becomes `-aX`, which is
      not the intended `-X` and, with its terminator, needs four characters of a three-character
      buffer. */
  lemma UninitialisedOptionBuffer()
    ensures var a := "--vm.X";
            && IsVmArg(a)
            && OptionStringAsWritten(a, ['?', 'a', '\0']) == Some("-aX")
            && OptionStringAsWritten(a, ['?', 'a', '\0']) != Some(VmOptionString(a))
            && |"-aX"| + 1 > |a| - 5 + 2
  {
    var a := "--vm.X";
    assert a[..5] == VmArgPrefix;
    var b := ['?', 'a', '\0'][0 := '-'];
    assert b == ['-', 'a', '\0'];
    assert b[0] != '\0' && b[1] != '\0' && b[2] == '\0';
    assert FirstNul(b) == 2;
    assert b[..2] + a[5..] == "-aX";
  }

  /** With the terminator placed right after the '-', the option is `-X` and exactly fills
      the buffer of strlen(X) + 2 characters. */
  lemma OptionStringFits(a: string, buffer: seq<char>)
    requires IsVmArg(a) && |buffer| == |a| - 5 + 2 && |buffer| >= 2 && buffer[1] == '\0'
    ensures OptionStringAsWritten(a, buffer) == Some(VmOptionString(a))
    ensures |VmOptionString(a)| + 1 == |buffer|
  {
    var b := buffer[0 := '-'];
    assert b[0] != '\0' && b[1..][0] == '\0';
    assert FirstNul(b) == 1;
    assert b[..1] == "-";
  }

  // ---------------------------------------------------------------------------------------
  // loadliblang

  /** The language library's path: exeDir, the directory separator and the relative path,
      with the size loadliblang allocates for it. */
  function LibLangPath(cfg: Config, exeDir: string): (r: (string, nat))
    ensures r.1 >= |r.0| + 1
    ensures HasPrefix(r.0, exeDir) && r.0[|exeDir|..] == cfg.dirSep + cfg.libLangRelPath
  {
    var path := exeDir + cfg.dirSep + cfg.libLangRelPath;
    assert path[..|exeDir|] == exeDir;
    assert path[|exeDir|..] == cfg.dirSep + cfg.libLangRelPath;
    (path, |exeDir| + (|cfg.dirSep| + 1) + (|cfg.libLangRelPath| + 1) + 1)
  }
}
