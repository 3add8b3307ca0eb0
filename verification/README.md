# GraalVM: trapping division, added-field slots, native launcher options, benchmark arguments, thread user time

This project is a Dafny model of six small components of GraalVM. It states and proves what each component promises.

- **Floating division/remainder node** (`NonTrappingIntegerDivRemNode`).
  - A division or remainder that is not pinned in control flow and carries an optional guard.
  - Adding the node, reading and setting its guard, and its `verify` check are modelled over an index-addressed node arena.
  - In the arena, usage lists are counts of input edges.
- **Trapping-division phase** (`UseTrappingDivPhase`).
  - The scan finds each floating div/rem whose guard is the false branch of an `x == 0` test on its own divisor, where the test has a single usage and the dividend's block dominates the test.
  - It records the test → div/rem map and computes the schedule lazily.
  - It then invokes the trap-rewrite framework once per deoptimization.
  - The policy object the framework calls back is modelled too: it creates a fixed `SignedDiv`/`SignedRem` carrying the implicit-deopt metadata, then redirects every usage of the floating node to it.
- **Added-field slot table** (`ExtensionFieldsMetadata`).
  - Two append-only arrays of fields.
  - Slots come from one shared counter that decrements.
  - A descending binary search looks slots up.
- **Native launcher VM-option parsing** (`launcher.cc`).
  - Arguments are classified by their `--vm.`, `--vm.cp=` and `--vm.classpath=` prefixes.
  - The bit mask of VM-argument indices is kept, `--vm.X` is rewritten to `-X`, and the `-Djava.class.path=` option is assembled.
  - Its precomputed buffer size is modelled, as is the library path size in `loadliblang`.
  - So is the `--vmargs=<hex mask>` relaunch marker that `main` writes and `parse_vm_options` detects.
- **Benchmark argument helpers** (`mx_sdk_benchmark.py`).
  - Prefixed-argument extraction with order-preserving de-duplication, and its single-value variant.
  - The stage list and its default.
  - The three-valued `skip_agent_assertions` flag and the output directory.
  - The microservice name, the tail of data points to drop, and the `wrk` flag list.
- **Thread user time** (`getThreadUserTime.c`).
  - The stat line is parsed from after its last `)`, with a directive-by-directive model of the `sscanf` format.
  - Clock ticks are converted to nanoseconds in long arithmetic.

## Design

- **Layout.** There is one module per component:
  - `ir_graph.dfy` (IrGraph), `divrem_node.dfy` (NonTrappingDivRem), `trapping_div_phase.dfy` (TrappingDivPhase) and `trapping_div_policy.dfy` (TrappingDivPolicy);
  - `extension_fields.dfy` (ExtensionFields), `launcher.dfy` (Launcher), `benchmark_args.dfy` (BenchmarkArgs) and `thread_user_time.dfy` (ThreadUserTime);
  - `wrappers.dfy`, which holds `Option` and `Result`.
- **Oracles.** Parts of the compiler are not part of this model: the schedule, dominance, integer stamps and `SignedDivNode.divCanOverflow`. They are parameters:
  - a node-to-block map with a `dominates` function;
  - a stamp oracle with `containsZero` and `divCanOverflow`.
- **Errors are values.**
  - An abort (`mx.abort`) or an exception (`NoSuchFieldException`, `IndexOutOfBoundsException`) is a `Failure`.
  - A launcher exit is a `Failure` too.
  - A schedule gap is a `PhaseError`. This is a dividend with no block that is not a phi with a scheduled merge; the Java code would throw there.
- **Calls into code outside the model** are parameters:
  - the stat file contents, absent when it cannot be opened;
  - the clock tick rate;
  - the script path `getScriptPath` resolves;
  - the executable directory;
  - the launcher's compile-time configuration (JVM mode, separators, launcher classpath, class name).
- **Verification stage.** `verify` fails unless `!(canTrap && canOverflow) || isAfterStage(FIXED_READS)` holds (NonTrappingIntegerDivRemNode.java:83). So a node that can trap and overflow is rejected only while the graph is not yet after `FIXED_READS`.
- **Framework calls.** The rewrite framework is invoked whenever the map was created, even if it ended up empty (UseTrappingDivPhase.java:185-196).
- **Map overwrites.** When two div/rem nodes share one zero check, `put` overwrites. The node scanned last, in id order, wins.
- **Launcher defects.** The launcher's three defects (under Findings) are modelled as written in dedicated members.
  - `ParseWithMarker` is the parse after the relaunch test, with the test's outcome as a parameter.
  - `ParseVmOptionsAsWritten` feeds it the 10-byte test of `HAS_VM_ARGS` and the read at offset 10. `ParseVmOptions` feeds it the corrected 9-character test and the read at offset 9.
  - Both start the mask from whatever value the caller's variable holds, which in `main` is uninitialised. `FirstLaunchMaskExact` states the result of starting from 0.
  - Both build each option as `-X`, the string a buffer terminated after the dash gives. `UninitialisedOptionBuffer` shows what the unterminated buffer gives instead.

## Model

| member | source | states |
|---|---|---|
| NonTrappingDivRem.AddNonTrappingDivRem | compiler/src/org.graalvm.compiler.nodes/src/org/graalvm/compiler/nodes/calc/NonTrappingIntegerDivRemNode.java:54-57 | the new node is appended at the end, every other node is kept, and it stores exactly the supplied guard (possibly none) with the given operator and operands |
| NonTrappingDivRem.AddNonTrappingDivRemUsages | compiler/src/org.graalvm.compiler.nodes/src/org/graalvm/compiler/nodes/calc/NonTrappingIntegerDivRemNode.java:54-59 | the usage count of every node grows by the number of times it is the new node's dividend, divisor or guard |
| NonTrappingDivRem.SetGuard | compiler/src/org.graalvm.compiler.nodes/src/org/graalvm/compiler/nodes/calc/NonTrappingIntegerDivRemNode.java:66-70 | afterwards the node's guard is the new one; its operator and operands and every other node are unchanged |
| NonTrappingDivRem.SetGuardUsages | compiler/src/org.graalvm.compiler.nodes/src/org/graalvm/compiler/nodes/calc/NonTrappingIntegerDivRemNode.java:66-70 | the old guard loses this node as a usage and the new guard gains it; all other usage counts stay the same |
| NonTrappingDivRem.GetGuardReturnsLastSet | compiler/src/org.graalvm.compiler.nodes/src/org/graalvm/compiler/nodes/calc/NonTrappingIntegerDivRemNode.java:61-70 | getGuard returns the guard set last on this node, and setting another node's guard does not change it |
| NonTrappingDivRem.Verify | compiler/src/org.graalvm.compiler.nodes/src/org/graalvm/compiler/nodes/calc/NonTrappingIntegerDivRemNode.java:72-85 | verification fails exactly when the divisor's stamp contains 0, the division can overflow and the graph is not yet after FIXED_READS; otherwise it answers what the superclass check answers |
| NonTrappingDivRem.ProvablySafeNodeVerifies | compiler/src/org.graalvm.compiler.nodes/src/org/graalvm/compiler/nodes/calc/NonTrappingIntegerDivRemNode.java:72-85 | a node whose divisor stamp excludes 0 passes verification at any stage and with any guard, when the superclass check passes |
| NonTrappingDivRem.VerifyIgnoresGuard | compiler/src/org.graalvm.compiler.nodes/src/org/graalvm/compiler/nodes/calc/NonTrappingIntegerDivRemNode.java:81-85 | the verification outcome does not depend on the guard |
| TrappingDivPhase.ZeroCheckBranch | compiler/src/org.graalvm.compiler.phases.common/src/org/graalvm/compiler/phases/common/UseTrappingDivPhase.java:154-163 | it finds the If exactly when the guard is a Begin, that Begin is the If's false successor, and the If's condition is an IntegerEquals of this divisor with the constant 0 and has one usage; a MultiGuard guard never matches |
| TrappingDivPhase.VisitEffect | compiler/src/org.graalvm.compiler.phases.common/src/org/graalvm/compiler/phases/common/UseTrappingDivPhase.java:163-179 | a non-candidate leaves the scan state alone; a candidate creates the map (computing the schedule once) if absent and puts condition → div/rem exactly when the dividend's block, or its phi's merge block, dominates the If's block |
| TrappingDivPhase.ScanRecordsOnlyRecordable | compiler/src/org.graalvm.compiler.phases.common/src/org/graalvm/compiler/phases/common/UseTrappingDivPhase.java:151-184 | every recorded entry is a zero check whose div/rem passed every test of the scan |
| TrappingDivPhase.VisitKeepsOnlyRecordable | compiler/src/org.graalvm.compiler.phases.common/src/org/graalvm/compiler/phases/common/UseTrappingDivPhase.java:163-179 | visiting one more node keeps every recorded entry justified |
| TrappingDivPhase.ScanRecordsEveryRecordable | compiler/src/org.graalvm.compiler.phases.common/src/org/graalvm/compiler/phases/common/UseTrappingDivPhase.java:151-184 | every condition with a qualifying div/rem ends up a key of the map |
| TrappingDivPhase.VisitKeepsEveryRecordable | compiler/src/org.graalvm.compiler.phases.common/src/org/graalvm/compiler/phases/common/UseTrappingDivPhase.java:163-179 | visiting one more node keeps every qualifying condition recorded |
| TrappingDivPhase.ScanComputesScheduleLazily | compiler/src/org.graalvm.compiler.phases.common/src/org/graalvm/compiler/phases/common/UseTrappingDivPhase.java:164-168 | the schedule is computed at most once, and exactly when the map exists, which is exactly when some candidate passed the zero-check and single-usage tests |
| TrappingDivPhase.ScanFailsOnlyOnScheduleGap | compiler/src/org.graalvm.compiler.phases.common/src/org/graalvm/compiler/phases/common/UseTrappingDivPhase.java:171-177 | the scan fails exactly when some candidate's If or dividend has no block in the schedule |
| TrappingDivPhase.DeoptimizeCalls | compiler/src/org.graalvm.compiler.phases.common/src/org/graalvm/compiler/phases/common/UseTrappingDivPhase.java:188-192 | the framework is called for exactly the DeoptimizeNodes of the graph |
| TrappingDivPhase.DynamicDeoptimizeCalls | compiler/src/org.graalvm.compiler.phases.common/src/org/graalvm/compiler/phases/common/UseTrappingDivPhase.java:193-195 | the framework is called for exactly the DynamicDeoptimizeNodes of the graph |
| TrappingDivPhase.Run | compiler/src/org.graalvm.compiler.phases.common/src/org/graalvm/compiler/phases/common/UseTrappingDivPhase.java:147-197 | the phase succeeds iff the scan does and returns the scan's map; each (dynamic) deoptimization gets a framework call iff the map was created, even empty, and none is made otherwise |
| TrappingDivPolicy.CanUseTrappingVersion | compiler/src/org.graalvm.compiler.phases.common/src/org/graalvm/compiler/phases/common/UseTrappingDivPhase.java:84-87 | the trapping version can always be used |
| TrappingDivPolicy.IsSupportedReason | compiler/src/org.graalvm.compiler.phases.common/src/org/graalvm/compiler/phases/common/UseTrappingDivPhase.java:89-92 | only ArithmeticException is a supported reason |
| TrappingDivPolicy.CanReplaceCondition | compiler/src/org.graalvm.compiler.phases.common/src/org/graalvm/compiler/phases/common/UseTrappingDivPhase.java:94-100 | a condition can be replaced iff it is an IntegerEquals and a key of the map |
| TrappingDivPolicy.UseAddressOptimization | compiler/src/org.graalvm.compiler.phases.common/src/org/graalvm/compiler/phases/common/UseTrappingDivPhase.java:102-105 | the address optimization is never used |
| TrappingDivPolicy.TryReplaceExisting | compiler/src/org.graalvm.compiler.phases.common/src/org/graalvm/compiler/phases/common/UseTrappingDivPhase.java:107-111 | no existing node is ever reused |
| TrappingDivPolicy.TrueSuccessorIsDeopt | compiler/src/org.graalvm.compiler.phases.common/src/org/graalvm/compiler/phases/common/UseTrappingDivPhase.java:130-133 | the true successor is always the deoptimization |
| TrappingDivPolicy.CreateImplicitNode | compiler/src/org.graalvm.compiler.phases.common/src/org/graalvm/compiler/phases/common/UseTrappingDivPhase.java:113-128 | a new fixed signed div/rem is appended, with the floating node's operator (div or rem), dividend and divisor and the given reason-and-action and speculation; the old nodes are kept |
| TrappingDivPolicy.CreateImplicitNodeUsages | compiler/src/org.graalvm.compiler.phases.common/src/org/graalvm/compiler/phases/common/UseTrappingDivPhase.java:113-128 | creating the node adds one usage each to the dividend and the divisor and changes no other count |
| TrappingDivPolicy.CreateImplicitNodeKeepsWellFormed | compiler/src/org.graalvm.compiler.phases.common/src/org/graalvm/compiler/phases/common/UseTrappingDivPhase.java:113-128 | the graph stays well formed: every input refers to an existing node |
| TrappingDivPolicy.FinalAction | compiler/src/org.graalvm.compiler.phases.common/src/org/graalvm/compiler/phases/common/UseTrappingDivPhase.java:135-139 | redirecting the usages keeps the graph's size and well-formedness |
| TrappingDivPolicy.FinalActionUsages | compiler/src/org.graalvm.compiler.phases.common/src/org/graalvm/compiler/phases/common/UseTrappingDivPhase.java:135-139 | afterwards the floating node has no usages, the trapping node has its own usages plus the floating node's, and every other count is unchanged |
| TrappingDivPolicy.ActionBeforeGuardRewrite | compiler/src/org.graalvm.compiler.phases.common/src/org/graalvm/compiler/phases/common/UseTrappingDivPhase.java:141-144 | the graph is left unchanged |
| TrappingDivPolicy.CanReplaceExactlyRecordedConditions | compiler/src/org.graalvm.compiler.phases.common/src/org/graalvm/compiler/phases/common/UseTrappingDivPhase.java:94-100 | with the map the phase built, a condition can be replaced exactly when some div/rem qualified for it during the scan |
| TrappingDivPolicy.RecordableIsZeroCheck | compiler/src/org.graalvm.compiler.phases.common/src/org/graalvm/compiler/phases/common/UseTrappingDivPhase.java:68-74 | a recorded condition is an IntegerEquals node of the graph |
| TrappingDivPolicy.ConversionReplacesDivRem | compiler/src/org.graalvm.compiler.phases.common/src/org/graalvm/compiler/phases/common/UseTrappingDivPhase.java:113-139 | createImplicitNode then finalAction leaves a well-formed graph with one more node; it holds the same operator and operands plus the metadata, it takes over every usage of the floating node, and the floating node is left with none |
| TrappingDivPolicy.FinalActionInputs | compiler/src/org.graalvm.compiler.phases.common/src/org/graalvm/compiler/phases/common/UseTrappingDivPhase.java:135-139 | every node's inputs become its old inputs with the floating node replaced by the fixed one, and a node that did not use the floating node is left as it was |
| IrGraph.ReplaceAtUsagesInputs | compiler/src/org.graalvm.compiler.phases.common/src/org/graalvm/compiler/phases/common/UseTrappingDivPhase.java:138 | after replaceAtUsages each node's input list is its old list with the replaced node redirected, and a node without an edge to it is unchanged |
| IrGraph.ReplaceAtUsagesCount | compiler/src/org.graalvm.compiler.phases.common/src/org/graalvm/compiler/phases/common/UseTrappingDivPhase.java:138 | replaceAtUsages moves every usage of the replaced node to the replacement and leaves every other count unchanged |
| ExtensionFields.EmptyValid | espresso/src/com.oracle.truffle.espresso/src/com/oracle/truffle/espresso/impl/ExtensionFieldsMetadata.java:38-40 | the empty table with the counter at -1 satisfies the table invariant |
| ExtensionFields.InitNewFields | espresso/src/com.oracle.truffle.espresso/src/com/oracle/truffle/espresso/impl/ExtensionFieldsMetadata.java:70-82 | one field is made per parser field and the counter drops by their number |
| ExtensionFields.InitNewFieldsAt | espresso/src/com.oracle.truffle.espresso/src/com/oracle/truffle/espresso/impl/ExtensionFieldsMetadata.java:72-79 | the i-th new field has the holder, the i-th parser field, slot next − i, and the map's compatible field for its parser field or none |
| ExtensionFields.InitNewFieldsDescend | espresso/src/com.oracle.truffle.espresso/src/com/oracle/truffle/espresso/impl/ExtensionFieldsMetadata.java:72-73 | the new slots strictly descend, stay at or below the counter's old value, and lie above its new value |
| ExtensionFields.AddFields | espresso/src/com.oracle.truffle.espresso/src/com/oracle/truffle/espresso/impl/ExtensionFieldsMetadata.java:48-53 | the array grows by exactly the number of new fields and the old fields keep their positions |
| ExtensionFields.AddFieldsAppends | espresso/src/com.oracle.truffle.espresso/src/com/oracle/truffle/espresso/impl/ExtensionFieldsMetadata.java:48-53 | the grown array is the old array followed by the new fields in input order |
| ExtensionFields.AddFieldsKeepsOrder | espresso/src/com.oracle.truffle.espresso/src/com/oracle/truffle/espresso/impl/ExtensionFieldsMetadata.java:48-53 | appending keeps the array strictly descending by slot |
| ExtensionFields.AddNewStaticFields | espresso/src/com.oracle.truffle.espresso/src/com/oracle/truffle/espresso/impl/ExtensionFieldsMetadata.java:42-54 | the static array grows by exactly n with the old fields in place and the instance array untouched; an empty list changes nothing, not even the counter |
| ExtensionFields.AddNewInstanceFields | espresso/src/com.oracle.truffle.espresso/src/com/oracle/truffle/espresso/impl/ExtensionFieldsMetadata.java:56-68 | the instance array grows by exactly n with the old fields in place and the static array untouched; an empty list changes nothing, not even the counter |
| ExtensionFields.AddNewStaticFieldsKeepsValid | espresso/src/com.oracle.truffle.espresso/src/com/oracle/truffle/espresso/impl/ExtensionFieldsMetadata.java:42-54 | adding static fields keeps both arrays descending, above the counter and disjoint in slots |
| ExtensionFields.AddNewInstanceFieldsKeepsValid | espresso/src/com.oracle.truffle.espresso/src/com/oracle/truffle/espresso/impl/ExtensionFieldsMetadata.java:56-68 | adding instance fields keeps both arrays descending, above the counter and disjoint in slots |
| ExtensionFields.GetDeclaredAddedFields | espresso/src/com.oracle.truffle.espresso/src/com/oracle/truffle/espresso/impl/ExtensionFieldsMetadata.java:84-89 | all instance fields followed by all static fields, and nothing else |
| ExtensionFields.SlotLookup | espresso/src/com.oracle.truffle.espresso/src/com/oracle/truffle/espresso/impl/ExtensionFieldsMetadata.java:103-119 | the reference lookup finds a field with the slot, and finds nothing exactly when no field has it |
| ExtensionFields.SlotLookupFindsAny | espresso/src/com.oracle.truffle.espresso/src/com/oracle/truffle/espresso/impl/ExtensionFieldsMetadata.java:103-119 | in a descending array the reference lookup finds the field at any position holding the slot |
| ExtensionFields.BinarySearch | espresso/src/com.oracle.truffle.espresso/src/com/oracle/truffle/espresso/impl/ExtensionFieldsMetadata.java:103-119 | it terminates; a returned field belongs to the array and has the slot; on a descending array (with indices unbounded, see Left out) it fails with NoSuchField exactly when no field has the slot, and otherwise returns the field the reference lookup finds |
| ExtensionFields.GetStaticFieldAtSlot | espresso/src/com.oracle.truffle.espresso/src/com/oracle/truffle/espresso/impl/ExtensionFieldsMetadata.java:91-97 | a static field with the slot, or IndexOutOfBounds exactly when (on a descending array, with indices unbounded) there is none |
| ExtensionFields.GetInstanceFieldAtSlot | espresso/src/com.oracle.truffle.espresso/src/com/oracle/truffle/espresso/impl/ExtensionFieldsMetadata.java:99-101 | an instance field with the slot, or NoSuchField exactly when (on a descending array, with indices unbounded) there is none |
| ExtensionFields.AddedStaticFieldIsFound | espresso/src/com.oracle.truffle.espresso/src/com/oracle/truffle/espresso/impl/ExtensionFieldsMetadata.java:42-54 | every newly added static field can be looked up by the slot it received |
| ExtensionFields.AddedInstanceFieldIsFound | espresso/src/com.oracle.truffle.espresso/src/com/oracle/truffle/espresso/impl/ExtensionFieldsMetadata.java:56-68 | every newly added instance field can be looked up by the slot it received |
| ExtensionFields.AddKeepsOldStaticFieldsFound | espresso/src/com.oracle.truffle.espresso/src/com/oracle/truffle/espresso/impl/ExtensionFieldsMetadata.java:42-54 | static fields added earlier are still found by their slots after more static fields are added |
| ExtensionFields.AddKeepsOldInstanceFieldsFound | espresso/src/com.oracle.truffle.espresso/src/com/oracle/truffle/espresso/impl/ExtensionFieldsMetadata.java:56-68 | instance fields added earlier are still found by their slots after more instance fields are added |
| Launcher.ArgumentTests | sdk/src/org.graalvm.launcher.native/src/launcher.cc:74-76 | strncmp against `--vm.`, `--vm.cp=` and `--vm.classpath=` over their lengths is exactly a prefix test |
| Launcher.StrNEqualPrefix | sdk/src/org.graalvm.launcher.native/src/launcher.cc:74-76 | comparing as many characters as the literal has is a prefix test |
| Launcher.StrNEqualWhole | sdk/src/org.graalvm.launcher.native/src/launcher.cc:176 | comparing one character past the literal, its terminator, is an equality test |
| Launcher.ClasspathArgsAreVmArgs | sdk/src/org.graalvm.launcher.native/src/launcher.cc:205-218 | every `--vm.cp=` or `--vm.classpath=` argument is also a `--vm.` argument, so it reaches the classpath branch |
| Launcher.Classify | sdk/src/org.graalvm.launcher.native/src/launcher.cc:205-226 | an argument is ignored iff it lacks `--vm.`; it is a classpath entry iff it starts with `--vm.cp=` or `--vm.classpath=`, and the entry is the text after that prefix; otherwise it becomes the option `-X` for `--vm.X` |
| Launcher.CountVmArgs | sdk/src/org.graalvm.launcher.native/src/launcher.cc:166-189 | it exits iff JVM mode sees `--native`; otherwise nOptions is 1, plus 1 under JVM, plus the number of selected VM options, and the classpath count is the number of selected classpath entries |
| Launcher.CollectVmArgs | sdk/src/org.graalvm.launcher.native/src/launcher.cc:204-227 | the options and user classpath entries are those of the selected arguments in argv order; on a first launch the mask gains a bit for each VM argument, and on a relaunch it is kept; any number of arguments is accepted as long as no VM argument sits at index 32 or beyond |
| Launcher.ParseWithMarker | sdk/src/org.graalvm.launcher.native/src/launcher.cc:158-265 | given the relaunch test's outcome, for any argument list whose shifts stay inside the int (at most 32 arguments before a marker; on a first launch, no VM argument from index 32 on): a marker drops the last argument and restricts the selection to its mask; JVM mode with `--native` fails naming argv[0]; otherwise: the launcher class option (JVM), the VM options and the classpath option last, nOptions options in all, a classpath buffer that fits, and the mask (the marker's, or the caller's value with the VM arguments' bits added) |
| Launcher.ParseVmOptionsAsWritten | sdk/src/org.graalvm.launcher.native/src/launcher.cc:158-265 | parse_vm_options with the 10-byte marker test and the read at offset 10: any argument list whose last argument is not exactly `--vmargs=` is parsed as a first launch over all its arguments |
| Launcher.ParseVmOptions | sdk/src/org.graalvm.launcher.native/src/launcher.cc:158-265 | parse_vm_options with the corrected 9-character marker test and the read at offset 9, otherwise as ParseWithMarker |
| Launcher.NativeAmongStep | sdk/src/org.graalvm.launcher.native/src/launcher.cc:174-179 | `--native` occurs among the first n+1 arguments iff among the first n or at position n |
| Launcher.SelectionStep | sdk/src/org.graalvm.launcher.native/src/launcher.cc:181-189 | one more considered argument appends exactly its option or its classpath entry to the selection |
| Launcher.FirstLaunchSelectionIgnoresMask | sdk/src/org.graalvm.launcher.native/src/launcher.cc:204-212 | on a first launch, the incoming mask does not affect which options and entries are selected |
| Launcher.FirstLaunchMaskBits | sdk/src/org.graalvm.launcher.native/src/launcher.cc:204-212 | on a first launch, a mask bit is set iff it was already set or the argument at that index is a VM argument |
| Launcher.FirstLaunchMaskExact | sdk/src/org.graalvm.launcher.native/src/launcher.cc:204-212 | starting from 0, bit j is set iff argument j exists and starts with `--vm.` |
| Launcher.UninitialisedMaskLeaksBits | sdk/src/org.graalvm.launcher.native/src/launcher.cc:277 | starting from a leftover value, a bit is set for an argument that is not a VM argument |
| Launcher.FormatMarker | sdk/src/org.graalvm.launcher.native/src/launcher.cc:381-383 | the marker text always fits main's buffer with its terminator |
| Launcher.FormatMarkerFits | sdk/src/org.graalvm.launcher.native/src/launcher.cc:381-383 | snprintf does not truncate: the marker is `--vmargs=` followed by every hex digit of the mask |
| Launcher.LowerHexRoundTrip | sdk/src/org.graalvm.launcher.native/src/launcher.cc:383 | reading back the `%x` digits of a number in base 16 gives the number |
| Launcher.MarkerNeverDetectedAsWritten | sdk/src/org.graalvm.launcher.native/src/launcher.cc:78 | the as-written test never recognises a marker main writes; only the bare `--vmargs=` passes it |
| Launcher.DetectMarkerAsWritten | sdk/src/org.graalvm.launcher.native/src/launcher.cc:78 | as written, the last argument is taken for a marker exactly when it is the bare `--vmargs=`, and the mask is then read from the bytes past its terminator |
| Launcher.DetectMarker | sdk/src/org.graalvm.launcher.native/src/launcher.cc:161-165 | with the corrected marker test, a marker is detected exactly when the last argument starts with the nine visible characters of `--vmargs=`, and the mask is read from the characters after them |
| Launcher.MarkerRoundTrip | sdk/src/org.graalvm.launcher.native/src/launcher.cc:161-162 | with the corrected test, the marker main writes is detected and yields the mask it was written from |
| Launcher.RelaunchRebuildsFirstLaunchOptions | sdk/src/org.graalvm.launcher.native/src/launcher.cc:379-383 | with the corrected marker test, relaunching with the first launch's mask as marker selects the same VM options and classpath entries as the first launch |
| Launcher.MarkerIsPlainArgument | sdk/src/org.graalvm.launcher.native/src/launcher.cc:78 | the marker main writes is neither a VM argument nor `--native`, and the as-written test does not take it for a marker |
| Launcher.AppendPlainArgument | sdk/src/org.graalvm.launcher.native/src/launcher.cc:204-227 | one more argument that is no VM argument leaves the first-launch selection unchanged |
| Launcher.SelectionIgnoresLaterArgs | sdk/src/org.graalvm.launcher.native/src/launcher.cc:174-227 | the selection over the first n arguments does not depend on the arguments after them |
| Launcher.AsWrittenRelaunchIsFirstLaunch | sdk/src/org.graalvm.launcher.native/src/launcher.cc:379-384 | as written, main's relaunch argument list is parsed as a first launch, and it selects the same options and classpath entries as the list without the marker; that parse stays inside the int's shifts exactly when the original arguments do |
| Launcher.RelaunchSameSelection | sdk/src/org.graalvm.launcher.native/src/launcher.cc:181-209 | a relaunch whose mask marks exactly the VM arguments selects what a first launch selects |
| Launcher.CpSizeFits | sdk/src/org.graalvm.launcher.native/src/launcher.cc:230-264 | cp_size is at least the assembled classpath option's length plus its terminator |
| Launcher.LauncherEntriesLength | sdk/src/org.graalvm.launcher.native/src/launcher.cc:248-255 | the launcher entries' text is as long as every entry prefixed by the executable directory and directory separator, with a classpath separator between consecutive entries |
| Launcher.UserEntriesLength | sdk/src/org.graalvm.launcher.native/src/launcher.cc:257-260 | each user entry adds its own length plus one separator |
| Launcher.UninitialisedOptionBuffer | sdk/src/org.graalvm.launcher.native/src/launcher.cc:221-224 | with leftover bytes after the dash, the strcat result differs from `-X` and overruns the buffer |
| Launcher.OptionStringFits | sdk/src/org.graalvm.launcher.native/src/launcher.cc:221-224 | with the buffer terminated after the dash, the option is `-X` and fills the buffer exactly |
| Launcher.LibLangPath | sdk/src/org.graalvm.launcher.native/src/launcher.cc:138-143 | the path is the executable directory, the separator and the relative library path, and the computed size holds it with its terminator |
| BenchmarkArgs.PrefixedValue | sdk/mx.sdk/mx_sdk_benchmark.py:60 | the value follows the prefix in the argument, holds no space, and holds no further occurrence of the prefix |
| BenchmarkArgs.PrefixedValueRoundTrip | sdk/mx.sdk/mx_sdk_benchmark.py:60 | an argument built as prefix, value and a space-led tail yields the value back |
| BenchmarkArgs.ParsePrefixedArgs | sdk/mx.sdk/mx_sdk_benchmark.py:56-63 | the result has no duplicates, holds exactly the values of the arguments with the prefix, is empty iff there are none, and starts with the first one |
| BenchmarkArgs.ParsePrefixedArgsOrder | sdk/mx.sdk/mx_sdk_benchmark.py:56-63 | the values appear in the order of their first occurrence |
| BenchmarkArgs.ParsePrefixedArg | sdk/mx.sdk/mx_sdk_benchmark.py:65-72 | it aborts with the caller's message iff the values differ, returns None iff there are none, and otherwise returns the value they all share |
| BenchmarkArgs.Stages | sdk/mx.sdk/mx_sdk_benchmark.py:128-130 | it aborts iff the stages option is given with different values; an absent or empty value gives the five default stages, and any other value is split on commas: the stages hold no comma and join back to it, so they are exactly its comma-separated pieces |
| BenchmarkArgs.SplitJoin | sdk/mx.sdk/mx_sdk_benchmark.py:130 | joining the pieces of a split with the separator gives the text back |
| BenchmarkArgs.JoinSplit | sdk/mx.sdk/mx_sdk_benchmark.py:130 | splitting a join of separator-free pieces gives the pieces back |
| BenchmarkArgs.SkipAgentAssertions | sdk/mx.sdk/mx_sdk_benchmark.py:132-139 | True iff some value is `true`/`True`; False iff none is and some value is `false`/`False`; None otherwise |
| BenchmarkArgs.BenchmarkOutputDir | sdk/mx.sdk/mx_sdk_benchmark.py:121-126 | None iff no argument has the prefix; otherwise the value of the first argument that has it |
| BenchmarkArgs.FirstValue | sdk/mx.sdk/mx_sdk_benchmark.py:56-63 | the first parsed value is the value of the first argument with the prefix, and there is none iff no argument has it |
| BenchmarkArgs.BenchMicroserviceName | sdk/mx.sdk/mx_sdk_benchmark.py:202-204 | it aborts with "Invalid benchmark suite name: " and the name iff the name has no hyphen; otherwise it is the hyphen-free text before the first hyphen |
| BenchmarkArgs.SplitOnce | sdk/mx.sdk/mx_sdk_benchmark.py:202-204 | `split(c, 1)` gives the text alone iff it has no c, else the part before the first c and the rest |
| BenchmarkArgs.TailDatapointsToSkip | sdk/mx.sdk/mx_sdk_benchmark.py:408-409 | the number skipped is the largest r with 10r ≤ the number of results |
| BenchmarkArgs.DropTail | sdk/mx.sdk/mx_sdk_benchmark.py:411-415 | run keeps a prefix of the results and drops a tenth of them, rounded down |
| BenchmarkArgs.GetWrkFlags | sdk/mx.sdk/mx_sdk_benchmark.py:606-628 | it succeeds iff connections, threads, script and target-url are all configured; otherwise it aborts naming the first missing one in that order |
| BenchmarkArgs.WrkFlagsRoundTrip | sdk/mx.sdk/mx_sdk_benchmark.py:606-628 | wrk reading the flag list gets latency on, the configured connections, threads and script, and the target URL with the target path appended when present |
| ThreadUserTime.ReadStat | substratevm/src/com.oracle.svm.native.libchelper/src/getThreadUserTime.c:62-63 | the buffer holds a prefix of the file of at most STAT_SIZE − 1 characters, cut at any NUL, and the whole file when it is shorter and NUL-free |
| ThreadUserTime.LastIndexOf | substratevm/src/com.oracle.svm.native.libchelper/src/getThreadUserTime.c:80-84 | strrchr finds a `)` with none after it, and nothing exactly when the text has no `)` |
| ThreadUserTime.LastIndexOfSplit | substratevm/src/com.oracle.svm.native.libchelper/src/getThreadUserTime.c:80 | the `)` before a tail without `)` is the one found, whatever precedes it |
| ThreadUserTime.SkipSpaceDropsOnlySpace | substratevm/src/com.oracle.svm.native.libchelper/src/getThreadUserTime.c:86-89 | skipping blanks removes a prefix consisting only of white space |
| ThreadUserTime.ToULong | substratevm/src/com.oracle.svm.native.libchelper/src/getThreadUserTime.c:91 | `%lu` stores an in-range value unchanged and never stores more than ULONG_MAX |
| ThreadUserTime.AsLong | substratevm/src/com.oracle.svm.native.libchelper/src/getThreadUserTime.c:91 | the stored value read as a long is in the long range and equals the value when that fits |
| ThreadUserTime.TicksToNanos | substratevm/src/com.oracle.svm.native.libchelper/src/getThreadUserTime.c:97 | the product overflows a long iff the tick count exceeds 9223372036 in magnitude; otherwise the result is the nanoseconds rounded toward zero |
| ThreadUserTime.GetThreadUserTime | substratevm/src/com.oracle.svm.native.libchelper/src/getThreadUserTime.c:40-104 | -1 off Linux, when the file cannot be opened, or when the stat text does not parse; otherwise the parsed ticks converted to nanoseconds |
| ThreadUserTime.DecimalRoundTrip | substratevm/src/com.oracle.svm.native.libchelper/src/getThreadUserTime.c:91 | reading the decimal digits of a number gives the number |
| ThreadUserTime.ScanNumberRoundTrip | substratevm/src/com.oracle.svm.native.libchelper/src/getThreadUserTime.c:91 | one numeric conversion reads back a printed number, sign included, and stops right after it |
| ThreadUserTime.SkipNumbersRoundTrip | substratevm/src/com.oracle.svm.native.libchelper/src/getThreadUserTime.c:91 | the skipped conversions consume exactly the printed fields |
| ThreadUserTime.ScanStatFields | substratevm/src/com.oracle.svm.native.libchelper/src/getThreadUserTime.c:86-91 | after the blanks, the state and ten numeric fields, the value read is field 14 |
| ThreadUserTime.ParseAfterLastParen | substratevm/src/com.oracle.svm.native.libchelper/src/getThreadUserTime.c:80-91 | only the text after the last `)` is scanned |
| ThreadUserTime.StatLineRoundTrip | substratevm/src/com.oracle.svm.native.libchelper/src/getThreadUserTime.c:80-95 | for a stat line that fits the buffer, the user time read is field 14, whatever spaces and parentheses the command name holds |
| ThreadUserTime.NoParenthesisGivesMinusOne | substratevm/src/com.oracle.svm.native.libchelper/src/getThreadUserTime.c:82-84 | a stat text without `)` gives -1 |

## Left out

- JNI, `dlopen`/`LoadLibrary`, `execve`, `exit`, `malloc`/`free` and printing in the launcher. The launcher's results are values: the option strings, the buffer sizes, the mask, and a `Failure` in place of `exit(-1)`.
- Launcher.ParseVmOptions: requires that every `1 << i` the code evaluates has i below 32, since a larger shift of an int is undefined in C++. On a relaunch, line 181 shifts for every argument before the marker, so at most 32 may precede it. On a first launch, only VM arguments are shifted (line 211), so any number of arguments is accepted as long as no `--vm.` argument sits at index 32 or beyond. `1 << 31` is taken as the int's sign bit, as C++14 and later define it.
- Launcher.CountVmArgs: accepts a relaunch with more than 32 arguments, where line 181 would shift out of range. The model reads bit i of the mask as clear for i from 32 on. ParseWithMarker never calls it that way.
- Launcher.DetectMarker: uses the corrected 9-character test and the read at offset 9, not the 10-byte test and offset-10 read of launcher.cc:78 and 162. DetectMarkerAsWritten models the test as written.
- Launcher.HexToInt: the mask is read from a run of lower- or upper-case hex digits. It saturates at LONG_MAX, taken as the 64-bit value 2^63−1, and is then cut to 32 bits. `strtol`'s leading whitespace, sign and `0x` prefix are not modelled. On Windows, where `long` has 32 bits, the saturation happens at 2^31−1 instead.
- Launcher.ParseVmOptions: uses the corrected relaunch test, so on main's relaunch argument list it drops the marker where the code as written does not. ParseVmOptionsAsWritten models the code as written.
- Launcher.CpSizeFits: `cp_size` is an unbounded integer, so overflow of `int` is not modelled.
- Launcher.RelaunchRebuildsFirstLaunchOptions: holds with the corrected marker test only. As written, the marker is never detected, and AsWrittenRelaunchIsFirstLaunch states what happens instead. In `main` the relaunch mask comes from the Java launcher's `vmArgs` field. The lemma takes the first launch's own mask, which the Java side is not part of this model to confirm.
- ExtensionFields.BinarySearch: the indices are unbounded integers, so `(firstIndex + lastIndex) / 2` never overflows. In Java that sum is a 32-bit int. An array of at most 2^30 fields keeps it below 2^31, and there the model and the code agree. From 2^30+1 fields, a search that reaches `firstIndex == lastIndex == 2^30` wraps to a negative midpoint, and the array access throws ArrayIndexOutOfBoundsException. GetStaticFieldAtSlot and GetInstanceFieldAtSlot inherit this, and the catch in getStaticFieldAtSlot covers only NoSuchFieldException, so that exception would escape.
- ExtensionFields.InitNewFields: the slot counter is an unbounded integer. It does not wrap at 32 bits as `AtomicInteger` would after 2^31 fields.
- The shared slot counter is passed in and returned rather than held in a static field. Concurrency between callers is out of scope.
- The graph's internals are modelled as an index-addressed arena with counted input edges:
  - `graph.add`, usage-list storage and `replaceAtUsages`;
  - the generic rewrite engine `tryUseTrappingVersion`;
  - `SchedulePhase`;
  - `IntegerStamp` and `SignedDivNode.divCanOverflow`.

  The engine, scheduler and stamps are oracles, and a framework call is recorded rather than performed.
- TrappingDivPolicy.FinalAction: its ensures covers size and well-formedness only. FinalActionUsages states the usage counts per node and FinalActionInputs the new input list of every node.
- BenchmarkArgs.ValidPrefix: the prefix must be non-empty and free of spaces. A prefix with a space makes Python's `split(...)[1]` raise; an empty prefix makes `split` raise.
- BenchmarkArgs.GetWrkFlags: configuration values are modelled as the text `str()` gives them. `getScriptPath` is a parameter.
- BenchmarkArgs.WrkFlagsRoundTrip: requires that the target URL is not the text `--latency`, which wrk would read as the flag.
- BenchmarkArgs.TailDatapointsToSkip: `int(len * .10)` in floating point is modelled as `len / 10`. The double nearest 0.1 is slightly above 0.1, so the two agree for every list length below 2^52.
- `extra_profile_run_arg` and `extra_agent_profile_run_arg` are single calls of `parse_prefixed_args` and are not modelled separately.
- Threads, subprocesses, HTTP polling, regex output extraction and the floating-point latency flags in the benchmark suite.
- ThreadUserTime.GetThreadUserTime: the tick rate from `sysconf` is required to be positive. An error result of -1 from `sysconf` is not modelled.
- ThreadUserTime.ScanNumber: `%d` overflow of an `int` is not modelled, since those fields are only skipped.
- ThreadUserTime.IsSpace: only the C locale's white space is modelled. `isspace` on a negative `char`, a byte above 127, is undefined in C, and the model treats such a byte as not a space.
- The `fopen`/`fread`/`fclose` calls and the stat file name: the file's contents are a parameter.

## Findings

| source | as written | input that shows it | evidently intended | confidence | as-written member | corrected member |
|---|---|---|---|---|---|---|
| sdk/src/org.graalvm.launcher.native/src/launcher.cc:78 | `HAS_VM_ARGS` compares `sizeof(VM_ARGS)` = 10 bytes, terminator included, and line 162 reads the mask from offset 10 | the marker `--vmargs=5` that `main` writes for mask 5: byte 9 is `5`, not the terminator, so it is not detected | compare the 9 visible characters and read the hex digits from offset 9 | not executed; high that the test cannot match. The relaunch still selects the first launch's options (AsWrittenRelaunchIsFirstLaunch), so the visible effect is that the marker stays among the program arguments | Launcher.MarkerNeverDetectedAsWritten | Launcher.MarkerRoundTrip |
| sdk/src/org.graalvm.launcher.native/src/launcher.cc:277 | `int vm_arg_indices;` is never initialised, and line 211 ORs bits into it | a leftover value 2 with arguments `prog x` leaves bit 1 set although `x` is not a VM argument | start the mask at 0 | not executed; high | Launcher.UninitialisedMaskLeaksBits | Launcher.FirstLaunchMaskExact |
| sdk/src/org.graalvm.launcher.native/src/launcher.cc:221-224 | only byte 0 of the fresh `malloc` buffer is set before `strcat`, which searches for a terminator in bytes never written | `--vm.X` with leftover bytes `? a \0`: the result is `-aX`, one byte more than the buffer holds | terminate the buffer after the dash (or use `strcpy` for the tail) | not executed; high | Launcher.UninitialisedOptionBuffer | Launcher.OptionStringFits |
