# Verification models

Dafny models of the behaviour of this repository that is easiest to get wrong, with proofs of what that
behaviour promises. `dafny verify dfyconfig.toml` checks all of it. The files fall into three groups.

**The display glue for the Raspberry Pi 4.** A vsync counter is predicted from one real edge and a
measured period instead of being read from the hardware. `VsyncModel.dfy` has the predictor over
unbounded integers and the theorems about whole runs: it never goes back, stays within one of the true
counter exactly as long as the drift allows, and is exact after one good resync. `Calibration.dfy` is
the measurement of the period, `VsyncDisplay.dfy` the class with the 32- and 64-bit registers that
refines the model, and `Framebuffer.dfy` the buffers that are reused on the strength of the counter.
`MachineArith.dfy` writes out the C++ integer arithmetic.

**Resolving and syncing repositories.** `DependencyGraph.dfy` defines what the recursive resolver
computes, and proves it sorted exactly on acyclic graphs and complete on all of them.
`ModuleResolver.dfy` is the recursion with its global properties, proved against it. On it rest the
checkout loop (`RepoSync.dfy`, with the order of first visit in `FirstVisits.dfy` and the case of ranked
repositories in `RepoRanking.dfy`), the selection of modules that can be built (`BuildSelection.dfy`) and
the evaluation of module subsets (`ModuleSubset.dfy`). `CMakeList.dfy` holds the list commands and
truth values of CMake, including what quoting a list does to them.

**Texts and lists.** The reader of dependencies.yaml (`DependenciesYaml.dfy`), the merging of
arguments around `--` (`ArgsMerge.dfy`, `ConfigureArgs.dfy`), the framebuffer dump and its decoder
(`FrameDump.dfy`), and the reassembly of logged shader sources (`ShaderHarvest.dfy`, `LogLines.dfy`).

## Where the code differs from its own description

- A prediction is not within one edge for as long as the drift over the true edges is below one period:
  the edges have to be counted by whichever counter is ahead (`TrueEdgesAreNotEnough`, `WithinOneExactly`).
- A resync outside the window need not be rejected, and visible: a drift of about a whole period is
  accepted silently as one edge more or less (`AcceptedAs`, `SilentMiscount`).
- The fallback period is positive only for clocks of 60 Hz or more (`NominalPeriodPositive`).
- The sync loop does not end when a dependencies.yaml names a branch: it ends for all work trees exactly
  when the refs are commit ids, or cannot be checked out (`RefNeverSettles`, `EndsExactly`).
- With cycles the single pass over the sorted modules can keep a blocked module (`CycleKeepsBlocked`);
  `PassExactly` and `ClosesExactly` say exactly what it computes and when that is the closure.
- At cmake/QtIRGitHelpers.cmake:574 and 579 a list is passed quoted to `list(REMOVE_ITEM)`, so excluding
  several modules at once does not take them from the include list (`RemoveQuotedExactly`); the unquoted
  removal at line 1022 does (`FinalExcludes`), unless the exclude list as a whole reads as false.
- `existing` in a module subset does not evaluate to an empty list on a first run when it follows another
  term: the appended empty element is an unknown module name (`SubsetFailsExactly`).
- The final list depends on the order of the terms: a module excluded before its status is included still
  brings in its dependencies, which is the form that configure's -skip takes (`OrderMatters`, `FinalFromTerms`).
- A line `---EOF---` in a dependencies.yaml lists the entry before it twice (`MarkerRepeats`).
- Two patterns take `name/revision/required` apart differently: for a name with one slash the filter of
  optional dependencies looks at the revision, with more at a part of the name (`FilterReadsThirdPart`).
- Truth tests on whole lists take some lists for empty ones: `-redo` can then lose or misplace
  arguments (`RedoMergesExactly`). A recorded argument that reads as false and an empty `-redo` give an
  empty line, which the other branch is careful to avoid.
- An explicit `-skip` whose value is the `--`, or that stands behind it, is still merged, at the cost of
  the CMake arguments (`SkipRemovalExactly`). With a `--` the final `-help` goes to CMake (`HelpExactly`).
- A dumped row without pixels repeats the last row that had some, because the buffer is static
  (`RowReadsBackExactly`), and the decoder takes it for crop data (`CropAcceptedExactly`).
- A shader chunk that ends in a carriage return loses it (`SplittingDoesNotMatter`).

## Model

| member | source | states |
|---|---|---|
| VsyncModel.NearestIsNearest | zephyr-module/src/qzephyr_display_rpi4_v3d.cpp:280-283 | the signed half-period rounding of a resync picks a whole number of periods within half a period of the measured time, and never fewer than have fully passed |
| VsyncModel.Corrected | zephyr-module/src/qzephyr_display_rpi4_v3d.cpp:280-292 | after any resync, accepted or not, the period is positive and has moved by less than a 300th of itself |
| VsyncModel.ResyncNeverBack | zephyr-module/src/qzephyr_display_rpi4_v3d.cpp:265-292 | one resync: at least as many edges are counted as were predicted when it was called (`k >= -1`), the anchor moves forward, and the counter at the return is no less than the old prediction there |
| VsyncModel.CounterNeverBack | zephyr-module/src/qzephyr_display_rpi4_v3d.cpp:130-135 | over every run of readings, answered, rejected and failed resyncs on a clock that does not run backwards, no counter reading is below an earlier one |
| VsyncModel.WithinOneExactly | zephyr-module/src/qzephyr_display_rpi4_v3d.cpp:130-135 | between resyncs the counter has stayed within one of the true edge number if and only if edges * abs(T - P) <= max(T, P), the edges counted by whichever counter is ahead |
| VsyncModel.WindowExactly | zephyr-module/src/qzephyr_display_rpi4_v3d.cpp:280-286 | a SET_VSYNC that returns at true edge M is accepted with M edges counted if and only if M * abs(T - P) < P / 10, in the integer division of the code |
| VsyncModel.AcceptedAs | zephyr-module/src/qzephyr_display_rpi4_v3d.cpp:280-286 | a return at true edge M is accepted as n edges if and only if abs(M * T - n * P) < P / 10, for every n |
| VsyncModel.SilentMiscount | zephyr-module/src/qzephyr_display_rpi4_v3d.cpp:280-292 | with P = 1000 and T = 1001, a return at true edge 1000 is accepted as 1001 edges, and the anchor is off its true edge from then on |
| VsyncModel.WindowFindsEdges | zephyr-module/src/qzephyr_display_rpi4_v3d.cpp:280-286 | the same with jitter at both ends: inside the widened window the resync is accepted, counts M edges and measures the true phase error |
| VsyncModel.ExactRecovery | zephyr-module/src/qzephyr_display_rpi4_v3d.cpp:280-292 | a resync at true edge M inside the window finds exactly M edges, moves the anchor to that edge, and for M >= 30 sets the period to exactly the true one |
| VsyncModel.JitteredRecovery | zephyr-module/src/qzephyr_display_rpi4_v3d.cpp:280-292 | with return jitter J at each end, M edges are found and the new period is within 2J / M + 1 of the true one |
| VsyncModel.WindowMeansNoDrift | zephyr-module/src/qzephyr_display_rpi4_v3d.cpp:280-286 | a resync in the window, with returns up to J off, shows that drift and jitter were no more than the longer period all the way from the anchor to it |
| VsyncModel.RunAgrees | zephyr-module/src/qzephyr_display_rpi4_v3d.cpp:260-292 | over every run of readings, answered, rejected and failed resyncs, with every accepted return within J of its true edge and in the window for 2J, every counter reading is within one of the true edge number, up to the last accepted resync without a further condition and after it while drift and jitter are no more than the longer period; and equal to it without jitter and with the true period |
| VsyncModel.RunWithinOneExactly | zephyr-module/src/qzephyr_display_rpi4_v3d.cpp:260-292 | without jitter, and with the accepted resyncs in the window, the predictor in force is within one edge at every cycle of the run if and only if the drift since the last of them is no more than the longer period |
| VsyncModel.TrueEdgesAreNotEnough | zephyr-module/src/qzephyr_display_rpi4_v3d.cpp:130-135 | a drift over the true edges of less than one period does not suffice: after 3 true edges, 3 cycles of drift each, a counter of period 10 is two ahead |
| VsyncModel.ExactForever | zephyr-module/src/qzephyr_display_rpi4_v3d.cpp:260-292 | after one resync of 30 edges or more in the window, every later reading equals the true edge number as long as SET_VSYNC returns at true edges |
| VsyncModel.TruePeriodStaysInWindows | zephyr-module/src/qzephyr_display_rpi4_v3d.cpp:260-292 | a predictor with the true period stays inside the window at every later resync at a true edge, and keeps the period |
| Calibration.MoveDown | zephyr-module/src/qzephyr_display_rpi4_v3d.cpp:157-163 | the inner loop moves an element down, in place, past exactly the greater ones before it |
| Calibration.MoveIntoPlace | zephyr-module/src/qzephyr_display_rpi4_v3d.cpp:157-163 | one round of the insertion sort, in place: the prefix grows by one and stays sorted, the buffer stays a permutation, the elements behind are untouched |
| Calibration.InsertionSort | zephyr-module/src/qzephyr_display_rpi4_v3d.cpp:156-164 | the in-place sort leaves a sorted permutation of the measured intervals and does not touch the rest of the buffer |
| Calibration.SortedIsUnique | zephyr-module/src/qzephyr_display_rpi4_v3d.cpp:156-165 | two sorted permutations of the same intervals are equal, so the median is a function of the intervals |
| Calibration.CountInPermutation | zephyr-module/src/qzephyr_display_rpi4_v3d.cpp:156-164 | reordering intervals does not change how many lie in a range |
| Calibration.MedianInMajority | zephyr-module/src/qzephyr_display_rpi4_v3d.cpp:165 | if more than half of the intervals lie in [lo, hi], so does the median, whatever the others are |
| VsyncDisplay.NominalPeriodPositive | zephyr-module/src/qzephyr_display_rpi4_v3d.cpp:125-128 | the fallback period of 16667 us is a positive number of cycles if and only if the clock runs at 60 Hz or more |
| VsyncDisplay.NominalPeriodBounds | zephyr-module/src/qzephyr_display_rpi4_v3d.cpp:125-128 | the fallback period is 16667 us in cycles, rounded down: p * 10^6 <= 16667 * hz < (p + 1) * 10^6 |
| VsyncDisplay.UsBounds | zephyr-module/src/qzephyr_display_rpi4_v3d.cpp:120-123 | `us()` is the rounded-down number of microseconds as long as its product fits 64 bits |
| VsyncDisplay.PlausibleExactly | zephyr-module/src/qzephyr_display_rpi4_v3d.cpp:167 | a median passes the two microsecond bounds if and only if 5000 * hz <= median * 10^6 < 50001 * hz, the product taken modulo 2^64 |
| VsyncDisplay.IntervalsExactly | zephyr-module/src/qzephyr_display_rpi4_v3d.cpp:143-153 | the intervals are the differences of all successive returns, in order, from the first return at a cycle other than zero on |
| VsyncDisplay.SteadyPanel | zephyr-module/src/qzephyr_display_rpi4_v3d.cpp:141-178 | a panel with 9 or more edges, each between lo and hi cycles after the one before, of 5000 to 50000 us, is paced by a period in [lo, hi], anchored at the last edge, and SET_VSYNC stays in use |
| VsyncDisplay.MeasuredInMajority | zephyr-module/src/qzephyr_display_rpi4_v3d.cpp:141-178 | with at least 8 intervals, more than half of them in [lo, hi], where 5000 * hz <= lo * 10^6 and hi * 10^6 < 50001 * hz, calibration keeps SET_VSYNC and chooses a period in [lo, hi], anchored at the last edge |
| VsyncDisplay.Decided | zephyr-module/src/qzephyr_display_rpi4_v3d.cpp:165-177 | the decision on the median, taken in microseconds, is the measurement stated in cycles; it leaves a positive period for every clock rate from 60 Hz on |
| VsyncDisplay.Display.Measure | zephyr-module/src/qzephyr_display_rpi4_v3d.cpp:143-153 | the measuring loop collects exactly the intervals between successive returns, up to the first failure and at most 17 calls, and anchors at the last return |
| VsyncDisplay.Display.MeasureMedian | zephyr-module/src/qzephyr_display_rpi4_v3d.cpp:143-166 | the median is element n / 2 of the sorted intervals when at least 8 were measured |
| VsyncDisplay.Display.Calibrate | zephyr-module/src/qzephyr_display_rpi4_v3d.cpp:141-178 | with at least 8 intervals and a median m with 5000 * hz <= m * 10^6 < 50001 * hz the period is m, the anchor the last edge, and SET_VSYNC stays in use; else the period is 16667 us rounded down from the next reading on, without SET_VSYNC; the reference for resyncs is 28 s back |
| VsyncDisplay.Display.Init | zephyr-module/src/qzephyr_display_rpi4_v3d.cpp:180-222 | the first call makes the display ready, and calibrated, exactly if the firmware grants the framebuffer; later calls change nothing and report the same |
| VsyncDisplay.ResyncsExactly | zephyr-module/src/qzephyr_display_rpi4_v3d.cpp:373-386 | over every run of blocking waits after a calibration at uptime u: a wait calls SET_VSYNC if and only if a period could be measured, 2 s have passed since u, and every call before it succeeded and is 30 s or more back |
| VsyncDisplay.Display.VsyncNow | zephyr-module/src/qzephyr_display_rpi4_v3d.cpp:130-135 | the 32-bit counter is the mathematical prediction modulo 2^32; before calibration it is the stored count |
| VsyncDisplay.Display.Resync | zephyr-module/src/qzephyr_display_rpi4_v3d.cpp:265-298 | one resync in 32- and 64-bit registers with truncating signed division computes exactly the mathematical resync; a failed SET_VSYNC changes nothing but switches resyncing off |
| VsyncDisplay.RegistersFollow | zephyr-module/src/qzephyr_display_rpi4_v3d.cpp:268-291 | none of the wrapping, truncating or signed intermediate registers of a resync loses the mathematical value |
| VsyncDisplay.AwaitedHasCount | zephyr-module/src/qzephyr_display_rpi4_v3d.cpp:379-382 | the edge that a 32-bit count asks for is the one with that count within 2^31 of the present one |
| VsyncDisplay.ReachedExactly | zephyr-module/src/qzephyr_display_rpi4_v3d.cpp:130-135 | the signed 32-bit comparison with the counter says yes if and only if the predicted time of the awaited edge has come, within 2^31 edges of the anchor |
| VsyncDisplay.DistanceUnwrapped | zephyr-module/src/qzephyr_display_rpi4_v3d.cpp:386-390 | inside the wait loop `count - s_edge_count` does not underflow, also after a resync moved the anchor, and the 64-bit product gives the edge's own time |
| VsyncDisplay.SleepEndsBefore | zephyr-module/src/qzephyr_display_rpi4_v3d.cpp:120-123 | a sleep no longer than `us()` of the remaining cycles ends before the edge, also when the 64-bit product in `us()` wraps |
| VsyncDisplay.SleepIsCalledFor | zephyr-module/src/qzephyr_display_rpi4_v3d.cpp:391-393 | unless the product wraps, there is a sleep if and only if 201 us or more are left, and it is one of 100 ms or leaves less than 101 us |
| VsyncDisplay.Display.SleepUntil | zephyr-module/src/qzephyr_display_rpi4_v3d.cpp:386-394 | the loop ends only when the counter has reached the target; every requested sleep is positive, at most 100 ms, over before the edge and leaves less than 101 us unless it is one of 100 ms; every reading of the clock with 201 us or more left is followed by a sleep |
| VsyncDisplay.Display.WaitVsync | zephyr-module/src/qzephyr_display_rpi4_v3d.cpp:379-395 | the wait blocks exactly when the display is ready and the count lies ahead; a blocking wait calls SET_VSYNC if and only if that is not switched off and the uptime is 30000 ms or more past the last call, and changes nothing otherwise; it returns once the counter has reached the count, with the sleeps of the loop |
| Framebuffer.BuffersDisjoint | zephyr-module/src/qzephyr_display_rpi4_v3d.cpp:344-361 | the buffers lie in bounds, and no byte belongs to two of them |
| Framebuffer.TargetIsHidden | zephyr-module/src/qzephyr_display_rpi4_v3d.cpp:321-335 | the buffer that is drawn into is valid, and is not the one on screen if and only if there are at least two |
| Framebuffer.FitsExactly | zephyr-module/src/qzephyr_display_rpi4_v3d.cpp:321-326 | a rectangle is drawn if and only if it has 4 bytes a pixel, is not empty, and has every pixel on the screen |
| Framebuffer.WriteExactly | zephyr-module/src/qzephyr_display_rpi4_v3d.cpp:321-335 | byte by byte of every pixel of every buffer: a write takes those of the rectangle in the next buffer from the same row and column of the caller, keeps all others, and shows the next buffer if the pan succeeds; without a display, or off screen, it does nothing |
| Framebuffer.OnScreenIsLast | zephyr-module/src/qzephyr_display_rpi4_v3d.cpp:225-238 | the buffer on screen is the one of the last pan that did not fail |
| Framebuffer.ApplyKeepsVisible | zephyr-module/src/qzephyr_display_rpi4_v3d.cpp:321-367 | one write or present changes no byte outside the requested rectangle of the target buffer, and with two buffers none of the shown one |
| Framebuffer.ShownIsOnScreen | zephyr-module/src/qzephyr_display_rpi4_v3d.cpp:225-238 | over any mix of writes, presents and failed pans `s_shown` is the buffer of the last pan that the firmware accepted |
| Framebuffer.VisibleNeverTouched | zephyr-module/src/qzephyr_display_rpi4_v3d.cpp:225-367 | with at least two buffers, no operation of any run changes a byte of the buffer last panned to successfully |
| Framebuffer.Glue.Show | zephyr-module/src/qzephyr_display_rpi4_v3d.cpp:225-238 | a successful pan makes the buffer the shown one; a failed one only counts a failure |
| Framebuffer.Glue.Present | zephyr-module/src/qzephyr_display_rpi4_v3d.cpp:363-367 | a present with a valid index pans, any other index or an absent display does nothing |
| Framebuffer.Glue.DisplayWrite | zephyr-module/src/qzephyr_display_rpi4_v3d.cpp:321-335 | the row-by-row copy loop puts every pixel of the rectangle where it belongs in the next buffer, changes nothing else, and pans to it; a rectangle off screen is ignored |
| Framebuffer.Glue.CopyRows | zephyr-module/src/qzephyr_display_rpi4_v3d.cpp:329-333 | the memcpy loop produces the drawn memory, byte for byte |
| Framebuffer.Glue.NativeWindow | zephyr-module/src/qzephyr_display_rpi4_v3d.cpp:344-361 | a window is returned for exactly the valid indices of a ready display, inside the memory, covering exactly the bytes of that buffer and none of another |
| CMakeList.RemoveQuotedExactly | cmake/QtIRGitHelpers.cmake:573-582 | removing a quoted list equals removing its elements if and only if it has one element or names nothing in the list |
| CMakeList.SplitJoin | cmake/QtIRGitHelpers.cmake:530 | splitting what was joined gives the parts back, a part that holds separators being split along |
| CMakeList.JoinSplit | cmake/QtIRGitHelpers.cmake:530 | joining what was split gives the text back |
| CMakeList.FalsyExactly | cmake/QtTopLevelHelpers.cmake:250-254 | the false values: the empty one, 0, and OFF, NO, FALSE, N, IGNORE in any case, NOTFOUND and what ends in -NOTFOUND in capitals |
| CMakeList.FalsyListExactly | cmake/QtIRGitHelpers.cmake:536-538 | a list reads as false if and only if it is empty, has one element that does, or several of which the last one ends in -NOTFOUND |
| CMakeList.FirstStays | cmake/QtIRGitHelpers.cmake:1038 | of equal elements the first one stays: what a prefix leaves is left in front, whatever follows |
| CMakeList.StripExactly | cmake/QtIRHelpers.cmake:95 | stripping takes the white space off both ends and nothing else |
| DependencyGraph.ListsExactlyReachable | cmake/QtTopLevelHelpers.cmake:192-340 | on every graph, cyclic ones included, the walk lists exactly the modules that can be reached without passing through a seen or skipped one |
| DependencyGraph.WalkListsNew | cmake/QtTopLevelHelpers.cmake:204-212 | what a walk lists is what it newly saw, each module once, none of them seen before or skipped |
| DependencyGraph.WalkCloses | cmake/QtTopLevelHelpers.cmake:271-330 | everything a listed module depends on is seen or skipped afterwards |
| DependencyGraph.SortedExactlyWhenAcyclic | cmake/QtTopLevelHelpers.cmake:268-332 | the list is topologically sorted if and only if no listed module depends on itself through modules that are not skipped |
| DependencyGraph.RootIsLast | cmake/QtTopLevelHelpers.cmake:212-217 | the root comes last, at the revision asked for, HEAD when none was; a skipped root gives an empty list |
| DependencyGraph.RevisionIsFirstLook | cmake/QtTopLevelHelpers.cmake:271-332 | every module is listed at the revision of the entry through which it was first visited |
| DependencyGraph.SeenIsSkipped | cmake/QtTopLevelHelpers.cmake:204-212 | a module that was seen before is passed over exactly like one on the skip list |
| ModuleResolver.ResolvedLists | cmake/QtTopLevelHelpers.cmake:192-340 | the two returned lists: equally long, without repetition, the root last, exactly the reachable modules, sorted if and only if acyclic, and index by index the revision of the first entry that named the module |
| ModuleResolver.Resolver.Resolve | cmake/QtTopLevelHelpers.cmake:192-340 | the recursion over the global seen list terminates on every graph, returns the lists of the walk, reports `skipped` exactly for a seen or skipped module, and records the direct and the required dependencies of every module it lists |
| ModuleResolver.Resolver.Follow | cmake/QtTopLevelHelpers.cmake:271-328 | one dependency: its name is normalised if asked for, recorded, and resolved, and its lists are appended in front |
| ModuleResolver.NormalizedExactly | cmake/QtTopLevelHelpers.cmake:122-136 | a name with a directory stands for itself, any other one loses its tqtc- |
| ModuleResolver.FileEdges | cmake/QtTopLevelHelpers.cmake:223-246 | the edges of a dependencies.yaml are its entries with their revisions, and the required ones alone when optional ones are excluded |
| ModuleResolver.GitmodulesEdges | cmake/QtTopLevelHelpers.cmake:248-266 | the edges of .gitmodules: a required one for every name in `depends` that does not read as false, an optional one for every such name in `recommends` unless optional ones are excluded, all at HEAD |
| ModuleResolver.RequiredFirst | cmake/QtTopLevelHelpers.cmake:248-266 | every dependency comes before every recommendation |
| ModuleResolver.GitmodulesOrder | cmake/QtTopLevelHelpers.cmake:248-266 | and both come in the order of the file |
| ModuleResolver.SortMeaning | cmake/QtTopLevelHelpers.cmake:362-418 | sorting modules lists each once, exactly those reachable from the selected ones, without the made-up root, dependencies first if and only if there is no cycle |
| ModuleResolver.Resolver.Sort | cmake/QtTopLevelHelpers.cmake:362-418 | sorting resolves a made-up module that depends on all given ones and drops it from the end |
| RepoSync.ExitsExactlyWhenSettled | cmake/QtTopLevelHelpers.cmake:1291-1357 | for every work tree and every graph, a pass ends the loop if and only if every entry of a fresh resolution is present at its resolved revision, entries at HEAD excepted; and it then has changed nothing |
| RepoSync.PassExactly | cmake/QtTopLevelHelpers.cmake:1301-1356 | a pass, without recursion: it stops at the last entry that is neither at its revision nor brought there by acquiring it and checks that one out; it aborts if and only if that entry cannot be acquired or checked out; missing entries behind it are acquired and nothing else changes; there is another pass if and only if something was acquired or checked out |
| RepoSync.NextDependsOnVisited | cmake/QtTopLevelHelpers.cmake:271-322 | which module is visited next, and at which revision it is wanted, depends only on the work trees of the modules visited before it: the reason why a plan that has become stale within a pass still settles what the pass changes |
| FirstVisits.PreAgree | cmake/QtTopLevelHelpers.cmake:204-322 | on every two graphs: the first n + 1 visits of the recursion, with their revisions, depend only on the dependencies of the first n modules visited |
| FirstVisits.SameVisits | cmake/QtTopLevelHelpers.cmake:192-332 | in the order of first visit the walk has the same visits as in the order of its list |
| RepoRanking.WantedDependsOnHigher | cmake/QtTopLevelHelpers.cmake:1291-1304 | for repositories with one order, the revision wanted of one depends only on the work trees of higher-ranked ones |
| RepoRanking.WalkCut | cmake/QtTopLevelHelpers.cmake:1291-1304 | what a resolution lists of an upper set of repositories, with revisions, it would list in the graph cut down to that set |
| RepoSync.PassFromChanges | cmake/QtTopLevelHelpers.cmake:1302-1355 | everything a pass changes was not at its wanted revision and then is; a pass that asks for another one has changed something |
| RepoSync.PassLowers | cmake/QtTopLevelHelpers.cmake:1290-1357 | on every graph, cyclic ones included, a pass that asks for another one lowers the bit vector of unsettled modules in the order of first visit, although the graph changes with every checkout |
| RepoRanking.RankedPassLowers | cmake/QtTopLevelHelpers.cmake:1290-1357 | with one order of repositories, so does the bit vector with the highest rank first |
| RepoRanking.RankedIsScoped | cmake/QtTopLevelHelpers.cmake:1291-1304 | repositories with one order are a special case of a finite set that no file leaves |
| RepoRanking.FlipIsNotRanked | cmake/QtTopLevelHelpers.cmake:1291-1304 | but not the only one: a world in which one repository depends on another at one commit, and the other on it at another, has no order |
| RepoSync.RootIsKept | cmake/QtTopLevelHelpers.cmake:1304-1307 | no pass touches the module that is synced |
| RepoSync.RefNeverSettles | cmake/QtTopLevelHelpers.cmake:1302-1355 | for any file of the root and any entry in it whose work tree is not at its ref: if neither an acquire nor a checkout takes it there, and the entries before it have no work tree or name the root itself, no number of passes ends the loop |
| RepoSync.BranchNeverSettles | cmake/QtTopLevelHelpers.cmake:1337-1352 | the plainest instance: the only dependency is a branch |
| RepoSync.LoopsForever | cmake/QtTopLevelHelpers.cmake:1290-1357 | for every ref in a file that a successful checkout does not leave HEAD at, there is a work tree that every pass leaves as it is while asking for another one |
| RepoSync.EndsExactly | cmake/QtTopLevelHelpers.cmake:1285-1358 | for a finite set of repositories that no file leaves, cyclic or not, the loop ends, settled or aborted, from every work tree and for every root, if and only if every ref that a dependencies.yaml names first, for another repository, is where HEAD is after its checkout, or its checkout fails |
| RepoSync.OneResult | cmake/QtTopLevelHelpers.cmake:1291-1357 | on every graph: two settled work trees, with the same commit of the root and no dependency at HEAD, have the same plan and the same commit of every module in it |
| RepoSync.StartDoesNotMatter | cmake/QtTopLevelHelpers.cmake:1285-1358 | so the result of a sync does not depend on the work trees it starts from |
| RepoSync.PassesSucceed | cmake/QtTopLevelHelpers.cmake:1285-1358 | when every acquire and checkout in a set of repositories that no file leaves succeeds, no number of passes aborts |
| RepoSync.Session.SyncPass | cmake/QtTopLevelHelpers.cmake:1290-1357 | one round of the loop on the work tree is the pass of the model: acquires, at most one checkout, in reverse order |
| RepoSync.Session.SyncDependencies | cmake/QtTopLevelHelpers.cmake:1285-1358 | with commit ids and n repositories, whatever their files at whatever commit, the loop ends after at most 2^n passes; it aborts if and only if the last of its passes does, which it cannot when every acquire and checkout succeeds, and else ends with everything settled and the root untouched |
| RepoSync.Session.SyncTo | cmake/QtTopLevelHelpers.cmake:1177-1358 | the module ends at the revision asked for, and all its dependencies at the revisions of a fresh resolution of the final work tree, for any starting work tree; an abort comes exactly from a failing acquire of a missing root, a failing checkout of the root, or a pass that aborts, and never when every acquire and checkout succeeds |
| BuildSelection.MarkingIsSound | cmake/QtTopLevelHelpers.cmake:1470-1489 | on every graph the pass only drops modules from which a disabled one can be reached by required dependencies |
| BuildSelection.PassExactly | cmake/QtTopLevelHelpers.cmake:1470-1489 | what the pass computes on every graph and list: a module is off at the end if and only if a disabled one can be reached by a required path that only goes up the list |
| BuildSelection.ClosesExactly | cmake/QtTopLevelHelpers.cmake:1470-1489 | the pass is the transitive closure, whatever is disabled, if and only if every module reaches whatever it needs also by a path that only goes up the list |
| BuildSelection.OnePassCloses | cmake/QtTopLevelHelpers.cmake:1470-1489 | over a list with required dependencies first, the single pass computes the transitive closure: a module is off at the end if and only if a disabled one can be reached from it |
| BuildSelection.CollectedExactly | cmake/QtTopLevelHelpers.cmake:1459-1492 | for sorted modules without a cycle the result is exactly the list without the blocked modules, each kept module after all it requires |
| BuildSelection.BuildsExactly | cmake/QtTopLevelHelpers.cmake:1459-1492 | the same from the given modules and dependency data: kept are exactly the modules reachable from the given ones from which no disabled module is reachable by required dependencies |
| BuildSelection.CycleKeepsBlocked | cmake/QtTopLevelHelpers.cmake:1470-1489 | with a cycle it fails: two modules that require each other, one of which requires a disabled module; the other one is kept |
| BuildSelection.CollectModules | cmake/QtTopLevelHelpers.cmake:1459-1492 | the loop with its two in-place updates, the flag and the list, returns the collected list of the model |
| BuildSelection.HasUnmet | cmake/QtTopLevelHelpers.cmake:1476-1488 | the inner loop finds out exactly whether a required dependency is disabled |
| ModuleSubset.ExpandTerms | cmake/QtIRGitHelpers.cmake:459-499 | `default` and `existing` are replaced, under the dash of the term; excluding `existing` is an error |
| ModuleSubset.ProcessSubset | cmake/QtIRGitHelpers.cmake:515-600 | the include and exclude lists for a subset, with the defaults for an empty one and the error for an unknown name |
| ModuleSubset.HandleValues | cmake/QtIRGitHelpers.cmake:565-596 | the loop over the values, in order, on the two lists |
| ModuleSubset.SubsetExactly | cmake/QtIRGitHelpers.cmake:515-600 | whatever the order of the terms, excluded is exactly what some excluding term or an `update = none` names or implies; of everything else, included is exactly what is included implicitly or by some including term |
| ModuleSubset.IncludedExactly | cmake/QtIRGitHelpers.cmake:565-596 | the include list, exactly: a module is in it if and only if a first entry or an including value gives it and no later excluding value stands for it alone |
| ModuleSubset.SubsetIncludesExactly | cmake/QtIRGitHelpers.cmake:515-600 | the same from the terms of the subset |
| ModuleSubset.TermFromData | cmake/QtIRGitHelpers.cmake:459-596 | what one term gives, excludes and takes out of the include list, from the data of .gitmodules: all modules, those of a status, of the four default statuses, of the initialized modules, or the module with a path |
| ModuleSubset.DefaultSubset | cmake/QtIRGitHelpers.cmake:532-600 | with no subset, or one that reads as false, on a first run or with nothing initialized: included is exactly what is implicit or a module of status preview, essential, addon or deprecated, less what an `update = none` removes |
| ModuleSubset.ExistingSubset | cmake/QtIRGitHelpers.cmake:532-600 | on a later run with initialized modules: exactly what is implicit or given by one of those |
| ModuleSubset.GivenSubset | cmake/QtIRGitHelpers.cmake:530-537 | any other subset is read as its comma-separated terms |
| ModuleSubset.NamedSubset | cmake/QtIRGitHelpers.cmake:565-596 | a subset of one plain name is an error if and only if the name is not `all`, a status or a module with a path; included is what is implicit and all modules, those of the status, or the module |
| ModuleSubset.OrderMatters | cmake/QtIRGitHelpers.cmake:573-586 | excluding a module before its status leaves it in the include list, excluding it afterwards does not; both exclude it |
| ModuleSubset.FailsExactly | cmake/QtIRGitHelpers.cmake:573-595 | the evaluation fails if and only if some including value is not known |
| ModuleSubset.EmptyElementExactly | cmake/QtIRGitHelpers.cmake:461-499 | the expansion fails on `-existing` alone, and has an empty element if and only if a term that expands to nothing (an empty one, a dash, or `existing` on a first run) stands behind one that does not |
| ModuleSubset.SubsetFailsExactly | cmake/QtIRGitHelpers.cmake:515-600 | a subset is an error if and only if it excludes `existing`, includes an unknown name, or has a term that expands to nothing behind one that does not |
| ModuleSubset.TermExcludes | cmake/QtIRGitHelpers.cmake:565-596 | whatever the order of terms, a module that any excluding term names or implies is in the exclude list |
| ModuleSubset.UpdateNoneExcludes | cmake/QtIRGitHelpers.cmake:565-596 | a module with `update = none` in .gitmodules is in the exclude list |
| ModuleSubset.FinalExcludes | cmake/QtIRGitHelpers.cmake:1020-1043 | the final list names no module twice and, apart from an exclude list that reads as false, none of the excluded ones |
| ModuleSubset.FinalIsReachable | cmake/QtIRGitHelpers.cmake:1014-1043 | with dependency resolution the final list holds exactly the modules reachable from the included ones that were not excluded |
| ModuleSubset.SubsetEdges | cmake/QtTopLevelHelpers.cmake:248-266 | the graph it is reached in, from .gitmodules: a module depends on what the names in `depends` stand for, and with optional dependencies also on those in `recommends`; names that read as false do not count |
| ModuleSubset.FinalFromTerms | cmake/QtIRGitHelpers.cmake:944-1044 | from the terms to the final list: exactly what can be reached from a module that the terms include, and that they do not exclude |
| ModuleSubset.FinalIsSorted | cmake/QtIRGitHelpers.cmake:1014-1043 | without cycles every dependency that was not excluded comes before what depends on it |
| ModuleSubset.GetSubmodules | cmake/QtIRGitHelpers.cmake:944-1044 | the whole evaluation for the top-level call: subset, resolution, exclusion, duplicates |
| ModuleSubset.MergeSkip | cmake/QtIRHelpers.cmake:92-110 | configure's -skip values become excluding terms in front of the subset |
| ModuleSubset.MergeExactly | cmake/QtIRHelpers.cmake:92-110 | the merged value is the dashed -skip values in their order with the subset, or `default`, behind them |
| ModuleSubset.MergeKeepsTerms | cmake/QtIRHelpers.cmake:92-110 | neither a -skip value nor a term of the subset is lost in the merge |
| ModuleSubset.SkippedIsExcluded | cmake/QtIRHelpers.cmake:92-110 | a module that -skip names is in no final list, although the exclusion stands before the subset |
| DependenciesYaml.Parse | cmake/QtTopLevelHelpers.cmake:77-112 | the line loop with its three variables and the end marker computes the parsed entries, or the error for a dependency without a revision |
| DependenciesYaml.PatternsExactly | cmake/QtTopLevelHelpers.cmake:87-106 | the lines that the three patterns match, and the group each takes from them |
| DependenciesYaml.WithoutUpExactly | cmake/QtTopLevelHelpers.cmake:101 | the first `../` of a name goes, wherever it is, and then those in the rest |
| DependenciesYaml.NoUpStays | cmake/QtTopLevelHelpers.cmake:101 | a name without one stays as it is |
| DependenciesYaml.ParsedExactly | cmake/QtTopLevelHelpers.cmake:83-109 | what the reader makes of the printed form of any list of entries: the error, or their triples without the nameless ones |
| DependenciesYaml.ParseReadsBack | cmake/QtTopLevelHelpers.cmake:77-112 | parsing the printed form gives the entries back, the last one and the default `required` included, if and only if every name is plain and no value is empty or ends in a colon |
| DependenciesYaml.MarkerRepeats | cmake/QtTopLevelHelpers.cmake:79-110 | a line of the file that looks like the end marker lists the entry before it twice |
| DependenciesYaml.SplitTripleExactly | cmake/QtTopLevelHelpers.cmake:271-275 | the greedy pattern takes `name/revision/required` apart into what it was made of if and only if revision and required are not empty and hold no slash |
| DependenciesYaml.FilterReadsThirdPart | cmake/QtTopLevelHelpers.cmake:231-236 | the filter's split at every slash gives three parts, the last of them `required`, if and only if the name has no slash; with one slash the third part is the revision, with more a part of the name |
| DependenciesYaml.FileToDependencies | cmake/QtTopLevelHelpers.cmake:77-112 | from the file to the resolver's variables: name, revision and required of every entry are what was printed |
| DependenciesYaml.OptionalExactly | cmake/QtTopLevelHelpers.cmake:105-106 | which values of `required` make a dependency optional, in whatever case they are written |
| ArgsMerge.RedoMerge | cmake/QtWriteArgsFile.cmake:35-74 | the step-by-step insertions and appends compute the merged argument list |
| ArgsMerge.RedoMergesExactly | cmake/QtWriteArgsFile.cmake:31-75 | the result has config(args) + config(redo) before the `--` and cmake(args) + cmake(redo) behind it, in all four `--` cases, if and only if neither truth test on a whole list takes a non-empty one for false |
| ConfigureArgs.SkipRemovalExactly | cmake/QtIRHelpers.cmake:161-175 | removing the explicit -skip and its value takes two configure arguments away and leaves the CMake arguments alone if and only if the value stands before the `--` |
| ConfigureArgs.MergedSkipNames | cmake/QtIRHelpers.cmake:167-171 | the merged -skip value names exactly what was skipped before or is excluded now |
| ConfigureArgs.PlacedExactly | cmake/QtIRHelpers.cmake:188-215 | extra configure arguments end up behind the configure arguments and extra CMake arguments in front of the CMake arguments if and only if no non-empty list of them reads as false and no extra configure argument is `--` |
| ConfigureArgs.ExtrasAreTruthy | cmake/QtIRHelpers.cmake:148-201 | the lists built from module names never read as false |
| ConfigureArgs.FilterExactly | cmake/QtIRHelpers.cmake:123-215 | without help, the filtered arguments are config (less a merged -skip pair) + extra, and extra + cmake, if and only if no added value is `--` |
| ConfigureArgs.HelpExactly | cmake/QtIRHelpers.cmake:217-221 | the appended -help is a configure argument if and only if there is no `--` |
| ConfigureArgs.ModulesExactly | cmake/QtIRHelpers.cmake:137-144 | the selected modules are taken in order, without qtrepotools |
| ConfigureArgs.ModulesAsNamed | cmake/QtIRHelpers.cmake:137-144 | without a selection in an initialized repository, the modules are what the option names |
| ConfigureArgs.GivenExactly | cmake/QtIRHelpers.cmake:123-127 | given arguments are kept in order without the empty ones |
| ConfigureArgs.KeptExactly | cmake/QtIRHelpers.cmake:158-175 | the first -skip with a value goes from them, together with it, if and only if the excluded modules do not read as false |
| ConfigureArgs.UsualCall | cmake/QtIRHelpers.cmake:123-224 | the usual call written out: configure gets its arguments, -submodules and -skip with the joined lists, CMake one -DBUILD_<module>=ON for every module in order and then its arguments |
| ConfigureArgs.NothingAsked | cmake/QtIRHelpers.cmake:123-135 | without a value of -submodules the given arguments are handed on as they are |
| ConfigureArgs.NothingSelected | cmake/QtIRHelpers.cmake:137-184 | when nothing but qtrepotools is selected there is no -submodules and no build flag, only the -skip |
| ConfigureArgs.SubmodulesReadBack | cmake/QtIRHelpers.cmake:144-181 | configure reads the selected modules, without qtrepotools, back from -submodules |
| ConfigureArgs.SkipReadsBack | cmake/QtIRHelpers.cmake:156-184 | configure reads exactly the excluded modules and the merged explicit ones back from -skip |
| ConfigureArgs.Collect | cmake/QtIRHelpers.cmake:127-185 | the first half of the filter: arguments kept, and extra ones collected, by in-place edits |
| ConfigureArgs.Place | cmake/QtIRHelpers.cmake:187-215 | the second half: the insertions around `--`, which is searched for again after it may have moved |
| ConfigureArgs.Filter | cmake/QtIRHelpers.cmake:123-224 | both halves and the final -help |
| FrameDump.RoundTrip | zephyr-module/src/qzephyr_display_dss.cpp:231-246 | decoding the run-length text of any pixel row gives back the RGB hex of each of its pixels |
| FrameDump.EncodeInjective | zephyr-module/src/qzephyr_display_dss.cpp:231-246 | two rows have the same text only if they are the same picture |
| FrameDump.NeighboursDiffer | zephyr-module/src/qzephyr_display_dss.cpp:235-243 | runs are maximal: neighbouring tokens differ in colour |
| FrameDump.NeverLonger | zephyr-module/src/qzephyr_display_dss.cpp:233-243 | the text is never longer than 6 characters a pixel, so it fits the buffer |
| FrameDump.EncodeAlphabet | zephyr-module/tools/fbdump2png.py:19-20 | the text has only characters that the decoder's line pattern accepts |
| FrameDump.RunLength | zephyr-module/src/qzephyr_display_dss.cpp:236-239 | the inner loop finds the maximal run |
| FrameDump.RowPrinter.Snprintf | zephyr-module/src/qzephyr_display_dss.cpp:240-242 | snprintf at an offset of the static buffer, with truncation and the final NUL |
| FrameDump.RowPrinter.PrintRow | zephyr-module/src/qzephyr_display_dss.cpp:231-246 | the whole encoding is printed, without truncation for up to 512 pixels; with no pixel the text left in the static buffer is printed again; over all prints the buffer holds the last row that had pixels |
| FrameDump.RowPrinter.Render | zephyr-module/src/qzephyr_display_dss.cpp:233-245 | the loop over the runs fills the buffer with exactly the encoding |
| FrameDump.LeftIsLast | zephyr-module/src/qzephyr_display_dss.cpp:233 | the text left in the buffer is the encoding of the last printed row that had pixels |
| FrameDump.LeftDecodes | zephyr-module/src/qzephyr_display_dss.cpp:233 | it decodes to nothing if and only if no row with pixels was printed |
| FrameDump.RowReadsBackExactly | zephyr-module/src/qzephyr_display_dss.cpp:231-246 | what is printed for a row reads back as that row if and only if the row has pixels or no row before it had any |
| FrameDump.RowPrinter.DumpCrop | zephyr-module/src/qzephyr_display_dss.cpp:265-283 | one row of text for each row of the clamped rectangle, from the right place of the framebuffer; they read back as the region on screen if and only if it has columns or no row with pixels was printed before |
| FrameDump.ClampedExactly | zephyr-module/src/qzephyr_display_dss.cpp:270-274 | the clamped rectangle is all of the screen that is asked for, at most 256 columns of it |
| FrameDump.RowPrinter.DumpThumbnail | zephyr-module/src/qzephyr_display_dss.cpp:251-260 | the 75 rows of the thumbnail are every eighth pixel of every eighth row |
| FrameDump.CropReadsBackExactly | zephyr-module/src/qzephyr_display_dss.cpp:277-281 | the same for row i of a crop, printed after any earlier rows and the rows of the crop above it |
| FrameDump.StaleTextDecodes | zephyr-module/src/qzephyr_display_dss.cpp:231-246 | a text left behind decodes to nothing only if no pixel was printed |
| FrameDump.Expand | zephyr-module/tools/fbdump2png.py:10-15 | the scanning loop of the decoder computes the expansion, skipping what does not match |
| FrameDump.ShortRunIsSkipped | zephyr-module/tools/fbdump2png.py:8-15 | hexadecimal digits that are fewer than six are skipped, with the character behind them |
| FrameDump.DecodesToPixels | zephyr-module/tools/fbdump2png.py:10-15 | whatever the text, it is decoded to whole pixels in hexadecimal digits, so the test for a length divisible by 6 never fails |
| FrameDump.Frames | zephyr-module/tools/fbdump2png.py:17-23 | the loop over the log keeps the last accepted row for every tag and line |
| FrameDump.AcceptedExactly | zephyr-module/tools/fbdump2png.py:21-23 | a printed row passes the length filter for frames if and only if it has 128 pixels |
| FrameDump.Crops | zephyr-module/tools/fbdump2png.py:34-40 | the loop over the log keeps the last non-empty row for every tag and line of a crop |
| FrameDump.CropAcceptedExactly | zephyr-module/tools/fbdump2png.py:38-40 | a row of a crop gets in as itself if it has pixels; an empty one gets in too, as the last row that had some, unless there was none |
| FrameDump.LastPictureStays | zephyr-module/tools/fbdump2png.py:17-23 | the frame holds the picture of the last complete dump of a row, whatever else the log says |
| FrameDump.PixelReadsBack | zephyr-module/tools/fbdump2png.py:27-29 | each pixel of the image is the pixel that was printed |
| FrameDump.ScreenToImage | zephyr-module/tools/fbdump2png.py:27-29 | from the framebuffer to the image: the red, green and blue values the decoder takes from the number of a pixel are the third, second and first byte of the pixel in memory, for every pixel of every printed row of the screen |
| FrameDump.CropToImage | zephyr-module/tools/fbdump2png.py:44-50 | the same for a crop: every pixel of the screen that is asked for, among the first 256 columns, is found in the row and column of the picture that lie as far from its corner |
| LogLines.OrderDoesNotMatter | zephyr-module/tools/harvest-shaders.py:54-63 | a dictionary filled from entries with distinct keys depends neither on their order nor on what stands between them |
| LogLines.LastStays | zephyr-module/tools/fbdump2png.py:17-23 | of entries with the same key the last one stays |
| ShaderHarvest.Collect | zephyr-module/tools/harvest-shaders.py:54-63 | the loop fills the chunk and end dictionaries, the last entry of a key staying |
| ShaderHarvest.Harvest | zephyr-module/tools/harvest-shaders.py:64-86 | the reassembly loop returns the harvested source of the model |
| ShaderHarvest.InterleavingDoesNotMatter | zephyr-module/tools/harvest-shaders.py:49-63 | logs with the same chunk and end lines, with distinct keys, rebuild the same source in whatever order and with whatever in between |
| ShaderHarvest.RebuiltExactly | zephyr-module/tools/harvest-shaders.py:71-78 | a source is rebuilt if and only if every line has chunks numbered from zero without a gap |
| ShaderHarvest.SplittingDoesNotMatter | zephyr-module/tools/harvest-shaders.py:71-79 | however its lines are split into numbered chunks, they come back if and only if no chunk ends in a carriage return |
| ShaderHarvest.HarvestedExactly | zephyr-module/tools/harvest-shaders.py:64-86 | from a log that shows a source, however split and interleaved, a text is harvested if and only if it is the source, with or without a final newline, and has the logged length and the wanted hash |
| ShaderHarvest.SourceIsHarvested | zephyr-module/tools/harvest-shaders.py:64-86 | for the lines of any text: harvested is the text itself, or the text with a final newline, whichever has the logged length and the wanted hash |
| ShaderHarvest.GapsHarvestNothing | zephyr-module/tools/harvest-shaders.py:71-78 | nothing is harvested from a log that lacks a chunk of some line, whatever the hash |

## Left out

- Mailbox, display controller and GPU calls, caches, mutexes, printing and the Zephyr kernel: clock readings, uptimes and the answers of SET_VSYNC and of the firmware's pan are parameters of the methods.
- VsyncDisplay.Display.Resync: the cycle clock is taken to be below 2^62 and a resync to come within 2^31 edges of the anchor; what the registers do beyond that is not modelled.
- VsyncDisplay.Display.WaitVsync: the same horizon; the target is taken to be reached by one of the clock readings that are given, because the wait for it is real time.
- Framebuffer.Glue.DisplayWrite: the signed overflow of `x + w` for coordinates near 2^31 is not modelled.
- FrameDump.RowPrinter.DumpCrop: the signed overflow of `cx + cw` is not modelled, and neither is reading QZ_FBDUMP_CROP.
- FrameDump.RowPrinter.PrintRow: rows of more than 512 pixels, which no caller prints, could be cut off and are excluded.
- FrameDump.Frames: does not model the matching of `fbdump TAG Y:` nor the PNG output; log lines are given by their fields.
- FrameDump.Crops: the same for `fbcrop TAG Y:`.
- DependenciesYaml.Parse: lines are taken as the file has them, without a semicolon, which CMake would split at; the general regular expression engine is replaced by the four fixed patterns.
- ModuleSubset.ProcessSubset: does not model a term with several dashes in front, nor the recursive call for nested submodules, which neither resolves nor excludes.
- ModuleSubset.SkippedIsExcluded: an exclude list that as a whole reads as false is excepted, as in the code.
- ArgsMerge.RedoMerge: does not model splitting the command line into arguments, SKIP_ARGS or IGNORE_ARGS.
- ConfigureArgs.Filter: how unknown arguments and the option values are found; they are given.
- ShaderHarvest.Harvest: does not model the search for the source behind "Source was:", the table of wanted hashes and the files in the output directory; SHA-256 is an arbitrary function, and log lines are given by their fields.
- RepoSync.Session.SyncTo: does not model git itself: acquiring and checking out either succeed with a commit or end the run; shallow clones, remotes, the `.` target, and the warning for tqtc- repositories. For refs that are not commits nothing is promised (EndsExactly says when). The branch for an empty dependency list is never taken, because the module itself is always listed.
- ModuleResolver.Resolver.Resolve: the list of skipped optional dependencies (EXCLUDE_OPTIONAL_DEPS_VAR) is not returned.
- ModuleResolver.Resolver.Sort: with no modules at all, CMake leaves PARSED_DEPENDENCIES undefined and reads the made-up module's own file, which does not exist; the model takes the empty list.
- BuildSelection.CollectModules: a process that has resolved nothing before; the recorded properties of several resolutions add up, which Resolver.Resolve states.
- List elements with the list separator of CMake in them, except where a whole list is one value.
- The QPA swap chain of docs/qt-yakogl-am62p.md: qzephyrwindow.cpp is not part of this model.
- URL normalisation: it rests on CMake's path functions.
- The glue for other boards, touch, keep-alive, TLS, fonts, plugins, libc and poll shims, and qsb2glsl: thin wrappers.
