# Verbatim's tooling, verified

A Dafny model of the algorithms behind Verbatim's build tooling (`xtask`) and of
its scripted test application (`crates/mockapp`), with proofs of what they
promise. Verify everything with `dafny verify dfyconfig.toml`. `Basics` holds what
several parts share.

- **The end-to-end planner** (`Orders`, `Scheduling`, `GreedyBounds`, `Planner`,
  `SplitMeaning`, `GroupJobs`): longest-first greedy balancing of scenarios over CI groups, the
  search for the number of groups, and the jobs that each recompute the split.
  Main results: Graham's bound of 4/3 - 1/(3·count) against any other split; the
  count found is the least that fits, at most the number of scenarios and at
  most twice the best possible; independent jobs run every scenario exactly once
  and none is idle. Seconds are exact reals, and times that are not negative are
  a premise only where the bound needs it (`NegativeTimesBreakBound`).
- **The crate tiers** (`Graphs`, `Tiers`, `TierRules`): breadth-first search with
  shortest paths in any graph, the least closed set the determinism rule covers,
  and a rule checker that reports every breach and nothing else.
- **The scripted tree** (`Arenas`, `Replacement`, `Fixtures`, `Decimal`,
  `FixtureReading`, `NativeControls`, `FixtureForms`, `TreeCommands`, `Trees`): an
  arena of nodes changed in place. Replaced subtrees become isomorphic copies at fresh places;
  every run of commands from any loaded fixture keeps the tree's shape, its names
  and, unless ids are shared, its runtime ids.
- **The add-on archive and the capture driver** (`Registers`, `Crc`, `Zip`,
  `ZipRoundTrip`, `ZipWriter`, `Captures`, `CaptureDriver`): CRC-32 catches every
  burst of 32 bits and is the table-driven function of RFC 1952; a zip reader
  recovers exactly what was written; in every run of a capture, whatever the
  environment answers, no key is sent but right after its window was seen in
  front, and every key pressed is released.
- **The calendar** (`Calendar`): the closed form for days since 1970 counts days,
  for every date of every year, before 1970 too.
- **The coverage merge** (`Merging`, `LineCounts`, `CoverageReport`, `Texts`,
  `Lcov`, `LcovReading`, `LcovWriter`, `LcovRoundTrip`): adding levels is a commutative monoid
  although counts saturate; the reports add up; and exactly when lcov texts read
  back, alone and one after another.
- **The use-tree parser** (`Spaces`, `UseTree`, `UseTreeText`, `UseTreeMeaning`):
  what every way of writing a `use` tree expands to, with white space (Unicode's
  White_Space, which `trim` takes off) between any two of its tokens, and exactly
  when that is what the tree means.
- **The Markdown scanner** (`Scan`, `LineForms`, `SpanForms`, `ScanPlaces`,
  `Scanner`, `ScanWalk`):
  one pass with a running line number over the document with its fenced blocks blanked. Each link,
  definition and code span it reports stands in the document itself on the line it
  carries, never in a fenced block, and none is missed that does not start inside
  an escape, a span, unclosed ticks or a destination that the scan finds.

Where a law is false of the code, the code is kept and the exact condition is
proved. Reading undoes writing an lcov file exactly when no path holds a newline
or ends in a carriage return (`LcovRoundTrip.ReadsBack`, `LcovRoundTrip.CarriageReturnLost`). Reading two texts
together adds them exactly when the first is empty or ends in a newline
(`LcovRoundTrip.SumReadsWhenFinished`). A `use` tree expands to what it means
exactly when every group with a leaf has a prefix and no bare `*` among its items,
no path or prefix has white space in it or before its `::`, and every rename has a
space on either side of its `as` (`UseTreeMeaning.ExpandsToMeaning`). `docs.rs`
says that each link carries the line it starts on; the code gives the line of its
destination, which is the line its label opens on exactly when the label has no
newline (`ScanWalk.LinkLines`, `ScanWalk.LabelOverLines`, `ScanWalk.EscapeInLabel`). Sharing a runtime id makes
two live nodes share it exactly when the taker is alive (`TreeCommands.ShareMakesIdsMeet`). The
suite comparison of `group.rs` looks at names and not at how often each is
listed, so the agreement of jobs needs listings without repetition
(`GroupJobs.RepeatedListingPasses`). The tier check keeps one package for each
member name, so its completeness needs distinct names, as Cargo gives it
(`TierRules.ReportsEveryBreach`, `TierRules.SharedNameHidesBreach`).

`plan.rs` does not demand that table times are not negative; the bound needs it
(`GreedyBounds.NegativeTimesBreakBound`).

## Model

| member | source | states |
|---|---|---|
| `Planner.Assign` | xtask/src/plan.rs:347-373 | the loop over the sorted scenarios gives the greedy split, each to the lightest group so far, the first of several |
| `SplitMeaning.SplitMeans` | xtask/src/plan.rs:347-373 | without the loop: the scenarios in order of their estimates, the longest first and then by name, each in the group that totals least by then, the first of several; each group named in order |
| `SplitMeaning.StringLeMeans` | xtask/src/plan.rs:356 | names are ordered by the first character in which they differ, a start of a name before it |
| `SplitMeaning.TotalMeans` | xtask/src/plan.rs:290-297 | a total adds the table's time of each scenario, 60 seconds for one the table lacks |
| `Planner.ExactlyOnce` | xtask/src/plan.rs:347-373 | the groups of a split hold every scenario as often as the suite lists it, and no other |
| `Planner.SplitsAgree` | xtask/src/plan.rs:347-373 | two listings get the same split exactly when they hold the same names as often |
| `Planner.SplitLoads` | xtask/src/plan.rs:347-373 | the total of each group is the load greedy scheduling puts on it |
| `GreedyBounds.GrahamBound` | xtask/src/plan.rs:347-373 | if some placement keeps every load within `most`, longest-first greedy keeps every load within (4/3 - 1/(3m)) · most |
| `GreedyBounds.LongJobsFit` | xtask/src/plan.rs:347-373 | when every job is longer than a third of the best, greedy does as well as the best |
| `GreedyBounds.NegativeTimesBreakBound` | xtask/src/plan.rs:347-373 | with negative times the bound fails: the times 1 and -1 in two groups |
| `Planner.SplitNearlyBest` | xtask/src/plan.rs:347-373 | the heaviest group is within 4/3 - 1/(3 · count) times the heaviest group of any other split into as many groups |
| `Planner.TooLong` | xtask/src/plan.rs:307-342 | exactly the scenarios whose estimate times the slowdown is over 540 seconds |
| `SplitMeaning.TooLongInOrder` | xtask/src/plan.rs:312-321 | they are named in the order of the suite, each as often as it is there |
| `Planner.GroupCount` | xtask/src/plan.rs:307-342 | fails exactly when some estimate times the slowdown is over 540, with just those scenarios; otherwise every group of its split has a total times the slowdown within 540, every smaller count from 1 up has a group over it, and the count is at most the number of scenarios |
| `Planner.RoundedUp` | xtask/src/plan.rs:307-342 | the first loop ends with the least count from 1 up with total · slowdown ≤ count · 540 |
| `Planner.RoundedUpSkipsNone` | xtask/src/plan.rs:307-342 | starting the search there passes over no count that fits |
| `Planner.Search` | xtask/src/plan.rs:307-342 | the second loop ends with the least count that fits, no later than one group for each timed scenario |
| `Planner.FitsEventually` | xtask/src/plan.rs:307-342 | with a group for each scenario that takes time every split fits, so the search ends |
| `Planner.FitsHoldsTotal` | xtask/src/plan.rs:307-342 | a split that fits has total · slowdown ≤ count · 540 |
| `Planner.CountAtMostTwiceTotal` | xtask/src/plan.rs:307-342 | the count found is 1, or 2 · total · slowdown > (count - 1) · 540 |
| `Planner.CountAtMostTwiceBest` | xtask/src/plan.rs:307-342 | the count found is at most twice the count of any split whose every group is within 540 after the slowdown |
| `Planner.NoGroupEmpty` | xtask/src/plan.rs:307-373 | with the count found no group of a suite that is not empty is empty, for any table |
| `GroupJobs.ParseGroupExactly` | xtask/src/group.rs:72-86 | an argument is read as a group exactly when it is two numerals with a slash between them, the first from one to the second |
| `GroupJobs.ParseGroupReads` | xtask/src/group.rs:72-86 | `<index>/<count>` is read as written exactly when it names a group there is |
| `GroupJobs.OnlyIn` | xtask/src/group.rs:90-109 | the names of one side alone, exactly |
| `GroupJobs.OnlyInOrder` | xtask/src/group.rs:90-109 | they are told in the order of that side |
| `GroupJobs.RunGroup` | xtask/src/group.rs:22-69 | a job fails exactly when some name is on one side alone, and tells those only it lists and those only the planner has; otherwise it runs group `index` of the split it recomputes, or says it holds none exactly when that is empty |
| `GroupJobs.JobSplitsAsPlanned` | xtask/src/group.rs:34-58 | a job that does not fail splits its own listing as the planner split the suite, whatever the order |
| `GroupJobs.JobsRunEachScenarioOnce` | xtask/src/group.rs:34-58 | with the planner's count, jobs on agreeing listings all run something, and together every scenario exactly once |
| `GroupJobs.RepeatedListingPasses` | xtask/src/group.rs:90-109 | a name listed twice passes the comparison and changes the split |
| `Graphs.Visit` | xtask/src/tiers.rs:271-287 | visiting one package queues each package found first from it, with its path |
| `Graphs.Reached` | xtask/src/tiers.rs:271-287 | exactly the packages other than `from` that some path of edges reaches, each with a path that no path is shorter than |
| `Graphs.SearchComplete` | xtask/src/tiers.rs:271-287 | a search with an empty queue has found every package reached, by a shortest path |
| `Tiers.Covered` | xtask/src/tiers.rs:430-452 | the names of the least set of members, without workspace-hack, that holds the reducers and with a crate what it reaches along normal and build edges and its development dependencies |
| `Tiers.TierOf` | xtask/src/tiers.rs:298-303 | the tier of the first list that names the crate, none exactly when no list does |
| `Tiers.Members` | xtask/src/tiers.rs:336-341 | each member name with the last id that has it |
| `TierRules.RoleOf` | xtask/src/tiers.rs:404 | the first role that names the crate; none exactly when no role does |
| `TierRules.ClassingOffences` | xtask/src/tiers.rs:307-330 | reports exactly the members in no tier or in several and the listed names that are no member |
| `TierRules.TierCountMeans` | xtask/src/tiers.rs:310-313 | a crate is counted in no tier exactly when no list names it, and in several exactly when two lists do |
| `TierRules.ReachOffences` | xtask/src/tiers.rs:346-374 | adds exactly the forbidden tiers and Windows bindings a constrained member reaches, each with a shortest path |
| `TierRules.AllRawOffences` | xtask/src/tiers.rs:375-403 | adds exactly the raw bindings directly under the member or a workspace crate it reaches, workspace-hack apart |
| `TierRules.RoleOffences` | xtask/src/tiers.rs:404-417 | adds exactly the crates of another role that a role's crate reaches |
| `TierRules.Offences` | xtask/src/tiers.rs:335-422 | reports a kind of offence exactly when the rules are violated so, each with a path that shows it; every report breaks a rule as `RuleBroken` writes them out over packages, edges, lists and names, and with distinct names every breach is reported |
| `TierRules.Passes` | xtask/src/tiers.rs:335-422 | nothing is reported exactly when no rule is violated: a graph that breaks no rule of `RuleBroken` passes and, with distinct names, only such a graph does |
| `TierRules.BreachedMeans` | xtask/src/tiers.rs:335-422 | the rules as checked are the rules in plain terms: which tiers may reach which, the two bindings and the raw ones by name, the role of the first list that names a crate |
| `TierRules.ReportsEveryBreach` | xtask/src/tiers.rs:335-422 | what is reported is a breach of the rules over all members, and with distinct member names every breach is reported |
| `TierRules.SharedNameHidesBreach` | xtask/src/tiers.rs:336-341 | of two members with one name only the last is looked at, and a breach by the other goes unreported |
| `Replacement.ItemsReplacedForm` | crates/mockapp/src/tree.rs:289-338 | exactly the nodes below the item die, once each; each has a copy at the next free place in preorder, alike but for parent, children and id; names, focus, selection and relations that named an original name its copy; nothing else changes |
| `Replacement.CopyIsomorphic` | crates/mockapp/src/tree.rs:307-338 | the children of a copy are the copies of the original's children, in order |
| `Replacement.DyingAreBelow` | crates/mockapp/src/tree.rs:289-338 | a node is copied exactly when it is below the replaced item |
| `Replacement.DyingOnce` | crates/mockapp/src/tree.rs:289-338 | no node is copied twice |
| `Replacement.ItemsReplacedTree` | crates/mockapp/src/tree.rs:289-338 | replacing keeps the tree, and distinct runtime ids |
| `Fixtures.BuiltIsTree` | crates/mockapp/src/tree.rs:175-196 | a built arena is a tree with one node for each fixture node and distinct runtime ids; with distinct ids every name names its node |
| `FixtureForms.BuiltMeans` | crates/mockapp/src/tree.rs:175-196 | the arena has the fixture's nodes depth first, each with its details, its states, its place as runtime id, its parent, its children in order, and its relation to the node that has the id it names; the focus is the first node whose states say so; each id names the last node that has it |
| `Fixtures.DistinctIdsNameAll` | crates/mockapp/src/tree.rs:352-425 | with distinct ids each id keeps the index its node was pushed at |
| `FixtureReading.Nest` | crates/mockapp/src/fixture.rs:452-470 | wraps a node in groups, exactly when none of their ids is taken |
| `FixtureReading.ReadStates` | crates/mockapp/src/fixture.rs:382-447 | reads the states of a node exactly when all are known |
| `FixtureReading.Convert` | crates/mockapp/src/fixture.rs:382-447 | converts a node exactly when its roles and states are known and its ids are fresh and distinct, and says what is wrong otherwise |
| `FixtureReading.ConvertAll` | crates/mockapp/src/fixture.rs:382-447 | the same for the children of a node |
| `FixtureReading.CheckControlled` | crates/mockapp/src/fixture.rs:367-380 | accepts exactly the trees whose relations name ids there are |
| `FixtureReading.Load` | crates/mockapp/src/fixture.rs:358-364 | loads a fixture exactly when it is readable, its ids are distinct and its relations resolve; the result has distinct ids |
| `FixtureForms.ShapedReads` | crates/mockapp/src/fixture.rs:382-470 | what is read has the fields of the file, its children in order, and each node under its groups `<id>-nest-1` to `<id>-nest-<nested>` from the outside in |
| `FixtureForms.ReadableMeans` | crates/mockapp/src/fixture.rs:382-405 | a file can be read exactly when the role and every state of each of its nodes are known |
| `FixtureForms.ControlledMeans` | crates/mockapp/src/fixture.rs:367-380 | its relations resolve exactly when that of each of its nodes does |
| `FixtureReading.ReadIdsDistinct` | crates/mockapp/src/fixture.rs:382-470 | distinct ids of the file stay distinct in the tree, the ids of nesting groups included |
| `FixtureReading.TakeNative` | crates/mockapp/src/fixture.rs:315-327 | the rebuilt tree without its native nodes, and those in order |
| `FixtureReading.NativeConserved` | crates/mockapp/src/fixture.rs:315-327 | every id under a fixture is kept or taken, once |
| `NativeControls.NativeInOrder` | crates/mockapp/src/fixture.rs:315-327 | what stays and what is taken are, with their fields and in order, the nodes outside and inside real controls |
| `NativeControls.MarksAreNodes` | crates/mockapp/src/fixture.rs:315-327 | the nodes told apart so are all the nodes under a fixture, depth first |
| `FixtureReading.NativeTaken` | crates/mockapp/src/fixture.rs:315-327 | no native node is kept, and only native nodes are taken out |
| `FixtureReading.KeptDistinct` | crates/mockapp/src/fixture.rs:315-327 | taking native nodes out keeps ids distinct |
| `Trees.Tree.constructor` | crates/mockapp/src/tree.rs:175-196 | flattens a fixture depth first, the root at 0, resolves relations and finds the focus; the result is a tree |
| `Trees.Tree.Insert` | crates/mockapp/src/tree.rs:352-425 | appends the node and everything under it in preorder, names them and collects their relations |
| `Trees.Tree.IndexOf` | crates/mockapp/src/tree.rs:200-202 | the index of a fixture id, in range |
| `Trees.Tree.TakeRuntimeId` | crates/mockapp/src/tree.rs:222-241 | the taker has the other node's runtime id; that node is dead and taken out of its parent's children, the others keeping their order; focus and selection are cleared exactly when they named it; nothing else changes; it refuses exactly the root, a dead node and itself |
| `Trees.Tree.ShareRuntimeId` | crates/mockapp/src/tree.rs:245-254 | the taker has the runtime id of the other node and nothing else changes, with the same refusals |
| `Trees.Tree.Disconnect` | crates/mockapp/src/tree.rs:258-267 | the node is dead and nothing else changes; it refuses exactly the root and a dead node |
| `Trees.Tree.DisconnectAtFirstChild` | crates/mockapp/src/tree.rs:272-281 | the node is marked to die when its first child is asked for and nothing else changes, with the same refusals |
| `Trees.Tree.ReplaceItems` | crates/mockapp/src/tree.rs:289-303 | exactly the nodes below the item die and each has an isomorphic copy, or the item is dead and nothing changes |
| `Trees.Tree.Replace` | crates/mockapp/src/tree.rs:307-338 | the recursion in place carries out the plan of copies for the subtree, and ends |
| `Trees.Tree.ReplaceEach` | crates/mockapp/src/tree.rs:289-338 | the loop over children carries out their plans one after the other |
| `Trees.Tree.RetargetControllers` | crates/mockapp/src/tree.rs:307-338 | every relation to an original goes to its copy, and no other changes |
| `Trees.Tree.Sibling` | crates/mockapp/src/tree.rs:343-349 | the child `offset` places from the node among its parent's children; none exactly when there is none |
| `Trees.Tree.FocusNode` | crates/mockapp/src/uia.rs:407-421 | the focus and its state are on the node the id names, the state gone from the node that had it, and nothing else changes; none when the id is unknown |
| `Trees.Tree.SelectNode` | crates/mockapp/src/uia.rs:457-471 | so with the selection and its state |
| `Trees.Tree.SetControllerFor` | crates/mockapp/src/uia.rs:184-197 | the relation of one node is to the node named, or to none; an unknown id changes nothing |
| `Trees.Tree.FirstChild` | crates/mockapp/src/uia.rs:1109-1116 | the first of the children; none when there is none or the node is marked to die at the question, which it then does, and nothing else changes |
| `TreeCommands.CommandKeepsTree` | crates/mockapp/src/tree.rs:222-338 | every command keeps the tree, and all but sharing keep runtime ids distinct |
| `TreeCommands.CommandKeepsNamed` | crates/mockapp/src/tree.rs:222-338 | every command keeps names injective and every live or copied node named |
| `TreeCommands.EveryRunKeepsTheTree` | crates/mockapp/src/tree.rs:175-338 | from any fixture with distinct ids every run of commands keeps the tree and the names, and without sharing distinct runtime ids |
| `TreeCommands.RunKeepsIds` | crates/mockapp/src/tree.rs:222-338 | a run without sharing keeps the runtime ids of live nodes distinct |
| `TreeCommands.ShareMakesIdsMeet` | crates/mockapp/src/tree.rs:245-254 | sharing leaves runtime ids distinct exactly when the taker is dead |
| `TreeCommands.SiblingsUndo` | crates/mockapp/src/tree.rs:343-349 | going to a sibling and back by the opposite offset comes back |
| `Crc.Crc32` | xtask/src/nvda.rs:210-223 | the two loops compute the register fed byte by byte, complemented |
| `Crc.CrcProper` | xtask/src/nvda.rs:210-223 | the step is linear and injective, undoes doubling, and bytes are their bits, the least significant first |
| `Crc.ChecksumByTable` | xtask/src/nvda.rs:210-223 | the check value is the table-driven one of section 8 of RFC 1952 |
| `Crc.ChecksumOfA` | xtask/src/nvda.rs:210-223 | the check value of the letter a is E8B7BE43 in hexadecimal |
| `Registers.FedWord` | xtask/src/nvda.rs:210-223 | feeding up to 32 bits is adding one word and as many steps |
| `Registers.FedAsBits` | xtask/src/nvda.rs:210-223 | feeding bytes is feeding their bits |
| `Crc.BurstDetected` | xtask/src/nvda.rs:210-223 | inputs of one length that differ only in a burst of 32 bits have different check values |
| `Crc.WindowDetected` | xtask/src/nvda.rs:210-223 | so do inputs that differ only inside four consecutive bytes |
| `ZipWriter.StoredZip` | xtask/src/nvda.rs:156-207 | the two buffers end up as local headers, central directory and end record; it fails exactly when a size, an offset or a count exceeds its field |
| `ZipWriter.PushLocal` | xtask/src/nvda.rs:165-177 | appends an entry's local header, name and bytes |
| `ZipWriter.PushCentral` | xtask/src/nvda.rs:178-192 | appends an entry's central header, with its offset, and name |
| `ZipWriter.PushEnd` | xtask/src/nvda.rs:194-206 | appends the end record |
| `ZipRoundTrip.RoundTrip` | xtask/src/nvda.rs:156-207 | a reader that starts at the end record, walks the directory and reads each local header, checking signatures, flags, method, sizes and check values, gets exactly the entries written, in order |
| `ZipRoundTrip.ArchiveInjective` | xtask/src/nvda.rs:156-207 | different entries make different archives |
| `ZipWriter.ZipProper` | xtask/src/nvda.rs:156-223 | little-endian fields of two and four bytes read back, and a CRC-32 fits four |
| `ZipWriter.LocalBytes` | xtask/src/nvda.rs:165-177 | the bytes of a local header: signature, version, flag, method, time and date as written out, then check value, sizes, lengths, name and data, numbers with the least byte first |
| `ZipWriter.CentralBytes` | xtask/src/nvda.rs:178-192 | the bytes of a central header |
| `ZipWriter.EndBytes` | xtask/src/nvda.rs:194-206 | the bytes of the end record |
| `ZipWriter.AddonArchive` | xtask/src/nvda.rs:118-128 | the add-on's archive, when it can be written, unzips to its entries |
| `CaptureDriver.Capture` | xtask/src/nvda.rs:651-728 | every key, character and hold comes just after an answered look whose window in front is the target by its handle and not hung, and none comes after a look that is not so until a window is brought forward; nothing is sent after a call that failed, a file that did not come or a window that did not; every key pressed is released; the calls made are the start of what the steps say, then the releases, last first; success only if all was done and the last look shows the target so; it fails only because the first look failed, or a step was stopped by a failed call, a look that missed or no window that matches, the steps before it done and none after it begun, or all was done and the last look missed |
| `CaptureDriver.RunStep` | xtask/src/nvda.rs:734-833 | one step that goes through makes exactly its calls, each key, character and hold with its look before it; it moves target and held keys as said; it fails exactly when its last calls failed, missed the target or listed no window that matches |
| `CaptureDriver.BringForward` | xtask/src/nvda.rs:770-813 | brings forward the first window that matches among those just listed, which becomes the target; it fails exactly when a call fails, the window does not come forward, or none matches |
| `CaptureDriver.RequireInFront` | xtask/src/nvda.rs:838-846 | succeeds exactly when the look is answered and its window in front has the target's handle and is not hung |
| `CaptureDriver.Send` | xtask/src/nvda.rs:815-826 | looks, and makes the call exactly when that look is answered and its window in front has the target's handle and is not hung |
| `CaptureDriver.ReleaseAll` | xtask/src/nvda.rs:712-716 | releases every key still held, the last first, whether calls fail or not |
| `CaptureDriver.FindWindow` | xtask/src/nvda.rs:785-790 | the first window of the list that matches, none exactly when none does |
| `CaptureDriver.MatchesMeans` | xtask/src/nvda.rs:785-790 | a window matches exactly when the image asked for is `*` or the same but for the case of ASCII letters, and its title has the text asked for in it |
| `Captures.SilentAfterLaunch` | xtask/src/nvda.rs:748-761 | between a launch and the next window brought forward nothing is sent |
| `Captures.SilentAfterMiss` | xtask/src/nvda.rs:838-846 | after a look, other than the first, that is not answered or whose window in front is not the target by its handle or is hung, nothing is sent until a window is brought forward |
| `Captures.ActsMean` | xtask/src/nvda.rs:734-833 | what is done is, in order, the keys, characters, holds, releases, launches, waits for files and menus among the calls |
| `Captures.TargetMeans` | xtask/src/nvda.rs:651-833 | the target is the window in front at the first call, none after a launch, and else the window brought forward last |
| `Texts.PiecesJoined` | xtask/src/nvda.rs:743 | splitting keys at commas loses nothing and leaves no comma |
| `Calendar.DaysCounts` | xtask/src/durations.rs:249-254 | the closed form is the sum of the lengths of the years and months since 1970-01-01, for every valid date of every year |
| `Calendar.NextIsOneMore` | xtask/src/durations.rs:249-254 | the day after a date is one more |
| `Calendar.Epoch` | xtask/src/durations.rs:249-254 | 1970-01-01 is day 0 |
| `Calendar.DaysAfter` | xtask/src/durations.rs:249-254 | counting n days from 1970-01-01 comes to day n |
| `Calendar.AfterDays` | xtask/src/durations.rs:249-254 | a date from 1970 on is the one as many days after as its number |
| `Calendar.BeforeDays` | xtask/src/durations.rs:249-254 | a date before 1970 reaches it in as many days as its number says |
| `Calendar.DaysOrder` | xtask/src/durations.rs:249-254 | the numbers order dates as the calendar does, and no two dates share one |
| `LineCounts.AddInto` | xtask/src/coverage.rs:724-732 | for every line of a file of either side the smaller of 2^64 - 1 and the sum of its two counts, and no other file or line |
| `LineCounts.LinesLawful` | xtask/src/coverage.rs:724-732 | adding is commutative, associative and has the empty level as neutral, although counts saturate |
| `LineCounts.AnyOrder` | xtask/src/coverage.rs:604-613 | merging levels or groups in any order gives one result |
| `LineCounts.MergeLevels` | xtask/src/coverage.rs:604-620 | for every line of a file of some level the smaller of 2^64 - 1 and the sum of its counts over the levels, and no other file or line; the merge of the two parts is the merge of all |
| `LineCounts.MergeAllMeans` | xtask/src/coverage.rs:604-613 | so merging any list of levels one after the other |
| `CoverageReport.Summary` | xtask/src/coverage.rs:758-769 | the totals are the numbers of pairs of a file and a line of it, and of those whose count is not 0 |
| `CoverageReport.FileHits` | xtask/src/coverage.rs:750-799 | in a file, lines hit merged are lines hit below and lines only end-to-end hits |
| `CoverageReport.TotalHits` | xtask/src/coverage.rs:750-799 | and in total |
| `CoverageReport.E2eOnly` | xtask/src/coverage.rs:774-799 | lists exactly the files with lines that ran end to end and not below, with how many, the most first and then by path; they sum to all such lines |
| `CoverageReport.MergedHits` | xtask/src/coverage.rs:614-626 | lines hit in the merged level are lines hit below and the sum of that list |
| `CoverageReport.Unreached` | xtask/src/coverage.rs:802-810 | lists exactly the files that have lines and whose every line has count 0, in order, once |
| `CoverageReport.UnreachedByEveryLevel` | xtask/src/coverage.rs:802-810 | in the merge those are the files of which some level has lines and no level ran any |
| `Lcov.ParseLcov` | xtask/src/coverage.rs:665-694 | reads a text, or names its first line that cannot be read |
| `LcovReading.ReadMeans` | xtask/src/coverage.rs:665-694 | a text is read exactly when no line of it is malformed data or data outside a record; it then has the files that some line starts, and for each line number the sum of the counts given for it in records of its file, as far as 64 bits go |
| `LcovReading.FirstUnreadable` | xtask/src/coverage.rs:665-694 | the line named in a failure is the first that cannot be read |
| `LcovReading.DataReads` | xtask/src/coverage.rs:672-683 | a line is data exactly when `DA:` is followed by a numeral below 2^32, a comma, a numeral below 2^64, and nothing or another comma |
| `LcovReading.KindMeans` | xtask/src/coverage.rs:669-692 | which lines start a file, end a record or are malformed |
| `Lcov.RunAdds` | xtask/src/coverage.rs:665-694 | reading lines on top of counts adds what they read alone |
| `Lcov.SumReads` | xtask/src/coverage.rs:665-694 | reading two texts together adds their readings, when the first is empty or ends in a newline |
| `LcovRoundTrip.SumReadsWhenFinished` | xtask/src/coverage.rs:665-694 | that holds for every second text exactly then |
| `LcovWriter.ToLcov` | xtask/src/coverage.rs:736-747 | writes the records of every file, paths and lines in order |
| `LcovWriter.RecordMeans` | xtask/src/coverage.rs:736-755 | a record is its path, a line for each count in the order of the line numbers, the number of lines, the number of those with a count that is not 0, and the end mark |
| `Decimal.DigitsLead` | xtask/src/coverage.rs:740-744 | numbers are written without leading zeros |
| `LcovRoundTrip.ReadsBack` | xtask/src/coverage.rs:665-747 | reading undoes writing exactly when no path holds a newline or ends in a carriage return |
| `LcovRoundTrip.CarriageReturnLost` | xtask/src/coverage.rs:665-747 | a text that ends in a path with a carriage return and no newline is read, and its reading, written, does not read back |
| `LcovRoundTrip.RecordRun` | xtask/src/coverage.rs:665-747 | one record reads as its file with its counts |
| `Texts.LinesOfSum` | xtask/src/coverage.rs:668 | the lines of a text put after a finished one follow its lines |
| `UseTree.ExpandTree` | xtask/src/ownership.rs:586-621 | the recursion around the splitting loop ends, and gives the paths of the text or the panic of its slice |
| `UseTree.SplitTop` | xtask/src/ownership.rs:594-607 | the pieces make up the text with commas between them; a comma is between two exactly when as many braces are open as closed before it |
| `UseTree.TrimStarsMeans` | xtask/src/ownership.rs:590 | what is left of a path is it without `::*` at its end, however often |
| `UseTree.TrimColonsMeans` | xtask/src/ownership.rs:592 | so of a prefix and `::` |
| `Spaces.TrimMeans` | xtask/src/ownership.rs:587-592 | trimming gives the one text without white space at its ends that the text is with white space around it |
| `Spaces.SpaceTable` | xtask/src/ownership.rs:587-592 | white space is the 25 characters of Unicode's White_Space |
| `UseTreeText.RenderExpands` | xtask/src/ownership.rs:586-621 | any way of writing a tree, with white space around paths, `::`, braces, commas and `as`, with trailing commas and with groups without a prefix, expands to each leaf's path under its groups, in order; a rename is dropped when spaces stand on both sides of its `as` |
| `UseTreeMeaning.ExpandsToMeaning` | xtask/src/ownership.rs:586-621 | that is what the tree means, `self` and globs resolved from the outside in, exactly when every group with a leaf has a prefix and no bare `*`, no path or prefix has white space in it or before its `::`, and every rename is written with spaces |
| `UseTreeMeaning.GroupGlob` | xtask/src/ownership.rs:588-591 | a group with `*` among its items does not expand to what it means |
| `UseTreeMeaning.BareStar` | xtask/src/ownership.rs:588-591 | a group of just `*` expands to its prefix with `::*` |
| `UseTreeMeaning.GroupWithoutPrefix` | xtask/src/ownership.rs:592-620 | a group without a prefix expands to what it means exactly when it has no leaf |
| `UseTreeMeaning.BareGroup` | xtask/src/ownership.rs:592-620 | `{a}` expands to `::a` and means `a` |
| `UseTreeMeaning.HiddenRename` | xtask/src/ownership.rs:588-591 | a rename with other white space beside its `as` stays on the path |
| `Scan.WithoutFences` | xtask/src/docs.rs:471-496 | keeps every line in its place, those of fenced blocks empty |
| `LineForms.FencedMeans` | xtask/src/docs.rs:471-496 | the lines left empty are exactly those from one that opens a fence, where none is open, to the first after it that closes it, or to the end |
| `LineForms.OpensMeans` | xtask/src/docs.rs:475-484 | a line opens a fence exactly when it is white space, three or more of one of the two marks and a rest that does not go on with it |
| `LineForms.ClosesMeans` | xtask/src/docs.rs:485-490 | a line closes it exactly when it is white space, at least as many of its mark and white space of ASCII |
| `LineForms.DefinitionMeans` | xtask/src/docs.rs:449-467 | a line is read as the definition of a target exactly when it is at most three spaces, a label in brackets that is not blank, has no bracket in it and does not start with a caret, a colon, and the target with white space around it |
| `LineForms.BlockStartsMeans` | xtask/src/docs.rs:384-390 | a block can start exactly on the first line, after a definition, and after a line that is blank or whose first character but white space is `#` |
| `Scan.ClosingTicks` | xtask/src/docs.rs:505-528 | the first run of exactly as many backticks in the paragraph, if there is one |
| `SpanForms.CloseMeans` | xtask/src/docs.rs:505-528 | a span ends at a place exactly when just as many backticks stand there, none beside them, and before it there is no such run and no newline followed by a line of nothing but white space of ASCII |
| `Scan.RunLength` | xtask/src/docs.rs:499-501 | the longest run of a mark from a place |
| `Scanner.ScanText` | xtask/src/docs.rs:373-447 | the scan ends; for each item the line it carries is, in the document, outside fenced blocks and has that link's destination in its brackets, or has the form of that definition, or has that code span, ticks, text and what follows, from a column of it on |
| `Scanner.Look` | xtask/src/docs.rs:400-444 | the running line number is right after escapes, spans over lines, unclosed ticks and links |
| `ScanWalk.LookedOrInside` | xtask/src/docs.rs:400-444 | the scan looks at exactly the places that are not inside an escape, a code span, unclosed ticks or a destination it finds |
| `SpanForms.InsideMeans` | xtask/src/docs.rs:400-444 | being inside one: the character after a backslash, a backtick of a run or anything up to the end of the run that closes it, the bracket of a destination or anything up to the parenthesis that closes it on its line |
| `ScanWalk.NoLinkMissed` | xtask/src/docs.rs:428-441 | every destination in the prose is reported with its line, unless it starts inside one of those |
| `ScanWalk.NoSpanMissed` | xtask/src/docs.rs:412-427 | so is every code span, with its text and whether it is planned |
| `ScanWalk.NoDefinitionMissed` | xtask/src/docs.rs:383-399 | so is every line of the form of a definition where a block can start |
| `ScanWalk.AfterDefinitionMeans` | xtask/src/docs.rs:380-399 | the flag that lets a definition follow another is set exactly when the last line that a look started holds a definition |
| `ScanWalk.LabelOpenMeans` | xtask/src/docs.rs:428-441 | the bracket that a link's destination closes, along the places looked at, is the one that nothing between closes or leaves open; none is found exactly when there is no such bracket |
| `ScanWalk.LinkLines` | xtask/src/docs.rs:370-447 | every link reported is a definition of the line it carries, or has its destination there, at a place looked at; that is the line its label opens on exactly when no newline is between |
| `ScanWalk.LabelOverLines` | xtask/src/docs.rs:428-441 | the link of `[a` and `b](c)` on two lines is reported on the second, though its label opens on the first |
| `ScanWalk.EscapeInLabel` | xtask/src/docs.rs:405-411 | so is the link of `[a` and `b\[c](d)`: the escaped bracket opens nothing |
| `ScanPlaces.DefinitionStands` | xtask/src/docs.rs:383-399 | a definition found stands: that whole line of the document has its form, with that target |
| `Scanner.SpanOutsideFences` | xtask/src/docs.rs:412-427 | no part of a code span is in a fenced block |

## Left out

- Floating-point rounding in `plan.rs` and `durations.rs`: seconds are exact reals.
- Reading and writing files, running cargo, git and other programs, sockets, clocks and argument parsing other than `parse_group`: I/O.
- The text of messages: an offence, a failure or a refusal is modelled by its kind and what it names; `offences` also sorts and dedups its messages, which the model leaves as a list.
- `third_party_offences` and `from_metadata` in `tiers.rs`: a filter of names and a JSON reader.
- The tables of tiers, roles, entries and registered scenarios: parameters of the model.
- The readers of the registry and of test files in `plan.rs`: tied to one source layout.
- Windows, COM and UI Automation calls of `crates/mockapp`: only the changes they make to the tree are modelled; the relation set by `SetControllerFor` is a command of the model, the other property setters are not.
- `parent_delay` and delayed answers of the tree: counters.
- `uses` in `ownership.rs`: it joins the lines of a declaration and passes them to `expand`, which is modelled.
- Comments inside `use` trees: paths, prefixes and renames are modelled with any white space, not with comments.
- `relative`, `merge_summary` and percentages in `coverage.rs`: formatting.
- The settling of speech between capture steps: one call with any answer.
- Encoding of text as bytes: strings are sequences of characters, and file names and contents in archives are bytes.
- `link_path` and the rules on links and spans in `docs.rs`: only the scan is modelled.
