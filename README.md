# Chronosphere timing-graph core, modelled in Dafny

Chronosphere is a static timing analyser for the TAU 2015 contest format.
This project models the part of it that does these things:

- turns the parsed netlist into a connectivity graph;
- computes the lumped RC wire delay of each net branch;
- runs the level-synchronous forward pass that stores those delays;
- decides, in `main`, which three input files to parse.

The global hash tables of graph.cpp (`Pins`, `PIs`, `POs`, `Nets`, and the
read-only `Cells`, `NetsHelper`, `SpefNets`) are the fields of one class,
`Graph.TimingGraph`. Its methods update them in place, in the loops the source
has. Each method is proved equal to a function of the tables before the call:

- `GraphBuild` describes `create_graph`;
- `Traversal` describes `find_nets_delay`.

The properties of the pass are lemmas about those functions.

Files:

- `parser_helper.dfy`: the records of parser_helper.h as datatypes. Also their
  constructor defaults, `SpefNet::clear`, the `findPinInfo` and
  `findTimingArchPin` searches, the printing of a SPEF node name, and the
  `operator[]` read of each table (a missing key reads as the value-initialised
  record).
- `delay.dfy`: `calculate_net_delay` and `calculate_fanout`. Each is an
  accumulator loop proved against a recursive function.
- `elmore.dfy`: the loop of `calculate_net_delay` is the Elmore sum. Each
  matching resistance is multiplied by all the matching capacitance found at
  or after it.
- `graph_build.dfy`: `create_graph` as a fold over the nets, one step per
  branch of the loop body, with its properties.
- `traversal.dfy`: the breadth-first pass as a function (`Bfs`) and the delays
  it stores as a list of writes, with visit-once, closure, reachability and
  termination.
- `graph.dfy`: class `TimingGraph` with `CreateGraph` and `FindNetsDelay`.
- `chronosphere.dfy`: the usage check, the base-path split, the extension test
  and the routing of three filenames.

Keys are the concatenated strings the code builds:

- a `Pins` key is instance name + pin name;
- a `Nets` key is net name + instance name + pin name, or the bare net name
  for a primary output.

Distinct pins can therefore share a key (`GraphBuild.KeyCollision`). The
iteration order of an `unordered_map` is a parameter: a sequence that lists
every key once.

Two facts about the code that shape the model:

- The late transition bounds of a primary output are seeded with
  `std::numeric_limits<double>::min()`. That is the smallest positive
  normalised double, 2^-1022, not minus infinity, so the late seeds start
  just above zero.
- The code holds no lookup-table interpolation and no unate-sense selection.
  The arc loop is commented out, and the fan-out value is computed and
  discarded.

## Model

| member | source | states |
|---|---|---|
| ParserHelper.SpefNet.Clear | parser_helper.h:207-213 | clearing gives the value-initialised net: empty name, zero lumped capacitance, no connections, capacitances or resistances |
| ParserHelper.DefaultSpefNet | parser_helper.h:199-205 | a `SpefNets[name]` read of an absent net sees no resistances and no capacitances |
| ParserHelper.NodeNameText | parser_helper.h:160-164 | the printed node name is n1, then ':' and n2 only when n2 is non-empty (length stated) |
| ParserHelper.NodeNameRoundTrip | parser_helper.h:160-164 | when n1 holds no ':', splitting the printed text at its first ':' gives back the node |
| ParserHelper.DefaultLibPin | parser_helper.h:354-355 | a default library pin has capacitance 0, maxCapacitance `max()`, is an input and is not a clock |
| ParserHelper.DefaultCell | parser_helper.h:373 | a default cell has zero leakage and area, is neither sequential nor dont-touch, and has no pins or arcs |
| ParserHelper.FindPin | parser_helper.h:379-385 | `find_if` with `findPinInfo(name)` gives the first pin whose name is `name`, and the end exactly when there is none |
| ParserHelper.FindTimingArc | parser_helper.h:387-393 | `find_if` with `findTimingArchPin(name)` gives the first arc whose `fromPin` is `name`, and the end exactly when there is none |
| ParserHelper.DefaultNetPin | parser_helper.h:395-401 | a value-initialised pin reference has empty instance, pin and cell-type names |
| ParserHelper.DefaultPo | parser_helper.h:415 | a default `po_values` has all four required times 0 and an empty driver |
| ParserHelper.DefaultPi | parser_helper.h:432 | a default `pi_values` has all arrival times and transitions 0 and no receivers |
| ParserHelper.DefaultNetParserInfo | parser_helper.h:444 | a default net record is neither a primary input nor a primary output |
| ParserHelper.DefaultPinInfo | parser_helper.h:463 | a default pin has zero arrival and required times, is not an input and has no fan-out or fan-in |
| ParserHelper.DefaultNetsInfo | parser_helper.h:480 | a default `Nets` entry has delay 0 between two empty pins |
| Delay.FindCapFirst | graph.cpp:363-367 | the capacitance search finds nothing exactly when no entry is on the node, and otherwise the FIRST entry on it |
| Delay.CalculateNetDelay | graph.cpp:351-373 | the loop returns `NetDelay` of the net's SPEF record, and 0 when the record has no resistances (an absent net included) |
| Delay.NetDelayUnmatched | graph.cpp:356-359 | when no entry's target n1 is the net or the instance, both `total_cap` and the delay are 0 |
| Delay.MatchSumOnlyMatching | graph.cpp:359-361 | `total_cap` is the sum of the matching resistances only |
| Delay.NetDelayOnlyMatching | graph.cpp:359-366 | dropping the non-matching resistance entries leaves the delay unchanged |
| Delay.NetDelayNonNegative | graph.cpp:361-365 | with non-negative resistances and capacitances, `total_cap` and the delay are non-negative |
| ElmoreDelay.NetDelayIsFold | graph.cpp:356-372 | `total_cap` is the total of the weights, and the delay folds the running total times each entry's capacitance |
| ElmoreDelay.NetDelayIsElmore | graph.cpp:356-372 | the delay equals the Elmore sum: each matching resistance times all matching capacitance at or after it |
| Delay.CalculateFanout | graph.cpp:376-394 | the loop returns the fan-out capacitance of the pin's `linksTo`, and 0 for an absent pin |
| Delay.FanoutCapAppend | graph.cpp:381-390 | the fan-out capacitance of a concatenation is the sum over the two parts |
| Delay.FanoutCapSkipsBoundaries | graph.cpp:383-385 | entries with an empty cell type add nothing; the result is 0 when no entry has a cell type |
| Delay.FanoutCapExample | graph.cpp:376-394 | pins of capacitance 1.0 and 2.0 plus a primary-output boundary give 3.0 |
| GraphBuild.ToPinWritesFrame | graph.cpp:76-81 | the `toPin` loop writes exactly the receivers' `Nets` keys, naming the net on each; other entries are untouched |
| GraphBuild.ToPinWritesKeeps | graph.cpp:76-81 | the `toPin` loop keeps every entry's `fromPin` and `delay` |
| GraphBuild.ToPinWritesDistinct | graph.cpp:76-81 | with distinct receiver keys, each receiver's entry ends with `toPin` equal to that receiver |
| GraphBuild.FromPinWritesFrame | graph.cpp:87-98 | the `fromPin` loop sets `fromPin` to the driver and names the net on each receiver key, and leaves every other key alone |
| GraphBuild.AppendLinkedByCount | graph.cpp:87-90 | the `linkedBy` loop appends the pin once per receiver with that key, at the end |
| GraphBuild.AppendLinkedByKeeps | graph.cpp:65-68 | the `linkedBy` loop changes no other field of any pin, and adds exactly the receiver keys to `Pins` |
| GraphBuild.PrimaryOutputRecord | graph.cpp:33-50 | a primary output gets its `POs` record (driver, early bounds `max()`, late bounds `min()`) and a `Nets[net]` entry from the synthetic pin; other nets leave `POs` alone |
| GraphBuild.PrimaryInputRecord | graph.cpp:54-56 | a primary input's `PIs` record lists exactly its receivers; other nets leave `PIs` alone |
| GraphBuild.PrimaryOutputStepPin | graph.cpp:42-44 | the driver's fan-out gains the synthetic pin (empty instance, net name as pin); no fan-in changes |
| GraphBuild.PrimaryInputStepPin | graph.cpp:65-68 | each receiver key's fan-in gains the synthetic pin once per receiver; no fan-out changes |
| GraphBuild.DriverStepPin | graph.cpp:73-74 | a non-empty driver key's fan-out gains all receivers in order; no fan-in changes |
| GraphBuild.InternalStepPin | graph.cpp:87-90 | only on a net that is neither primary input nor primary output, each receiver key gains the driver as fan-in |
| GraphBuild.StepPin | graph.cpp:25-102 | the net of one loop iteration grows the fan-out and fan-in of each pin only at the end, by the amounts above |
| GraphBuild.DriverLinksTo | graph.cpp:42-74 | the driver's fan-out grows by the synthetic output pin, then by every receiver in order; no other pin's fan-out changes |
| GraphBuild.ReceiverLinkedBy | graph.cpp:54-99 | fan-in grows by the synthetic pin (primary input) or by the driver (internal net), and is untouched on a primary-output-only net |
| GraphBuild.ReceiverNets | graph.cpp:54-99 | receiver entries name the net and point to their receiver; on internal nets they start at the driver |
| GraphBuild.BuildPrimaryInputs | graph.cpp:25-71 | after the whole pass, `PIs` holds exactly the primary-input nets added, each listing its receivers |
| GraphBuild.BuildPrimaryOutputs | graph.cpp:25-52 | after the whole pass, `POs` holds exactly the primary-output nets added, each with its driver, `max()` early and `min()` late seeds; every late seed is positive and below its early seed |
| GraphBuild.KeyCollision | graph.cpp:27 | two different pins (`U1`/`0A` and `U10`/`A`) share one `Pins` key |
| Traversal.LevelStepPrefix | graph.cpp:441-505 | one level only appends to `Visited`, and the next level is the concatenated fan-out of what it appended |
| Traversal.LevelStepCovers | graph.cpp:443-450 | after a level, every key of it and every key visited before is visited |
| Traversal.LevelStepFresh | graph.cpp:446-450 | a level appends only keys of the level that were unvisited, none twice |
| Traversal.LevelStepSame | graph.cpp:438-447 | `isFinalLevel` stays true exactly when every key of the level was already visited |
| Traversal.LevelStepFacts | graph.cpp:436-512 | the level facts above together |
| Traversal.RemainingDecreases | graph.cpp:436-512 | a level that visits a new key strictly lowers the count of reachable unvisited keys, so the `while` loop ends |
| Traversal.RemainingFinal | graph.cpp:436-512 | a level with no new key has an empty next level |
| Traversal.BfsNoDup | graph.cpp:446-450 | visit-once: the pass never appends a key twice, and keeps the visited prefix |
| Traversal.BfsClosed | graph.cpp:504-509 | every key of the start level and of the fan-out of every visited key ends up visited |
| Traversal.DiscoveredStep | graph.cpp:441-505 | one level keeps every visited key a root or in the fan-out of an earlier visited key |
| Traversal.NextReached | graph.cpp:504-509 | each pin of the next level is in the fan-out of a visited key |
| Traversal.BfsDiscovered | graph.cpp:436-512 | only keys reached from level 0 through fan-out are visited |
| Traversal.ForwardPass | graph.cpp:409-512 | from the primary inputs' fan-out: visit-once, level 0 visited, closed under fan-out, nothing unreachable |
| Traversal.ApplyDelaysSnoc | graph.cpp:423 | one more store sets `delay` of its key on the table the earlier stores left |
| Traversal.ApplyDelaysAppend | graph.cpp:415-487 | stores in two batches act as their concatenation |
| Traversal.ApplyDelaysEffect | graph.cpp:415-487 | the pass changes only `delay`; a key it does not write is untouched and the domain grows by the written keys |
| Traversal.ApplyDelaysLastWins | graph.cpp:415-487 | a written key ends with the delay of the last write to it |
| Traversal.PiWritesAt | graph.cpp:419-425 | the i-th branch from a primary input is stored under `pi + inst + pin` with the delay of net `pi` towards its instance |
| Traversal.WireWritesAt | graph.cpp:477-487 | the i-th branch is stored under the bare net name for a primary output, else under net + inst + pin, with the net's delay |
| Traversal.PinWritesShape | graph.cpp:459-487 | an input pin stores nothing; any other pin stores one delay per fan-out branch, keyed by `connNetName` |
| Traversal.VisitWritesSnoc | graph.cpp:446-489 | visiting one more key appends exactly that key's stores |
| Traversal.VisitWritesFrom | graph.cpp:446-489 | every store of the pass comes from a visited non-input pin |
| Graph.TimingGraph.constructor | graph.cpp:16-18 | `PIs`, `POs` and `Nets` start empty; the parsed tables are as given |
| Graph.TimingGraph.PrimaryOutput | graph.cpp:33-50 | the primary-output branch leaves the tables as `PrimaryOutputStep` |
| Graph.TimingGraph.PrimaryInput | graph.cpp:54-71 | the primary-input branch and its receiver loop leave the tables as `PrimaryInputStep` |
| Graph.TimingGraph.Driver | graph.cpp:73-83 | the driver branch and its receiver loop leave the tables as `DriverStep` |
| Graph.TimingGraph.Internal | graph.cpp:87-99 | the guarded receiver loop and its inner `linkedBy` walk leave the tables as `InternalStep` |
| Graph.TimingGraph.CreateGraph | graph.cpp:21-106 | one pass over `NetsHelper` in the given order leaves the tables as `Build` and returns 1 |
| Graph.TimingGraph.FindNetsDelay | graph.cpp:397-519 | `Nets` ends as the level-0 stores followed by the stores of the pins `Bfs` visits, in order; returns 1 |
| Graph.TimingGraph.PrimaryInputDelays | graph.cpp:415-427 | level 0 is the primary inputs' fan-out concatenated, each branch storing its wire delay |
| Graph.TimingGraph.PrimaryInputBranches | graph.cpp:419-425 | each branch of one primary input stores `calculate_net_delay(pi, inst)` under `pi + inst + pin` |
| Graph.TimingGraph.VisitLevel | graph.cpp:438-506 | one level's `for` loop computes `LevelStep`; `isFinalLevel` holds exactly when nothing new was visited |
| Graph.TimingGraph.VisitKey | graph.cpp:446-489 | visiting one key adds exactly that key's stores |
| Graph.TimingGraph.VisitPin | graph.cpp:474-489 | a non-input pin stores the wire delay of each fan-out branch, in order |
| Chronosphere.FindLastOf | chronosphere.cpp:29 | `find_last_of` gives `npos` exactly when the character is absent, else the index of its last occurrence |
| Chronosphere.Succ | chronosphere.cpp:36-38 | `index + 1` on `size_type` is taken modulo 2^64, so `npos + 1` is 0 |
| Chronosphere.BasePathSplit | chronosphere.cpp:29-30 | the base path, '/' and a rest with no '/' rebuild the argument; with no '/' the base path is the whole argument |
| Chronosphere.ExtensionSuffix | chronosphere.cpp:36-38 | the extension holds no '.' and follows the last '.'; with no '.' it is the whole filename |
| Chronosphere.BasePathExample | chronosphere.cpp:29-30 | `dir/x.tau2015` has base path `dir` |
| Chronosphere.ExtensionExamples | chronosphere.cpp:36-38 | `c.spef` has extension `spef`; `Makefile` is compared whole |
| Chronosphere.FilenameAtNext | chronosphere.cpp:35 | a read past the last token keeps the previous filename (empty before the first) |
| Chronosphere.RouteAllChoosesLast | chronosphere.cpp:33-45 | routing in order picks, for each of v/lib/spef, the last filename with that extension, or leaves it empty |
| Chronosphere.RouteIgnores | chronosphere.cpp:38-43 | a filename whose extension is none of v, lib, spef changes no path |
| Chronosphere.ResolveInputs | chronosphere.cpp:13-45 | any argument count other than 2 gives the usage exit; otherwise the three reads give the chosen paths, each `base_path + "/" + filename` |

## Left out

- Graph.TimingGraph.FindNetsDelay: the default records that `operator[]` reads insert are not modelled. This covers `Pins[key]`, `Pins[nextPkey]`, `Cells[type]` and `SpefNets[net]`. The contract says only `Nets` changes; the value read is the default either way.
- Graph.TimingGraph.FindNetsDelay: some work in the pass has no lasting effect and is not modelled:
  - the `calculate_fanout` call on input pins (graph.cpp:464-471), whose result is discarded;
  - the `tempPin` search (graph.cpp:452-453) and `number_of_arcs` (graph.cpp:492), both unused;
  - the `level` counter (graph.cpp:412, 511), also unused.

  The `find_if` results are dereferenced without an end check, which is undefined behaviour when the pin is missing from its cell.
- Delay.CalculateFanout: requires every fan-out pin with a cell type to exist in that cell, because the source dereferences the `find_if` result unchecked.
- Debug printing in `find_nets_delay` (graph.cpp:404-407, 503, 514-515): output only.
- `print_graph`, `find_nets_delay_`, `search_indicies` and `bfs_on_graph_bwd`: presentation, an uncalled older version, and empty stubs.
- The parsers, `wake_parser`, the `operator<<` of the other records, the `ifstream` reads, the `assert`s, and the `create_graph`/`print_graph` calls in `main`. These are file I/O and process plumbing. The file's contents enter `Chronosphere.ResolveInputs` as its list of whitespace-separated tokens, and the usage message and `exit(0)` as the `Usage` result.
- Lookup-table interpolation, unate-sense selection and transition merging: none of these exists in the code.
- Floating point: doubles are reals, so rounding is not modelled. Fields a constructor leaves uninitialised read as 0.0.
- `unordered_map` hashing and iteration order: the order of `NetsHelper` and of `PIs` is a parameter listing each key once.
- ParserHelper.SpefNet.Clear: returns the cleared record instead of resetting the fields of a stored object. `SpefNet` is a value record kept in maps.
- Graph.TimingGraph.PrimaryOutput: the five `POs[net]` field writes are one record update, and so are the two writes to `Nets[net]`. Likewise, the `toPin`/`netName` pairs in `PrimaryInput` and `Driver` are one update each. The resulting tables are the same.
- Chronosphere.ResolveInputs: strings of `max_size()` characters or more cannot be formed (`CppString`), so `find_last_of` never returns an index equal to `npos`.
