# cuda-gpupick in Dafny

A model of the device-picking path of `cuda-gpupick`. This command-line
launcher chooses `-n` CUDA devices that are idle and close to each other
and keeps them within one NUMA node unless `-f` is given. It then runs the
user's command with `CUDA_VISIBLE_DEVICES` set and bound to that node by
`numactl`. Everything it decides lives in `main` in
`cuda_gpupick/cuda_gpupick.py`, and that is what the model covers:

- the inventory check;
- the 7-bit availability score of each device and the count of idle devices;
- the ranking of devices by score, and the seed (the first ranked device)
  with its two checks;
- the level-by-level expansion around the seed (the nested `NearestGpus`
  and the `while` loop);
- the NUMA check on the picked devices;
- the launch line.

The telemetry the program reads from NVML and sysfs enters as parameters:

- `procCount`: the number of compute processes on each device;
- `dist`: the common-ancestor topology level of each pair of devices (a
  total function into 0, 10, …, 50);
- `numaOf`: the NUMA node of each device.

The modules follow the program's stages:

| file | module | what it holds |
|---|---|---|
| `sequences.dfy` | `Sequences` | filtering, duplicates and relative order on sequences |
| `scoring.dfy` | `Scoring` | the score as a function. `ComputeScores` is the source's nested loop over an array, proved equal to it. Lemmas give each bit's meaning. |
| `ranking.dfy` | `Ranking` | `IsRanking`: what any argsort promises. `Argsort`: the tie-by-index refinement, which is unique. |
| `selector.dfy` | `Selector` | `NearestGpus`, the source's scan, proved equal to `Nearest` (a filter of the ranking). `Gather`, the source's expansion loop, proved equal to a recursive `Expand`. `Expand` is proved to agree with a reference definition, `Reach`: the seed, then every free device ring by ring. |
| `numa.dfy` | `Numa` | `np.unique` and the NUMA verdict |
| `launch.dfy` | `Launch` | decimal printing, `join`/`split`, and the launch line with its round trips |
| `gpupick.dfy` | `GpuPick` | `Select` and `Pick`, the decisions of `main`, with the methods that run them and the theorems about what gets picked |

Several behaviours of the code are kept as written.

- The check after the argsort (line 87) compares a device *index* with 64.
  It can only fire with more than 64 devices.
- Two different checks (lines 96 and 123) print the same message. The
  model gives them two constructors: `SeedUnavailable` and `CeilingReached`.
- The bit a busy device sets in a neighbour's score has no clamp.
  An INTERNAL (level 0) neighbour gets bit 6, the busy marker, too.
- The expansion starts at level 10. It appends every free device of a level
  even past `n`, and then truncates.
- `np.unique` sorts. The node passed to `numactl` is the smallest one, not
  the first device's.

The comment at line 55 calls a score with bit 6 set "Least available (Not
available at all)", and the check at line 96 refuses a seed whose score is
exactly that bit. A busy device is never picked when no two devices share a
board (no INTERNAL pair); see `SeedIdle` and `NoBusyDeviceChosen`. With an
INTERNAL pair a busy seed can be picked. Every score can then carry bit 6
along with a lower bit, so the seed's score is above 64 and passes the check
at line 96 even when the seed itself is busy. `BusySeedChosenAsWritten`
exhibits such a board.

Line 88 reports "No available devices". With every device busy that line is
never reached: the idle count at line 80 fires first (`AllBusyFails`). The
model follows the code in both places.

## Model

| member | source | states |
|---|---|---|
| `Scoring.HitBit` | cuda_gpupick/cuda_gpupick.py:72-78 | the bit a busy device sets is between 1 and 6; it is 6 - level/10 for another device; it is bit 6 exactly for the device itself or an INTERNAL neighbour |
| `Scoring.ScoreUpTo` | cuda_gpupick/cuda_gpupick.py:69-78 | a partial score never reaches bit 7; `ScoreUpToBits` gives its bits exactly |
| `Scoring.Score` | cuda_gpupick/cuda_gpupick.py:52-78 | a device's final score is below 128, and carries the busy marker if and only if a busy device is that device itself or shares its board (INTERNAL) |
| `Scoring.Scores` | cuda_gpupick/cuda_gpupick.py:52 | one score per device, each below 128 |
| `Scoring.BusyCount` | cuda_gpupick/cuda_gpupick.py:57-70 | at most the device count, and zero if and only if no device runs a compute process; `BusyCountBelowIffIdle` gives the other end |
| `Scoring.ComputeScores` | cuda_gpupick/cuda_gpupick.py:52-78 | the in-place loop over the score array yields exactly `Scores`, and the available count is the device count minus the number of busy devices |
| `Scoring.ScoreUpToBits` | cuda_gpupick/cuda_gpupick.py:69-78 | bit b of a score is set if and only if some busy device scanned so far hits that device at bit b |
| `Scoring.BusyDeviceMarked` | cuda_gpupick/cuda_gpupick.py:73-74 | a busy device carries the busy marker (bit 6) in its own score |
| `Scoring.NeighbourOfBusyMarked` | cuda_gpupick/cuda_gpupick.py:75-78 | every other device carries bit 6 - level/10 of its level from a busy device |
| `Scoring.ScoreZeroIffNoneBusy` | cuda_gpupick/cuda_gpupick.py:52-78 | a score stays 0 if and only if no device is busy |
| `Scoring.ScoreBelow128` | cuda_gpupick/cuda_gpupick.py:53-55 | scores use bits 0 to 6 only; a score lacks the marker if and only if it is below 64 |
| `Scoring.MarkerIffBusy` | cuda_gpupick/cuda_gpupick.py:72-78 | without INTERNAL neighbours, a device carries the busy marker if and only if it is busy |
| `Scoring.BusyCountBelowIffIdle` | cuda_gpupick/cuda_gpupick.py:57-70 | fewer busy devices than devices if and only if some device is idle |
| `Scoring.ScoresOnlyGainBits` | cuda_gpupick/cuda_gpupick.py:74-78 | scanning more devices only adds bits to a score |
| `Scoring.SingleBusyScore` | cuda_gpupick/cuda_gpupick.py:69-78 | with one busy device, each score is the single bit that device sets in it |
| `Scoring.FartherFromSoleBusyIsBetter` | cuda_gpupick/cuda_gpupick.py:49-55 | with one busy device, a device farther from it scores strictly lower (is more available) than a nearer one |
| `Ranking.Argsort` | cuda_gpupick/cuda_gpupick.py:86 | the result is a permutation of the device indices with non-decreasing scores, with ties in index order |
| `Ranking.StableRankingUnique` | cuda_gpupick/cuda_gpupick.py:86 | two permutations sorted by (score, index) are equal |
| `Selector.NearestGpus` | cuda_gpupick/cuda_gpupick.py:104-112 | the loop returns, in ranking order, the devices other than the seed at exactly the given level; a device is in it if and only if it is ranked, not the seed and at that level |
| `Selector.Nearest` | cuda_gpupick/cuda_gpupick.py:104-112 | a device is near if and only if it is ranked, is not the seed and lies exactly at the level; the result keeps the ranking's order and has no duplicates when the ranking has none |
| `Selector.Gather` | cuda_gpupick/cuda_gpupick.py:101-121 | the expansion loop with its inner loop yields exactly `Expand` from the seed at level 10 |
| `Selector.AddNew` | cuda_gpupick/cuda_gpupick.py:117-120 | one pass only appends to what was chosen, at most one device per candidate; `AddNewMembers` gives its contents |
| `Selector.AddNewMembers` | cuda_gpupick/cuda_gpupick.py:117-120 | after one pass a device is chosen if and only if it was chosen before or is a free candidate, and a chosen list free of duplicates stays free of them |
| `Selector.Expand` | cuda_gpupick/cuda_gpupick.py:116-121 | the expansion only appends to what was chosen; `ExpandMembers` and `GatherMatchesReach` give its contents |
| `Selector.ExpandMembers` | cuda_gpupick/cuda_gpupick.py:116-121 | the expansion adds only free ranked devices other than the seed, between the starting level and the ceiling, and a chosen list free of duplicates stays free of them |
| `Selector.AddNewAppendsFree` | cuda_gpupick/cuda_gpupick.py:117-120 | when no candidate is chosen yet, one pass appends exactly the free candidates, in order |
| `Selector.RingFacts` | cuda_gpupick/cuda_gpupick.py:104-120 | one level adds the free ranked devices other than the seed at that level, each once, in ranking order |
| `Selector.RingsFacts` | cuda_gpupick/cuda_gpupick.py:116-121 | the rings up to a level hold each eligible device exactly once, ordered by level and within a level by ranking |
| `Selector.ReachFacts` | cuda_gpupick/cuda_gpupick.py:101-121 | the reference reach is the seed, then every eligible device exactly once, by level and then by ranking |
| `Selector.RingsGrow` | cuda_gpupick/cuda_gpupick.py:116-121 | later levels only extend what earlier levels gathered |
| `Selector.GatherMatchesReach` | cuda_gpupick/cuda_gpupick.py:116-121 | the expansion reaches n devices if and only if the reach holds n, and then its first n are the reach's first n |
| `Numa.InsertSorted` | cuda_gpupick/cuda_gpupick.py:142 | inserting keeps the node list strictly increasing and adds exactly the new node |
| `Numa.Unique` | cuda_gpupick/cuda_gpupick.py:142 | the distinct nodes, strictly increasing, with the same members as the input |
| `Numa.UniqueShape` | cuda_gpupick/cuda_gpupick.py:142-148 | there are several distinct nodes if and only if some node differs from the first; the first distinct node is the smallest |
| `Numa.LeastOf` | cuda_gpupick/cuda_gpupick.py:148 | an element of the list no greater than any other |
| `Numa.NumaCheck` | cuda_gpupick/cuda_gpupick.py:142-148 | it fails if and only if -f is absent and the nodes differ, reporting the distinct nodes; otherwise it keeps the smallest node |
| `Launch.NatToString` | cuda_gpupick/cuda_gpupick.py:157 | decimal digits only, non-empty, no leading zero |
| `Launch.ParseNatToString` | cuda_gpupick/cuda_gpupick.py:157 | the decimal form of a natural number reads back as that number |
| `Launch.IntToStringRoundTrip` | cuda_gpupick/cuda_gpupick.py:159 | the decimal form of a node number, negative ones included, reads back as that number |
| `Launch.IntToString` | cuda_gpupick/cuda_gpupick.py:159 | non-empty; a leading minus sign if and only if the number is negative; digits everywhere else |
| `Launch.Join` | cuda_gpupick/cuda_gpupick.py:156 | an empty list joins to the empty string; `SplitJoin` proves that splitting undoes it |
| `Launch.SplitAppend` | cuda_gpupick/cuda_gpupick.py:156 | a separator cuts the split into the split of each side |
| `Launch.SplitJoin` | cuda_gpupick/cuda_gpupick.py:156-164 | joining pieces free of the separator and splitting on it gives the pieces back |
| `Launch.VisibleDevicesRoundTrip` | cuda_gpupick/cuda_gpupick.py:157 | the CUDA_VISIBLE_DEVICES value splits on commas into decimal pieces that read back as the chosen devices, in order |
| `Launch.VisibleDevices` | cuda_gpupick/cuda_gpupick.py:157 | empty if and only if no device is chosen; only digits and commas |
| `Launch.NumactlDirective` | cuda_gpupick/cuda_gpupick.py:159 | the directive's space-separated words are `numactl`, `-N`, the node, `--preferred`, the node |
| `Launch.CommandLine` | cuda_gpupick/cuda_gpupick.py:164 | the line's space-separated fields are those of the assignment, then of the directive, then of the command |
| `Launch.CommandLineFields` | cuda_gpupick/cuda_gpupick.py:157-164 | the launch line's space-separated fields are the assignment, `numactl -N node --preferred node`, then the command's own fields |
| `Launch.NoDeviceCommandLine` | cuda_gpupick/cuda_gpupick.py:153-164 | with no device requested, the line is the empty assignment, two spaces and the command |
| `GpuPick.Select` | cuda_gpupick/cuda_gpupick.py:42-128 | the inventory failure if and only if too many devices are requested; otherwise the idle-count failure if and only if too few are idle; past those, the index failure if and only if the first ranked index is 64 (only possible with more than 64 devices), and the seed failure if and only if the index check passes and the seed's score is exactly 64; a success picks exactly n devices |
| `GpuPick.Pick` | cuda_gpupick/cuda_gpupick.py:36-164 | with n = 0 the plan is no device and the bare command line; with n >= 1 a plan's devices are the selection's |
| `GpuPick.SelectDevices` | cuda_gpupick/cuda_gpupick.py:42-128 | the imperative picking path returns `Select` for the stable ranking of the computed scores |
| `GpuPick.ReadNodes` | cuda_gpupick/cuda_gpupick.py:137-140 | the loop reads exactly the chosen devices' nodes, in order |
| `GpuPick.PickDevices` | cuda_gpupick/cuda_gpupick.py:36-164 | the imperative main returns `Pick` for the stable ranking of the computed scores |
| `GpuPick.SelectionFromReach` | cuda_gpupick/cuda_gpupick.py:101-128 | past the seed checks, the outcome is the reach's first n devices, or the ceiling failure when the reach holds fewer |
| `GpuPick.ChosenDevices` | cuda_gpupick/cuda_gpupick.py:91-128 | picked devices are the seed, then distinct free devices within the ceiling by level and ranking, and no device left out is nearer to the seed than one picked |
| `GpuPick.ReachPrefixNearestFirst` | cuda_gpupick/cuda_gpupick.py:123-128 | every non-empty prefix of the reach keeps that nearest-first shape |
| `GpuPick.SeedIdle` | cuda_gpupick/cuda_gpupick.py:80-99 | without INTERNAL pairs, once the idle count passes, the seed is idle and its score is below 64 |
| `GpuPick.NoBusyDeviceChosen` | cuda_gpupick/cuda_gpupick.py:94-128 | without INTERNAL pairs, the seed check never fails and every picked device is idle |
| `GpuPick.BusySeedChosenAsWritten` | cuda_gpupick/cuda_gpupick.py:96-99 | on a board with an INTERNAL pair, with devices 0 and 1 busy, one requested device picks busy device 0 |
| `GpuPick.AllBusyFails` | cuda_gpupick/cuda_gpupick.py:42-83 | with every device busy the outcome is the inventory failure or the idle-count failure, never a later one |
| `GpuPick.PickOutcome` | cuda_gpupick/cuda_gpupick.py:142-146 | a selection failure is main's failure; a successful selection fails if and only if -f is absent and some picked device's node differs from the first's, reporting the distinct nodes |
| `GpuPick.LaunchLine` | cuda_gpupick/cuda_gpupick.py:142-164 | a plan binds to the smallest node of the picked devices, which without -f all share, and its line splits into the device list, the numactl words and the command's fields |

## Left out

- The NVML calls (driver version, device count, handles, names, process
  lists, topology) are not modelled. Their results enter as `procCount` and `dist`.
- The memory and utilisation figures are not modelled; they are only printed
  and decide nothing.
- Reading `/sys/class/pci_bus/<bus>/device/numa_node` and slicing the PCI
  bus id are not modelled. They enter as `numaOf`. A file that does not hold
  an integer is not modelled either.
- Argument parsing, every `print` and the terminal colours are not modelled.
  The failure messages are distinct `Failure` constructors, not text.
- `exit(-1)` becomes an `Err` result. `os.system` is not modelled: the model
  stops at the line it would run.
- `nvmlInit`/`nvmlShutdown` are not modelled, and neither are NVML errors.
- `setup.py` (packaging) is not part of this model.
- A negative `-n` is excluded by `n: nat`. In the source it reaches neither
  branch at lines 36 and 153; line 156 still runs, and line 157 then fails on
  the unbound name `chosen_gpus_indices`.
- GpuPick.Select: the lemmas take any ranking that satisfies `IsRanking`,
  since numpy's default argsort is not stable. The executable methods use
  `Ranking.Argsort`, which breaks ties by index. The model does not say which
  tie order numpy produces.
- Launch.CommandLineFields: command words that contain spaces are joined as
  they are. The model does not say how a shell would re-split them.
