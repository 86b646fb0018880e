# host-stats-logger: one sampling cycle

`host-stats-logger.py` is a small agent that, forever and at a fixed
interval, samples CPU, memory, disk and network usage through psutil and logs
one line holding a Python `dict` of the enabled sections. This project
models one pass of that loop in Dafny: how the record `log_msg` is built from
the configuration and from psutil's answers, and how the logged line is
formed from it.

The model has six modules in six files:

- `PyValues` (`values.dfy`): the Python values the record is made of (`int`,
  `float`, `str`, `list`, `dict`).
- `Text` (`text.dfy`): Python 2's `str.split(',')` and `str.strip()`, with the
  split/join round trip and what strip removes.
- `Host` (`host.dfy`): the configuration flags with their command-line
  defaults, and psutil's answers as values: both `cpu_percent` answers,
  `virtual_memory()`, `disk_usage` as a function from path to usage or
  `OSError`, `disk_partitions()`, and both `net_io_counters` answers.
- `Record` (`record.dfy`): the record and the log line as functions of the
  inputs (the specification). `RecordProperties` (`properties.dfy`) holds the
  lemmas about them.
- `StatsLogger` (`cycle.dfy`): the loop body as methods that work like the
  source. `log_msg` is filled section by section, the mount list is built by
  appending, and the disk and per-NIC maps are filled key by key. Each method
  is proved equal to its specification.

`to_gb` and Python's `str()` of the record are parameters (`toGb`,
`render`) and are never given a body. So every property holds whatever they
compute.

Only the exact `--diskpaths` value `all` asks for partition discovery. Any
other value, `default` included, is split as a comma-separated list. The
container-aggregator variant of the agent is not part of this model. That
variant has averaged disk statistics, hostname resolution and a `key`
wrapper.

## Model

| member | source | states |
|---|---|---|
| `StatsLogger.Cycle` | host-stats-logger.py:50-156 | the record built section by section equals `Record.LogMsg`, and the logged line is the stripped prefix-space-rendering (equal to the intended line as well) |
| `StatsLogger.DiskUsageDict` | host-stats-logger.py:85-108 | the entry filled field by field inside try/except equals `Record.DiskEntry` of the mount's own `disk_usage` answer |
| `StatsLogger.ResolveMounts` | host-stats-logger.py:110-119 | the mounts appended in either loop are the discovered mount points for "all", otherwise the stripped comma-separated pieces (`Record.Mounts`) |
| `StatsLogger.BuildDiskSection` | host-stats-logger.py:121-123 | the disk map filled mount by mount equals `Record.DiskSection`: one key per mount, each holding that mount's entry |
| `StatsLogger.BuildInterfaces` | host-stats-logger.py:146-149 | the interfaces map filled in any iteration order has exactly the reported interface names, each mapped to its counters as a dict |
| `RecordProperties.SectionsMatchFlags` | host-stats-logger.py:50-149 | the record has `cpu`, `memory`, `disk`, `network` each exactly when its flag is set, and no other key |
| `RecordProperties.CpuIsAlwaysList` | host-stats-logger.py:54-61 | `utilization_pct` is always a list, `[reading]` when combined, else the per-CPU readings in order; status is "OK"; no other key |
| `RecordProperties.ExplicitMounts` | host-stats-logger.py:116-119 | for any value other than "all": one mount per piece (commas + 1), in order, each piece stripped; pieces hold no comma and join back to the option; an empty piece gives an empty mount |
| `RecordProperties.DiscoveredMounts` | host-stats-logger.py:112-115 | for "all": the mounts are the partitions' mount points, same count and order |
| `RecordProperties.DiskEntryShape` | host-stats-logger.py:92-106 | on success exactly total, percent, used, free and status "OK"; on OSError exactly the failure status and no figures |
| `RecordProperties.DiskKeysAreMounts` | host-stats-logger.py:121-123 | a key is in the disk map iff it is a resolved mount, and each entry comes from that mount's own answer |
| `RecordProperties.FailureIsIsolated` | host-stats-logger.py:85-123 | making one mount raise OSError gives it the failure status and leaves the keys and every other mount's entry unchanged |
| `RecordProperties.UnitsFollowAsBytes` | host-stats-logger.py:70-101 | with `asbytes` memory and disk byte figures are the raw numbers, otherwise `to_gb` of them; percent is never converted; memory has exactly its six keys |
| `RecordProperties.NetworkIsAlwaysMapping` | host-stats-logger.py:127-149 | `interfaces` is always a dict: only `allnic` with the aggregate counters without `pernic`, else exactly the reported names with their counters; status "OK" |
| `RecordProperties.MessageAlwaysPrefixed` | host-stats-logger.py:151-156 | the logged line is always `(prefix + " " + rendering).strip()` |
| `RecordProperties.DefaultPrefixMessage` | host-stats-logger.py:215-221 | with the default empty prefix the line is the stripped rendering |
| `RecordProperties.PrefixGuardAlwaysHolds` | host-stats-logger.py:153 | the guard `prefix is not None or prefix != ""` is true for every prefix, "" and None included |
| `RecordProperties.IntendedMessageRule` | host-stats-logger.py:153-154 | with the intended guard a non-empty prefix and a space go in front, an empty prefix adds nothing |
| `RecordProperties.MessageMatchesIntended` | host-stats-logger.py:151-156 | because the line is stripped, the line as written equals the line with the intended guard for every prefix |
| `RecordProperties.DefaultCycle` | host-stats-logger.py:160-233 | with every command-line default the record is empty and the line is the stripped rendering of `{}` |
| `Text.StripSpec` | host-stats-logger.py:119 | `strip()` returns `s[i..j]` where everything before `i` and from `j` on is whitespace, and the result neither starts nor ends with whitespace |
| `Text.StripUnique` | host-stats-logger.py:119 | any piece of `s` with whitespace before and after it and none at its own ends is exactly what `strip()` returns |
| `Text.SkipSpacesSpec` | host-stats-logger.py:119 | the scan for the start of the stripped text stops at the first non-whitespace character, passing only whitespace |
| `Text.BackSpacesSpec` | host-stats-logger.py:119 | the scan for the end of the stripped text stops just after the last non-whitespace character, passing only whitespace |
| `Text.StripTrimmed` | host-stats-logger.py:119 | a string with no whitespace at either end is returned unchanged |
| `Text.StripIdempotent` | host-stats-logger.py:119 | stripping twice gives the same as stripping once |
| `Text.StripSpaceCons` | host-stats-logger.py:156 | a leading whitespace character does not change the stripped result |
| `Text.Split` | host-stats-logger.py:117 | `split(',')` returns at least one piece and no piece holds the separator |
| `Text.SplitLength` | host-stats-logger.py:117 | `split(',')` returns one piece more than there are commas |
| `Text.JoinSplit` | host-stats-logger.py:117 | joining the pieces with the separator gives back the original string |
| `Text.SplitJoin` | host-stats-logger.py:117 | splitting a join of separator-free pieces gives back the pieces |
| `Host.AsDict` | host-stats-logger.py:143 | `_asdict()` of the network counters has exactly the eight counter names |
| `Host.AsDictFaithful` | host-stats-logger.py:143 | the counters can be read back unchanged from that dict |
| `PyValues.FloatList` | host-stats-logger.py:55 | the per-CPU list holds one float per reading, in order |

## Findings

| source | as written | input that shows it | evidently intended | confidence | as-written member | corrected member |
|---|---|---|---|---|---|---|
| host-stats-logger.py:153 | `prefix is not None or prefix != ""` is true for every value, so the prefix and a space are always prepended | prefix `""` (the default): the guard is true | `prefix is not None and prefix != ""` | not executed; the guard is certainly a tautology; the output is unaffected because the line is stripped | `Record.PrefixGuard` (shown by `RecordProperties.PrefixGuardAlwaysHolds`) | `Record.IntendedPrefixGuard` (`RecordProperties.IntendedMessageRule`; `RecordProperties.MessageMatchesIntended` proves the emitted line is the same, and `StatsLogger.Cycle` ensures it) |

## Left out

- Logging setup and the configuration banner (host-stats-logger.py:10-17, 30-45). They only write to the process-wide logger.
- `psutil.PROCFS_PATH` and the psutil calls themselves. Their answers are inputs (`Host.Readings`), and the `OSError` of `disk_usage` is the `OsError` variant.
- Failures of `cpu_percent`, `virtual_memory`, `disk_partitions` and `net_io_counters`. These are not caught in the source, so they end the process. The model assumes these calls answer.
- `to_gb`'s float arithmetic (`round(float(n) / 1e9, 2)`) is the uninterpreted parameter `toGb`. No rounding fact is stated.
- Python floats are `real`. The cycle only copies them.
- Python's `str()` of the record is the uninterpreted parameter `render`.
- Dict ordering is not modelled. Python 2 dicts are unordered, and the rendering is abstract.
- The `while True` loop and `time.sleep(frequency)` are left out. A single cycle is modelled, and `frequency` is not part of `Host.Config`.
- Command-line registration (host-stats-logger.py:160-233) is left out. Only its defaults are kept (`Host.DefaultConfig`); `procpath` is not modelled.
- `disk_usage` is a function of the path. The model therefore assumes a mount listed twice gets the same answer both times. The source asks twice, and the later answer wins.
- `virtual_memory()` fields other than total, available, percent, used and free are not modelled. The cycle does not read them.
- Strings are sequences of characters. `strip()` removes Python 2's six ASCII whitespace characters, and encodings are not modelled.
- A `None` prefix is not modelled. The prefix option always holds a string, and the guard would let `None` through to a `TypeError`.
