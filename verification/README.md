# DiscoNet discovery scan, modelled in Dafny

DiscoNet's `DiscoveryScan` logs in over SSH to every host of a list of IPv4
networks. It runs a batch of CLI commands on each host and writes what
each command prints into an Excel workbook, one sheet per command. This
project models the engine of that scan (`DiscoNet/discoveryscan.py`):

- **Target expansion** (module `Networks`). Each network of the comma-separated
  target list becomes the host addresses it holds, or its network address when it
  is a single address. The targets are printed in dotted-quad form. The worker count
  is the target count, capped at twice the processor count.
- **The metadata sheet** (module `Discovery`). The "Discovery" sheet records the
  timestamp, the target list, the credentials, and the command lines, numbered from 1
  and right-stripped.
- **The workbook writer** (module `Report`, `_DiscoveryWorkbook`). A class whose
  sheet list `new_sheet` extends by exactly one sheet.
- **The work queue** (module `Jobs`, the `JoinableQueue`). A class holding the
  queued items (hosts or the `None` sentinel) and the count of items not yet
  acknowledged with `task_done`. Two ghost logs record every item ever put and
  every item ever taken, and the queue keeps them in first-in first-out order:
  the items taken, followed by those still queued, are the items put. The function `WorkerPass` says which hosts one
  worker's loop takes, what it leaves behind, and whether it stops at a sentinel.
- **The per-host session** (module `Protocol`). The session is stated as the list of
  sheets it writes, given an oracle `Remote` that replaces SSH:
  - a host whose probe fails writes nothing;
  - the banner is the bytes of the first read. The marker `Type help or '?' for a
    list of available commands.` is looked for in `str()` of those bytes, which is
    their `b'...'` display form (`Text.BytesRepr`). A banner where the marker is found
    makes the host pager-style, so each command is wrapped in `term pager 0` and `exit`.
    The display form escapes the marker's `'` whenever the banner also holds a `"`.
    So a banner holding the marker and a `"` is not pager-style (`Protocol.IsPagerSpec`);
  - a command whose execution or capture fails is skipped;
  - a captured command gets a sheet. Its first row is the framed command, and the
    following rows are its output lines, right-stripped.
- **The sheet index `x`.** The index is written as the code has it: `x` advances only
  in the `except` branch of the cleanup that closes the handles. So when cleanup
  succeeds, every section of a host is titled `host-1`. Lemmas show when titles are
  reused and when they come out distinct.
- **The worker and `_start`** (class `Discovery.DiscoveryScan`). These are imperative
  methods over the queue and the workbook:
  - `_run` is `Run` / `Serve` / `ServeOne` / `ScanHost` / `WriteSections` / `RunCommand`;
  - `_start` is `Start`, which runs the workers, puts one sentinel per worker still
    alive (`PutSentinels`), lets those workers finish (`JoinWorkers`, `ResumeWorker`),
    and calls back once. A ghost history `runs` records how each stretch of a worker's
    loop left off: `Drained` (the queue was empty at line 85), `Stopped` (it took a
    sentinel) or `Blocked` (it is still waiting in `get`). Only `Run` and `Serve`
    extend it;
  - each method's `ensures` ties the new workbook and queue to the specification
    functions `HostSheets`, `RunSheets` and `WorkerPass`. `Wrote(after, before, hosts, …)`
    says that `after` is `before` followed by `RunSheets(hosts, …)`.

In the code, a successful command does not advance the sheet index.
`SheetIndexReused` states the consequence: when no cleanup raises, all of a
host's sections share one title. Advancing after every command would give
distinct titles, and the code does not do that. A host whose probe fails
(connect, shell or banner read) is skipped.

## Model

| member | source | states |
|---|---|---|
| Report.Workbook.constructor | DiscoNet/discoveryscan.py:18-21 | A new writer has its path, is not yet initialised, and has no sheet. |
| Report.Workbook.NewSheet | DiscoNet/discoveryscan.py:23-31 | `new_sheet` appends exactly one sheet with the given title and rows. Earlier sheets are kept unchanged, and the file is initialised afterwards. |
| Networks.Hosts | DiscoNet/discoveryscan.py:59-62 | `hosts()` of a network of more than one address yields at least two addresses. |
| Networks.NetTargets | DiscoNet/discoveryscan.py:59-65 | The addresses a network enqueues: at least one, all inside the network, strictly ascending. |
| Networks.NetTargetsExcludeNetworkAndBroadcast | DiscoNet/discoveryscan.py:59-62 | A network of four or more addresses enqueues exactly the addresses strictly between its network and broadcast addresses, in order, `size - 2` of them. |
| Networks.SingleAddressNetTarget | DiscoNet/discoveryscan.py:63-65 | A single-address network enqueues exactly its network address. |
| Networks.FormatIPv4Injective | DiscoNet/discoveryscan.py:61 | `str(host)` is injective: distinct addresses print as distinct dotted quads. |
| Networks.NetTargetStringsDistinct | DiscoNet/discoveryscan.py:59-65 | One network never puts the same host string on the queue twice. |
| Networks.TargetsLength | DiscoNet/discoveryscan.py:57-65 | The target list is as long as the sum of each network's targets, and at least as long as the network list. |
| Networks.WorkerCount | DiscoNet/discoveryscan.py:67-68 | The worker count is the minimum of the target count and twice the processor count. |
| Text.Rstrip | DiscoNet/discoveryscan.py:78 | `rstrip()` returns a prefix whose last character is not whitespace. Every character it drops is whitespace. |
| Text.SplitLines | DiscoNet/discoveryscan.py:77 | `splitlines()` yields lines free of line breaks, and yields none exactly for the empty string. |
| Text.SplitJoinLines | DiscoNet/discoveryscan.py:77 | `splitlines` undoes `"\n".join` for break-free lines whose last line is non-empty. |
| Text.FindFirst | DiscoNet/discoveryscan.py:102 | `find` returns the first occurrence of the pattern, and -1 exactly when there is none. |
| Text.NatToString | DiscoNet/discoveryscan.py:130 | `str(x)` is a non-empty string of decimal digits with no leading zero: it starts with `0` only for `x == 0`. |
| Text.NatToStringValue | DiscoNet/discoveryscan.py:130 | Reading `str(x)` back as decimal gives `x`. |
| Discovery.MetadataRows | DiscoNet/discoveryscan.py:70-79 | The metadata rows: the timestamp, networks, username and password rows, the "Commands:" row, then the i-th command line right-stripped and numbered `i + 1`. |
| Discovery.MetadataListsCommands | DiscoNet/discoveryscan.py:76-79 | For a batch written one command per line, the numbered rows hold exactly the commands, in order. |
| Discovery.DiscoveryScan.constructor | DiscoNet/discoveryscan.py:47-81 | `__init__`: every target is queued as an unacknowledged host, in list order, and the queue's log of items put is exactly those hosts; nothing has been taken and no worker has run. The worker count is the capped target count, and at least 1 when anything is queued. The workbook holds just the "Discovery" metadata sheet. |
| Discovery.DiscoveryScan.EnqueueNet | DiscoNet/discoveryscan.py:59-65 | One network appends its targets to the queue and adds their number to the target count. |
| Jobs.JobQueue.constructor | DiscoNet/discoveryscan.py:54 | A new queue is empty, with nothing unacknowledged, nothing put and nothing taken. |
| Jobs.JobQueue.Put | DiscoNet/discoveryscan.py:61 | `put` appends the item to the queue and to the log of items put, and counts one more unacknowledged item. The first-in first-out invariant is kept. |
| Jobs.JobQueue.Get | DiscoNet/discoveryscan.py:92 | `get` removes and returns the head item and appends it to the log of items taken. The first-in first-out invariant is kept. |
| Jobs.JobQueue.TaskDone | DiscoNet/discoveryscan.py:94 | `task_done` acknowledges one item and leaves the items and both logs alone. |
| Jobs.JobQueue.Empty | DiscoNet/discoveryscan.py:85 | `empty()` holds exactly when no item is queued. |
| Jobs.FirstStop | DiscoNet/discoveryscan.py:91-95 | A worker's loop stops at the first sentinel, or at the end. Everything before that point is a host. |
| Jobs.WorkerPassSpec | DiscoNet/discoveryscan.py:91-95 | A worker's pass scans exactly the hosts before the first sentinel and leaves what follows it. It stops exactly when there is a sentinel. |
| Jobs.HostsOfHosts | DiscoNet/discoveryscan.py:91-95 | The hosts drawn from a list of items are exactly its host items. |
| Jobs.HostsOfHostItems | DiscoNet/discoveryscan.py:61 | Queuing hosts and reading them back gives the same hosts. |
| Jobs.AllHostsServed | DiscoNet/discoveryscan.py:91-95 | A queue with no sentinel is scanned to its end and left empty. |
| Jobs.StopAtHead | DiscoNet/discoveryscan.py:92-95 | A sentinel at the head stops the worker at once, taking only the sentinel. |
| Text.ReprOccurs | DiscoNet/discoveryscan.py:102 | Take a printable pattern that holds a `'` but no `"` or `\`, does not end with `'`, and does not start with a character that can follow a `\` in an escape. Such a pattern occurs in `str()` of some bytes exactly when it occurs in the bytes read as text and the bytes hold no `"`. |
| Protocol.IsPagerSpec | DiscoNet/discoveryscan.py:100-103 | A host is pager-style exactly when the marker occurs in its banner bytes and the banner holds no `"`. |
| Protocol.FramedFirstRow | DiscoNet/discoveryscan.py:113-123 | A section's first row is the framed command right-stripped. That is `term pager 0\n<cmd>\nexit` on a pager-style host, and the right-stripped command otherwise. |
| Protocol.SheetNameInjective | DiscoNet/discoveryscan.py:130 | Titles `host-x` of one host are equal only for equal indices. |
| Protocol.OutputRowsAt | DiscoNet/discoveryscan.py:126-127 | The i-th output row is the i-th output line, right-stripped. |
| Protocol.SectionOfCaptured | DiscoNet/discoveryscan.py:122-127 | A captured command's section is its framed text right-stripped, followed by its output rows. |
| Protocol.WrittenMembers | DiscoNet/discoveryscan.py:111-130 | Exactly the captured commands get a section. |
| Protocol.WrittenAscending | DiscoNet/discoveryscan.py:111-130 | Sections are written in command order. |
| Protocol.SectionsForAt | DiscoNet/discoveryscan.py:130-137 | The i-th section belongs to the i-th captured command. Its title index is the start index plus the cleanups that raised before it. |
| Protocol.SheetsFromWritten | DiscoNet/discoveryscan.py:110-137 | A host's sheets are the sections of its captured commands, in order. |
| Protocol.SheetsFromShape | DiscoNet/discoveryscan.py:110-137 | A host's sheets: one per captured command, in command order, each with that command's section, titled by index as above. |
| Protocol.SheetIndexReused | DiscoNet/discoveryscan.py:130-137 | If no cleanup raises, every section of the host is titled `host-x` with the same `x`. |
| Protocol.SheetIndexAdvances | DiscoNet/discoveryscan.py:130-137 | If every command is captured and every cleanup raises, the sections are titled `host-x`, `host-(x+1)`, and so on. |
| Protocol.SheetNamesDistinctWhenCleanupsFail | DiscoNet/discoveryscan.py:130-137 | In that case no two sections of a host share a title. |
| Protocol.AllCapturedSheetCount | DiscoNet/discoveryscan.py:110-137 | A host where every command is captured gets one section per command. |
| Protocol.UnreachableHostWritesNothing | DiscoNet/discoveryscan.py:98-107 | A host whose connect or probe fails writes no sheet. |
| Protocol.HostSheetsFraming | DiscoNet/discoveryscan.py:113-123 | Every sheet of a pager-style host starts with a command wrapped in `term pager 0` and `exit`. On other hosts, every sheet starts with the bare command. |
| Protocol.RunSheetsAppend | DiscoNet/discoveryscan.py:91-138 | Scanning the hosts of `a` then those of `b` writes the sheets of `a`, then those of `b`. |
| Protocol.FullRunSheetCount | DiscoNet/discoveryscan.py:97-138 | With every host reachable and every command captured, a run writes one sheet per host and command. |
| Discovery.DiscoveryScan.ScanHost | DiscoNet/discoveryscan.py:97-138 | One host: the workbook gains exactly that host's sheets, and the host is acknowledged once. |
| Discovery.DiscoveryScan.WriteSections | DiscoNet/discoveryscan.py:109-137 | The command loop appends exactly the sheets its commands produce, starting at index 1. |
| Discovery.DiscoveryScan.RunCommand | DiscoNet/discoveryscan.py:111-137 | One command writes its section only when captured. The index advances only when the cleanup raised. |
| Discovery.DiscoveryScan.ServeOne | DiscoNet/discoveryscan.py:91-138 | One pass of the worker loop: take the head item, which the log of items taken gains. A sentinel is acknowledged and stops the worker; a host is scanned and acknowledged. |
| Discovery.DiscoveryScan.Serve | DiscoNet/discoveryscan.py:91-138 | The worker loop scans exactly the hosts `WorkerPass` says, in order, and leaves the rest queued. The workbook gains exactly their sheets. Every item taken is acknowledged. It stops exactly when it reaches a sentinel; otherwise it waits on the empty queue. It puts nothing, and the run history gains how it left off. |
| Discovery.DiscoveryScan.Run | DiscoNet/discoveryscan.py:84-138 | `_run`: on an empty queue, return at once and change nothing but the run history, which gains `Drained`; otherwise behave as the loop above. |
| Discovery.DiscoveryScan.PutSentinels | DiscoNet/discoveryscan.py:152-154 | One `None` is put for each worker still waiting: the queue and the log of items put each gain exactly that many sentinels, each unacknowledged, and nothing is taken. |
| Discovery.DiscoveryScan.ResumeWorker | DiscoNet/discoveryscan.py:91-95 | A waiting worker, facing only sentinels, takes exactly one, acknowledges it and stops; the run history gains `Stopped` and no sheet is written. |
| Discovery.DiscoveryScan.JoinWorkers | DiscoNet/discoveryscan.py:155-157 | With one sentinel queued per waiting worker, each waiting worker takes one and stops and the others are left as they were; the queue ends empty and acknowledged, the log of items taken gains exactly those sentinels, the run history gains one `Stopped` per waiting worker, and no sheet is written. |
| Discovery.DiscoveryScan.Start | DiscoNet/discoveryscan.py:140-159 | `_start`: with nothing queued, start no worker and do not call back. Otherwise `m` workers run, and every queued host is scanned exactly once, in queue order. The run history gains the `m` workers' exits followed by one `Stopped` per worker still waiting. The log of items put gains exactly that many sentinels and nothing else. The log of items taken gains every queued host, in order, then those sentinels. No worker is left waiting, the queue ends empty and fully acknowledged, and the callback runs once when given. |
| Discovery.FullScanSheetCount | DiscoNet/discoveryscan.py:57-138 | With every target reachable and every command captured, a scan writes one sheet per target and command. |

## Left out

- SSH (paramiko) is replaced by the `Remote` oracle:
  - the probe outcome of each host;
  - the outcome of each command on each host: execution failed, capture failed, or captured output plus whether the cleanup raised.
  An unlisted host is unreachable, and an unlisted command fails to execute. Timeouts, host keys and authentication are inside that oracle.
- The oracle gives a host the same outcomes every time it is scanned. A host listed twice in the targets therefore behaves the same both times.
- The banner is the whole of what the first read returns. The 65535-byte limit of that read is not modelled.
- Concurrency is not modelled. The worker processes run one after another: the first drains the queue and is left waiting in `get`, and the others find the queue empty and return. Other interleavings (hosts split among workers, sheets of different hosts interleaved) are not modelled, and neither is the workbook lock.
- Discovery.DiscoveryScan.Start: requires that the queue holds only hosts, as after `__init__`. The `try`/`finally` around starting the processes is not modelled, since starting a process is not modelled.
- Discovery.DiscoveryScan.Start: the callback is a flag, and its effect is the count of calls.
- The public `start(cb)` (lines 160-175) is not part of this model. It only calls `_start`, either directly or on a thread when a callback is given.
- The command-line entry point (`_main`) is not part of this model.
- The workbook on disk is its list of sheets. Loading, saving and the xlsx format are not modelled.
- Report.Workbook.NewSheet: keeps a repeated title as given. openpyxl would give it a numeric suffix to keep titles distinct; that renaming is outside this model.
- An exception from `new_sheet` is not modelled. openpyxl raises one for a title or a row it refuses, such as output holding control characters. The worker process then dies on that host, without `task_done` (line 138), and with the lock taken at line 24 still held. So `q.join()` (line 150) never returns: the whole scan hangs and the callback never runs.
- Target parsing (`subnets.split(',')` and `ipaddress.ip_network`) is not modelled. The constructor takes the parsed networks, with their base addresses aligned (strict `ip_network` refuses host bits), next to the original text, which goes into the metadata sheet. A malformed target, which raises in the source, is therefore not modelled.
- IPv6 targets are not modelled.
- Networks.Hosts: a /31 yields both of its addresses (RFC 3021), as recent Python versions do. Older versions yielded none.
- `datetime.utcnow()` is the `now` parameter, already formatted. `cpu_count()` is the `cpus` parameter.
- A partial capture failure is modelled as `CaptureFailed`. The exception after some output lines were read discards the section, just as a failure before any line does.
