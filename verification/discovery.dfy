/**
 * The discovery scan (`DiscoveryScan`): the constructor expands the target
 * networks onto the work queue, sizes the worker pool and writes the
 * "Discovery" metadata sheet; each worker then takes hosts off the queue and
 * writes one sheet per captured command; `_start` runs the workers, stops
 * the ones still waiting with one sentinel each, and calls the callback.
 *
 * The workers run one after another rather than as processes: the first
 * drains the queue and is left waiting, the others find the queue empty.
 */
module Discovery {
  import opened Text
  import opened Networks
  import opened Report
  import opened Jobs
  import opened Protocol

  /**
   * The rows of the "Discovery" sheet (lines 70-79): the timestamp, the
   * target list, the credentials, a "Commands:" heading, then each command
   * line right-stripped and numbered from 1.
   */
  ghost predicate IsMetadata(rows: seq<Row>, now: string, subnets: string, username: string, password: string, commands: string) {
    var lines := SplitLines(commands);
    && |rows| == 5 + |lines|
    && rows[0] == [Str("Timestamp:"), Str(now)]
    && rows[1] == [Str("Networks:"), Str(subnets)]
    && rows[2] == [Str("Username:"), Str(username)]
    && rows[3] == [Str("Password:"), Str(password)]
    && rows[4] == [Str("Commands:")]
    && forall i :: 0 <= i < |lines| ==> rows[5 + i] == [Num(i + 1), Str(Rstrip(lines[i]))]
  }

  /** Builds the metadata rows, numbering the command lines as it goes. */
  method MetadataRows(now: string, subnets: string, username: string, password: string, commands: string)
    returns (ws: seq<Row>)
    ensures IsMetadata(ws, now, subnets, username, password, commands)
  {
    ws := [];
    ws := ws + [[Str("Timestamp:"), Str(now)]];
    ws := ws + [[Str("Networks:"), Str(subnets)]];
    ws := ws + [[Str("Username:"), Str(username)]];
    ws := ws + [[Str("Password:"), Str(password)]];
    ws := ws + [[Str("Commands:")]];
    var lines := SplitLines(commands);
    var x := 1;
    for j := 0 to |lines|
      invariant x == j + 1
      invariant |ws| == 5 + j
      invariant ws[0] == [Str("Timestamp:"), Str(now)] && ws[1] == [Str("Networks:"), Str(subnets)]
      invariant ws[2] == [Str("Username:"), Str(username)] && ws[3] == [Str("Password:"), Str(password)]
      invariant ws[4] == [Str("Commands:")]
      invariant forall i :: 0 <= i < j ==> ws[5 + i] == [Num(i + 1), Str(Rstrip(lines[i]))]
    {
      ws := ws + [[Num(x), Str(Rstrip(lines[j]))]];
      x := x + 1;
    }
  }

  /**
   * The metadata sheet lists the batch back: for commands written one per
   * line, without trailing blanks and with a non-empty last line, the
   * numbered rows hold exactly those commands, in order.
   */
  lemma MetadataListsCommands(rows: seq<Row>, now: string, subnets: string, username: string, password: string, cmds: seq<string>)
    requires forall i :: 0 <= i < |cmds| ==> NoBreak(cmds[i]) && Rstrip(cmds[i]) == cmds[i]
    requires cmds != [] ==> cmds[|cmds| - 1] != []
    requires IsMetadata(rows, now, subnets, username, password, JoinLines(cmds))
    ensures |rows| == 5 + |cmds|
    ensures forall i :: 0 <= i < |cmds| ==> rows[5 + i] == [Num(i + 1), Str(cmds[i])]
  {
    SplitJoinLines(cmds);
  }

  class DiscoveryScan {
    const username: string
    const password: string
    /** The command batch, one command per line. */
    const commands: string
    const q: JobQueue
    const wb: Workbook
    /** The number of workers to start. */
    const m: nat
    /**
     * How each stretch of a worker's loop left off, in order: a worker's
     * first run, and the rest of its loop once a sentinel has been put.
     */
    ghost var runs: seq<WorkerExit>

    ghost predicate Valid()
      reads this, q, wb
    {
      wb.Valid() && q.Valid()
    }

    /** The command lines (`self.c.splitlines()`). */
    function Commands(): seq<string> {
      SplitLines(commands)
    }

    /**
     * `__init__` (lines 48-81). `nets` is the target list `subnets` already
     * parsed into networks, `now` the timestamp text and `cpus` the
     * processor count. Every target goes on the queue as an unfinished host,
     * the worker count is the target count capped at twice the processors,
     * and the workbook is started with the metadata sheet.
     */
    constructor (workbook: string, subnets: string, nets: seq<IPv4Net>, username: string, password: string,
                 commands: string, now: string, cpus: nat)
      requires cpus >= 1
      ensures Valid() && fresh(q) && fresh(wb)
      ensures this.username == username && this.password == password && this.commands == commands
      ensures q.items == HostItems(Targets(nets)) && q.unfinished == |q.items|
      ensures q.put == q.items && q.got == [] && runs == []
      ensures m == WorkerCount(|Targets(nets)|, cpus)
      ensures q.items != [] ==> m >= 1
      ensures wb.path == workbook && wb.init && |wb.sheets| == 1 && wb.sheets[0].name == "Discovery"
      ensures IsMetadata(wb.sheets[0].rows, now, subnets, username, password, commands)
    {
      this.username := username;
      this.password := password;
      this.commands := commands;
      var queue := new JobQueue();
      var count: nat := 0;
      for n := 0 to |nets|
        invariant fresh(queue) && queue.Valid()
        invariant queue.items == HostItems(Targets(nets[..n])) && queue.got == []
        invariant queue.unfinished == |queue.items| == count
      {
        TargetsSnoc(nets, n);
        HostItemsAppend(Targets(nets[..n]), NetTargetStrings(nets[n]));
        var added := EnqueueNet(queue, nets[n]);
        count := count + added;
      }
      assert nets[..|nets|] == nets;
      if 2 * cpus < count {
        count := 2 * cpus;
      }
      var ws := MetadataRows(now, subnets, username, password, commands);
      var book := new Workbook(workbook);
      book.NewSheet("Discovery", ws);
      q := queue;
      wb := book;
      m := count;
      runs := [];
    }

    /**
     * One network of the target list (lines 59-65): a network of more than
     * one address puts each of its hosts on the queue, a single-address
     * network its network address; each counts as one target.
     */
    static method EnqueueNet(queue: JobQueue, net: IPv4Net) returns (added: nat)
      requires queue.Valid()
      modifies queue
      ensures queue.Valid()
      ensures queue.items == old(queue.items) + HostItems(NetTargetStrings(net))
      ensures queue.got == old(queue.got)
      ensures queue.unfinished == old(queue.unfinished) + added
      ensures added == |NetTargets(net)|
    {
      added := 0;
      ghost var t := NetTargetStrings(net);
      if Size(net) > 1 {
        var hs := Hosts(net);
        assert hs == NetTargets(net);
        for k := 0 to |hs|
          invariant queue.Valid()
          invariant queue.items == old(queue.items) + HostItems(t[..k])
          invariant queue.got == old(queue.got)
          invariant queue.unfinished == old(queue.unfinished) + k && added == k
        {
          queue.Put(Host(FormatIPv4(hs[k])));
          added := added + 1;
          assert t[..k + 1] == t[..k] + [t[k]];
        }
        assert t[..|hs|] == t;
      } else {
        queue.Put(Host(FormatIPv4(net.base)));
        added := added + 1;
        assert t == [FormatIPv4(net.base)];
      }
    }

    /**
     * One host of `_run` (lines 97-138), once it has been taken off the
     * queue: probe the host for its device class, write the sections of its
     * commands, and acknowledge the host. A failed probe acknowledges the
     * host and writes nothing.
     */
    method ScanHost(host: string, remote: Remote)
      requires Valid() && q.unfinished > 0
      modifies q, wb
      ensures Valid()
      ensures wb.sheets == old(wb.sheets) + HostSheets(host, Commands(), remote)
      ensures q.items == old(q.items) && q.unfinished == old(q.unfinished) - 1
      ensures q.put == old(q.put) && q.got == old(q.got)
    {
      var probe := ProbeOf(remote, host);
      if probe.ProbeFailed? {
        q.TaskDone();
        return;
      }
      var pager := false;
      if Find(BytesRepr(probe.bytes), PagerMarker) != -1 {
        pager := true;
      }
      WriteSections(host, pager, remote);
      q.TaskDone();
    }

    /**
     * The command loop of `_run` (lines 109-137): each command is framed for
     * the device class and run; one whose execution or capture fails is
     * skipped; a captured one has its section written under `host-x`, and
     * `x` moves on only when closing the handles afterwards raises.
     */
    method WriteSections(host: string, pager: bool, remote: Remote)
      requires wb.Valid()
      modifies wb
      ensures wb.Valid()
      ensures wb.sheets == old(wb.sheets) + SheetsFrom(host, pager, Commands(), remote, 0, 1)
    {
      var cmds := SplitLines(commands);
      ghost var target := wb.sheets + SheetsFrom(host, pager, cmds, remote, 0, 1);
      var x: nat := 1;
      for j := 0 to |cmds|
        invariant wb.Valid()
        invariant wb.sheets + SheetsFrom(host, pager, cmds, remote, j, x) == target
      {
        ghost var before := wb.sheets;
        var x' := RunCommand(host, pager, cmds, j, x, remote);
        if ExecOf(remote, host, j).Captured? {
          SheetsFromCaptured(host, pager, cmds, remote, j, x);
          ghost var rest := SheetsFrom(host, pager, cmds, remote, j + 1, x');
          assert before + ([Sheet(SheetName(host, x), SectionOf(host, pager, cmds, remote, j))] + rest) == wb.sheets + rest;
        } else {
          SheetsFromSkip(host, pager, cmds, remote, j, x);
        }
        x := x';
      }
    }

    /**
     * One pass of that loop, for command `j` under sheet index `x`: the
     * section is written only when the command was captured, and the next
     * index is `x + 1` only when the cleanup raised.
     */
    method RunCommand(host: string, pager: bool, cmds: seq<string>, j: nat, x: nat, remote: Remote) returns (x': nat)
      requires wb.Valid() && j < |cmds|
      modifies wb
      ensures wb.Valid()
      ensures var e := ExecOf(remote, host, j);
              && wb.sheets == old(wb.sheets) + (if e.Captured? then [Sheet(SheetName(host, x), SectionOf(host, pager, cmds, remote, j))] else [])
              && x' == (if CleanupFailed(e) then x + 1 else x)
    {
      x' := x;
      var command := Frame(pager, cmds[j]);
      var e := ExecOf(remote, host, j);
      if e.ExecFailed? {
        return;
      }
      var ws: seq<Row> := [[Str(Rstrip(command))]];
      if e.CaptureFailed? {
        return;
      }
      var output := e.output;
      for k := 0 to |output|
        modifies {}
        invariant ws == [[Str(Rstrip(command))]] + OutputRows(output[..k])
      {
        OutputRowsSnoc(output, k);
        ws := ws + [[Str(Rstrip(output[k]))]];
      }
      assert output[..|output|] == output;
      SectionOfCaptured(host, pager, cmds, remote, j);
      wb.NewSheet(SheetName(host, x), ws);
      if !e.cleanupOk {
        x' := x + 1;
      }
    }

    /**
     * The loop of `_run` (lines 91-138): take items until a sentinel, which
     * is acknowledged and ends the worker, scanning each host taken. When
     * the queue runs dry first, the worker is left waiting in `get`. Every
     * item taken is acknowledged, nothing is put, and how the loop left off
     * is recorded in `runs`.
     */
    method Serve(remote: Remote) returns (exit: WorkerExit)
      requires Valid() && q.unfinished >= |q.items|
      modifies this, q, wb
      ensures Valid()
      ensures var p := WorkerPass(old(q.items));
              && Wrote(wb.sheets, old(wb.sheets), p.served, Commands(), remote)
              && q.items == p.rest
              && q.unfinished == old(q.unfinished) - (|old(q.items)| - |p.rest|)
              && (exit == Stopped <==> p.stopped)
              && (exit == Blocked <==> !p.stopped)
      ensures q.put == old(q.put) && q.got + q.items == old(q.got) + old(q.items)
      ensures runs == old(runs) + [exit]
    {
      ghost var items := q.items;
      ghost var scanned: seq<string> := [];
      while q.items != []
        invariant Valid()
        invariant |q.items| <= |items|
        invariant q.unfinished == old(q.unfinished) - (|items| - |q.items|)
        invariant WorkerPass(items) == Resume(scanned, WorkerPass(q.items))
        invariant Wrote(wb.sheets, old(wb.sheets), scanned, Commands(), remote)
        invariant q.put == old(q.put) && runs == old(runs)
        decreases |q.items|
      {
        ghost var before := q.items;
        ghost var before' := wb.sheets;
        WorkerPassStep(before);
        var stopped := ServeOne(remote);
        if stopped {
          assert scanned + [] == scanned;
          runs := runs + [Stopped];
          return Stopped;
        }
        ghost var h := before[0].addr;
        ResumeOne(scanned, h, WorkerPass(q.items));
        WroteAppend(wb.sheets, before', old(wb.sheets), scanned, [h], Commands(), remote);
        scanned := scanned + [h];
      }
      assert scanned + [] == scanned;
      runs := runs + [Blocked];
      return Blocked;
    }

    /**
     * One pass of the loop of `_run` (lines 91-138): take the next item; a
     * sentinel is acknowledged and stops the worker, a host is scanned.
     */
    method ServeOne(remote: Remote) returns (stopped: bool)
      requires Valid() && q.items != [] && q.unfinished >= |q.items|
      modifies q, wb
      ensures Valid()
      ensures stopped <==> old(q.items)[0].Stop?
      ensures q.items == old(q.items)[1..] && q.unfinished == old(q.unfinished) - 1
      ensures q.got == old(q.got) + [old(q.items)[0]] && q.put == old(q.put)
      ensures Wrote(wb.sheets, old(wb.sheets), if stopped then [] else [old(q.items)[0].addr], Commands(), remote)
    {
      var item := q.Get();
      if item.Stop? {
        q.TaskDone();
        return true;
      }
      ScanHost(item.addr, remote);
      RunSheetsOne(item.addr, Commands(), remote);
      return false;
    }

    /** `_run` (lines 84-138): a worker that finds the queue empty returns at once. */
    method Run(remote: Remote) returns (exit: WorkerExit)
      requires Valid() && q.unfinished >= |q.items|
      modifies this, q, wb
      ensures Valid()
      ensures old(q.items) == [] ==> exit == Drained && unchanged(q, wb)
      ensures old(q.items) != [] ==>
                var p := WorkerPass(old(q.items));
                && Wrote(wb.sheets, old(wb.sheets), p.served, Commands(), remote)
                && q.items == p.rest
                && q.unfinished == old(q.unfinished) - (|old(q.items)| - |p.rest|)
                && (exit == Stopped <==> p.stopped)
                && (exit == Blocked <==> !p.stopped)
      ensures q.put == old(q.put) && runs == old(runs) + [exit]
    {
      var empty := q.Empty();
      if empty {
        runs := runs + [Drained];
        return Drained;
      }
      exit := Serve(remote);
    }

    /**
     * `_start` (lines 140-159). With nothing queued it returns without
     * starting workers or calling back. Otherwise it runs the `m` workers
     * one after another, waits until every host is acknowledged, puts one
     * sentinel per worker still alive, lets those workers take it, and calls
     * back once. `started` is how each worker's first run left off and
     * `ended` how it finished: the run log gains `started`, then one
     * `Stopped` per sentinel; the queue's log of puts gains the sentinels,
     * and its log of takes gains the hosts, then the sentinels. No worker
     * is left waiting. Every queued host has been scanned exactly once, in
     * queue order, and the queue is empty with nothing unacknowledged.
     */
    method Start(remote: Remote, callback: bool)
      returns (calls: nat, ghost sentinels: nat, ghost started: seq<WorkerExit>, ghost ended: seq<WorkerExit>)
      requires Valid()
      requires forall i :: 0 <= i < |q.items| ==> q.items[i].Host?
      requires q.unfinished == |q.items|
      requires q.items != [] ==> m >= 1
      modifies this, q, wb
      ensures Valid()
      ensures old(q.items) == [] ==>
                calls == 0 && sentinels == 0 && started == [] && ended == [] && unchanged(q, wb) && runs == old(runs)
      ensures old(q.items) != [] ==>
                && calls == (if callback then 1 else 0)
                && |started| == m && |ended| == m
                && sentinels == BlockedCount(started)
                && runs == old(runs) + started + Repeat(Stopped, sentinels)
                && q.put == old(q.put) + Repeat(Stop, sentinels)
                && q.got == old(q.got) + old(q.items) + Repeat(Stop, sentinels)
                && (forall w :: 0 <= w < m ==> ended[w] == (if started[w] == Blocked then Stopped else started[w]))
      // Run one at a time, the first worker scans every host and waits; the others find the queue empty.
      ensures old(q.items) != [] ==> started[0] == Blocked && (forall w :: 1 <= w < m ==> started[w] == Drained)
      ensures forall w :: 0 <= w < |ended| ==> ended[w] != Blocked
      ensures Wrote(wb.sheets, old(wb.sheets), HostsOf(old(q.items)), Commands(), remote)
      ensures q.items == [] && q.unfinished == 0
    {
      calls, sentinels, started, ended := 0, 0, [], [];
      var empty := q.Empty();
      if empty {
        return;
      }
      ghost var items := q.items;
      AllHostsServed(items);
      WorkerPassSpec(items);
      var exits: seq<WorkerExit> := [];
      for w := 0 to m
        invariant Valid()
        invariant |exits| == w
        invariant w == 0 ==> q.items == items && q.unfinished == |items| && wb.sheets == old(wb.sheets)
        invariant w > 0 ==> q.items == [] && q.unfinished == 0 && Wrote(wb.sheets, old(wb.sheets), HostsOf(items), Commands(), remote)
        invariant forall i :: 0 <= i < w ==> exits[i] == (if i == 0 then Blocked else Drained)
        invariant q.put == old(q.put) && runs == old(runs) + exits
      {
        var exit := Run(remote);
        exits := exits + [exit];
      }
      started := exits;
      // `q.join()`: every host has been acknowledged.
      assert q.unfinished == 0;
      assert q.got == old(q.got) + items;
      sentinels := PutSentinels(exits);
      ended := JoinWorkers(exits, remote);
      if callback {
        calls := calls + 1;
      }
    }

    /**
     * Lines 152-154 of `_start`: one sentinel for each worker still alive,
     * i.e. left waiting in `get`; `exits` is how each worker's run left off.
     */
    method PutSentinels(exits: seq<WorkerExit>) returns (ghost sentinels: nat)
      requires Valid()
      modifies q
      ensures Valid()
      ensures sentinels == BlockedCount(exits)
      ensures q.items == old(q.items) + Repeat(Stop, sentinels)
      ensures q.put == old(q.put) + Repeat(Stop, sentinels) && q.got == old(q.got)
      ensures q.unfinished == old(q.unfinished) + sentinels
    {
      sentinels := 0;
      for w := 0 to |exits|
        invariant Valid()
        invariant sentinels == BlockedCount(exits[..w])
        invariant q.items == old(q.items) + Repeat(Stop, sentinels)
        invariant q.put == old(q.put) + Repeat(Stop, sentinels) && q.got == old(q.got)
        invariant q.unfinished == old(q.unfinished) + sentinels
      {
        assert exits[..w + 1][..w] == exits[..w];
        if exits[w] == Blocked {
          q.Put(Stop);
          RepeatSnoc(Stop, sentinels);
          sentinels := sentinels + 1;
        }
      }
      assert exits[..|exits|] == exits;
    }

    /**
     * A worker left waiting on the queue goes on with its loop (lines 85-138)
     * while `k` sentinels are queued: it takes the first one and stops.
     */
    method ResumeWorker(ghost k: nat, remote: Remote) returns (exit: WorkerExit)
      requires Valid() && k >= 1
      requires q.items == Repeat(Stop, k) && q.unfinished == k
      modifies this, q, wb
      ensures Valid() && exit == Stopped
      ensures q.items == Repeat(Stop, k - 1) && q.unfinished == k - 1
      ensures q.put == old(q.put) && q.got == old(q.got) + [Stop]
      ensures runs == old(runs) + [Stopped] && wb.sheets == old(wb.sheets)
    {
      ghost var rest := Repeat(Stop, k - 1);
      assert q.items == [Stop] + rest;
      WorkerPassStops(k);
      exit := Serve(remote);
      AppendCancel(q.got, old(q.got) + [Stop], rest);
    }

    /**
     * Lines 155-157 of `_start`: each worker still alive goes on with its
     * loop, takes a sentinel and stops; the queue then holds nothing. `ended`
     * is how each worker finished.
     */
    method JoinWorkers(exits: seq<WorkerExit>, remote: Remote) returns (ghost ended: seq<WorkerExit>)
      requires Valid()
      requires q.items == Repeat(Stop, BlockedCount(exits)) && q.unfinished == |q.items|
      modifies this, q, wb
      ensures Valid()
      ensures q.items == [] && q.unfinished == 0 && wb.sheets == old(wb.sheets)
      ensures q.put == old(q.put) && q.got == old(q.got) + old(q.items)
      ensures runs == old(runs) + Repeat(Stopped, BlockedCount(exits))
      ensures |ended| == |exits|
      ensures forall w :: 0 <= w < |exits| ==> ended[w] == (if exits[w] == Blocked then Stopped else exits[w])
    {
      ended := [];
      for w := 0 to |exits|
        invariant Valid()
        invariant BlockedCount(exits[..w]) <= BlockedCount(exits)
        invariant q.items == Repeat(Stop, BlockedCount(exits) - BlockedCount(exits[..w])) && q.unfinished == |q.items|
        invariant q.put == old(q.put) && q.got == old(q.got) + Repeat(Stop, BlockedCount(exits[..w]))
        invariant runs == old(runs) + Repeat(Stopped, BlockedCount(exits[..w]))
        invariant wb.sheets == old(wb.sheets)
        invariant |ended| == w
        invariant forall i :: 0 <= i < w ==> ended[i] == (if exits[i] == Blocked then Stopped else exits[i])
      {
        ghost var b := BlockedCount(exits[..w]);
        assert exits[..w + 1][..w] == exits[..w];
        BlockedCountPrefix(exits, w + 1);
        var exit := exits[w];
        if exits[w] == Blocked {
          exit := ResumeWorker(BlockedCount(exits) - b, remote);
          RepeatSnoc(Stop, b);
          RepeatSnoc(Stopped, b);
        }
        ended := ended + [exit];
      }
      assert exits[..|exits|] == exits;
      assert Repeat(Stop, 0) == [];
    }
  }

  /**
   * With every target reachable and every command captured, a scan writes
   * one section per target and command, after the metadata sheet.
   */
  lemma {:induction false} FullScanSheetCount(nets: seq<IPv4Net>, cmds: seq<string>, remote: Remote)
    requires forall a :: a in Targets(nets) ==> ProbeOf(remote, a).Banner?
    requires forall a, k :: a in Targets(nets) && 0 <= k < |cmds| ==> ExecOf(remote, a, k).Captured?
    ensures |RunSheets(HostsOf(HostItems(Targets(nets))), cmds, remote)| == TargetCount(nets) * |cmds|
  {
    var hosts := Targets(nets);
    HostsOfHostItems(hosts);
    TargetsLength(nets);
    FullRunSheetCount(hosts, cmds, remote);
  }
}
