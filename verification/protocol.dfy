/**
 * The per-host session of a worker (`DiscoveryScan._run`, lines 97-138),
 * stated as the list of sheets it writes. The SSH transport is replaced by
 * an oracle `Remote` that says, for each host, whether the connect-and-probe
 * step succeeded and which banner it read, and, for each command of the
 * batch, whether execution and capture succeeded, which output lines were
 * read and whether the final cleanup raised.
 */
module Protocol {
  import opened Text
  import opened Report

  /** The banner text that marks a device whose CLI pages its output (line 101). */
  const PagerMarker := "Type help or " + "'?' for a list " + "of available commands."

  /** The directive that turns paging off on such a device (line 114). */
  const PagerPrefix := "term pager 0\n"

  /**
   * The outcome of connecting, opening a shell, reading its banner and
   * closing (lines 98-107): the bytes the first read returned.
   */
  datatype Probe = ProbeFailed | Banner(bytes: seq<Byte>)

  /** The outcome of one command (lines 112-137). */
  datatype Exec =
    | ExecFailed                                       // connect or exec_command raised
    | CaptureFailed                                    // waiting for exit or reading stdout raised
    | Captured(output: seq<string>, cleanupOk: bool)   // output read; did closing the handles succeed?

  /**
   * What the network does during one scan: the probe outcome of each host
   * and the outcome of command `k` of the batch on each host. A host the
   * oracle does not list cannot be reached; a command it does not list fails
   * to execute.
   */
  datatype Remote = Remote(probes: map<string, Probe>, execs: map<(string, nat), Exec>)

  /** The outcome of probing `host`. */
  function ProbeOf(remote: Remote, host: string): Probe {
    if host in remote.probes then remote.probes[host] else ProbeFailed
  }

  /** The outcome of running command `k` of the batch on `host`. */
  function ExecOf(remote: Remote, host: string, k: nat): Exec {
    if (host, k) in remote.execs then remote.execs[(host, k)] else ExecFailed
  }

  /**
   * The marker is printable, has no backslash or double quote, and holds a
   * single quote (the one before `?`).
   */
  lemma PagerMarkerSearchable()
    ensures ReprSearchable(PagerMarker, 13)
  {
    PrintableAppend("Type help or ", "'?' for a list ");
    PrintableAppend("Type help or " + "'?' for a list ", "of available commands.");
  }

  /** The device class (line 102): the marker is searched for in `str()` of the banner bytes. */
  function IsPager(banner: seq<Byte>): bool {
    Find(BytesRepr(banner), PagerMarker) != -1
  }

  /**
   * A banner is of the pager class exactly when the marker occurs in its
   * bytes and they hold no double quote: `str()` of bytes is their `repr`,
   * which, with a double quote present, escapes each single quote of the
   * marker, so the search misses it.
   */
  lemma IsPagerSpec(banner: seq<Byte>)
    ensures IsPager(banner)
            <==> (exists j :: OccursAt(BytesText(banner), PagerMarker, j)) && '"' as int !in banner
  {
    FindFirst(BytesRepr(banner), PagerMarker);
    PagerMarkerSearchable();
    ReprOccurs(banner, PagerMarker, 13);
  }

  /** The text sent for a command (lines 113-116). */
  function Frame(pager: bool, command: string): string {
    if pager then PagerPrefix + command + "\nexit\n" else command + "\n"
  }

  /**
   * The first row of a section for a command: the paging wrapper less its
   * final newline on a pager-style device, the right-stripped command
   * otherwise.
   */
  function CommandRow(pager: bool, command: string): string {
    if pager then PagerPrefix + command + "\nexit" else Rstrip(command)
  }

  /** That row is the framed command with trailing whitespace removed (line 123). */
  lemma FramedFirstRow(pager: bool, command: string)
    ensures Rstrip(Frame(pager, command)) == CommandRow(pager, command)
  {
    var f := Frame(pager, command);
    if pager {
      var body := PagerPrefix + command + "\nexit";
      assert f == body + "\n";
      assert f[..|f| - 1] == body;
      assert body[|body| - 1] == 't';
    } else {
      assert f[..|f| - 1] == command;
    }
  }

  /** The sheet title `"%s-%s" % (host, str(x))` (line 130). */
  function SheetName(host: string, x: nat): string {
    host + "-" + NatToString(x)
  }

  lemma SheetNameInjective(host: string, a: nat, b: nat)
    requires SheetName(host, a) == SheetName(host, b)
    ensures a == b
  {
    var p := host + "-";
    assert NatToString(a) == SheetName(host, a)[|p|..];
    assert NatToString(b) == SheetName(host, b)[|p|..];
    NatToStringInjective(a, b);
  }

  /** One row per output line, right-stripped (lines 126-127). */
  function OutputRows(output: seq<string>): (rows: seq<Row>)
    ensures |rows| == |output|
    decreases |output|
  {
    if output == [] then []
    else OutputRows(output[..|output| - 1]) + [[Str(Rstrip(output[|output| - 1]))]]
  }

  lemma {:induction false} OutputRowsAt(output: seq<string>, i: nat)
    requires i < |output|
    ensures OutputRows(output)[i] == [Str(Rstrip(output[i]))]
    decreases |output|
  {
    if i < |output| - 1 {
      OutputRowsAt(output[..|output| - 1], i);
    }
  }

  /** A section: the framed command, then one row per output line, each right-stripped. */
  function SectionRows(pager: bool, command: string, output: seq<string>): seq<Row> {
    [[Str(CommandRow(pager, command))]] + OutputRows(output)
  }

  predicate CleanupFailed(e: Exec) {
    e.Captured? && !e.cleanupOk
  }

  /** The section written for command k when it was captured. */
  function SectionOf(host: string, pager: bool, cmds: seq<string>, remote: Remote, k: nat): seq<Row> {
    var e := ExecOf(remote, host, k);
    if k < |cmds| && e.Captured? then SectionRows(pager, cmds[k], e.output) else []
  }

  /**
   * The sheets written for commands `j..` of the batch when the sheet index
   * is `x`. A command whose execution or capture fails writes nothing; a
   * captured one writes its section, and the index moves on only when the
   * cleanup after it raised (lines 131-137).
   */
  function SheetsFrom(host: string, pager: bool, cmds: seq<string>, remote: Remote, j: nat, x: nat): seq<Sheet>
    requires j <= |cmds|
    decreases |cmds| - j
  {
    if j == |cmds| then []
    else
      match ExecOf(remote, host, j)
      case Captured(_, cleanupOk) =>
        [Sheet(SheetName(host, x), SectionOf(host, pager, cmds, remote, j))]
          + SheetsFrom(host, pager, cmds, remote, j + 1, if cleanupOk then x else x + 1)
      case _ => SheetsFrom(host, pager, cmds, remote, j + 1, x)
  }

  /** A command that was not captured contributes nothing. */
  lemma SheetsFromSkip(host: string, pager: bool, cmds: seq<string>, remote: Remote, j: nat, x: nat)
    requires j < |cmds| && !ExecOf(remote, host, j).Captured?
    ensures SheetsFrom(host, pager, cmds, remote, j, x) == SheetsFrom(host, pager, cmds, remote, j + 1, x)
  {
  }

  /** A captured command contributes its section under `host-x` in front of the rest. */
  lemma SheetsFromCaptured(host: string, pager: bool, cmds: seq<string>, remote: Remote, j: nat, x: nat)
    requires j < |cmds| && ExecOf(remote, host, j).Captured?
    ensures SheetsFrom(host, pager, cmds, remote, j, x)
            == [Sheet(SheetName(host, x), SectionOf(host, pager, cmds, remote, j))]
               + SheetsFrom(host, pager, cmds, remote, j + 1, if ExecOf(remote, host, j).cleanupOk then x else x + 1)
  {
  }

  /** Appending an output line appends its right-stripped row. */
  lemma OutputRowsSnoc(output: seq<string>, k: nat)
    requires k < |output|
    ensures OutputRows(output[..k + 1]) == OutputRows(output[..k]) + [[Str(Rstrip(output[k]))]]
  {
    assert output[..k + 1][..k] == output[..k];
  }

  /** A captured command's section starts with its framed text, right-stripped. */
  lemma SectionOfCaptured(host: string, pager: bool, cmds: seq<string>, remote: Remote, j: nat)
    requires j < |cmds| && ExecOf(remote, host, j).Captured?
    ensures SectionOf(host, pager, cmds, remote, j)
            == [[Str(Rstrip(Frame(pager, cmds[j])))]] + OutputRows(ExecOf(remote, host, j).output)
  {
    FramedFirstRow(pager, cmds[j]);
  }

  /** Everything one host contributes: nothing when the probe fails, else its commands' sheets from index 1. */
  function HostSheets(host: string, cmds: seq<string>, remote: Remote): seq<Sheet> {
    match ProbeOf(remote, host)
    case ProbeFailed => []
    case Banner(bytes) => SheetsFrom(host, IsPager(bytes), cmds, remote, 0, 1)
  }

  /** The sheets a worker writes for a run of hosts, host after host. */
  function RunSheets(hosts: seq<string>, cmds: seq<string>, remote: Remote): seq<Sheet>
    decreases |hosts|, 0
  {
    if hosts == [] then [] else RunThen(hosts[..|hosts| - 1], hosts[|hosts| - 1], cmds, remote)
  }

  /** `after` is `before` followed by the sheets of the run `hosts`. */
  ghost predicate Wrote(after: seq<Sheet>, before: seq<Sheet>, hosts: seq<string>, cmds: seq<string>, remote: Remote) {
    after == before + RunSheets(hosts, cmds, remote)
  }

  /** The sheets of the run `done`, then those of one more host. */
  function RunThen(done: seq<string>, host: string, cmds: seq<string>, remote: Remote): seq<Sheet>
    decreases |done|, 1
  {
    RunSheets(done, cmds, remote) + HostSheets(host, cmds, remote)
  }

  /** The positions `j..n-1` whose command was captured, ascending: exactly those commands get a section. */
  function Written(host: string, n: nat, remote: Remote, j: nat): seq<nat>
    requires j <= n
    decreases n - j
  {
    if j == n then []
    else (if ExecOf(remote, host, j).Captured? then [j] else []) + Written(host, n, remote, j + 1)
  }

  /** Exactly the captured positions in `j..n-1` are written. */
  lemma {:induction false} WrittenMembers(host: string, n: nat, remote: Remote, j: nat)
    requires j <= n
    ensures forall k :: k in Written(host, n, remote, j) <==> j <= k < n && ExecOf(remote, host, k).Captured?
    decreases n - j
  {
    if j < n {
      WrittenMembers(host, n, remote, j + 1);
    }
  }

  predicate Ascending(w: seq<nat>) {
    forall i, k :: 0 <= i < k < |w| ==> w[i] < w[k]
  }

  /** They are written in command order. */
  lemma {:induction false} WrittenAscending(host: string, n: nat, remote: Remote, j: nat)
    requires j <= n
    ensures Ascending(Written(host, n, remote, j))
    decreases n - j
  {
    if j < n {
      WrittenAscending(host, n, remote, j + 1);
      WrittenMembers(host, n, remote, j + 1);
      var w' := Written(host, n, remote, j + 1);
      if ExecOf(remote, host, j).Captured? {
        var w := [j] + w';
        assert Written(host, n, remote, j) == w;
        forall i, k | 0 <= i < k < |w|
          ensures w[i] < w[k]
        {
          assert w[k] == w'[k - 1];
          assert w'[k - 1] in w';
          if i > 0 {
            assert w[i] == w'[i - 1];
          }
        }
      } else {
        assert Written(host, n, remote, j) == w';
      }
    }
  }

  /** How many of the commands at positions `w` had a cleanup that raised. */
  function CleanupFailures(host: string, remote: Remote, w: seq<nat>): nat
    decreases |w|
  {
    if w == [] then 0
    else (if CleanupFailed(ExecOf(remote, host, w[0])) then 1 else 0) + CleanupFailures(host, remote, w[1..])
  }

  /**
   * The sections for the captured positions `w`, in order, starting at sheet
   * index `x`: the index moves on after a section whose cleanup raised.
   */
  function SectionsFor(host: string, pager: bool, cmds: seq<string>, remote: Remote, w: seq<nat>, x: nat): (s: seq<Sheet>)
    ensures |s| == |w|
    decreases |w|
  {
    if w == [] then []
    else
      [Sheet(SheetName(host, x), SectionOf(host, pager, cmds, remote, w[0]))]
        + SectionsFor(host, pager, cmds, remote, w[1..], if CleanupFailed(ExecOf(remote, host, w[0])) then x + 1 else x)
  }

  lemma CleanupFailuresCons(host: string, remote: Remote, j: nat, t: seq<nat>)
    ensures CleanupFailures(host, remote, [j] + t)
            == (if CleanupFailed(ExecOf(remote, host, j)) then 1 else 0) + CleanupFailures(host, remote, t)
  {
    assert ([j] + t)[1..] == t;
  }

  /** The i-th section is command w[i]'s, named with `x` plus the failed cleanups before it. */
  lemma {:induction false} SectionsForAt(host: string, pager: bool, cmds: seq<string>, remote: Remote, w: seq<nat>, x: nat, i: nat)
    requires i < |w|
    ensures SectionsFor(host, pager, cmds, remote, w, x)[i]
            == Sheet(SheetName(host, x + CleanupFailures(host, remote, w[..i])), SectionOf(host, pager, cmds, remote, w[i]))
    decreases i
  {
    if i == 0 {
      assert w[..0] == [];
    } else {
      var x' := if CleanupFailed(ExecOf(remote, host, w[0])) then x + 1 else x;
      var t := w[1..];
      SectionsForAt(host, pager, cmds, remote, t, x', i - 1);
      assert w[..i] == [w[0]] + t[..i - 1];
      CleanupFailuresCons(host, remote, w[0], t[..i - 1]);
    }
  }

  lemma SectionsForShaped(host: string, pager: bool, cmds: seq<string>, remote: Remote, w: seq<nat>, x: nat)
    ensures Shaped(host, pager, cmds, remote, w, x, SectionsFor(host, pager, cmds, remote, w, x))
  {
    var s := SectionsFor(host, pager, cmds, remote, w, x);
    forall i | 0 <= i < |s|
      ensures ShapedAt(host, pager, cmds, remote, w, x, s, i)
    {
      SectionsForAt(host, pager, cmds, remote, w, x, i);
    }
  }

  /** The sheets of a probed host are the sections of its captured commands. */
  lemma {:induction false} SheetsFromWritten(host: string, pager: bool, cmds: seq<string>, remote: Remote, j: nat, x: nat)
    requires j <= |cmds|
    ensures SheetsFrom(host, pager, cmds, remote, j, x)
            == SectionsFor(host, pager, cmds, remote, Written(host, |cmds|, remote, j), x)
    decreases |cmds| - j
  {
    if j < |cmds| {
      var e := ExecOf(remote, host, j);
      var w' := Written(host, |cmds|, remote, j + 1);
      if e.Captured? {
        var x' := if e.cleanupOk then x else x + 1;
        SheetsFromWritten(host, pager, cmds, remote, j + 1, x');
        var w := [j] + w';
        assert Written(host, |cmds|, remote, j) == w;
        assert w[1..] == w';
        assert SheetsFrom(host, pager, cmds, remote, j, x)
               == [Sheet(SheetName(host, x), SectionOf(host, pager, cmds, remote, j))]
                  + SheetsFrom(host, pager, cmds, remote, j + 1, x');
      } else {
        SheetsFromWritten(host, pager, cmds, remote, j + 1, x);
        assert Written(host, |cmds|, remote, j) == w';
        assert SheetsFrom(host, pager, cmds, remote, j, x) == SheetsFrom(host, pager, cmds, remote, j + 1, x);
      }
    }
  }

  /**
   * Sheets `s` are the sections of the positions `w` from index `x`: one per
   * position, in order; the i-th holds that command's section and is named
   * with `x` plus the number of failed cleanups before it.
   */
  ghost predicate Shaped(host: string, pager: bool, cmds: seq<string>, remote: Remote, w: seq<nat>, x: nat, s: seq<Sheet>) {
    && |s| == |w|
    && forall i :: 0 <= i < |s| ==> ShapedAt(host, pager, cmds, remote, w, x, s, i)
  }

  /** The i-th sheet holds command w[i]'s section under `x` plus the failed cleanups before it. */
  ghost predicate ShapedAt(host: string, pager: bool, cmds: seq<string>, remote: Remote, w: seq<nat>, x: nat, s: seq<Sheet>, i: nat)
    requires i < |s| && |s| == |w|
  {
    s[i] == Sheet(SheetName(host, x + CleanupFailures(host, remote, w[..i])), SectionOf(host, pager, cmds, remote, w[i]))
  }

  /**
   * The shape of a host's sheets: one per captured command, in command
   * order; the i-th holds that command framed and its output, and is named
   * with the starting index plus the number of failed cleanups among the
   * sections written before it.
   */
  lemma SheetsFromShape(host: string, pager: bool, cmds: seq<string>, remote: Remote, j: nat, x: nat)
    requires j <= |cmds|
    ensures Shaped(host, pager, cmds, remote, Written(host, |cmds|, remote, j), x, SheetsFrom(host, pager, cmds, remote, j, x))
  {
    SheetsFromWritten(host, pager, cmds, remote, j, x);
    SectionsForShaped(host, pager, cmds, remote, Written(host, |cmds|, remote, j), x);
  }

  /**
   * The index quirk: when no cleanup raises, every section of the host is
   * written under the same title, `host-x`.
   */
  lemma {:induction false} SheetIndexReused(host: string, pager: bool, cmds: seq<string>, remote: Remote, j: nat, x: nat)
    requires j <= |cmds|
    requires forall k :: j <= k < |cmds| ==> !CleanupFailed(ExecOf(remote, host, k))
    ensures forall s :: s in SheetsFrom(host, pager, cmds, remote, j, x) ==> s.name == SheetName(host, x)
    decreases |cmds| - j
  {
    if j < |cmds| {
      SheetIndexReused(host, pager, cmds, remote, j + 1, x);
    }
  }

  /**
   * When every command is captured and every cleanup raises, the sections
   * get the distinct titles `host-x`, `host-(x+1)`, ...
   */
  lemma {:induction false} SheetIndexAdvances(host: string, pager: bool, cmds: seq<string>, remote: Remote, j: nat, x: nat)
    requires j <= |cmds|
    requires forall k :: j <= k < |cmds| ==> CleanupFailed(ExecOf(remote, host, k))
    ensures var s := SheetsFrom(host, pager, cmds, remote, j, x);
            |s| == |cmds| - j && forall i :: 0 <= i < |s| ==> s[i].name == SheetName(host, x + i)
    decreases |cmds| - j
  {
    if j < |cmds| {
      var e := ExecOf(remote, host, j);
      SheetIndexAdvances(host, pager, cmds, remote, j + 1, x + 1);
      var s' := SheetsFrom(host, pager, cmds, remote, j + 1, x + 1);
      var s := SheetsFrom(host, pager, cmds, remote, j, x);
      assert s == [Sheet(SheetName(host, x), SectionRows(pager, cmds[j], e.output))] + s';
      forall i | 0 < i < |s|
        ensures s[i].name == SheetName(host, x + i)
      {
        assert s[i] == s'[i - 1];
      }
    }
  }

  /** In that case no two sections of the host share a title. */
  lemma SheetNamesDistinctWhenCleanupsFail(host: string, pager: bool, cmds: seq<string>, remote: Remote)
    requires forall k :: 0 <= k < |cmds| ==> CleanupFailed(ExecOf(remote, host, k))
    ensures var s := SheetsFrom(host, pager, cmds, remote, 0, 1);
            forall i, k :: 0 <= i < k < |s| ==> s[i].name != s[k].name
  {
    SheetIndexAdvances(host, pager, cmds, remote, 0, 1);
    var s := SheetsFrom(host, pager, cmds, remote, 0, 1);
    forall i, k | 0 <= i < k < |s|
      ensures s[i].name != s[k].name
    {
      if s[i].name == s[k].name {
        SheetNameInjective(host, 1 + i, 1 + k);
      }
    }
  }

  /** A host that cannot be reached or probed contributes no sheet. */
  lemma UnreachableHostWritesNothing(host: string, cmds: seq<string>, remote: Remote)
    requires ProbeOf(remote, host) == ProbeFailed
    ensures HostSheets(host, cmds, remote) == []
  {
  }

  /**
   * On a host whose banner carries the pager marker, every section starts
   * with a command wrapped in the paging directive and an exit; on any other
   * host, with the bare command.
   */
  lemma HostSheetsFraming(host: string, cmds: seq<string>, remote: Remote)
    requires ProbeOf(remote, host).Banner?
    ensures var pager := IsPager(ProbeOf(remote, host).bytes);
            forall s :: s in HostSheets(host, cmds, remote) ==>
              |s.rows| >= 1 &&
              (exists k :: 0 <= k < |cmds| &&
                 s.rows[0] == [Str(if pager then PagerPrefix + cmds[k] + "\nexit" else Rstrip(cmds[k]))])
  {
    var pager := IsPager(ProbeOf(remote, host).bytes);
    var s := HostSheets(host, cmds, remote);
    var w := Written(host, |cmds|, remote, 0);
    assert s == SheetsFrom(host, pager, cmds, remote, 0, 1);
    SheetsFromShape(host, pager, cmds, remote, 0, 1);
    WrittenMembers(host, |cmds|, remote, 0);
    forall sh | sh in s
      ensures |sh.rows| >= 1 &&
              (exists k :: 0 <= k < |cmds| &&
                 sh.rows[0] == [Str(if pager then PagerPrefix + cmds[k] + "\nexit" else Rstrip(cmds[k]))])
    {
      var i :| 0 <= i < |s| && s[i] == sh;
      assert ShapedAt(host, pager, cmds, remote, w, 1, s, i);
      var k := w[i];
      assert k in w;
      assert sh.rows == SectionOf(host, pager, cmds, remote, k);
      assert sh.rows[0] == [Str(CommandRow(pager, cmds[k]))];
    }
  }

  /** A host where every command is captured gets one section per command. */
  lemma {:induction false} AllCapturedSheetCount(host: string, pager: bool, cmds: seq<string>, remote: Remote, j: nat, x: nat)
    requires j <= |cmds|
    requires forall k :: j <= k < |cmds| ==> ExecOf(remote, host, k).Captured?
    ensures |SheetsFrom(host, pager, cmds, remote, j, x)| == |cmds| - j
    decreases |cmds| - j
  {
    if j < |cmds| {
      var e := ExecOf(remote, host, j);
      AllCapturedSheetCount(host, pager, cmds, remote, j + 1, if e.cleanupOk then x else x + 1);
    }
  }

  /** Scanning one more host appends that host's sheets. */
  lemma RunSheetsSnoc(hosts: seq<string>, h: string, cmds: seq<string>, remote: Remote)
    ensures RunSheets(hosts + [h], cmds, remote) == RunSheets(hosts, cmds, remote) + HostSheets(h, cmds, remote)
  {
    assert (hosts + [h])[..|hosts|] == hosts;
    assert RunSheets(hosts + [h], cmds, remote) == RunThen(hosts, h, cmds, remote);
  }

  /** A run of one host writes that host's sheets. */
  lemma RunSheetsOne(h: string, cmds: seq<string>, remote: Remote)
    ensures RunSheets([h], cmds, remote) == HostSheets(h, cmds, remote)
  {
    RunSheetsSnoc([], h, cmds, remote);
    assert [] + [h] == [h];
  }

  /** Writing the run `a` and then the run `b` writes the run `a + b`. */
  lemma WroteAppend(c: seq<Sheet>, b: seq<Sheet>, a: seq<Sheet>, s: seq<string>, t: seq<string>, cmds: seq<string>, remote: Remote)
    requires Wrote(b, a, s, cmds, remote) && Wrote(c, b, t, cmds, remote)
    ensures Wrote(c, a, s + t, cmds, remote)
  {
    RunSheetsAppend(s, t, cmds, remote);
  }

  /** `b` split before its last element, alone and after `a`. */
  lemma SplitLast<T>(a: seq<T>, b: seq<T>)
    requires b != []
    ensures b == b[..|b| - 1] + [b[|b| - 1]]
    ensures a + b == (a + b[..|b| - 1]) + [b[|b| - 1]]
  {
  }

  /** Scanning a list of hosts writes their sheets host by host. */
  lemma {:induction false} RunSheetsAppend(a: seq<string>, b: seq<string>, cmds: seq<string>, remote: Remote)
    ensures RunSheets(a + b, cmds, remote) == RunSheets(a, cmds, remote) + RunSheets(b, cmds, remote)
    decreases |b|
  {
    if b == [] {
      assert a + b == a;
    } else {
      var b', h := b[..|b| - 1], b[|b| - 1];
      SplitLast(a, b);
      RunSheetsAppend(a, b', cmds, remote);
      RunSheetsSnoc(a + b', h, cmds, remote);
      RunSheetsSnoc(b', h, cmds, remote);
    }
  }

  /** Every host reachable and every command captured: one section per (host, command) pair. */
  lemma {:induction false} FullRunSheetCount(hosts: seq<string>, cmds: seq<string>, remote: Remote)
    requires forall i :: 0 <= i < |hosts| ==> ProbeOf(remote, hosts[i]).Banner?
    requires forall i, k :: 0 <= i < |hosts| && 0 <= k < |cmds| ==> ExecOf(remote, hosts[i], k).Captured?
    ensures |RunSheets(hosts, cmds, remote)| == |hosts| * |cmds|
    decreases |hosts|
  {
    if hosts != [] {
      var h := hosts[|hosts| - 1];
      FullRunSheetCount(hosts[..|hosts| - 1], cmds, remote);
      AllCapturedSheetCount(h, IsPager(ProbeOf(remote, h).bytes), cmds, remote, 0, 1);
      assert |hosts| * |cmds| == (|hosts| - 1) * |cmds| + |cmds|;
    }
  }
}
