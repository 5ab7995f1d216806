/**
 * The work queue shared by the workers (a `JoinableQueue`): its items in
 * order, and the count of items put but not yet marked done.
 */
module Jobs {

  /** A queue item: a host to scan, or the `None` sentinel that stops a worker. */
  datatype Item = Host(addr: string) | Stop

  /** How a worker's loop left off. */
  datatype WorkerExit =
    | Drained  // the queue was empty when the worker began (lines 85-86)
    | Stopped  // the worker took a sentinel and returned (lines 93-95)
    | Blocked  // the worker is waiting in `get` on an empty queue

  /** The number of workers still alive, i.e. waiting in `get`. */
  function BlockedCount(exits: seq<WorkerExit>): nat
    decreases |exits|
  {
    if exits == [] then 0
    else BlockedCount(exits[..|exits| - 1]) + (if exits[|exits| - 1] == Blocked then 1 else 0)
  }

  /** `n` copies of `x`. */
  function Repeat<T>(x: T, n: nat): seq<T> {
    seq(n, _ => x)
  }

  lemma RepeatSnoc<T>(x: T, n: nat)
    ensures Repeat(x, n) + [x] == Repeat(x, n + 1)
  {
  }

  /** Two sequences followed by the same tail are equal. */
  lemma AppendCancel<T>(a: seq<T>, b: seq<T>, c: seq<T>)
    requires a + c == b + c
    ensures a == b
  {
    assert a == (a + c)[..|a|];
    assert b == (b + c)[..|b|];
  }

  /** Counting the live workers of a prefix never exceeds counting them all. */
  lemma {:induction false} BlockedCountPrefix(exits: seq<WorkerExit>, w: nat)
    requires w <= |exits|
    ensures BlockedCount(exits[..w]) <= BlockedCount(exits)
    decreases |exits| - w
  {
    if w < |exits| {
      BlockedCountPrefix(exits, w + 1);
      assert exits[..w + 1][..w] == exits[..w];
    } else {
      assert exits[..w] == exits;
    }
  }

  class JobQueue {
    var items: seq<Item>
    /** Items put and not yet acknowledged by `task_done`. */
    var unfinished: nat
    /** Every item ever put, in order. */
    ghost var put: seq<Item>
    /** Every item ever taken by `get`, in order. */
    ghost var got: seq<Item>

    /** First in, first out: the items taken, then those still queued, are the items put. */
    ghost predicate Valid()
      reads this
    {
      got + items == put
    }

    constructor ()
      ensures Valid()
      ensures items == [] && unfinished == 0 && put == [] && got == []
    {
      items := [];
      unfinished := 0;
      put := [];
      got := [];
    }

    method Put(item: Item)
      requires Valid()
      modifies this
      ensures Valid()
      ensures items == old(items) + [item] && put == old(put) + [item] && got == old(got)
      ensures unfinished == old(unfinished) + 1
    {
      items := items + [item];
      put := put + [item];
      unfinished := unfinished + 1;
    }

    /** `get`; on an empty queue it would block, so callers only take from a non-empty one. */
    method Get() returns (item: Item)
      requires Valid() && items != []
      modifies this
      ensures Valid()
      ensures item == old(items)[0] && items == old(items)[1..]
      ensures got == old(got) + [item] && put == old(put)
      ensures unfinished == old(unfinished)
    {
      item := items[0];
      assert items == [item] + items[1..];
      items := items[1..];
      got := got + [item];
    }

    /** `task_done`; the queue refuses more acknowledgements than puts. */
    method TaskDone()
      requires unfinished > 0
      modifies this
      ensures items == old(items) && put == old(put) && got == old(got)
      ensures unfinished == old(unfinished) - 1
    {
      unfinished := unfinished - 1;
    }

    method Empty() returns (empty: bool)
      ensures empty <==> items == []
    {
      empty := |items| == 0;
    }
  }

  /**
   * Where a worker's loop stops in `items`: at the first sentinel, or at the
   * end when there is none. Everything before it is a host.
   */
  function FirstStop(items: seq<Item>): (k: nat)
    ensures k <= |items|
    ensures forall i :: 0 <= i < k ==> items[i].Host?
    ensures k < |items| ==> items[k].Stop?
    decreases |items|
  {
    if items == [] || items[0].Stop? then 0 else 1 + FirstStop(items[1..])
  }

  /** The hosts of a list of items, in order. */
  function HostsOf(items: seq<Item>): seq<string>
    decreases |items|
  {
    if items == [] then []
    else (if items[0].Host? then [items[0].addr] else []) + HostsOf(items[1..])
  }

  /** Dropping the sentinels keeps the hosts and nothing else, in order. */
  lemma {:induction false} HostsOfHosts(items: seq<Item>)
    ensures |HostsOf(items)| <= |items|
    ensures forall h :: h in HostsOf(items) <==> Host(h) in items
    decreases |items|
  {
    if items != [] {
      HostsOfHosts(items[1..]);
      assert items == [items[0]] + items[1..];
    }
  }

  /** The hosts a worker's loop scans before it stops. */
  function ServedHosts(items: seq<Item>): seq<string> {
    HostsOf(items[..FirstStop(items)])
  }

  /** How many items the loop dequeues: the hosts it scans, and the sentinel if it reaches one. */
  function Dequeued(items: seq<Item>): (n: nat)
    ensures n <= |items|
  {
    if FirstStop(items) < |items| then FirstStop(items) + 1 else |items|
  }

  /** What is left on the queue when the loop stops. */
  function Remaining(items: seq<Item>): (rest: seq<Item>)
    ensures |rest| + Dequeued(items) == |items|
  {
    items[Dequeued(items)..]
  }

  /**
   * One worker's pass over the queue it finds: the hosts it scans, in
   * order, what it leaves on the queue, and whether it stopped at a
   * sentinel (otherwise it is left waiting on the empty queue).
   */
  datatype Pass = Pass(served: seq<string>, rest: seq<Item>, stopped: bool)

  /** The pass item by item, as the loop of `_run` takes them (lines 91-95). */
  function WorkerPass(items: seq<Item>): Pass
    decreases |items|
  {
    if items == [] then Pass([], [], false)
    else match items[0]
      case Stop => Pass([], items[1..], true)
      case Host(h) =>
        var p := WorkerPass(items[1..]);
        Pass([h] + p.served, p.rest, p.stopped)
  }

  /** A pass already past the hosts `done`, continuing as `p`. */
  function Resume(done: seq<string>, p: Pass): (r: Pass)
    ensures r.rest == p.rest && r.stopped == p.stopped
  {
    Pass(done + p.served, p.rest, p.stopped)
  }

  lemma ResumeOne(done: seq<string>, h: string, p: Pass)
    ensures Resume(done, Resume([h], p)) == Resume(done + [h], p)
  {
    assert done + ([h] + p.served) == (done + [h]) + p.served;
  }

  /** A worker facing nothing but sentinels takes one and stops. */
  lemma WorkerPassStops(n: nat)
    requires n >= 1
    ensures WorkerPass(Repeat(Stop, n)) == Pass([], Repeat(Stop, n - 1), true)
  {
    assert Repeat(Stop, n)[0] == Stop;
    assert Repeat(Stop, n)[1..] == Repeat(Stop, n - 1);
  }

  /** One item of the pass: a sentinel ends it, a host is served and the pass goes on. */
  lemma WorkerPassStep(items: seq<Item>)
    requires items != []
    ensures items[0].Stop? ==> WorkerPass(items) == Pass([], items[1..], true)
    ensures items[0].Host? ==> WorkerPass(items) == Resume([items[0].addr], WorkerPass(items[1..]))
  {
  }

  /**
   * The pass agrees with the declarative reading: it scans the hosts before
   * the first sentinel, leaves what follows that sentinel, and stops exactly
   * when there is a sentinel.
   */
  lemma {:induction false} WorkerPassSpec(items: seq<Item>)
    ensures WorkerPass(items).served == ServedHosts(items)
    ensures WorkerPass(items).rest == Remaining(items)
    ensures WorkerPass(items).stopped <==> FirstStop(items) < |items|
    decreases |items|
  {
    if items != [] {
      var t := items[1..];
      if items[0].Host? {
        WorkerPassSpec(t);
        var k := FirstStop(t);
        assert FirstStop(items) == 1 + k;
        var pre := items[..1 + k];
        assert pre[0] == items[0] && pre[1..] == t[..k];
        assert HostsOf(pre) == [items[0].addr] + HostsOf(t[..k]);
        assert items[Dequeued(items)..] == t[Dequeued(t)..];
      } else {
        assert items[..0] == [];
      }
    }
  }

  /** The queue items for a list of hosts, in order. */
  function HostItems(hosts: seq<string>): (items: seq<Item>)
    ensures |items| == |hosts|
    ensures forall i :: 0 <= i < |hosts| ==> items[i] == Host(hosts[i])
  {
    seq(|hosts|, i requires 0 <= i < |hosts| => Host(hosts[i]))
  }

  lemma HostItemsAppend(a: seq<string>, b: seq<string>)
    ensures HostItems(a + b) == HostItems(a) + HostItems(b)
  {
  }

  /** Reading the hosts back from their items gives the hosts. */
  lemma {:induction false} HostsOfHostItems(hosts: seq<string>)
    ensures HostsOf(HostItems(hosts)) == hosts
    decreases |hosts|
  {
    if hosts != [] {
      HostsOfHostItems(hosts[1..]);
      assert HostItems(hosts)[1..] == HostItems(hosts[1..]);
      assert hosts == [hosts[0]] + hosts[1..];
    }
  }

  /** A queue holding only hosts is scanned to the end and left empty. */
  lemma AllHostsServed(items: seq<Item>)
    requires forall i :: 0 <= i < |items| ==> items[i].Host?
    ensures FirstStop(items) == |items| && Dequeued(items) == |items|
    ensures ServedHosts(items) == HostsOf(items) && Remaining(items) == []
  {
    assert items[..|items|] == items;
  }

  /** A sentinel at the head stops the loop at once, taking only the sentinel. */
  lemma StopAtHead(rest: seq<Item>)
    ensures FirstStop([Stop] + rest) == 0 && Dequeued([Stop] + rest) == 1
    ensures ServedHosts([Stop] + rest) == [] && Remaining([Stop] + rest) == rest
  {
    assert ([Stop] + rest)[1..] == rest;
  }
}
