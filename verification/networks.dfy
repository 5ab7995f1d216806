/**
 * Target expansion: each IPv4 network of the comma-separated target list
 * becomes the host addresses it contains (prefix notation as in section 3.1
 * of RFC 4632; the all-zeros and all-ones host numbers are the network and
 * broadcast addresses of section 3.2.1.3 of RFC 1122 and are not hosts).
 */
module Networks {
  import opened Text

  function Pow2(k: nat): (r: nat)
    ensures r >= 1
    decreases k
  {
    if k == 0 then 1 else 2 * Pow2(k - 1)
  }

  lemma {:induction false} Pow2AtLeastFour(k: nat)
    requires k >= 2
    ensures Pow2(k) >= 4
    decreases k
  {
    if k > 2 {
      Pow2AtLeastFour(k - 1);
    }
  }

  /** The number of IPv4 addresses. */
  const AddressSpace: nat := 0x1_0000_0000

  /** A network as its base (network) address and prefix length. */
  datatype Net = Net(base: nat, prefixLen: nat)

  /** `num_addresses`: how many addresses the prefix leaves to the host part. */
  function Size(n: Net): nat
    requires n.prefixLen <= 32
  {
    Pow2(32 - n.prefixLen)
  }

  /** A parsed network: the host part of the base is zero and the network fits the address space. */
  predicate WellFormed(n: Net) {
    n.prefixLen <= 32 && n.base % Size(n) == 0 && n.base + Size(n) <= AddressSpace
  }

  type IPv4Net = n: Net | WellFormed(n) witness Net(0, 32)

  /** The all-ones address of the network. */
  function Broadcast(n: IPv4Net): nat {
    n.base + Size(n) - 1
  }

  /**
   * `net.hosts()` for a network of more than one address: every address but
   * the network and broadcast ones; a /31 (RFC 3021 point-to-point link)
   * yields both of its addresses.
   */
  function Hosts(n: IPv4Net): (hs: seq<nat>)
    requires n.prefixLen <= 31
    ensures |hs| >= 2
  {
    if n.prefixLen == 31 then [n.base, n.base + 1]
    else
      Pow2AtLeastFour(32 - n.prefixLen);
      seq(Size(n) - 2, i => n.base + 1 + i)
  }

  /**
   * The addresses one network puts on the queue (lines 59-65): its hosts
   * when it has more than one address, otherwise its network address.
   * They lie inside the network and ascend strictly.
   */
  function NetTargets(n: IPv4Net): (t: seq<nat>)
    ensures |t| >= 1
    ensures forall i :: 0 <= i < |t| ==> n.base <= t[i] <= Broadcast(n)
    ensures forall i, j :: 0 <= i < j < |t| ==> t[i] < t[j]
  {
    if Size(n) > 1 then Hosts(n) else [n.base]
  }

  /**
   * A network of at least four addresses enqueues exactly the addresses
   * strictly between its network and broadcast addresses, in ascending order.
   */
  lemma NetTargetsExcludeNetworkAndBroadcast(n: IPv4Net)
    requires n.prefixLen <= 30
    ensures |NetTargets(n)| == Size(n) - 2
    ensures forall i :: 0 <= i < |NetTargets(n)| ==> NetTargets(n)[i] == n.base + 1 + i
    ensures forall a :: a in NetTargets(n) <==> n.base < a < Broadcast(n)
    ensures n.base !in NetTargets(n) && Broadcast(n) !in NetTargets(n)
  {
    Pow2AtLeastFour(32 - n.prefixLen);
    var t := NetTargets(n);
    assert Size(n) > 1;
    assert t == seq(Size(n) - 2, i => n.base + 1 + i);
    forall a | n.base < a < Broadcast(n)
      ensures a in t
    {
      assert t[a - n.base - 1] == a;
    }
  }

  /** A single-address network (a /32) enqueues exactly its network address. */
  lemma SingleAddressNetTarget(n: IPv4Net)
    requires n.prefixLen == 32
    ensures NetTargets(n) == [n.base]
  {
    assert Size(n) == 1;
  }

  /** `str(address)`: the dotted-quad form of an IPv4 address. */
  function FormatIPv4(a: nat): string
    requires a < AddressSpace
  {
    var q1 := a / 256;
    var q2 := q1 / 256;
    var q3 := q2 / 256;
    NatToString(q3) + "." + NatToString(q2 % 256) + "." + NatToString(q1 % 256) + "." + NatToString(a % 256)
  }

  lemma DotPosition(l: string, x: string, m: string, y: string)
    requires l + "." + x == m + "." + y
    requires |x| < |y|
    ensures y[|y| - |x| - 1] == '.'
  {
    var s := l + "." + x;
    assert s[|l|] == '.';
    assert s[|l|] == (m + "." + y)[|l|];
  }

  /** The last dot-separated field of a string is determined by the string. */
  lemma SplitAtLastDot(l: string, x: string, m: string, y: string)
    requires forall i :: 0 <= i < |x| ==> IsDigit(x[i])
    requires forall i :: 0 <= i < |y| ==> IsDigit(y[i])
    requires l + "." + x == m + "." + y
    ensures l == m && x == y
  {
    var s := l + "." + x;
    if |x| < |y| {
      DotPosition(l, x, m, y);
      assert false;
    } else if |y| < |x| {
      DotPosition(m, y, l, x);
      assert false;
    } else {
      assert l == s[..|l|] == m;
      assert x == s[|l| + 1..] == y;
    }
  }

  /** Distinct addresses print as distinct dotted quads. */
  lemma FormatIPv4Injective(a: nat, b: nat)
    requires a < AddressSpace && b < AddressSpace
    requires FormatIPv4(a) == FormatIPv4(b)
    ensures a == b
  {
    var a1, b1 := a / 256, b / 256;
    var a2, b2 := a1 / 256, b1 / 256;
    var a3, b3 := a2 / 256, b2 / 256;
    var sa0, sa1, sa2, sa3 := NatToString(a3), NatToString(a2 % 256), NatToString(a1 % 256), NatToString(a % 256);
    var sb0, sb1, sb2, sb3 := NatToString(b3), NatToString(b2 % 256), NatToString(b1 % 256), NatToString(b % 256);
    SplitAtLastDot(sa0 + "." + sa1 + "." + sa2, sa3, sb0 + "." + sb1 + "." + sb2, sb3);
    SplitAtLastDot(sa0 + "." + sa1, sa2, sb0 + "." + sb1, sb2);
    SplitAtLastDot(sa0, sa1, sb0, sb1);
    NatToStringInjective(a3, b3);
    NatToStringInjective(a2 % 256, b2 % 256);
    NatToStringInjective(a1 % 256, b1 % 256);
    NatToStringInjective(a % 256, b % 256);
  }

  /** The strings one network puts on the queue. */
  function NetTargetStrings(n: IPv4Net): seq<string> {
    var t := NetTargets(n);
    seq(|t|, i requires 0 <= i < |t| => FormatIPv4(t[i]))
  }

  /** A network never enqueues the same host twice. */
  lemma NetTargetStringsDistinct(n: IPv4Net)
    ensures forall i, j :: 0 <= i < j < |NetTargetStrings(n)| ==> NetTargetStrings(n)[i] != NetTargetStrings(n)[j]
  {
    var t := NetTargets(n);
    var s := NetTargetStrings(n);
    forall i, j | 0 <= i < j < |s|
      ensures s[i] != s[j]
    {
      if s[i] == s[j] {
        FormatIPv4Injective(t[i], t[j]);
      }
    }
  }

  /** Every target of the list, network after network (lines 57-65). */
  function Targets(nets: seq<IPv4Net>): seq<string>
    decreases |nets|
  {
    if nets == [] then [] else Targets(nets[..|nets| - 1]) + NetTargetStrings(nets[|nets| - 1])
  }

  /** Each further network appends its own targets. */
  lemma TargetsSnoc(nets: seq<IPv4Net>, n: nat)
    requires n < |nets|
    ensures Targets(nets[..n + 1]) == Targets(nets[..n]) + NetTargetStrings(nets[n])
  {
    assert nets[..n + 1][..n] == nets[..n];
  }

  /** The target count is the sum of what each network contributes. */
  function TargetCount(nets: seq<IPv4Net>): nat
    decreases |nets|
  {
    if nets == [] then 0 else TargetCount(nets[..|nets| - 1]) + |NetTargets(nets[|nets| - 1])|
  }

  lemma {:induction false} TargetsLength(nets: seq<IPv4Net>)
    ensures |Targets(nets)| == TargetCount(nets)
    ensures |Targets(nets)| >= |nets|
    decreases |nets|
  {
    if nets != [] {
      TargetsLength(nets[..|nets| - 1]);
    }
  }

  /**
   * The worker count (lines 67-68): the target count, capped at twice the
   * number of processors. It is the smaller of the two.
   */
  function WorkerCount(targets: nat, cpus: nat): (m: nat)
    ensures m <= targets && m <= 2 * cpus
    ensures m == targets || m == 2 * cpus
  {
    if 2 * cpus < targets then 2 * cpus else targets
  }
}
