/**
  Best-IP selection over a decoded ping report (findFastestIP).

  The report is a list of probe nodes. Nodes that timed out or whose name
  holds none of the characters of DomesticChars are dropped; the remaining
  average times are grouped by IP; the IP with the smallest mean below the
  starting bound of 1000 wins. Go iterates the grouping map in an unspecified
  order, so among IPs with equal minimal means any one may win: the model
  chooses the next key with `:|` and the specification, IsWinner, admits
  every minimal key. Go's float64 arithmetic is modelled with exact reals,
  and net.ParseIP, a library routine, is the parameter `parseIP`.
*/
module FastestIP {

  /** One entry of the ping report's node list. */
  datatype Node = Node(name: string, ip: string, timeout: int, avgTime: real)

  /** What findFastestIP returns: an IP, or one of its two errors. */
  datatype Outcome =
    | Found(ip: string)
    | NoDomesticIP          // no IP with a mean below the bound (or the winner was "")
    | InvalidIP(ip: string) // the winner is not an IP literal according to parseIP

  /** The starting value of minAvg: only means strictly below it can win. */
  const Bound: real := 1000.0

  /** The character set handed to strings.ContainsAny: Beijing, Shanghai, Guangzhou, Shenzhen, Chengdu. */
  const DomesticChars: string := "北京上海广州深圳成都"

  /** strings.ContainsAny(name, DomesticChars): some single character of the name is in the set. */
  predicate Domestic(name: string) {
    exists i :: 0 <= i < |name| && name[i] in DomesticChars
  }

  /** A node contributes a sample iff it did not time out and is domestic. */
  predicate Kept(n: Node) {
    !(n.timeout > 0) && Domestic(n.name)
  }

  /** The IPs of the kept nodes. */
  function KeptIPs(nodes: seq<Node>): set<string> {
    if nodes == [] then {}
    else
      var last := nodes[|nodes| - 1];
      KeptIPs(nodes[..|nodes| - 1]) + (if Kept(last) then {last.ip} else {})
  }

  /** The average times of the kept nodes that report ip, in report order;
      exactly the kept IPs have at least one. */
  function KeptDelays(nodes: seq<Node>, ip: string): (d: seq<real>)
    ensures |d| <= |nodes|
    ensures |d| > 0 <==> ip in KeptIPs(nodes)
  {
    if nodes == [] then []
    else
      var last := nodes[|nodes| - 1];
      KeptDelays(nodes[..|nodes| - 1], ip) + (if Kept(last) && last.ip == ip then [last.avgTime] else [])
  }

  /** The map `ips` that the first loop of findFastestIP builds: kept IP to its delays. */
  function Samples(nodes: seq<Node>): map<string, seq<real>> {
    map ip | ip in KeptIPs(nodes) :: KeptDelays(nodes, ip)
  }

  function Sum(s: seq<real>): real {
    if s == [] then 0.0 else Sum(s[..|s| - 1]) + s[|s| - 1]
  }

  function Mean(s: seq<real>): real
    requires |s| > 0
  {
    Sum(s) / (|s| as real)
  }

  /** Every key of the map has at least one sample, so its mean is defined. */
  ghost predicate WellGrouped(ips: map<string, seq<real>>) {
    forall ip :: ip in ips ==> |ips[ip]| > 0
  }

  /** The admissible final values of bestIP after the second loop, in any map order:
      a key whose mean is below Bound and no larger than any other key's mean,
      or "" when no key has a mean below Bound. */
  ghost predicate IsWinner(ips: map<string, seq<real>>, w: string)
    requires WellGrouped(ips)
  {
    || (w == "" && forall ip :: ip in ips ==> Mean(ips[ip]) >= Bound)
    || (w in ips && Mean(ips[w]) < Bound && forall ip :: ip in ips ==> Mean(ips[w]) <= Mean(ips[ip]))
  }

  /** The final checks on bestIP: empty means not found, unparsable means invalid. */
  function Verdict(bestIP: string, parseIP: string -> bool): (r: Outcome)
    ensures r.Found? <==> bestIP != "" && parseIP(bestIP)
    ensures r.Found? ==> r.ip == bestIP
    ensures r.InvalidIP? <==> bestIP != "" && !parseIP(bestIP)
  {
    if bestIP == "" then NoDomesticIP
    else if !parseIP(bestIP) then InvalidIP(bestIP)
    else Found(bestIP)
  }

  /** The kept IPs are exactly the IPs of the nodes that pass both filters. */
  lemma {:induction false} KeptIPsAreReported(nodes: seq<Node>, ip: string)
    ensures ip in KeptIPs(nodes) <==> exists i :: 0 <= i < |nodes| && Kept(nodes[i]) && nodes[i].ip == ip
  {
    if nodes != [] {
      var init, last := nodes[..|nodes| - 1], nodes[|nodes| - 1];
      KeptIPsAreReported(init, ip);
      if ip in KeptIPs(init) {
        var i :| 0 <= i < |init| && Kept(init[i]) && init[i].ip == ip;
        assert nodes[i] == init[i];
      }
      if exists i :: 0 <= i < |nodes| && Kept(nodes[i]) && nodes[i].ip == ip {
        var i :| 0 <= i < |nodes| && Kept(nodes[i]) && nodes[i].ip == ip;
        if i < |init| {
          assert init[i] == nodes[i];
        }
      }
    }
  }

  lemma SamplesWellGrouped(nodes: seq<Node>)
    ensures WellGrouped(Samples(nodes))
  {
  }

  /** One step of the first loop: a kept node appends its time to its IP's list
      (creating the list if absent); a dropped node changes nothing. */
  lemma SamplesStep(nodes: seq<Node>, n: Node)
    ensures Samples(nodes + [n]) ==
      if Kept(n) then
        Samples(nodes)[n.ip := (if n.ip in Samples(nodes) then Samples(nodes)[n.ip] else []) + [n.avgTime]]
      else Samples(nodes)
  {
    var ext := nodes + [n];
    assert ext[..|ext| - 1] == nodes;
    var before, after := Samples(nodes), Samples(ext);
    if Kept(n) {
      var expected := before[n.ip := (if n.ip in before then before[n.ip] else []) + [n.avgTime]];
      assert after.Keys == expected.Keys;
      forall ip | ip in after ensures after[ip] == expected[ip] {
        if ip == n.ip && n.ip !in before {
          assert KeptDelays(nodes, ip) == [];
        }
      }
    } else {
      assert after.Keys == before.Keys;
      forall ip | ip in after ensures after[ip] == before[ip] {
        assert KeptDelays(ext, ip) == KeptDelays(nodes, ip) + [];
      }
    }
  }

  /** The first loop of findFastestIP: the IP-to-delays map, built by append. */
  method CollectSamples(nodes: seq<Node>) returns (ips: map<string, seq<real>>)
    ensures ips == Samples(nodes)
    ensures WellGrouped(ips)
  {
    ips := map[];
    for i := 0 to |nodes|
      invariant ips == Samples(nodes[..i])
    {
      var node := nodes[i];
      SamplesStep(nodes[..i], node);
      assert nodes[..i + 1] == nodes[..i] + [node];
      if node.timeout > 0 {
        continue;
      }
      if Domestic(node.name) {
        var prev := if node.ip in ips then ips[node.ip] else [];
        ips := ips[node.ip := prev + [node.avgTime]];
      }
    }
    assert nodes[..|nodes|] == nodes;
    SamplesWellGrouped(nodes);
  }

  /** The inner loop of findFastestIP: the mean of one IP's delays. */
  method Average(delays: seq<real>) returns (avg: real)
    requires |delays| > 0
    ensures avg == Mean(delays)
  {
    var sum := 0.0;
    for j := 0 to |delays|
      invariant sum == Sum(delays[..j])
    {
      assert delays[..j + 1][..j] == delays[..j];
      sum := sum + delays[j];
    }
    assert delays[..|delays|] == delays;
    avg := sum / (|delays| as real);
  }

  /** The second loop of findFastestIP: keep the key with the smallest mean below
      the bound, visiting the keys in an arbitrary order. */
  method PickBest(ips: map<string, seq<real>>) returns (bestIP: string)
    requires WellGrouped(ips)
    ensures IsWinner(ips, bestIP)
  {
    bestIP := "";
    var minAvg := Bound;
    ghost var found := false;
    var remaining := ips.Keys;
    while remaining != {}
      invariant remaining <= ips.Keys
      invariant minAvg <= Bound
      invariant forall ip :: ip in ips.Keys - remaining ==> minAvg <= Mean(ips[ip])
      invariant !found ==> bestIP == "" && minAvg == Bound
      invariant found ==> bestIP in ips && minAvg == Mean(ips[bestIP]) && minAvg < Bound
      decreases remaining
    {
      var ip :| ip in remaining;
      var avg := Average(ips[ip]);
      if avg < minAvg {
        minAvg := avg;
        bestIP := ip;
        found := true;
      }
      remaining := remaining - {ip};
    }
  }

  /** findFastestIP: filter, group, average, pick the minimum, then validate.
      `winner` is the value bestIP ended with; which minimal IP it is depends
      on the map's iteration order. */
  method FindFastestIP(nodes: seq<Node>, parseIP: string -> bool) returns (r: Outcome, ghost winner: string)
    ensures WellGrouped(Samples(nodes)) && IsWinner(Samples(nodes), winner)
    ensures r == Verdict(winner, parseIP)
    ensures r.Found? ==> r.ip in KeptIPs(nodes) && parseIP(r.ip)
    ensures r.Found? ==> exists i :: 0 <= i < |nodes| && Kept(nodes[i]) && nodes[i].ip == r.ip
    ensures r.Found? ==> Mean(KeptDelays(nodes, r.ip)) < Bound
    ensures r.Found? ==> forall ip :: ip in KeptIPs(nodes) ==> Mean(KeptDelays(nodes, r.ip)) <= Mean(KeptDelays(nodes, ip))
  {
    var ips := CollectSamples(nodes);
    var bestIP := PickBest(ips);
    winner := bestIP;
    assert forall ip :: ip in ips <==> ip in KeptIPs(nodes);
    assert forall ip :: ip in ips ==> ips[ip] == KeptDelays(nodes, ip);
    if bestIP == "" {
      return NoDomesticIP, winner;
    }
    if !parseIP(bestIP) {
      return InvalidIP(bestIP), winner;
    }
    KeptIPsAreReported(nodes, bestIP);
    r := Found(bestIP);
  }

  /** A timed-out or non-domestic node contributes no samples: removing it
      leaves the grouped delays unchanged. */
  lemma {:induction false} DroppedNodeIgnored(pre: seq<Node>, n: Node, post: seq<Node>)
    requires !Kept(n)
    ensures Samples(pre + [n] + post) == Samples(pre + post)
  {
    if post == [] {
      assert pre + [n] + post == pre + [n];
      assert pre + post == pre;
      SamplesStep(pre, n);
    } else {
      var init, last := post[..|post| - 1], post[|post| - 1];
      DroppedNodeIgnored(pre, n, init);
      assert pre + [n] + post == (pre + [n] + init) + [last];
      assert pre + post == (pre + init) + [last];
      SamplesStep(pre + [n] + init, last);
      SamplesStep(pre + init, last);
    }
  }

  /** Every name that contains one of the five city names in the character set
      counts as domestic, wherever in the name it appears. */
  lemma CityNameIsDomestic(name: string, city: string, i: nat)
    requires city in {"北京", "上海", "广州", "深圳", "成都"}
    requires i + |city| <= |name| && name[i..i + |city|] == city
    ensures Domestic(name)
  {
    assert name[i] == city[0];
  }

  /** A worked example, not a general property (the general rule is the definition
      of Domestic itself): the test is per character, so a name holding any one of
      the characters is kept even when it names no listed city (Hangzhou, 杭州,
      shares 州 with Guangzhou). */
  lemma HangzhouCountsAsDomestic()
    ensures Domestic("浙江杭州电信")
    ensures Kept(Node("浙江杭州电信", "1.2.3.4", 0, 30.0))
    ensures !Kept(Node("北京电信", "1.2.3.4", 1, 30.0))
    ensures !Kept(Node("Tokyo", "1.2.3.4", 0, 30.0))
  {
    assert "浙江杭州电信"[3] == '州';
  }

  /** With no kept node at all the only possible outcome is the not-found error. */
  lemma NothingKeptIsError(nodes: seq<Node>, parseIP: string -> bool, w: string)
    requires KeptIPs(nodes) == {}
    requires WellGrouped(Samples(nodes)) && IsWinner(Samples(nodes), w)
    ensures Verdict(w, parseIP) == NoDomesticIP
  {
  }

  /** When every kept IP averages at least the bound, the result is the not-found error. */
  lemma AllSlowIsError(nodes: seq<Node>, parseIP: string -> bool, w: string)
    requires forall ip :: ip in KeptIPs(nodes) ==> Mean(KeptDelays(nodes, ip)) >= Bound
    requires WellGrouped(Samples(nodes)) && IsWinner(Samples(nodes), w)
    ensures Verdict(w, parseIP) == NoDomesticIP
  {
  }

  /** Two admissible winners differ at most by a tie: when one IP is below the bound,
      so is the other, with the same mean. */
  lemma WinnersTie(ips: map<string, seq<real>>, w1: string, w2: string)
    requires WellGrouped(ips) && IsWinner(ips, w1) && IsWinner(ips, w2)
    requires w1 in ips && Mean(ips[w1]) < Bound
    ensures w2 in ips && Mean(ips[w2]) == Mean(ips[w1])
  {
  }

  /** A strict minimum below the bound is chosen whatever the iteration order. */
  lemma StrictMinimumWins(ips: map<string, seq<real>>, best: string, w: string)
    requires WellGrouped(ips) && best in ips && Mean(ips[best]) < Bound
    requires forall ip :: ip in ips && ip != best ==> Mean(ips[best]) < Mean(ips[ip])
    requires IsWinner(ips, w)
    ensures w == best
  {
  }

  /** The empty IP as the strict minimum makes findFastestIP fail, even when
      other IPs would qualify. */
  lemma EmptyIPMinimumIsError(ips: map<string, seq<real>>, parseIP: string -> bool, w: string)
    requires WellGrouped(ips) && "" in ips && Mean(ips[""]) < Bound
    requires forall ip :: ip in ips && ip != "" ==> Mean(ips[""]) < Mean(ips[ip])
    requires IsWinner(ips, w)
    ensures Verdict(w, parseIP) == NoDomesticIP
  {
    StrictMinimumWins(ips, "", w);
  }
}
