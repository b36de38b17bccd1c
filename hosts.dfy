/**
  The line-rewriting core of updateHosts: the lines of a hosts file and a
  domain-to-IP map go in, the new list of lines comes out. Reading and
  writing the file, and choosing its path by operating system, are not
  modelled.

  Each line is trimmed. Comments and lines with fewer than two fields pass
  through. On any other line the first field after the address that is a
  key of the map decides: the line is rewritten to the new address followed
  by the remaining fields when the address differs, kept when it does not,
  and either way that domain is marked as present. Afterwards one
  "<ip> <domain>" line is appended for every unmarked domain, in the map's
  iteration order, which Go leaves unspecified: the method picks the next
  key with `:|`, and the ghost out-parameter `order` records the order it
  chose, specified only as an enumeration of the unmarked domains.
*/
module Hosts {
  import opened Strings

  datatype Option<T> = None | Some(value: T)

  /** The branch updateHosts takes on one line, which is also what it logs. */
  datatype Action =
    | PassThrough                                            // comment, short line, or no mapped field
    | Matched(domain: string, newIP: string, changed: bool)  // "updated" when changed, "no update needed" otherwise

  /** strings.HasPrefix(line, "#"). */
  predicate IsComment(t: string) {
    |t| > 0 && t[0] == '#'
  }

  /** The first index from `from` on whose field is a key of ipMap. */
  function FirstKeyFrom(fields: seq<string>, ipMap: map<string, string>, from: nat): (k: Option<nat>)
    ensures k.Some? ==> from <= k.value < |fields| && fields[k.value] in ipMap
    decreases |fields| - from
  {
    if from >= |fields| then None
    else if fields[from] in ipMap then Some(from)
    else FirstKeyFrom(fields, ipMap, from + 1)
  }

  /** The field loop of updateHosts: the first field after the address that is a key. */
  function FirstKey(fields: seq<string>, ipMap: map<string, string>): (k: Option<nat>)
    ensures k.Some? ==> 1 <= k.value < |fields| && fields[k.value] in ipMap
  {
    FirstKeyFrom(fields, ipMap, 1)
  }

  /** FirstKeyFrom finds the least such index, and finds none only when there is none. */
  lemma {:induction false} FirstKeyFromSpec(fields: seq<string>, ipMap: map<string, string>, from: nat)
    ensures var k := FirstKeyFrom(fields, ipMap, from);
      && (k.Some? ==> forall j :: from <= j < k.value ==> fields[j] !in ipMap)
      && (k.None? ==> forall j :: from <= j < |fields| ==> fields[j] !in ipMap)
    decreases |fields| - from
  {
    if from < |fields| && fields[from] !in ipMap {
      FirstKeyFromSpec(fields, ipMap, from + 1);
    }
  }

  /** FirstKey is the least index after the address whose field is a key, and it is
      absent exactly when no field after the address is a key. */
  lemma FirstKeySpec(fields: seq<string>, ipMap: map<string, string>)
    ensures var k := FirstKey(fields, ipMap);
      && (k.Some? ==> forall j :: 1 <= j < k.value ==> fields[j] !in ipMap)
      && (k.None? <==> forall j :: 1 <= j < |fields| ==> fields[j] !in ipMap)
  {
    FirstKeyFromSpec(fields, ipMap, 1);
  }

  /** Which branch a raw line takes (ClassifySpec states what it means). */
  function Classify(raw: string, ipMap: map<string, string>): (a: Action)
    ensures a.Matched? ==> a.domain in ipMap && a.newIP == ipMap[a.domain]
  {
    var line := TrimSpace(raw);
    if IsComment(line) then PassThrough
    else
      var fields := Fields(line);
      if |fields| < 2 then PassThrough
      else
        match FirstKey(fields, ipMap)
        case None => PassThrough
        case Some(k) => Matched(fields[k], ipMap[fields[k]], fields[0] != ipMap[fields[k]])
  }

  /** The branches of updateHosts: comments and short lines pass through; otherwise
      the line is matched exactly when a field after the address is a key, by the
      first such key, and it is changed exactly when its address is not that key's IP. */
  lemma ClassifySpec(raw: string, ipMap: map<string, string>)
    ensures var a := Classify(raw, ipMap); var t := TrimSpace(raw); var f := Fields(t);
      && (a.Matched? <==> !IsComment(t) && |f| >= 2 && exists j :: 1 <= j < |f| && f[j] in ipMap)
      && (a.Matched? ==> exists k :: 1 <= k < |f| && f[k] == a.domain && forall j :: 1 <= j < k ==> f[j] !in ipMap)
      && (a.Matched? ==> (a.changed <==> f[0] != a.newIP))
  {
    FirstKeySpec(Fields(TrimSpace(raw)), ipMap);
  }

  /** The line updateHosts emits for a raw input line (RewriteLineSpec states what it is). */
  function RewriteLine(raw: string, ipMap: map<string, string>): string {
    var line := TrimSpace(raw);
    match Classify(raw, ipMap)
    case Matched(_, newIP, true) => newIP + " " + Join(Fields(line)[1..], " ")
    case _ => line
  }

  /** Comment, short, unmatched and up-to-date lines are emitted trimmed; a changed
      line becomes the new address followed by the other fields, single-spaced. */
  lemma RewriteLineSpec(raw: string, ipMap: map<string, string>)
    ensures var a := Classify(raw, ipMap);
      !(a.Matched? && a.changed) ==> RewriteLine(raw, ipMap) == TrimSpace(raw)
    ensures var a := Classify(raw, ipMap); var f := Fields(TrimSpace(raw));
      a.Matched? && a.changed ==> |f| >= 2 && RewriteLine(raw, ipMap) == Join([a.newIP] + f[1..], " ")
  {
    var a := Classify(raw, ipMap);
    if a.Matched? && a.changed {
      var f := Fields(TrimSpace(raw));
      JoinCons(a.newIP, f[1..]);
    }
  }

  lemma JoinCons(w: string, rest: seq<string>)
    requires rest != []
    ensures Join([w] + rest, " ") == w + " " + Join(rest, " ")
  {
    assert ([w] + rest)[1..] == rest;
  }

  /** The rewritten input lines: one output line per input line, in order. */
  function RewriteAll(lines: seq<string>, ipMap: map<string, string>): (r: seq<string>)
    ensures |r| == |lines|
    ensures forall i :: 0 <= i < |lines| ==> r[i] == RewriteLine(lines[i], ipMap)
  {
    if lines == [] then []
    else RewriteAll(lines[..|lines| - 1], ipMap) + [RewriteLine(lines[|lines| - 1], ipMap)]
  }

  /** The domains updateHosts records in existingDomains while scanning the lines. */
  function Marked(lines: seq<string>, ipMap: map<string, string>): (s: set<string>)
    ensures s <= ipMap.Keys
  {
    if lines == [] then {}
    else
      Marked(lines[..|lines| - 1], ipMap) +
        match Classify(lines[|lines| - 1], ipMap)
        case Matched(d, _, _) => {d}
        case PassThrough => {}
  }

  /** The map's domains that no input line matched first. */
  function Missing(lines: seq<string>, ipMap: map<string, string>): set<string> {
    ipMap.Keys - Marked(lines, ipMap)
  }

  /** fmt.Sprintf("%s %s", ip, domain). */
  function Entry(domain: string, ip: string): string {
    ip + " " + domain
  }

  /** `order` lists every element of s exactly once. */
  ghost predicate Enumerates(order: seq<string>, s: set<string>) {
    && (forall i, j :: 0 <= i < j < |order| ==> order[i] != order[j])
    && (forall d :: d in order <==> d in s)
  }

  /** The lines appended for the domains of `order`, in that order. */
  function Appended(order: seq<string>, ipMap: map<string, string>): (r: seq<string>)
    requires forall d :: d in order ==> d in ipMap
    ensures |r| == |order|
    ensures forall i :: 0 <= i < |order| ==> r[i] == Entry(order[i], ipMap[order[i]])
  {
    if order == [] then []
    else
      var last := order[|order| - 1];
      Appended(order[..|order| - 1], ipMap) + [Entry(last, ipMap[last])]
  }

  /** An enumeration of a set is exactly as long as the set is large. */
  lemma {:induction false} EnumerationLength(order: seq<string>, s: set<string>)
    requires Enumerates(order, s)
    ensures |order| == |s|
  {
    if order != [] {
      var init, last := order[..|order| - 1], order[|order| - 1];
      assert forall d :: d in init ==> d != last by {
        forall d | d in init ensures d != last {
          var i :| 0 <= i < |init| && init[i] == d;
          assert order[i] == d;
        }
      }
      assert forall d :: d in init <==> d in s - {last} by {
        forall d ensures d in init <==> d in s - {last} {
          if d in s - {last} {
            assert d in order;
            var i :| 0 <= i < |order| && order[i] == d;
            assert i < |init|;
            assert init[i] == d;
          }
        }
      }
      EnumerationLength(init, s - {last});
    }
  }

  /** The body of updateHosts' line loop for one scanned line: the line it appends
      to newLines, and the branch it took (a matched domain goes into existingDomains). */
  method ProcessLine(raw: string, ipMap: map<string, string>) returns (out: string, action: Action)
    ensures out == RewriteLine(raw, ipMap)
    ensures action == Classify(raw, ipMap)
  {
    var line := TrimSpace(raw);
    if IsComment(line) {
      return line, PassThrough;
    }
    var fields := Fields(line);
    if |fields| < 2 {
      return line, PassThrough;
    }
    var i := 1;
    while i < |fields|
      invariant 1 <= i <= |fields|
      invariant forall j :: 1 <= j < i ==> fields[j] !in ipMap
    {
      var domain := fields[i];
      if domain in ipMap {
        FirstKeySpec(fields, ipMap);
        assert FirstKey(fields, ipMap) == Some(i);
        var newIP := ipMap[domain];
        if fields[0] != newIP {
          out := newIP + " " + Join(fields[1..], " ");
        } else {
          out := line;
        }
        return out, Matched(domain, newIP, fields[0] != newIP);
      }
      i := i + 1;
    }
    FirstKeySpec(fields, ipMap);
    return line, PassThrough;
  }

  /** Scanning one more line appends its rewrite and marks its matched domain. */
  lemma ScanStep(lines: seq<string>, n: nat, ipMap: map<string, string>)
    requires n < |lines|
    ensures RewriteAll(lines[..n + 1], ipMap) == RewriteAll(lines[..n], ipMap) + [RewriteLine(lines[n], ipMap)]
    ensures Marked(lines[..n + 1], ipMap) ==
      Marked(lines[..n], ipMap) + (if Classify(lines[n], ipMap).Matched? then {Classify(lines[n], ipMap).domain} else {})
  {
    var prefix := lines[..n + 1];
    assert prefix[..n] == lines[..n] && prefix[n] == lines[n];
  }

  /** The line loop of updateHosts: newLines and existingDomains after the last line. */
  method ScanLines(lines: seq<string>, ipMap: map<string, string>) returns (newLines: seq<string>, existingDomains: set<string>)
    ensures newLines == RewriteAll(lines, ipMap)
    ensures existingDomains == Marked(lines, ipMap)
  {
    newLines := [];
    existingDomains := {};
    for n := 0 to |lines|
      invariant newLines == RewriteAll(lines[..n], ipMap)
      invariant existingDomains == Marked(lines[..n], ipMap)
    {
      ScanStep(lines, n, ipMap);
      var out, action := ProcessLine(lines[n], ipMap);
      newLines := newLines + [out];
      if action.Matched? {
        existingDomains := existingDomains + {action.domain};
      }
    }
    assert lines[..|lines|] == lines;
  }

  /** The final loop of updateHosts: one entry per domain not in existingDomains,
      in the order the map is visited. */
  method AppendMissing(newLines: seq<string>, existingDomains: set<string>, ipMap: map<string, string>)
    returns (result: seq<string>, ghost order: seq<string>)
    ensures Enumerates(order, ipMap.Keys - existingDomains)
    ensures result == newLines + Appended(order, ipMap)
  {
    result := newLines;
    var remaining := ipMap.Keys;
    order := [];
    while remaining != {}
      invariant remaining <= ipMap.Keys
      invariant Enumerates(order, ipMap.Keys - remaining - existingDomains)
      invariant result == newLines + Appended(order, ipMap)
      decreases remaining
    {
      var domain :| domain in remaining;
      var ip := ipMap[domain];
      if domain !in existingDomains {
        assert domain !in order;
        result := result + [Entry(domain, ip)];
        order := order + [domain];
      }
      remaining := remaining - {domain};
    }
  }

  /** The rewrite and append steps of updateHosts. */
  method UpdateLines(lines: seq<string>, ipMap: map<string, string>) returns (newLines: seq<string>, ghost order: seq<string>)
    ensures Enumerates(order, Missing(lines, ipMap))
    ensures newLines == RewriteAll(lines, ipMap) + Appended(order, ipMap)
    ensures |newLines| == |lines| + |Missing(lines, ipMap)|
  {
    var scanned, existingDomains := ScanLines(lines, ipMap);
    newLines, order := AppendMissing(scanned, existingDomains, ipMap);
    EnumerationLength(order, Missing(lines, ipMap));
  }

  /** Maps whose entries read back as written: domains and IPs are non-empty and free
      of white space, and no IP starts with '#'. */
  predicate WellFormed(ipMap: map<string, string>) {
    forall d :: d in ipMap ==> IsWord(d) && IsWord(ipMap[d]) && !IsComment(ipMap[d])
  }

  /** A line that, read as a hosts entry, lists domain d under address ip. */
  ghost predicate Lists(line: string, ip: string, d: string) {
    var t := TrimSpace(line);
    var f := Fields(t);
    !IsComment(t) && |f| >= 2 && f[0] == ip && exists k :: 1 <= k < |f| && f[k] == d
  }

  /** The field search only looks past the address. */
  lemma FirstKeySameTail(f1: seq<string>, f2: seq<string>, ipMap: map<string, string>)
    requires |f1| == |f2|
    requires forall j :: 1 <= j < |f1| ==> f1[j] == f2[j]
    ensures FirstKey(f1, ipMap) == FirstKey(f2, ipMap)
  {
    FirstKeySpec(f1, ipMap);
    FirstKeySpec(f2, ipMap);
  }

  /** A rewritten line is a fixed point of the rewrite: it is matched by the same
      domain as before, now with the address up to date. */
  lemma RewriteLineStable(raw: string, ipMap: map<string, string>)
    requires WellFormed(ipMap)
    ensures var o := RewriteLine(raw, ipMap); RewriteLine(o, ipMap) == o
    ensures var a := Classify(raw, ipMap);
      Classify(RewriteLine(raw, ipMap), ipMap) == if a.Matched? then a.(changed := false) else PassThrough
  {
    var t := TrimSpace(raw);
    var a := Classify(raw, ipMap);
    var o := RewriteLine(raw, ipMap);
    RewriteLineSpec(raw, ipMap);
    if a.Matched? && a.changed {
      var f := Fields(t);
      FieldsAreWords(t);
      var ws := [a.newIP] + f[1..];
      assert AllWords(ws);
      JoinTrimmed(ws);
      FieldsOfJoin(ws);
      assert o == Join(ws, " ");
      assert TrimSpace(o) == o;
      assert !IsComment(o);
      FirstKeySameTail(f, ws, ipMap);
    } else {
      assert o == t;
      assert TrimSpace(o) == o;
    }
  }

  /** An entry built from two words splits back into exactly the address and the
      domain, and it is already trimmed. */
  lemma EntryFields(d: string, ip: string)
    requires IsWord(d) && IsWord(ip)
    ensures Fields(Entry(d, ip)) == [ip, d]
    ensures TrimSpace(Entry(d, ip)) == Entry(d, ip)
  {
    var ws := [ip, d];
    JoinCons(ip, [d]);
    assert [ip] + [d] == ws;
    assert Entry(d, ip) == Join(ws, " ");
    JoinTrimmed(ws);
    FieldsOfJoin(ws);
  }

  /** An appended entry is read back as an up-to-date entry for its domain. */
  lemma EntryIsCurrent(d: string, ipMap: map<string, string>)
    requires WellFormed(ipMap) && d in ipMap
    ensures RewriteLine(Entry(d, ipMap[d]), ipMap) == Entry(d, ipMap[d])
    ensures Classify(Entry(d, ipMap[d]), ipMap) == Matched(d, ipMap[d], false)
  {
    var ip := ipMap[d];
    EntryFields(d, ip);
    assert FirstKey([ip, d], ipMap) == Some(1);
  }

  /** The domain of every matched line is marked. */
  lemma {:induction false} MatchedIsMarked(lines: seq<string>, ipMap: map<string, string>, i: nat)
    requires i < |lines| && Classify(lines[i], ipMap).Matched?
    ensures Classify(lines[i], ipMap).domain in Marked(lines, ipMap)
  {
    var init := lines[..|lines| - 1];
    if i < |init| {
      assert init[i] == lines[i];
      MatchedIsMarked(init, ipMap, i);
    }
  }

  /** Every marked domain is the domain of some matched line. */
  lemma {:induction false} MarkedIsMatched(lines: seq<string>, ipMap: map<string, string>, d: string)
    requires d in Marked(lines, ipMap)
    ensures exists i :: 0 <= i < |lines| && Classify(lines[i], ipMap).Matched? && Classify(lines[i], ipMap).domain == d
  {
    var init, last := lines[..|lines| - 1], lines[|lines| - 1];
    if d in Marked(init, ipMap) {
      MarkedIsMatched(init, ipMap, d);
      var i :| 0 <= i < |init| && Classify(init[i], ipMap).Matched? && Classify(init[i], ipMap).domain == d;
      assert lines[i] == init[i];
    } else {
      assert Classify(lines[|lines| - 1], ipMap).Matched?;
    }
  }

  /** After an update with a well-formed map, every output line is a fixed point of
      the rewrite and is matched, if at all, without a change of address. */
  lemma UpdatedLinesStable(lines: seq<string>, ipMap: map<string, string>, order: seq<string>, i: nat)
    requires WellFormed(ipMap) && Enumerates(order, Missing(lines, ipMap))
    requires i < |lines| + |order|
    ensures var line := (RewriteAll(lines, ipMap) + Appended(order, ipMap))[i];
      RewriteLine(line, ipMap) == line && !(Classify(line, ipMap).Matched? && Classify(line, ipMap).changed)
  {
    var rewritten, appended := RewriteAll(lines, ipMap), Appended(order, ipMap);
    if i < |lines| {
      assert (rewritten + appended)[i] == RewriteLine(lines[i], ipMap);
      RewriteLineStable(lines[i], ipMap);
    } else {
      var d := order[i - |lines|];
      assert (rewritten + appended)[i] == Entry(d, ipMap[d]);
      EntryIsCurrent(d, ipMap);
    }
  }

  /** A marked domain's line, once rewritten, is matched by it with the address current. */
  lemma MarkedDomainIsCurrent(lines: seq<string>, ipMap: map<string, string>, order: seq<string>, d: string)
    returns (k: nat)
    requires WellFormed(ipMap) && d in Marked(lines, ipMap)
    requires forall d :: d in order ==> d in ipMap
    ensures k < |lines| + |order|
    ensures Classify((RewriteAll(lines, ipMap) + Appended(order, ipMap))[k], ipMap) == Matched(d, ipMap[d], false)
  {
    MarkedIsMatched(lines, ipMap, d);
    k :| 0 <= k < |lines| && Classify(lines[k], ipMap).Matched? && Classify(lines[k], ipMap).domain == d;
    RewriteLineStable(lines[k], ipMap);
    var rewritten := RewriteAll(lines, ipMap);
    assert (rewritten + Appended(order, ipMap))[k] == rewritten[k] == RewriteLine(lines[k], ipMap);
  }

  /** A missing domain's appended entry is matched by it with the address current. */
  lemma MissingDomainIsCurrent(lines: seq<string>, ipMap: map<string, string>, order: seq<string>, d: string)
    returns (k: nat)
    requires WellFormed(ipMap) && Enumerates(order, Missing(lines, ipMap))
    requires d in Missing(lines, ipMap)
    ensures k < |lines| + |order|
    ensures Classify((RewriteAll(lines, ipMap) + Appended(order, ipMap))[k], ipMap) == Matched(d, ipMap[d], false)
  {
    var j :| 0 <= j < |order| && order[j] == d;
    k := |lines| + j;
    var appended := Appended(order, ipMap);
    assert (RewriteAll(lines, ipMap) + appended)[k] == appended[j] == Entry(d, ipMap[d]);
    EntryIsCurrent(d, ipMap);
  }

  /** After an update with a well-formed map, every domain of the map has a line
      that is matched by it and already carries its address. */
  lemma DomainIsCurrent(lines: seq<string>, ipMap: map<string, string>, order: seq<string>, d: string)
    returns (k: nat)
    requires WellFormed(ipMap) && Enumerates(order, Missing(lines, ipMap))
    requires d in ipMap
    ensures k < |lines| + |order|
    ensures Classify((RewriteAll(lines, ipMap) + Appended(order, ipMap))[k], ipMap) == Matched(d, ipMap[d], false)
  {
    if d in Marked(lines, ipMap) {
      k := MarkedDomainIsCurrent(lines, ipMap, order, d);
    } else {
      k := MissingDomainIsCurrent(lines, ipMap, order, d);
    }
  }

  /** Coverage: after an update with a well-formed map, every domain of the map is
      listed under its new address on some line of the file. */
  lemma Coverage(lines: seq<string>, ipMap: map<string, string>, order: seq<string>)
    requires WellFormed(ipMap) && Enumerates(order, Missing(lines, ipMap))
    ensures var out := RewriteAll(lines, ipMap) + Appended(order, ipMap);
      forall d :: d in ipMap ==> exists i :: 0 <= i < |out| && Lists(out[i], ipMap[d], d)
  {
    var out := RewriteAll(lines, ipMap) + Appended(order, ipMap);
    forall d | d in ipMap ensures exists i :: 0 <= i < |out| && Lists(out[i], ipMap[d], d) {
      var i := DomainIsCurrent(lines, ipMap, order, d);
      ClassifySpec(out[i], ipMap);
      assert Lists(out[i], ipMap[d], d);
    }
  }

  /** Idempotence: running the update again on its own output with the same
      well-formed map logs no "updated" line, marks every domain, appends nothing
      and returns the lines unchanged, whatever order the map is visited in. */
  lemma Idempotent(lines: seq<string>, ipMap: map<string, string>, order: seq<string>)
    requires WellFormed(ipMap) && Enumerates(order, Missing(lines, ipMap))
    ensures var out := RewriteAll(lines, ipMap) + Appended(order, ipMap);
      forall i :: 0 <= i < |out| ==> !(Classify(out[i], ipMap).Matched? && Classify(out[i], ipMap).changed)
    ensures var out := RewriteAll(lines, ipMap) + Appended(order, ipMap);
      Missing(out, ipMap) == {}
    ensures var out := RewriteAll(lines, ipMap) + Appended(order, ipMap);
      forall again :: Enumerates(again, Missing(out, ipMap)) ==> RewriteAll(out, ipMap) + Appended(again, ipMap) == out
  {
    var out := RewriteAll(lines, ipMap) + Appended(order, ipMap);
    forall i | 0 <= i < |out| ensures RewriteLine(out[i], ipMap) == out[i]
      && !(Classify(out[i], ipMap).Matched? && Classify(out[i], ipMap).changed)
    {
      UpdatedLinesStable(lines, ipMap, order, i);
    }
    forall d | d in ipMap ensures d in Marked(out, ipMap) {
      var i := DomainIsCurrent(lines, ipMap, order, d);
      MatchedIsMarked(out, ipMap, i);
    }
    assert RewriteAll(out, ipMap) == out;
    forall again | Enumerates(again, Missing(out, ipMap)) ensures RewriteAll(out, ipMap) + Appended(again, ipMap) == out {
      EnumerationLength(again, {});
    }
  }
}
