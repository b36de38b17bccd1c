# fastip: best-IP selection and hosts rewrite, in Dafny

This project models the two pieces of logic in `findfastip.go`, a tool that pins
GitHub's domains to a fast address in the local hosts file.

- **Best-IP selection** (`findFastestIP`), in module `FastestIP`
  (`fastest_ip.dfy`). The input is the decoded ping report: a list of probe
  nodes, each with a name, an IP, a timeout flag and an average time. Nodes
  that timed out are dropped. So are nodes whose name contains none of the
  characters 北 京 上 海 广 州 深 圳 成 都. The test is Go's
  `strings.ContainsAny`, so it is per character, not per city name. The kept
  times are grouped by IP and averaged. An IP wins if its mean is below the
  starting bound of 1000 and no larger than any other mean. The outcome is an
  error when nothing is below the bound, when the winner is the empty string,
  or when the winner does not parse as an IP. The grouping map is iterated in
  Go's unspecified order, so the model picks keys with `:|`. Its
  specification, `IsWinner`, admits every key with a minimal mean.
- **Hosts-line rewrite**, the pure part of `updateHosts`, in module `Hosts`
  (`hosts.dfy`). The input is the lines of a hosts file and a domain-to-IP
  map. Each line is trimmed. Comment lines and lines with fewer than two
  fields pass through. On any other line, the first field after the address
  that is a key of the map decides the outcome. The line is rewritten as
  the new address followed by the other fields, joined by single spaces, but
  only if its address differs. Either way that domain is marked as present.
  Then one `ip domain` line is appended for every unmarked domain, in map
  order. The model records that order in a ghost out-parameter and
  specifies it only as an enumeration of the unmarked domains.
- The Go string functions the rewrite relies on (`strings.TrimSpace`,
  `strings.Fields`, `strings.Join`, with white space as in
  `unicode.IsSpace`) are in module `Strings` (`strings.dfy`).

The three loops of `findFastestIP` are methods with loop invariants:
`CollectSamples`, `Average` and `PickBest`. They are proved against the
specification functions `Samples`, `Mean` and `IsWinner`. The line loop of
`updateHosts` is `ScanLines` with its body `ProcessLine`, which includes the
field loop with its `break`. The final loop is `AppendMissing`. These are
proved against `RewriteAll`, `Marked` and `Appended`.

The selector measures no throughput. Its only gates are the strict `< 1000`
starting bound, the emptiness check and the IP parse, and ties go to
whichever IP the map visits first.

Two behaviours of the code are worth knowing. First, a domain that appears
on a line only after another mapped domain is not marked, so its entry is
appended again. `Coverage` holds all the same, but that domain is then
listed on two lines, and the earlier line may carry a different address.
Second, with an empty map every line is still trimmed. `main` only calls
`updateHosts` when the map is non-empty (findfastip.go:56).

## Model

| member | source | states |
|---|---|---|
| `FastestIP.FindFastestIP` | findfastip.go:109-152 | The outcome is the verdict on some admissible winner, meaning a kept IP with a minimal mean below 1000, or "" if no mean is below it. On success the IP was reported by a kept node, passes `parseIP`, has a mean below 1000, and that mean is no larger than that of any kept IP, whatever the map order. |
| `FastestIP.CollectSamples` | findfastip.go:113-126 | The first loop builds exactly `Samples(nodes)`: each kept IP maps to its kept average times in report order, and every list is non-empty. |
| `FastestIP.Average` | findfastip.go:130-134 | The inner summing loop returns the exact mean of the delays. |
| `FastestIP.PickBest` | findfastip.go:128-140 | Visiting the keys in any order while keeping the strictly smaller mean ends on an admissible winner (`IsWinner`). |
| `FastestIP.Verdict` | findfastip.go:142-151 | Success exactly when the winner is non-empty and parses, with that IP as the result. An invalid-IP error exactly when it is non-empty and does not parse. Otherwise the not-found error. |
| `FastestIP.KeptDelays` | findfastip.go:116-126 | An IP has at least one kept sample exactly when it is the IP of a kept node, and it never has more samples than there are nodes. |
| `FastestIP.Domestic` | findfastip.go:123 | `strings.ContainsAny` on the character set: some single character of the name is one of 北 京 上 海 广 州 深 圳 成 都. Its consequences are stated by `CityNameIsDomestic` and `HangzhouCountsAsDomestic`. |
| `FastestIP.CityNameIsDomestic` | findfastip.go:123 | Any name that contains one of the city names 北京, 上海, 广州, 深圳 or 成都, at any position, is domestic. |
| `FastestIP.Kept` | findfastip.go:118-123 | A node gives a sample exactly when its timeout is not positive and its name is domestic. `KeptIPsAreReported` and `SamplesStep` state what this means for the grouping. |
| `FastestIP.KeptIPsAreReported` | findfastip.go:116-126 | An IP is a kept IP exactly when some node that did not time out and has a domestic character in its name reports it. |
| `FastestIP.SamplesStep` | findfastip.go:118-125 | One node: a kept node appends its time to its IP's list, creating the list if absent. A timed-out or non-domestic node changes nothing. |
| `FastestIP.DroppedNodeIgnored` | findfastip.go:116-126 | Removing a timed-out or non-domestic node from anywhere in the report leaves the grouped samples unchanged. |
| `FastestIP.HangzhouCountsAsDomestic` | findfastip.go:123 | A worked example of the per-character match. A Hangzhou node (杭州, which shares 州 with Guangzhou) is kept. A timed-out Beijing node and a node with no listed character are dropped. |
| `FastestIP.NothingKeptIsError` | findfastip.go:142-144 | With no kept node, every admissible outcome is the not-found error. |
| `FastestIP.AllSlowIsError` | findfastip.go:136-144 | When every kept IP's mean is at least 1000, the outcome is the not-found error. |
| `FastestIP.WinnersTie` | findfastip.go:129-140 | Two admissible winners, one of them below the bound, have equal means: the map order only breaks ties. |
| `FastestIP.StrictMinimumWins` | findfastip.go:129-140 | A strict minimum below the bound is the winner for every iteration order. |
| `FastestIP.EmptyIPMinimumIsError` | findfastip.go:136-144 | If the empty IP has the strict minimal mean, the outcome is the not-found error, even when other IPs qualify. |
| `Strings.TrimLeft` | findfastip.go:180 | The result is no longer than the input and does not start with white space. An input that does not start with white space is returned unchanged. |
| `Strings.TrimLeftSpec` | findfastip.go:180 | Left trimming keeps a suffix of the input and drops only white space. |
| `Strings.TrimRight` | findfastip.go:180 | The result is no longer than the input, keeps its first character and does not end with white space. An input that does not end with white space is returned unchanged. |
| `Strings.TrimRightSpec` | findfastip.go:180 | Right trimming keeps a prefix of the input and drops only white space. |
| `Strings.IsSpace` | findfastip.go:180 | Go's `unicode.IsSpace`: the Latin-1 spaces plus U+1680, U+2000 to U+200A, U+2028, U+2029, U+202F, U+205F and U+3000. `LatinSpaces` states the Latin-1 part. |
| `Strings.LatinSpaces` | findfastip.go:180 | Below U+0100, white space is exactly tab, line feed, vertical tab, form feed, carriage return, space, U+0085 and U+00A0. |
| `Strings.TrimSpace` | findfastip.go:180 | The result has no white space at either end, and a string with none is returned unchanged, so trimming is idempotent. |
| `Strings.TrimSpaceSpec` | findfastip.go:180 | The trimmed line is the slice of the input between its leading and its trailing white space, and everything outside that slice is white space. |
| `Strings.Word` | findfastip.go:188 | The word at the head of a string is no longer than the string, and it is non-empty when the string starts with a non-space character. |
| `Strings.WordSpec` | findfastip.go:188 | The word is the longest white-space-free prefix: it is a prefix, contains no white space, and the next character, if any, is white space. |
| `Strings.FieldsAreWords` | findfastip.go:188 | Every field is non-empty and contains no white space. |
| `Strings.Fields` | findfastip.go:188 | `strings.Fields`: the maximal runs of non-space characters, in order. `FieldsAreWords` and `FieldsOfJoin` state what it yields. |
| `Strings.Join` | findfastip.go:201 | A join of words starts with the first character of the first word. |
| `Strings.FieldsOfJoin` | findfastip.go:188-201 | Splitting a single-space join of words gives the words back. |
| `Strings.JoinTrimmed` | findfastip.go:180-201 | A single-space join of words has no white space at either end. |
| `Hosts.FirstKeyFrom` | findfastip.go:196-198 | A found index is at or after `from`, inside the fields, and its field is a key of the map. |
| `Hosts.FirstKeyFromSpec` | findfastip.go:196-198 | The found index is the least such index, and nothing is found exactly when no field at or after `from` is a key. |
| `Hosts.FirstKey` | findfastip.go:196-211 | A found index lies after the address field, inside the fields, and its field is a key of the map. |
| `Hosts.FirstKeySpec` | findfastip.go:196-211 | The found index is the least one after the address whose field is a key. Nothing is found exactly when no field after the address is a key. |
| `Hosts.IsComment` | findfastip.go:182 | `strings.HasPrefix(line, "#")` on the trimmed line. `ClassifySpec` states that such a line passes through. |
| `Hosts.Classify` | findfastip.go:180-216 | A matched line names a domain of the map and carries that domain's IP. |
| `Hosts.ClassifySpec` | findfastip.go:180-216 | A line is matched exactly when its trimmed text is not a comment, has at least two fields and some field after the first is a key. It is matched by the first such key, and it is changed exactly when its address differs from that key's IP. |
| `Hosts.RewriteLine` | findfastip.go:180-216 | The line emitted for one input line. `RewriteLineSpec` states what it is and `RewriteLineStable` states that it is a fixed point. |
| `Hosts.RewriteLineSpec` | findfastip.go:180-216 | Comment, short, unmatched and up-to-date lines are emitted trimmed. A changed line becomes the new IP followed by the fields after the address, joined by single spaces. |
| `Hosts.RewriteAll` | findfastip.go:179-217 | One output line per input line, in order, and line i is the rewrite of input line i. |
| `Hosts.Marked` | findfastip.go:209 | The marked domains are keys of the map. |
| `Hosts.MatchedIsMarked` | findfastip.go:208-209 | The domain of every matched line is marked. |
| `Hosts.MarkedIsMatched` | findfastip.go:208-209 | Every marked domain is the first-matching domain of some line. |
| `Hosts.Appended` | findfastip.go:219-226 | One `ip domain` entry per listed domain, in the listed order. |
| `Hosts.Entry` | findfastip.go:222 | `fmt.Sprintf("%s %s", ip, domain)`. `EntryFields` and `EntryIsCurrent` state how it reads back. |
| `Hosts.EntryFields` | findfastip.go:222 | An entry built from an address word and a domain word is already trimmed and splits back into exactly the address and the domain. |
| `Hosts.EnumerationLength` | findfastip.go:219-226 | An order that lists each unmarked domain exactly once is as long as the set of unmarked domains. |
| `Hosts.ProcessLine` | findfastip.go:180-216 | The loop body, including the field loop with its `break`, emits `RewriteLine` and takes the branch `Classify` describes. |
| `Hosts.ScanLines` | findfastip.go:174-217 | The line loop produces the rewritten lines and exactly the set of marked domains. |
| `Hosts.AppendMissing` | findfastip.go:219-226 | The final loop appends one entry per unmarked domain, each exactly once, in some order of the map. |
| `Hosts.UpdateLines` | findfastip.go:174-226 | The output is the rewritten input lines followed by one entry for each unmarked domain, in some order. Its length is the number of input lines plus the number of unmarked domains. |
| `Hosts.RewriteLineStable` | findfastip.go:195-216 | With a well-formed map, a rewritten line rewrites to itself. It is matched by the same domain as before, now with its address current. |
| `Hosts.EntryIsCurrent` | findfastip.go:220-223 | With a well-formed map, an appended `ip domain` line reads back as an up-to-date entry for that domain. |
| `Hosts.UpdatedLinesStable` | findfastip.go:195-226 | With a well-formed map, every output line of an update rewrites to itself and takes no "updated" branch. |
| `Hosts.MarkedDomainIsCurrent` | findfastip.go:196-216 | With a well-formed map, a marked domain's line, once rewritten, is matched by that domain with its address current. |
| `Hosts.MissingDomainIsCurrent` | findfastip.go:219-226 | With a well-formed map, an unmarked domain's appended entry is matched by that domain with its address current. |
| `Hosts.DomainIsCurrent` | findfastip.go:196-226 | With a well-formed map, every domain of the map has an output line that it matches with its address already current. |
| `Hosts.Coverage` | findfastip.go:196-226 | With a well-formed map, every domain is listed under its new IP on some output line. |
| `Hosts.Idempotent` | findfastip.go:195-226 | With a well-formed map, a second run on the output marks every domain, logs no "updated" line, appends nothing and returns identical lines, for any map order. |

A well-formed map has keys and values that are non-empty and free of white
space, and no value starts with `#`.

## Left out

- `getBestIP` (findfastip.go:68-106): the HTTP POST to the ping site, its headers, the body read and the JSON decoding are network I/O and library code. The model takes the decoded node list as input. The `time` array of a node is never read, so it is not modelled.
- Floating point: `AvgTime` and the average `sum / float64(len(delays))` are modelled with exact reals, so float64 rounding is not captured.
- `net.ParseIP` is a library routine. It is the total function parameter `parseIP`, and only whether it accepts the winner matters.
- `updateHosts` file handling: choosing the path by operating system (including the unsupported-OS error), opening and scanning the file, and creating and writing it are I/O. The model maps lines in to lines out. A `bufio.Scanner` error, such as a line over its size limit, ends the scan early and is never checked by the code. The model assumes the whole file was read.
- The "updated", "no update needed" and "added" console messages are not output. `Classify`'s `changed` flag tells which of the first two a line would print.
- Go's strings are UTF-8 bytes. The model uses sequences of code points, so invalid UTF-8 is not modelled.
- `flushDNS` (findfastip.go:245-271) runs OS commands. `main` (findfastip.go:43-65) is printing and glue.
- The order of Go map iteration: the model leaves the tie-break and the order of appended lines unspecified, as the code does.
- `Hosts.Coverage`, `Hosts.Idempotent`: these are proved only for well-formed maps. Without that condition they can fail. With an empty domain or IP, or one that contains white space, the appended line does not read back as one entry. With an IP that starts with `#`, the appended line reads back as a comment.
