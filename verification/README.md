# Network box: verified model of the peer store, LAN protection and maintenance

A small headless box runs a web application, a privileged WireGuard helper daemon and a
maintenance script. This project models the parts of them that keep state, text and
arithmetic in step, and proves what they promise.

| module | what it is about |
|---|---|
| `Text` | strings: substring search, trailing newlines, separators, decimal numbers |
| `WgKey` | the daemon's key check, against base64 (sections 3.5 and 4 of RFC 4648) |
| `ConfText` | a tunnel's `.conf` text: splitting, reprinting, adding and removing peers |
| `ConfInfo` | what is read back from a `.conf` text, with the exact meaning of the patterns |
| `Ipv4` | IPv4 networks as prefixes, overlap (section 3.1 of RFC 4632) |
| `IpText` | address and network texts as the address library reads them |
| `Entries` | the addresses and networks of a request, and the texts that the library prints for them |
| `Allocator` | tunnel addresses for peers: the lowest free host |
| `ClientTests` | the guard's and the daemon's test for a client tunnel |
| `LanGuard` | the web gate before an activation and the guard that trims live client tunnels |
| `Helper` | the daemon's commands over files and live kernel peers |
| `Scopes` | what an IPv6 scope id, which the library prints back, does to a tunnel's file |
| `HelperTasks` | any number of commands at once, switching only at awaits |
| `PeerStore` | the web application's metadata, in step with files and live peers; cut-off requests |
| `Activation` | what the web gate is worth: what passes it, the guard leaves alone |
| `Maintenance` | the script's lock and operations as single steps, with kills and power loss; at most one rollback reboot per update snapshot, and exactly when that fails |
| `Downtime` | the heartbeat that measures outages |
| `Nmcli` | nmcli's terse output and the two-pass way it is read |
| `Ddns` | DNS records written by several devices |

The daemon, the web application, the guard, the script, the heartbeat and the DNS update change
state in place; they are classes (`Helper.Daemon`, `PeerStore.WebApp`, `LanGuard.Kernel`,
`Maintenance.Script`, `Downtime.Heartbeat`, `Ddns.Service`) whose methods are proved to take
exactly the step that a specification function names. The promises are lemmas about runs of
those functions. Loops of the source are loops here, with the same order of work.

## What was found

* The key pattern ends in `$`, which also matches before one final newline. So each 32-byte value
  has two accepted spellings (`WgKey.AcceptedTwice`), and adding a peer under the spelling with
  the newline and removing it again can take away a peer that was there before
  (`ConfText.AddThenRemoveCanLoseAPeer`). `ConfText.AddThenRemove` says for every file and key
  exactly when adding a block and removing it cancel out.
* The library keeps an IPv6 scope id, of any characters but `%` and `/`, in the text of an interface
  address, and in that of a network unless host bits had to be cleared (`Entries.ScopeIsKept`).
  The daemon prints that text into the file. So one accepted range can add more than one peer
  block, or an `Endpoint` line that makes a server's file a client's (`Scopes.TagInAScope`,
  `Scopes.EndpointInAScope`), and so can a new tunnel's address (`Scopes.ScopeInAnAddress`).
  `Scopes.AddIsOneBlockIff`, `Scopes.AddReportsIff`, `Scopes.AddRoleIff` and `Scopes.NewTunnelIff`
  say for every command that passes the checks exactly which scope ids leave the file as meant.
  The web application itself sends IPv4 only.
* A keepalive of `true` passes the check, for a truth value is an int, and is printed as `True`
  (`Scopes.TrueIsAKeepalive`).
* A value pattern such as `^\s*Endpoint\s*=\s*(.+?)\s*$` may run over the end of a line, while the
  guard's grep looks at single lines. `ClientTests.ClientTestsAgree` says for every file exactly
  which of the two disagreements there is, if any; `ClientTests.ClientTestsCanDiffer` has a file
  for each.
* One directly connected route whose destination is not an address, such as `default`, makes the
  guard's splitter fail, and the guard then does nothing at all. So it frees the local networks
  exactly if every such route parses or they were free before (`LanGuard.GuardFreesTheLan`);
  `LanGuard.GuardCanBeSwitchedOff` is a machine on which the home network stays taken.
* A tunnel whose `Endpoint` line has no value is a client for the guard only. An unforced
  activation lets it through unchecked, and the next guard run then takes its clashing ranges away
  (`Activation.ValuelessIsTrimmed`); `Activation.ActivationSurvivesTheGuard` says exactly when.
* An `Address` line with two addresses makes an unforced activation fail inside the program
  (`Activation.CrashesIff`, `Activation.TwoAddressesCrash`).
* The web application and the script rewrite one state file without a common lock. If the
  application writes back a copy that it read before boot-check marked its rollback, one
  snapshot can cause two reboots (`Maintenance.StaleCopyBreaksTheGuard`).
  `Maintenance.DangerIsExact` says of every state whether that can still happen, and
  `Maintenance.AtomicWritesSuffice` that it cannot if each write-back finds the file as it was
  read. The other way round, when the script puts an older file back over a heartbeat's, the figure
  of the last outage stays until the next reboot exactly if the script has read the file after this
  boot's first counted heartbeat or before the first one ever (`Downtime.WriteBackKeepsFigureIff`);
  nothing can ever be told from it exactly if it finds the file as it was read
  (`Downtime.WriteBackIsInvisibleIff`).
* boot-check installs whichever saved file of a package is found first, and the cache may hold
  other versions. What it reports as reverted is the version that was replaced exactly if no
  installable file of another version was in the cache (`Maintenance.ReportHoldsIff`).
* A DNS write whose answer is lost leaves the record ahead of the log
  (`Ddns.LostAnswersMislead`); `Ddns.EveryRunStaysGood` says what holds even so, and of which
  records exactly the log is wrong.
* A second removal of a key is without effect for every key without the tolerated newline, and
  `ConfText.RemoveTwice` says exactly when it is for the others.
* nmcli rows come back as printed exactly when no field but the last ends in a backslash
  (`Nmcli.RowReadsBackIff`).

## Assumptions

* `PeerStore`: web requests do not overlap, for `create_peer` holds its loaded metadata across
  several awaits; generated keys and ids are new; in `EveryRunAgrees` the daemon's programs
  succeed. Cut-off requests are those of `StraysBounded` and `ReissuedDeletion`.
* `HelperTasks.LiveEndsAsFile`: the interface stays up, `wg set` succeeds, keys come without the
  tolerated newline, and a command starts only when its key is not in flight, its ranges are not
  another peer's, and the scope ids in them are clean (`Helper.CleanScopes`). `FilesAreSerial`
  needs none of that.
* `HelperTasks.LiveKeysEndAsFile` needs the same but nothing about whose the ranges are.
* `LanGuard`: one main-table route per live range, no policy-routed default; `wg set` succeeds.
* `Activation`: the system's interfaces are those that the check reads; bringing a tunnel up makes
  the networks of its ranges live, and texts that are no network bring nothing.
* `Maintenance`: the state file is read and written whole, and that succeeds; a new snapshot has a
  new name; the application's write-backs are atomic (`AtomicWritesSuffice`) or at least not
  dangerous in the exact sense of `Maintenance.Dangerous` (`OneRebootPerSnapshot`).
* `Maintenance`: a package file is what its name says up to the underscore, and installs the version
  it was built with.
* `Downtime`: boot times tell boots apart once the clock is synced, the synced clock does not go
  back, and reading and writing the state succeeds. `EveryRunTracks` and `RecordedDowntimeFits` are
  about runs in which each write-back by the script finds the file as it was read; the others say
  which write-backs they allow.
* `Ddns`: devices use different record names, each runs one update at a time, lookups that
  succeed tell the truth, new records get new ids.
* The library prints addresses as in Python 3.11: hexadecimal groups, the first longest row of zeros
  as a double colon.
* Text read from a file has `\n` line ends, as Python's text mode gives it; in a scope id that is
  printed `\r` and `\r\n` stand for the `\n` that comes back (`Entries.LineEnds`).

## Model

| member | source | states |
|---|---|---|
| `WgKey.AcceptsExactlyEncodings` | deploy/pi-wg-helperd/helper.py:46-50 | the key check accepts exactly the canonical base64 texts of 32-byte values, each bare or with one final newline |
| `WgKey.KeysAreBijective` | deploy/pi-wg-helperd/helper.py:46-66 | on text without a newline the check accepts exactly the encodings of 32-byte values, and no two values share one |
| `WgKey.KeyRoundTrips` | deploy/pi-wg-helperd/helper.py:46-50 | decoding gives a key back from its encoding, and encoding a well-padded text of 44 characters from what it decodes to |
| `WgKey.AcceptedIsCanonicalIff` | deploy/pi-wg-helperd/helper.py:63-66 | an accepted text is itself an encoding exactly when it does not end in a newline |
| `WgKey.AcceptedTwice` | deploy/pi-wg-helperd/helper.py:63-66 | every 32-byte value has two different accepted spellings |
| `WgKey.LastCharsAreMultiplesOfFour` | deploy/pi-wg-helperd/helper.py:47-50 | the 16 characters allowed before the pad are those whose two unused bits are zero |
| `WgKey.DecodeEncode` | deploy/pi-wg-helperd/helper.py:46-50 | decoding an encoding gives the bytes, and an encoding has the padded shape |
| `WgKey.EncodeDecode` | deploy/pi-wg-helperd/helper.py:46-50 | encoding what a well-padded text decodes to gives the text |
| `ConfText.JoinSplit` | deploy/pi-wg-helperd/helper.py:85-87 | splitting a text and joining the parts with newlines gives exactly the text |
| `ConfText.SplitWellCut` | deploy/pi-wg-helperd/helper.py:85-87 | every part after the first starts a peer section, and no part could be cut further |
| `ConfText.SplitJoin` | deploy/pi-wg-helperd/helper.py:85-87 | any list of parts with that property comes back from its joined text, so the cut is the only one |
| `ConfText.RebuildConf` | deploy/pi-wg-helperd/helper.py:90-94 | the printing loop gives header and blocks, each with one newline at its end, joined by newlines |
| `ConfText.SplitRebuild` | deploy/pi-wg-helperd/helper.py:85-94 | a rebuilt config splits into the same header and blocks up to trailing newlines |
| `ConfText.SplitNormalise` | deploy/pi-wg-helperd/helper.py:85-94 | for any text at all, reprinting changes the parts only in their trailing newlines |
| `ConfText.NormaliseTwice` | deploy/pi-wg-helperd/helper.py:85-94 | reprinting a reprinted text changes nothing |
| `ConfText.BlockNamesExactlyItsKey` | deploy/pi-wg-helperd/helper.py:223-231 | in a printed block the substring search answers equality of keys, for every pair of accepted keys |
| `ConfText.SplitAfterAdd` | deploy/pi-wg-helperd/helper.py:222-232 | after any successful add the file reads back as before, reprinted, followed by what the printed block splits into; that is the one new block exactly if no range holds a newline with a peer tag after it |
| `ConfText.SplitAfterRemove` | deploy/pi-wg-helperd/helper.py:260-262 | after a removal the file reads back as its header and the blocks without the key |
| `ConfText.AddThenRemove` | deploy/pi-wg-helperd/helper.py:222-232 | adding one block and then removing its key gives the reprinted original exactly if no reprinted block holds the key, which is so for every key without a newline |
| `ConfText.AddThenRemoveCanLoseAPeer` | deploy/pi-wg-helperd/helper.py:260-262 | a file and a key with the tolerated newline for which it does not |
| `ConfText.RemoveTwice` | deploy/pi-wg-helperd/helper.py:260-262 | for every text and key, a second removal changes nothing exactly if no kept block holds the key once reprinted, which is so for every key without a newline |
| `ConfText.HeaderSurvivesEdits` | deploy/pi-wg-helperd/helper.py:85-94 | over any series of adds and removals, refused or not, whatever scope ids the ranges have, the header of any file stays the same up to trailing newlines |
| `ConfText.AddRefines` | deploy/pi-wg-helperd/helper.py:222-232 | on a file that represents a list of peers, an add is refused exactly for a key in the list and otherwise represents the list with the peer appended |
| `ConfText.RemoveRefines` | deploy/pi-wg-helperd/helper.py:260-262 | on such a file a removal represents the list without exactly that key |
| `ConfInfo.ExtendRanges` | deploy/pi-wg-helperd/helper.py:145-146 | the inner loop appends the ranges of every AllowedIPs line, in order |
| `ConfInfo.ParseConfInfo` | deploy/pi-wg-helperd/helper.py:126-152 | the loop gives the first header address, the first peer endpoint, all ranges in order, and client exactly with an endpoint |
| `ConfInfo.MatchesNorm` | deploy/pi-wg-helperd/helper.py:121-123 | the patterns find the same values in a part before and after it was reprinted |
| `ConfInfo.RangesRoundTrip` | deploy/pi-wg-helperd/helper.py:78-146 | a printed list of ranges without newlines and commas is read back as the list |
| `ConfInfo.BlockSettings` | deploy/pi-wg-helperd/helper.py:226-231 | a printed server-side block with such ranges gives back each of its settings, and none that it was not given |
| `ConfInfo.BlockReadsBack` | deploy/pi-wg-helperd/helper.py:226-231 | a printed server-side block gives the peer's ranges back exactly if none holds a newline or a comma, and then it has no endpoint |
| `ConfInfo.BlockGivesKey` | deploy/pi-wg-helperd/helper.py:226-231 | a printed block gives its key back, without the tolerated newline |
| `ConfInfo.AddPeerReport` | deploy/pi-wg-helperd/helper.py:126-152 | adding a peer to any file appends exactly its ranges to the report and changes neither mode, address nor endpoint, if and only if no range holds a newline or a comma |
| `ConfInfo.RemovePeerReport` | deploy/pi-wg-helperd/helper.py:256-262 | after a removal the report is that of the old header and the kept blocks |
| `ConfInfo.TunnelConfReadsBack` | deploy/pi-wg-helperd/helper.py:193 | a new tunnel's file reads back as a server with its own address and no ranges exactly if the printed address holds no newline, and then it gives its key and port |
| `ConfInfo.TunnelConfRepresents` | deploy/pi-wg-helperd/helper.py:193 | a new tunnel's file is in printed form with no peer, and has no peer section, exactly if its address cannot be cut |
| `ConfInfo.EndpointLineHas` | app/wireguard.py:347-350 | the endpoint line is read as the endpoint, and the placeholder comment is not read as any setting |
| `ConfInfo.ClientSettings` | app/wireguard.py:341-352 | the peer section of a downloaded config gives back each of its settings and no other |
| `ConfInfo.ClientConfKeys` | app/wireguard.py:336-352 | a downloaded config holds the peer's own key, the server's key, the preshared key and the keepalive it was made with |
| `ConfInfo.ClientConfReadsBack` | app/wireguard.py:336-353 | a downloaded config reads back as the allocated address, the requested ranges in order, and client exactly when the tunnel has an endpoint |
| `Ipv4.InIsInterval` | app/wireguard.py:81-85 | an address is in a network exactly when it lies between its base and its broadcast address |
| `Ipv4.OverlapIffShared` | app/wireguard.py:85 | two networks overlap exactly when some address is in both |
| `Ipv4.OverlapIffPrefix` | deploy/maintenance.sh:209 | equivalently when the longer prefix extends the shorter, and then all of it lies inside |
| `Ipv4.NetworkOf` | app/wireguard.py:81 | the network of an interface address is aligned and holds the address |
| `Ipv4.HostTextInjective` | app/wireguard.py:95 | no two addresses print as the same single-address range |
| `IpText.IfaceReadsBack` | app/wireguard.py:91 | an interface address, as it is printed and stored, is read back as it was |
| `IpText.HostReadsBack` | deploy/pi-wg-helperd/helper.py:73-75 | a single-address range is read back as the network of that address alone |
| `Entries.NetworkReadsBack` | deploy/pi-wg-helperd/helper.py:69-78 | for every entry that `ip_network(entry, strict=False)` takes, IPv4 or IPv6, text or number, scope id or not, the printed text is read back as the network of the entry |
| `Entries.InterfaceReadsBack` | deploy/pi-wg-helperd/helper.py:180-193 | for every address that `ip_interface` takes, the printed text is read back as that address with its prefix and its scope id, up to the scope's line ends |
| `Entries.ScopedReadsBack` | deploy/pi-wg-helperd/helper.py:75 | the text of every IPv6 address, with its longest row of zeros compressed and any scope id, is read back as that address and scope id |
| `Entries.ScopeIsKept` | deploy/pi-wg-helperd/helper.py:75 | with all bits in the prefix, every scope id without percent sign and slash stays in the printed network and the printed interface address |
| `Entries.NetworkIsSafeIff` | deploy/pi-wg-helperd/helper.py:69-78 | whether the printed network can be cut, breaks a line or a list, or holds a key's name is decided by the scope id that stays in it |
| `Allocator.AllocatePeerAddress` | app/wireguard.py:90-96 | the host scan returns the first host that neither the server nor a peer uses, or fails |
| `Allocator.NextIsLowestFree` | app/wireguard.py:92-96 | the address given is a usable host that neither the server nor a peer has, every lower host is taken, and on failure every host is |
| `Allocator.RunsStayGood` | app/wireguard.py:289-372 | over every series of requests addresses are distinct usable hosts and none is the server's |
| `Allocator.FailsExactlyWhenFull` | app/wireguard.py:93-96 | an allocation fails exactly when there are as many peers as the tunnel can hold, and there are never more |
| `Allocator.DeletionMakesRoom` | app/wireguard.py:372 | in a full tunnel, after deleting any peer the next allocation gives its address |
| `Allocator.RunsFillExactly` | app/wireguard.py:92-96 | from an empty tunnel, in every run, the next allocation fails exactly at the capacity, which for prefixes up to /30 with a usable server address is 2^(32-p) - 3 |
| `LanGuard.CandidatesOf` | app/wireguard.py:206-215 | the candidates are a client's ranges without those that are no network, in order, or a server's own network; none if its address is no address |
| `LanGuard.ParsedMembers` | app/wireguard.py:208-212 | exactly the texts that parse are candidates |
| `LanGuard.OverlapsOfAddress` | app/wireguard.py:84-86 | the inner loop appends a conflict for each candidate that overlaps, in order |
| `LanGuard.OverlapsOfInterface` | app/wireguard.py:77-86 | the loop over an interface's addresses skips the ones without a usable IPv4 netmask |
| `LanGuard.OverlappingLocalSubnets` | app/wireguard.py:68-87 | the whole check gives the conflicts of every interface in order |
| `LanGuard.GateIsExact` | app/wireguard.py:68-87 | a conflict is reported exactly if it is one: a candidate and a local subnet that overlap |
| `LanGuard.SplitRanges` | deploy/maintenance.sh:202-212 | the splitter's loop gives the kept and the dropped ranges of those that parse |
| `LanGuard.SplitPartitions` | deploy/maintenance.sh:203-210 | keep and drop merge, in order, to the ranges given |
| `LanGuard.KeepIsLargest` | deploy/maintenance.sh:209-210 | every sublist free of overlaps is a sublist of keep |
| `LanGuard.DropsAreConflicts` | deploy/maintenance.sh:209-210 | of any list of ranges, every one the splitter would drop is among the gate's conflicts, if the gate sees the guard's subnets |
| `Activation.TunnelRefusedIff` | app/wireguard.py:139-151 | creating a tunnel is refused exactly if its network overlaps a local subnet and the request does not force it |
| `Activation.CheckedActivationIsKept` | app/wireguard.py:199-227 | of a client tunnel that an unforced activation brought up from its file, the guard drops no listed range and no route |
| `Activation.ActivationSurvivesTheGuard` | app/wireguard.py:199-229 | the next guard run changes the peers of an unforced activation exactly if only the guard takes its file for a client, every link row parses and a listed range overlaps one; otherwise its routes stay as well |
| `Activation.GuardChangesIff` | deploy/maintenance.sh:195-221 | a guard run changes a tunnel's live peers exactly if it takes it for a client, every link row parses and a listed range overlaps one |
| `Activation.ValuelessIsTrimmed` | app/wireguard.py:199-229 | a file whose Endpoint line has no value: an unforced activation succeeds whatever the subnets, and a guard run then takes the peer's range away |
| `Activation.CrashesIff` | app/wireguard.py:214-215 | an activation fails inside the program exactly if it is unforced and the server's address is no address, and then nothing has changed |
| `Activation.TwoAddressesCrash` | app/wireguard.py:215 | with a server's file whose Address line holds two addresses, an unforced activation fails inside the program and changes nothing, and a forced one goes through |
| `Activation.OwnTunnelsAreSpared` | deploy/maintenance.sh:196-197 | over every run of the application, a tunnel that is no client for the guard, or is yet to be made, keeps every live peer and route through any guard run |
| `ClientTests.GrepFindsKinds` | deploy/maintenance.sh:197 | grep finds exactly the Endpoint lines, with a value after them or without |
| `ClientTests.PatternFindsKinds` | deploy/pi-wg-helperd/helper.py:122 | the pattern finds exactly the Endpoint lines with something but newlines after them, and the Endpoints spread over lines or set apart by other white space |
| `ClientTests.ClientTestsAgree` | deploy/maintenance.sh:196-197 | for every file: only the guard sees a client exactly if no block has a valued or spread Endpoint and the header has one or a block a valueless one; only the daemon does exactly if a block has a spread one and nothing else is there |
| `ClientTests.ClientTestsCanDiffer` | deploy/pi-wg-helperd/helper.py:121-152 | a file that is a client for grep only, and one for the daemon only |
| `ClientTests.AddKeepsRole` | deploy/pi-wg-helperd/helper.py:222-232 | after adding a peer to any file grep takes it for a client exactly if it did before or a range has an Endpoint line inside |
| `ClientTests.RemoveKeepsServer` | deploy/pi-wg-helperd/helper.py:260-262 | removing a peer never makes a client of a file that was none |
| `ClientTests.NewTunnelIsServer` | deploy/pi-wg-helperd/helper.py:193 | grep takes a new tunnel's file for a client exactly if the printed address has an Endpoint line inside |
| `LanGuard.LocalNetsMembers` | deploy/maintenance.sh:193-202 | the guard's subnets are those of the link routes outside WireGuard, and there are none to work with exactly if one does not parse |
| `LanGuard.Kernel.WgSet` | deploy/maintenance.sh:218 | afterwards the peer has exactly the given ranges, and every other listed peer exactly its own without them |
| `LanGuard.SetRangesIsPutLive` | deploy/maintenance.sh:218 | on a listing of the live peers the guard's `wg set` does what the daemon's does to the peers |
| `LanGuard.Kernel.DeleteRoutes` | deploy/maintenance.sh:219-221 | exactly the dropped ranges' routes into the tunnel go |
| `LanGuard.Kernel.TrimOne` | deploy/maintenance.sh:198-221 | one peer keeps its kept ranges, its dropped ranges' routes go, nothing else changes |
| `LanGuard.Kernel.TrimTunnel` | deploy/maintenance.sh:198-223 | the loop trims each peer of the tunnel so |
| `LanGuard.Kernel.TrimAll` | deploy/maintenance.sh:195-224 | the loop over the tunnels trims exactly the client tunnels |
| `LanGuard.Kernel.WgGuard` | deploy/maintenance.sh:184-225 | the whole guard trims exactly the client tunnels, or changes nothing if its subnets do not parse |
| `LanGuard.GuardFreesTheLan` | deploy/maintenance.sh:184-225 | after it no address of any directly connected subnet is covered by a live client range or a route into a client tunnel, exactly if every such route's destination parses or none was covered before |
| `LanGuard.GuardCanBeSwitchedOff` | deploy/maintenance.sh:200-214 | a home network and a point-to-point default route, with which the guard leaves the network taken |
| `LanGuard.OtherTrafficUnmoved` | deploy/maintenance.sh:217-221 | addresses outside the dropped ranges have the same best routes as before |
| `LanGuard.GuardTwice` | deploy/maintenance.sh:195-224 | a second run changes nothing |
| `Helper.UpGivesPeerMap` | deploy/pi-wg-helperd/helper.py:331-335 | bringing up a file that represents peers with different keys and ranges makes exactly those live, with their ranges |
| `Helper.PutIntoApart` | deploy/pi-wg-helperd/helper.py:234-249 | adding a live peer whose key and ranges are new takes nothing from the others |
| `Helper.PeerMapWithout` | deploy/pi-wg-helperd/helper.py:264-267 | dropping a key from the list drops exactly that live peer |
| `Helper.CheckedPeerIsValid` | deploy/pi-wg-helperd/helper.py:212-220 | what passes the command's checks prints as one block, with ranges that read back, in which no other key is found: each exactly if the scope ids that stay in its ranges allow it |
| `Helper.CheckedPeerIsPrinted` | deploy/pi-wg-helperd/helper.py:69-78 | what passes the checks prints each range as the text of its network, and the networks these texts stand for are exactly those asked for |
| `Scopes.AddIsOneBlockIff` | deploy/pi-wg-helperd/helper.py:222-232 | a command that is let through adds exactly its own block to the file if and only if no scope id in its ranges holds a newline with a peer tag after it, and otherwise adds more than one; the header stays |
| `Scopes.AddReportsIff` | deploy/pi-wg-helperd/helper.py:126-152 | the report gains exactly the printed ranges if and only if no scope id holds a newline or a comma |
| `Scopes.AddRoleIff` | deploy/maintenance.sh:196-197 | for the guard the tunnel is a client afterwards exactly if it was one or a scope id has an Endpoint line inside |
| `Scopes.NewTunnelIff` | deploy/pi-wg-helperd/helper.py:176-201 | a new tunnel's file reads back as meant, has no peer section, and is a server's for the guard: each exactly if the scope id of its address allows it |
| `Scopes.TagInAScope` | deploy/pi-wg-helperd/helper.py:69-78 | for every IPv6 address, a scope id with which one accepted range adds more than one block |
| `Scopes.EndpointInAScope` | deploy/pi-wg-helperd/helper.py:69-78 | for every IPv6 address, a scope id with which one accepted range makes a client of any tunnel, for the guard and for the daemon |
| `Scopes.ScopeInAnAddress` | deploy/pi-wg-helperd/helper.py:180-193 | the same two scope ids in a new tunnel's address give its file a peer section, and make it a client's for the guard |
| `Scopes.TrueIsAKeepalive` | deploy/pi-wg-helperd/helper.py:218-230 | a keepalive of true is accepted and the new block reads back True |
| `Helper.Daemon.RunProgram` | deploy/pi-wg-helperd/helper.py:155-163 | an external program has its effect on the live peers if it succeeds and none otherwise |
| `Helper.Daemon.CmdCreateTunnel` | deploy/pi-wg-helperd/helper.py:176-201 | the command takes files and live peers to the specified state and result, refusals included; if the file cannot be written nothing is left of it |
| `Helper.Daemon.CmdDeleteTunnel` | deploy/pi-wg-helperd/helper.py:204-208 | the same for deletion, whether or not systemctl succeeds |
| `Helper.Daemon.CmdAddPeer` | deploy/pi-wg-helperd/helper.py:211-253 | the same for adding a peer: the file changes even if `wg set` then fails, and not at all if it cannot be written |
| `Helper.Daemon.CmdRemovePeer` | deploy/pi-wg-helperd/helper.py:256-268 | the same for removing a peer |
| `Helper.Daemon.CmdSetTunnelState` | deploy/pi-wg-helperd/helper.py:324-345 | the same for activate, deactivate and disconnect |
| `HelperTasks.AloneIsRunAlone` | deploy/pi-wg-helperd/helper.py:176-268 | what a command does to the files does not depend on whether its program succeeds |
| `HelperTasks.FilesAreSerial` | deploy/pi-wg-helperd/helper.py:187-268 | under every interleaving the files are at all times those of a serial order of the commands, with the same refusals |
| `HelperTasks.FinishedOrderIsPermutation` | deploy/pi-wg-helperd/helper.py:187-268 | when all have finished, that order holds each command exactly once |
| `HelperTasks.CarefulRunsConverge` | deploy/pi-wg-helperd/helper.py:222-268 | with no key in flight twice, no range taken twice and clean scope ids, live peers differ from the file's only where a program is still to run |
| `HelperTasks.LiveEndsAsFile` | deploy/pi-wg-helperd/helper.py:222-268 | and once all have finished, live peers are exactly those the file would bring up |
| `HelperTasks.LiveKeysEndAsFile` | deploy/pi-wg-helperd/helper.py:222-268 | if only no key is in flight twice and scope ids are clean, the live keys end as the file's, even where commands took ranges from each other |
| `PeerStore.WebApp.CreateTunnelRequest` | app/wireguard.py:138-173 | the request takes metadata, files and live peers to the specified state and reply, with the overlap check over the system's interfaces |
| `PeerStore.WebApp.DeleteTunnelRequest` | app/wireguard.py:176-183 | the same |
| `PeerStore.WebApp.SetTunnelStateRequest` | app/wireguard.py:186-240 | the same, with the check over the candidates that the tunnel's file gives |
| `PeerStore.WebApp.CreatePeerRequest` | app/wireguard.py:273-324 | the same, with the generated keys and id as parameters |
| `PeerStore.WebApp.DeletePeerRequest` | app/wireguard.py:360-378 | the same |
| `PeerStore.UndoneChangesNothing` | app/wireguard.py:138-378 | with working programs a request that does not report success has changed nothing |
| `PeerStore.DoneIsAchieved` | app/wireguard.py:138-378 | a request that reports success has brought about what it is for, in metadata, files and live peers |
| `PeerStore.HandleStaysLocal` | app/wireguard.py:138-378 | a request changes no file, live peer or metadata of another tunnel |
| `PeerStore.RequestKeepsAgreement` | app/wireguard.py:138-378 | each request keeps metadata, file and live peers of every tunnel in step |
| `PeerStore.EveryRunAgrees` | app/wireguard.py:138-378 | so does every serial run |
| `PeerStore.AgreementReadsBack` | deploy/pi-wg-helperd/helper.py:126-152 | in step means: block i of the file reads back as key i with its one address, and the live keys are the same with the same address |
| `PeerStore.StraysBounded` | app/wireguard.py:305-373 | over every run of peer requests cut off anywhere, keys in exactly one of file and metadata number at most the cut-off requests |
| `PeerStore.RunsFillExactly` | app/wireguard.py:289 | in every run, a tunnel that is up turns a new peer away exactly when it is full |
| `PeerStore.CutRunsFillExactly` | app/wireguard.py:289 | so too after any run of cut-off peer requests |
| `PeerStore.FreedAddressIsNext` | app/wireguard.py:289-372 | after a deletion from a full tunnel, the next address to be given is the freed one |
| `PeerStore.ReissuedDeletion` | app/wireguard.py:367-373 | issuing a cut-off deletion again reaches the very state of an uninterrupted one |
| `Maintenance.OneAtATime` | deploy/maintenance.sh:49-73 | for any number of invocations, kills and power failures, no two are past the lock at once, and no scheduled reboot is issued during an os-update |
| `Maintenance.TurnedAwayLeavesNoTrace` | deploy/maintenance.sh:55-65 | a run in which an invocation was refused or timed out is the run without any of its steps, but for the note of it |
| `Maintenance.SkippedStaysOut` | deploy/maintenance.sh:55-65 | an invocation that was refused or timed out never gets past the lock, whatever happens later |
| `Maintenance.Script.Poll` | deploy/maintenance.sh:491-499 | the probe loop reports healthy exactly if a probe succeeded |
| `Maintenance.Script.RollBack` | deploy/maintenance.sh:545-559 | the loop gives the reverted and the unavailable packages, and the files it has installed, for any order in which the directory is listed |
| `Maintenance.RollbackAccountsForAll` | deploy/maintenance.sh:545-559 | each listed package is reverted exactly if the first file found for it installs, and is otherwise reported with the right reason |
| `Maintenance.SavedIsRolledBack` | deploy/maintenance.sh:295-299 | of the packages in an update's plan, a rollback puts back exactly those of which a file was in the cache when the update began and the one that is found installs |
| `Maintenance.InstalledIsFirstFound` | deploy/maintenance.sh:549-552 | of each package that is reported as reverted, the file found first is installed and no other |
| `Maintenance.ReportHoldsIff` | deploy/maintenance.sh:295-299 | a package reported as reverted is back at the version that was replaced, however the directory is listed, exactly if no installable file of it with another version was in the cache |
| `Maintenance.Script.Snapshot` | deploy/maintenance.sh:295-299 | the saving loop gives a line for each package of known version and the cached package files |
| `Maintenance.Script.BootCheck` | deploy/maintenance.sh:479-577 | an uninterrupted boot-check is its single steps one after another, and raises the right alert |
| `Maintenance.BootCheckOutcome` | deploy/maintenance.sh:504-576 | those steps confirm the update when healthy, else mark the attempt and reboot if something was reverted, and only once |
| `Maintenance.Script.OsUpdate` | deploy/maintenance.sh:259-366 | an uninterrupted os-update is its single steps one after another, saves the snapshot, and returns 0 exactly if lists, simulation and upgrade go well and the Python packages sync or there is no environment to sync, else 1 |
| `Maintenance.OsUpdateOutcome` | deploy/maintenance.sh:293-306 | those steps record a new snapshot as pending and not tried exactly if the plan names a package |
| `Maintenance.AtomicWritesSuffice` | deploy/maintenance.sh:501-577 | with power loss between any two steps and write-backs that find the file as it was read, boot-check reboots at most once for each snapshot |
| `Maintenance.OneRebootPerSnapshot` | deploy/maintenance.sh:501-577 | the same for all write-backs that are not dangerous, which DangerIsExact shows to be the weakest condition; and never more boot-check reboots than snapshots |
| `Maintenance.DangerIsExact` | deploy/maintenance.sh:301-302 | from a state with sound records a second reboot for one snapshot can follow exactly if the file and the script's position are dangerous |
| `Maintenance.SaveIsHarmlessIff` | app/monitor.py:55-90 | the application's write-back is allowed exactly when no second reboot can follow, and always when the file is as it was read |
| `Maintenance.StaleCopyBreaksTheGuard` | app/monitor.py:55-90 | a stale write-back between boot-check's mark and its reboot makes a second reboot possible |
| `Downtime.Heartbeat.HeartbeatTick` | app/monitor.py:48-90 | a heartbeat takes file and memory to the specified state, and before the clock is synced it changes nothing |
| `Downtime.EveryRunTracks` | app/monitor.py:59-90 | in every run in which the script's write-backs find the file as it was read, exactly the outages between counted heartbeats of different boots are measured, the file holds the last one's length, and memory agrees with it from the first counted heartbeat on |
| `Downtime.BouncesKeepFigure` | app/monitor.py:80-85 | from a boot's first counted heartbeat to the next reboot, no series of service restarts, heartbeats and script changes, in whatever order, changes the figure, unless the script already held an earlier boot's copy |
| `Downtime.WriteBackKeepsFigureIff` | deploy/maintenance.sh:87-101 | over every run: a write-back leaves the figure alone until the next reboot, whatever follows, exactly if its copy was read after this boot's first counted heartbeat or before the first one ever |
| `Downtime.WriteBackIsInvisibleIff` | deploy/maintenance.sh:87-101 | over every run: no later figure, reboots included, tells a write-back from none exactly if it finds the file as it was read |
| `Downtime.OutagesDisjoint` | app/monitor.py:66-79 | outage windows are in order, disjoint, and between the first and the last heartbeat |
| `Downtime.RecordedDowntimeFits` | app/monitor.py:66-79 | in every run the recorded downtimes sum to at most the time between the first and the last counted heartbeat |
| `Downtime.StaleFileStretchesOutage` | app/monitor.py:59-90 | by how much: over an earlier boot's state the next restart counts all the time since as outage |
| `Nmcli.ParseNmcliTerse` | app/network.py:26-36 | the loop gives the fields of each non-empty line |
| `Nmcli.UnescapeEscape` | app/network.py:35 | the two passes undo nmcli's escaping of every field |
| `Nmcli.EscapedFieldStaysWhole` | app/network.py:34 | no cut falls inside an escaped field |
| `Nmcli.RowReadsBackIff` | app/network.py:34-35 | a printed row reads back exactly when no field but the last ends in a backslash |
| `Nmcli.OutputReadsBack` | app/network.py:26-36 | whole output of rows of two or more fields without line breaks is read as as many rows, and as the same ones exactly if in each no field but the last ends in a backslash |
| `Ddns.Service.Upsert` | deploy/maintenance.sh:423-467 | one upsert whose write is carried out, answered or not, leaves the slot's record as asked and others as they were; it writes exactly when the record is not so already, and logs success exactly when it heard so |
| `Ddns.EveryRunStaysGood` | deploy/maintenance.sh:384-467 | under every interleaving of many devices and lost answers, at most one record per name and type, each as its own device's last upsert that took effect set it; the log names another address exactly if that one's answer was lost and it set another than was logged; untouched ones as they began |
| `Ddns.LostAnswersMislead` | deploy/maintenance.sh:462-466 | with a lost answer the log can name an older address than the record |
| `Ddns.UnchangedWritesNothing` | deploy/maintenance.sh:447 | after any such run, upserting the address last set decides on no write |

## Left out

- Overlapping web requests: the metadata properties are over serial requests, with cut-offs.
- Maintenance.OneRebootPerSnapshot: holds for runs whose write-backs by the application are not dangerous, because the two programs share the file without a lock; DangerIsExact shows that the condition cannot be weakened.
- HelperTasks.FilesAreSerial: failing disk writes are in the single commands only; such a command leaves the file as it was.
- Maintenance.BootCheckOutcome: the probes and the package tool answer as given; time is not part of this model.
- HelperTasks.LiveEndsAsFile: not stated for keys with the tolerated newline, which are one live peer under two spellings.
- LanGuard.OtherTrafficUnmoved: routes by longest prefix in the main table only; policy rules and default routes of `wg-quick` are not part of this model.
- Survival of a pending snapshot's directory when old ones are pruned: not promised by the code, because an update without a plan leaves its directory behind and that counts among the two kept.
- Which hosts a /31 or /32 subnet has: as in current versions of the address library; older ones differ, and the capacity figure is for /30 and shorter only.
- IPv6 networks are read, printed and compared by value; they never overlap an IPv4 network.
- `wg` and `wg-quick` refusing a range with a scope id or a keepalive of True: a program that fails, as its parameter says; what the file says by then is in `Scopes`.
- Versions of the address library that print IPv4-mapped addresses with dots.
- ClientTests.AddKeepsRole: a `\r` in a scope id, which the daemon reads back as a line end, is one for the guard's grep here, too.
- ConfText.BlockNamesExactlyItsKey: for ranges without a key's name, a newline or a comma inside; other scope ids can make the search find more.
- `wg-quick` refusing a file with a range that is no network: such ranges are passed over.
- A peer's description, creator and requested ranges in the metadata, and their listing: stored and shown as given.
- `wg set` failing inside the guard, and a program that hangs.
- Listing and status requests, Wi-Fi scanning and ranking, certificate renewal, health details, sign-in, pages, telemetry, sensors, deployment, the Wi-Fi recovery console, file modes and caller checks: wiring with easy facts only.
- The clock's drift between heartbeats and the length of the heartbeat interval.
