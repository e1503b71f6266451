# Verified models of the FFMUC Salt repository's algorithms

The repository configures the infrastructure of Freifunk München with Salt. Most of it is
templates, but some of its Python and shell code carries real algorithms. This project models
them in Dafny and proves what they are for, for every input and for every run.

| component | files | main results |
|---|---|---|
| Cloudflare zone reconciler | `CloudflareRecords`, `CloudflarePlan`, `CloudflareZone`, `CloudflareTheorems`, `CloudflareConvergence`, `CloudflareState` | convergence, idempotence, no broken name and no lost address after any prefix of the API calls, interrupted runs included |
| release installer | `InstallerScript`, `InstallerRun`, `InstallerTheorems`, `InstallerHistory` | only verified files over every history of crashes, exactly when a normal end leaves a whole release, rollback |
| dynamic DNS client | `DdnsServer`, `Ddns`, `DdnsTheorems`, `DdnsState`, `DdnsHosts` | exactly when `present` and `absent` achieve their aim, when a second pass is quiet, when a host can be added and deleted without a trace |
| reverse DNS selection | `ReverseDns` | one record per covered address, least candidate, longest prefix, independence of the input order |
| response limiter and cache | `RateLimit`, `Respondd` | exact token bucket law, invisible denied calls, freshness of cached answers |
| parsers and accounting | `DhcpdBlocks`, `KeaPools`, `Duration` | scanner and printer inverses, conservation, exact exit code |

How the models are built:

- The remote Cloudflare zone is a map from identifier to stored record; POST, PUT and DELETE are
  steps of a relation, and a run is the sequence of zones between the calls. A plan is the diff in
  any order the source's set operations may give. Convergence does not depend on the order of the
  operations; what holds in between does.
- The installer threads the base directory as a value: directories map names to inodes, inodes hold
  content. Every file operation costs one unit of a budget that may run out anywhere, which is a crash.
- The name server keeps a separate database per zone and answers from the closest enclosing zone, so
  an update to an enclosing zone of the wrong level is visible only as what it is: without effect.
- State-changing code is a class or a method with loops that is proved against a specification
  function or predicate; the theorems are about that specification.

Where the source does not do what one might expect, the model follows the source and the exact
condition is proved:

- The reconciler keeps only the last `salt_managed` value per name (lines 439-441). At a name with
  mixed values an unmanaged record can stay beside a new CNAME (`MixedFlagsStray`). At an excluded
  name the listing shows nothing, and a desired CNAME is posted beside whatever is there
  (`ExcludedStray`). `NoRunBreaksIff` is the exact condition, over all names and all runs of a plan.
- A desired record at an excluded name is posted again on every run, and a desired record with an
  `id` is updated on every run (`NeverSettles`): `Idempotent` and `ExcludedUntouched` are equivalences.
- An installer run that crashes between the renames leaves the old marker beside new files. If the
  latest tag then returns to the old one, the next run calls it up to date with mixed files:
  `GoingBackFails` gives the history, `UpToDateIff` and `NormalEndIff` the exact condition, and
  `NormalEndInstalls` says that a tag that never goes back meets it. An asset named like a marker can be
  deleted or hide the marker: `MarkerAssetLost` gives a run, `InstalledIffHarmless` the exact
  condition after the run and `HarmlessIff` the same one on the release.
- The run that repeats a crashed upgrade replaces the intact backup of the old release by one of the
  mixed files, so that the documented rollback does not give the old release back: `RollbackFails`
  gives the history, `RollbackIff` the exact condition.
- `add_host` passes `port` in the position of `replace_on_change`, so that a nonzero port switches
  replacement on change on. With a zone that the server holds but that is not the closest one of the
  host, the address record is invisible, and `delete_host` does not find the pointer that `add_host`
  left: `PointerStays` gives the server, `AddThenDeleteIff` the exact condition.
- `delete_host` documents that it returns true if any record was deleted, but looks only at the last
  zone it tried: `DeletionUnreported` gives a server where it deletes a pointer and returns False,
  `ReportedIff` says exactly when the deletion of a pointer is reported.
- `absent` does not remove the last name servers of a zone and reports a change each time it tries
  (`NameServerStays`; exactly when: `AbsentAchieves`, `AbsentTwice`).
- `update` with `replace_on_change` keeps the other records of an RRset that already contains the
  requested one (`OtherRecordStays`, `ExactIff`). The server ignores additions beside a CNAME without
  an error, so every later pass reports a change again (`BlockedForever`, `PassTwice`).
- The first call to the limiter is granted without a token, hence the extra one in `WindowBound`.
- A response cache asked within `caching` seconds of time 0 answers with its empty initial value
  (`EarlyAnswer`, `NodeIdIff`).
- Subnets without pools count in the Kea summary but in no range (`PoollessHidden`,
  `RangesSumToSummary`).

## Model

| member | source | states |
|---|---|---|
| CloudflareRecords.Desired | _states/cloudflare.py:425-428 | succeeds exactly when every entry has a name and a content and every MX entry a priority; then each record carries the given fields with type A, not proxied, automatic TTL and managed as defaults; otherwise the first missing field of the first such entry is blamed |
| CloudflareRecords.InZone | _states/cloudflare.py:343-351 | a name belongs to the zone exactly when it is the zone or ends in a dot and the zone |
| CloudflareRecords.Read | _states/cloudflare.py:140-156 | a listed record is managed, carries its identifier and has the stored body as its request body |
| CloudflareRecords.SanityCheck | _states/cloudflare.py:330-395 | accepts exactly when the zone matches, every record passes its own checks and no two records at one name are CNAME and address or both CNAME; an error names the first record that spoils the list |
| CloudflareRecords.IsExcluded | _states/cloudflare.py:408-412 | true exactly when some pattern matches the name |
| CloudflareRecords.Existing | _states/cloudflare.py:397-423 | for any paging of a zone it terminates after one request per page (one for an empty zone) and returns every record that is not excluded, once per identifier |
| CloudflareRecords.ReadPage | _states/cloudflare.py:406-414 | after a page the dictionary holds every record of that page and of the pages before it that is not excluded |
| CloudflarePlan.Index | _states/cloudflare.py:431-438 | one record per (type, name, content, salt_managed) of the list, the last of that key |
| CloudflarePlan.Flags | _states/cloudflare.py:439-441 | the names of the list, each with the flag of its last record |
| CloudflarePlan.OneChangePerKey | _states/cloudflare.py:443-477 | additions, removals and updates never name the same key |
| CloudflarePlan.Changes | _states/cloudflare.py:445-477 | each of the three loops contributes exactly its changes, each once, in any key order |
| CloudflarePlan.PartsMakePlan | _states/cloudflare.py:443-479 | the three loops together give the whole difference and nothing else |
| CloudflarePlan.Diff | _states/cloudflare.py:430-479 | by the two lists alone: a managed record of which the zone has nothing alike is added, an existing one of which the list has nothing alike is removed exactly if its name is not in the list or its last record there is managed, one that differs otherwise is overwritten under its identifier; each operation once, in the order spelled out type by type |
| CloudflarePlan.ChangeIff | _states/cloudflare.py:430-477 | the dictionaries of the source give exactly that difference of the lists |
| CloudflarePlan.ClaimsIff | _states/cloudflare.py:450-455 | removal is suppressed exactly at names whose last record in the list is not managed |
| CloudflarePlan.OrderedInTurn | _states/cloudflare.py:258-260 | the ranks mean: remove, add, update where a CNAME is touched, otherwise add, update, remove; addresses and CNAMEs before other types |
| CloudflarePlan.Order | _states/cloudflare.py:481-509 | a permutation in which the operations of a name are contiguous, addresses and CNAMEs come before the rest, and each group follows the special order exactly when a CNAME operation is in it |
| CloudflarePlan.SortPermutes | _states/cloudflare.py:494-496 | sorting a group loses and doubles nothing |
| CloudflarePlan.SortSorts | _states/cloudflare.py:258-260 | a sorted group follows the ranks of its order |
| CloudflarePlan.AppendInOrder | _states/cloudflare.py:494-507 | the groups of one kind appended one after the other, each sorted by its own order |
| CloudflareZone.TargetHeld | _states/cloudflare.py:450-477 | DELETE and PUT name the visible record that has the operation's key |
| CloudflareZone.RunReaches | _states/cloudflare.py:511-522 | after any number of calls each record is untouched, as its operation left it, or made by a POST of the run |
| CloudflareZone.NeverUnknown | _states/cloudflare.py:313-328 | no call of a run meets an identifier that the zone does not hold |
| CloudflareZone.RunExtends | _states/cloudflare.py:511-522 | every run that stopped early can be carried on to the end of its plan |
| CloudflareTheorems.KeysAfter | _states/cloudflare.py:511-522 | after any number of calls the keys of the zone are the old ones without the removed and with the added ones |
| CloudflareTheorems.DistinctAfter | _states/cloudflare.py:511-522 | no call makes two visible records alike |
| CloudflareTheorems.RemovalPrecedesClash | _states/cloudflare.py:258-258 | where a CNAME is involved, a removal comes before an addition that it would clash with |
| CloudflareTheorems.CleanThroughout | _states/cloudflare.py:481-522 | a name that is free of clashes before the run and in the plan is so after every call of every run, completed or interrupted |
| CloudflareTheorems.CompletedHoldsPlan | _states/cloudflare.py:511-522 | a completed run holds exactly the planned keys |
| CloudflareTheorems.CompletedIsPlanned | _states/cloudflare.py:511-522 | a completed run that is free of clashes at a name follows a plan that is |
| CloudflareTheorems.NeverDown | _states/cloudflare.py:260-260 | without CNAME operations at a name, every zone of every run, completed or interrupted, holds all its old or all its planned addresses; for other types at every name |
| CloudflareTheorems.NeverWithoutAddress | _states/cloudflare.py:9-10 | such a name that has an address and is to keep one never lacks one, in no run |
| CloudflareConvergence.Convergence | _states/cloudflare.py:430-522 | every completed run realises all managed records, removes the other visible ones unless their name is handed off, and keeps excluded ones |
| CloudflareConvergence.ConvergedOutcome | _states/cloudflare.py:430-522 | by the list alone: a visible record that is asked for ends as asked in every field; any other one is gone if and only if its name is not in the list or its last record there is managed, and otherwise stays as it was |
| CloudflareConvergence.ManagedName | _states/cloudflare.py:6-7 | a visible name that is not handed off ends with exactly the wanted records |
| CloudflareConvergence.UnmanagedName | _states/cloudflare.py:45-45 | a name whose wanted records are all unmanaged is left exactly as it was |
| CloudflareConvergence.ExcludedUntouched | _states/cloudflare.py:50-52 | excluded names are unchanged if and only if no managed record is wanted there |
| CloudflareConvergence.Idempotent | _states/cloudflare.py:86-96 | the plan of the next run is empty if and only if no managed record is at an excluded name or carries an id |
| CloudflareConvergence.NeverSettles | _states/cloudflare.py:445-477 | one managed record at an excluded name, or one with an id, is in every plan |
| CloudflareConvergence.PlanCleanIff | _states/cloudflare.py:443-477 | the plan leaves a name, excluded or not, free of clashes if and only if nothing strays there |
| CloudflareConvergence.NoBrokenName | _states/cloudflare.py:375-395 | from a clean name, excluded or not, and an accepted list: if nothing strays, every zone of every run is clean there, interrupted runs included; if something does, no completed run is; the A/AAAA part of section 3.6.2 of RFC 1034 |
| CloudflareConvergence.NoRunBreaksIff | _states/cloudflare.py:481-522 | over all runs of the plan and for every name, no zone is ever broken there if and only if no managed record of the list clashes with a stored one that stays: one at an excluded name, or one nobody asks for at a name that is not claimed |
| CloudflareConvergence.StrayIff | _states/cloudflare.py:439-455 | what strays, told by the list instead of the dictionaries |
| CloudflareConvergence.RunIsSafe | _states/cloudflare.py:481-522 | at every name each zone of a run stays clean unless something strays, and holds all old or all planned records of a group |
| CloudflareConvergence.UniformNeverStrays | _states/cloudflare.py:439-441 | with one salt_managed value at a name something can stray only if the name is excluded and its wanted records are managed |
| CloudflareConvergence.MixedFlagsStray | _states/cloudflare.py:439-455 | a list accepted by the sanity check, with mixed flags, that leaves a CNAME beside an address |
| CloudflareConvergence.ExcludedStray | _states/cloudflare.py:408-412 | a list accepted by the sanity check, one CNAME at an excluded name, that is posted beside an address |
| CloudflareState.Api.Call | _states/cloudflare.py:306-328 | one request is one step of the zone, or an error that changes nothing |
| CloudflareState.Apply | _states/cloudflare.py:511-522 | the zone goes through a run of the operations up to the failing request, which took effect or not, and a plan fails for no other reason than an outage |
| CloudflareState.ManageZoneRecords | _states/cloudflare.py:73-114 | rejected exactly for invalid input and then without effect; test mode changes nothing; a completed run leaves the outcome of `ConvergedOutcome`; each zone of any run, also of an interrupted one, is safe in the sense of `RunIsSafe` |
| InstallerScript.RemoveTree | github-downloader/ffmeet-downloader:36-36 | removes one directory, or leaves part of it after a crash, one operation per entry |
| InstallerScript.LinkTree | github-downloader/ffmeet-downloader:51-51 | the copy links every file, or some of them after a crash |
| InstallerScript.RemoveOthers | github-downloader/ffmeet-downloader:52-52 | only the named backup stays, and it stays whole |
| InstallerScript.FetchAndCheck | github-downloader/ffmeet-downloader:39-45 | succeeds only with content that matches the digest, stops exactly for a faulty asset, writes to no other file |
| InstallerScript.TagIff | github-downloader/ffmeet-downloader:27-27 | a tag is accepted exactly when it is v, a digit and then characters of the listed ones |
| InstallerScript.Download | github-downloader/ffmeet-downloader:39-45 | ready only if every asset matched its digest and is staged in a file that shares no inode with older files |
| InstallerRun.MoveIn | github-downloader/ffmeet-downloader:55-55 | after any number of renames `latest` is the old directory with those files replaced; a crash can come after each of them |
| InstallerRun.Swap | github-downloader/ffmeet-downloader:55-57 | the stages of `latest` from the first rename to the new marker, and which of them a crash after so many operations leaves |
| InstallerRun.BackUp | github-downloader/ffmeet-downloader:49-52 | when done, the only backup has the same entries as `latest`; until then it has some of them and the others are whole |
| InstallerRun.Install | github-downloader/ffmeet-downloader:21-58 | the marker found is the newest one; wherever a run stops, `latest` has one of four shapes and no older file was written to; before the first rename the old directory is the only backup, in full; other staging directories stay; nothing changed if it died; without a crash it dies only for a fault of the release or the downloads |
| InstallerTheorems.NamesStay | github-downloader/ffmeet-downloader:54-56 | at no point does a name vanish from `latest`, except the old marker |
| InstallerTheorems.OnlyVerifiedFiles | github-downloader/ffmeet-downloader:4-5 | over every history with crashes, each file of `latest` was there at the start, is a marker, or comes from a run all of whose assets matched |
| InstallerTheorems.InstalledIffHarmless | github-downloader/ffmeet-downloader:55-57 | from any directory, a completed run leaves every asset and exactly the new marker if and only if no staged file gets in the markers' way, an old file named like the tag is empty or replaced, and so are the other old markers |
| InstallerTheorems.HarmlessIff | github-downloader/ffmeet-downloader:39-57 | with distinct asset names that condition can be read off the published assets, the old marker and the old directory |
| InstallerTheorems.MarkerAssetLost | github-downloader/ffmeet-downloader:55-57 | a completed run that loses an asset because it is named like the old marker |
| InstallerTheorems.RollbackRestores | github-downloader/ffmeet-downloader:9-9 | from the first rename on, whether the run completes or crashes, the rollback gives every name the content it had before the run and brings the old marker back |
| InstallerTheorems.SomeBackupWhole | github-downloader/ffmeet-downloader:49-52 | wherever a run stops, the old directory is backed up in full or the older backups are still whole |
| InstallerHistory.MarkerSince | github-downloader/ffmeet-downloader:29-57 | a marker was set by the last run that set one, or was there at the start, together with its whole release, and since then other runs at most renamed files |
| InstallerHistory.UpToDateIff | github-downloader/ffmeet-downloader:29-32 | a run that finds its tag installed is right if and only if, for each asset, the last crashed run since the marker was set that renamed a file of this name renamed one that the release allows |
| InstallerHistory.RollbackIff | github-downloader/ffmeet-downloader:9-9 | after a run that installed or crashed among its renames the rollback gives the whole old release back if and only if no run that crashed before it, since the marker was set, left a file that the release does not allow |
| InstallerHistory.RollbackFails | github-downloader/ffmeet-downloader:49-55 | a history with a crash and a repeated upgrade after which the rollback gives a file of the new release |
| InstallerHistory.NormalEndIff | github-downloader/ffmeet-downloader:29-58 | when different tags never share content under a name, a normal end leaves all assets if and only if it installed them or no crashed run since the marker was set renamed a file of one of their names |
| InstallerHistory.InstalledCompletes | github-downloader/ffmeet-downloader:54-58 | a run that installed leaves all assets of its tag and its marker as the only one, whatever crashes came before |
| InstallerHistory.NormalEndInstalls | github-downloader/ffmeet-downloader:6-7 | if the tag never goes back, every normal end leaves all assets of the tag in `latest` and its marker as the only one |
| InstallerHistory.GoingBackFails | github-downloader/ffmeet-downloader:29-32 | a history with a crash and a tag that returns, in which a normal end leaves mixed files |
| DdnsServer.AuthorityIsClosest | _modules/ddns.py:204-205 | a lookup is answered by the longest zone that encloses the name |
| Ddns.NameServer.Send | _modules/ddns.py:231-243 | an accepted message applies its changes in order, a refused one none |
| Ddns.Update | _modules/ddns.py:172-243 | the server and the return value are those of the specification, for every combination of the two replace flags |
| Ddns.Delete | _modules/ddns.py:246-298 | the server and the return value are those of the specification; data counts only together with a type |
| Ddns.AddHost | _modules/ddns.py:80-119 | forward record, then the walk over the reverse zones until one takes the pointer; True if one does, otherwise what the forward update returned |
| Ddns.DeleteHost | _modules/ddns.py:122-169 | forward name deleted, then the pointer of every address in every candidate zone; True if the last zone of some address accepted a deletion, otherwise what the forward deletion returned |
| Ddns.ShiftOne | _modules/ddns.py:109-113 | moving a part from the zone to the name keeps the reverse name of section 3.5 of RFC 1035 |
| DdnsTheorems.UpdatedFrame | _modules/ddns.py:231-240 | an update changes at most one RRset of one zone |
| DdnsTheorems.DeletedFrame | _modules/ddns.py:285-293 | a deletion leaves other zones, names and types alone, and of a named RRset all but the given data |
| DdnsTheorems.ExactIff | _modules/ddns.py:214-240 | for all flags one update leaves exactly the requested record and TTL if and only if it was so, or the update reaches the closest zone unblocked and the RRset was empty, the record alone, or is replaced |
| DdnsTheorems.OtherRecordStays | _modules/ddns.py:214-240 | an RRset with two records that an update with replace_on_change leaves as it is |
| DdnsTheorems.HeldIff | _modules/ddns.py:214-240 | for all flags the requested record is present with its TTL afterwards if and only if it was, or the update reaches the closest zone unblocked |
| DdnsState.Present | _states/ddns.py:14-68 | test mode does nothing; otherwise it succeeds if and only if the server accepts the message or none is needed, and reports changes if and only if one was needed and accepted, for all flags |
| DdnsState.Absent | _states/ddns.py:71-114 | test mode does nothing; otherwise it succeeds if and only if nothing is found or the server accepts, and reports changes if and only if something was found and the server accepts |
| DdnsTheorems.AbsentAchieves | _states/ddns.py:71-90 | what was named is gone if and only if the call went to the closest zone and did not ask for the last name servers of its apex, or it was gone before |
| DdnsTheorems.KeptAtApex | _modules/ddns.py:285-293 | at the apex everything but the name servers goes, and of these all but the last |
| DdnsTheorems.AbsentTwice | _states/ddns.py:71-114 | a second call changes nothing; it reports no change exactly when nothing is left to find, and sent to another zone than the closest one it reports what the first did |
| DdnsTheorems.NameServerStays | _states/ddns.py:71-114 | a zone whose one name server stays, with a change reported by every call |
| DdnsState.PassAchieves | _states/ddns.py:47-63 | in a pass over requests for different RRsets each record ends exact, or held, if it was or if its request wins: it reaches the closest zone unblocked, and of a CNAME and its rivals the first one taken wins |
| DdnsState.PassReport | _states/ddns.py:47-63 | a pass reports changes for exactly those requests that are not held at its start, or ask for replacement, and whose message is accepted; exactly those fail whose message is needed and refused |
| DdnsState.PassTwice | _states/ddns.py:47-63 | a second pass reports no change if and only if every request is refused, or does not ask for replacement and is held or wins; then it leaves the server alone |
| DdnsState.BlockedForever | _states/ddns.py:47-63 | an address requested beside a CNAME: never there, and a change in every pass |
| DdnsHosts.WalkAddOnce | _modules/ddns.py:108-118 | the walk writes at most once, to the longest zone of the reverse name that the server holds |
| DdnsHosts.AddedAddresses | _modules/ddns.py:80-107 | for all flags and whatever was there, the addresses of the host after add_host |
| DdnsHosts.WrittenPointers | _modules/ddns.py:108-118 | for all flags and whatever was there, the pointers of the address after the walk |
| DdnsHosts.AddHostReturns | _modules/ddns.py:100-119 | add_host returns False exactly when an address has to be sent and the zone is not held, None exactly when neither the address nor a pointer is written |
| DdnsHosts.DeleteHostClears | _modules/ddns.py:122-169 | from any server, deleting a host in its closest zone leaves no address of it and no pointer in a zone that is tried, for all its addresses |
| DdnsHosts.PointerVisible | _modules/ddns.py:108-118 | for all flags a pointer that was not there is visible after the walk if and only if the walk meets a zone, the address is no zone itself and no CNAME stands there |
| DdnsHosts.AddThenDelete | _modules/ddns.py:100-169 | adding and deleting a host that had no records, in the closest zone of its name, leaves neither its address nor a pointer to it |
| DdnsHosts.AddThenDeleteIff | _modules/ddns.py:80-169 | for every server without records for the host and all flags: neither record is left if and only if the zone is not hidden behind a longer one or the walk leaves no pointer |
| DdnsHosts.PointerStays | _modules/ddns.py:100-169 | a server on which the pointer stays after deletion |
| DdnsHosts.HiddenHostStays | _modules/ddns.py:134-147 | with a zone that is not the closest one delete_host leaves the pointer lookup as add_host left it, and the address was never visible |
| DdnsHosts.ReportedIff | _modules/ddns.py:152-168 | the deletion of a pointer is reported if and only if the closest zone of the address is the last candidate, or that one is held too and other pointers were left |
| DdnsHosts.ReportedSome | _modules/ddns.py:147-168 | delete_host reports a pointer exactly when the last zone of some address accepted its deletion, after the addresses before it |
| DdnsHosts.DeletionUnreported | _modules/ddns.py:126-169 | a server on which delete_host deletes a pointer and does not return True |
| ReverseDns.BestZone | _modules/ffmuc_rdns.py:13-17 | the first of the longest prefixes that contain the address, none if no prefix does |
| ReverseDns.Contains | _modules/ffmuc_rdns.py:14-14 | an address is in a network exactly when it has the version of the network and agrees with it in every bit of the prefix |
| Prelude.StripStrips | _modules/ffmuc_rdns.py:9-9 | stripping leaves a text without white space at its ends, which only lost white space |
| Prelude.BlankIff | _modules/ffmuc_rdns.py:9-9 | white space is exactly the listed 29 characters |
| ReverseDns.FqdnQualifies | _modules/ffmuc_rdns.py:8-10 | the name without the white space around it, with exactly one dot added unless it ends with one |
| ReverseDns.DotsStripped | _modules/ffmuc_rdns.py:30-30 | the zone name without the dots at its end |
| ReverseDns.ZoneForIs | _modules/ffmuc_rdns.py:13-17 | the zone of the longest prefix without the dots at its end, none if nothing else is left of it |
| ReverseDns.StrLeIff | _modules/ffmuc_rdns.py:35-38 | targets compare by the first character in which they differ |
| ReverseDns.DefaultPriority | _modules/ffmuc_rdns.py:35-38 | the lower priority wins, and a missing one counts as 100 |
| ReverseDns.SelectCandidates | _modules/ffmuc_rdns.py:33-43 | every address of a candidate gets the target of its least (priority, target) |
| ReverseDns.ApplyCustom | _modules/ffmuc_rdns.py:45-49 | fails exactly when a custom address does not parse; otherwise the last custom target of an address overrides candidates |
| ReverseDns.Emit | _modules/ffmuc_rdns.py:51-69 | one record per selected address inside a zone, strictly sorted by version and address |
| ReverseDns.PtrRecords | _modules/ffmuc_rdns.py:20-69 | exactly one record per covered address, strictly sorted, with the chosen target and the zone of the longest prefix |
| ReverseDns.OrderIrrelevant | _modules/ffmuc_rdns.py:35-38 | permuting or repeating candidates never changes the result |
| RateLimit.Limiter.Limit | respondd/respondd-tmpl/lib/ratelimit.py:14-32 | one call steps the bucket, the clock and the decision as specified |
| RateLimit.Limiter.Serve | respondd/respondd-tmpl/lib/ratelimit.py:14-32 | the decisions of a whole sequence of calls on a new limiter |
| RateLimit.RefillIsLinear | respondd/respondd-tmpl/lib/ratelimit.py:24-24 | the refill for d seconds is d * rate / 60 and adds up over time |
| RateLimit.BucketRange | respondd/respondd-tmpl/lib/ratelimit.py:24-29 | the bucket stays between 0 and burst |
| RateLimit.BucketIsLeastRoom | respondd/respondd-tmpl/lib/ratelimit.py:21-32 | the bucket is exactly the least room left over all windows that end at the call |
| RateLimit.GrantedIff | respondd/respondd-tmpl/lib/ratelimit.py:28-32 | a call after the first is granted if and only if no window ending with it would exceed burst + rate * length / 60 |
| RateLimit.WindowBound | respondd/respondd-tmpl/lib/ratelimit.py:9-32 | no window of calls holds more grants than that, one more if it holds the first call |
| RateLimit.DeniedIsInvisible | respondd/respondd-tmpl/lib/ratelimit.py:21-32 | removing any denied call leaves every other decision as it was |
| Respondd.Responder.GetStruct | respondd/respondd-tmpl/lib/respondd.py:33-50 | the answer is the cached object itself, which after a fetch holds the fetched fields and the node id |
| Respondd.Responder.Serve | respondd/respondd-tmpl/lib/respondd.py:33-50 | over a whole sequence of calls on a new responder each answer has the fields of the specification, and a cached one is the very object answered before |
| Respondd.NodeIdIff | respondd/respondd-tmpl/lib/respondd.py:13-50 | an answer has the node id if and only if it or one before it came later than `caching` seconds after time 0 |
| Respondd.FetchedIff | respondd/respondd-tmpl/lib/respondd.py:33-43 | after a fetch, the next one is made exactly by the first call more than `caching` seconds later, by every call without caching |
| Respondd.EarlyAnswer | respondd/respondd-tmpl/lib/respondd.py:13-38 | a responder asked one second after time 0 answers with nothing |
| Respondd.AnswersAreFresh | respondd/respondd-tmpl/lib/respondd.py:33-43 | from the first such call on every answer is the newest fetched value and is at most `caching` seconds old |
| DhcpdBlocks.Blocks | dhcp-server/dhcpd_to_context.py:20-32 | the loop follows the scanner specification, and for every balanced text it returns the blocks of a decomposition of that text |
| DhcpdBlocks.ScanReturnsBlocks | dhcp-server/dhcpd_to_context.py:20-32 | a text made of brace-free prefixes, balanced bodies and a brace-free tail gives exactly its blocks, in order, with header and body unchanged |
| DhcpdBlocks.HeaderIsHeader | dhcp-server/dhcpd_to_context.py:31-31 | the header is what follows the last semicolon before the brace, without the white space around it |
| DhcpdBlocks.Decompose | dhcp-server/dhcpd_to_context.py:21-21 | every balanced text has that form |
| DhcpdBlocks.Place | dhcp-server/dhcpd_to_context.py:68-74 | each reservation goes to the first subnet that contains it, in order; fails exactly when one fits nowhere, with the first such |
| DhcpdBlocks.EveryHostOnce | dhcp-server/dhcpd_to_context.py:95-97 | the subnets together hold as many reservations as there are hosts |
| DhcpdBlocks.ReservedIff | dhcp-server/dhcpd_to_context.py:68-72 | a subnet holds exactly the hosts for which it is the first whose range contains their address |
| KeaPools.CountsAdd | dhcp-server/kea_pool_stats.py:99-102 | the newest samples: used and declined addresses together are the leased ones, unless more are declined than leased |
| KeaPools.MakeEntry | dhcp-server/kea_pool_stats.py:61-82 | free and used addresses make up the defined ones; percent and touch_percent are the hundredfold quotients to three places, ties to even, and 0 of nothing; the status is that of the percentage |
| KeaPools.EveryPool | dhcp-server/kea_pool_stats.py:109-121 | every pool has an entry, under the name of its network or else the prefix of its subnet, with the counts of the subnet for the first pool and none for the others |
| KeaPools.RangeCount | dhcp-server/kea_pool_stats.py:109-121 | there are as many ranges as pools |
| KeaPools.EveryNamedNetwork | dhcp-server/kea_pool_stats.py:122-126 | every named network has an entry with the counts of its subnets |
| KeaPools.BuildReport | dhcp-server/kea_pool_stats.py:85-133 | ranges, shared networks and summary as specified, from nested loops that zero the counters after the first pool; with a pool in every subnet the ranges sum to the summary |
| KeaPools.RangesSumToSummary | dhcp-server/kea_pool_stats.py:94-131 | the ranges sum to the summary if and only if subnets without pools count nothing, in particular when every subnet has a pool |
| KeaPools.PoollessHidden | dhcp-server/kea_pool_stats.py:94-131 | a subnet without pools whose addresses are in the summary and in no range |
| KeaPools.ExitCode | dhcp-server/kea_pool_stats.py:136-139 | by the statistics: 2 exactly when in some subnet with a pool the used addresses reach the critical percentage of the defined ones (later pools count as empty), 1 exactly when none does but some reaches the warning percentage |
| KeaPools.AlmostFull | dhcp-server/kea_pool_stats.py:136-139 | 95 of 100 addresses used at a critical limit of 90 exits with 2 |
| Duration.ReadsPrinted | telegraf/files/haproxy_peers_stats.py:41-46 | reading a printed duration gives the sum of its parts |
| Duration.ReadsSeconds | telegraf/files/haproxy_peers_stats.py:24-46 | decimal numbers with units are read as so many seconds: 86400, 3600, 60, 1 and a thousandth |
| Duration.AcceptedIff | telegraf/files/haproxy_peers_stats.py:41-46 | a string is accepted exactly when it is a nonempty concatenation of number-unit pairs |
| Duration.PrintsUniquely | telegraf/files/haproxy_peers_stats.py:23-24 | two lists of pairs that print alike are equal, `m` and `ms` notwithstanding |

## Left out

- HTTP, UDP and socket calls, TSIG keys and Salt plumbing: the remote zone, the server, the pages and the downloads are parameters.
- Synthesis of SRV and CAA `data`: stored content is taken to read back as written, and a failing `data()` is an abstract predicate in the sanity check.
- An MX record that the API lists without a priority makes the source raise a KeyError; the model reads it as a record without priority.
- Regular expressions: exclude patterns are predicates on names, and the option patterns of the dhcpd.conf parser are not modelled.
- The version order of `sort -V`: which of several markers is the newest is a parameter of the installer; the results about histories start from at most one marker.
- DdnsState.PassAchieves: lists with two requests for one name and type, where each pass lets the later one act on what the earlier one left.
- SOA records in the name server, CNAME chains in answers, and authentication of updates.
- `parse_peers`, `parse_tables` and the line protocol output of the haproxy script: line classification by regular expressions with simple bookkeeping.
- DhcpdBlocks.Place: subnets are address ranges; network parsing and the lease time checks of `parse` are not modelled.
- Rounding of floating point numbers: rates, times and percentages are real numbers, and percentages round half to even at three places.
- Duration.AcceptedIff: digits are the ASCII digits, while the source's pattern also accepts other Unicode digits.
- ReverseDns.PtrRecords: prefixes are given as parsed networks and the reverse pointer name of an address is not spelled out.
- Comments, display strings, perfdata and the `changes` text.
- All templates, configuration files, JavaScript and PHP, and the clients of NetBox and cfssl.
