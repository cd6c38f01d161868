# node-ddclient reconciliation cycle in Dafny

node-ddclient is a small daemon that keeps a Cloudflare DNS "A" record equal to
the machine's public IP address. Every five minutes it looks up the address,
reads the provider's record list (from a snapshot file when one exists,
otherwise from the provider, storing the body in the snapshot), selects the
record of the configured subdomain, and, when the address differs from that
record's content, sends an edit, checks the provider's reply and refetches the
record list into the snapshot.

This project models one such cycle with every network, file and parser result
given as input:

- `options.dfy` — `Option`, used for JavaScript properties that may be
  `undefined`, bodies that never arrived and text that does not parse.
- `address.dfy` (`Address`) — the normalisation of the address service's body.
- `records.dfy` (`Records`) — the parsed record-list reply as a datatype and
  `getSubdomain`, as a loop (`GetSubdomain`) proved equal to a function
  (`Selected`).
- `cloudflare.dfy` (`Cloudflare`) — configuration, the `rec_load_all` query,
  the `rec_edit` form, the update decision and the edit-reply check.
- `reconcile.dfy` (`Reconcile`) — the cycle as a function (`Cycle`) over the
  snapshot, and a class `Reconciler` whose `snapshot` field is the snapshot
  file and whose methods `GetDnsInfo`, `CheckAvail` and `RunCycle` update it
  step by step; each method is proved equal to its function. Lemmas about
  `Cycle` state what one or two consecutive cycles do.

A cycle yields an `Outcome`: `NoUpdate`, `Updated(from, to)`,
`Failed(IpUnavailable | EditRejected | RefreshFailed)`, or `Stalled` when
checkAvail drops its callback (a failed read, fetch or write) and the cycle
never reaches a decision. It also yields the sequence of HTTP calls it issued
(`IpGet`, `ListGet`, `EditPost`), in order.

`JSON.parse` plus the reading of the fields the cycle uses is abstracted by two
total functions in `Parsers`: one from text to `Option<ListReply>`, one from
text to `Option<EditReply>`; None stands for a parse that throws.

## Model

| member | source | states |
|---|---|---|
| `Address.StripNewlines` | node-ddclient.js:24 | the address contains no line feed, is no longer than the body, and every other character occurs as often as in the body |
| `Address.StripNewlinesConcat` | node-ddclient.js:24 | removing line feeds works piecewise over concatenation, so the remaining characters keep their order |
| `Address.StripNewlinesFixedIffClean` | node-ddclient.js:24 | a body is left unchanged exactly when it contains no line feed |
| `Address.StripNewlinesIdempotent` | node-ddclient.js:24 | normalising twice equals normalising once |
| `Records.LastNamed` | node-ddclient.js:52-56 | the scan selects something iff some record is named like the subdomain, and what it selects is such a record of the list |
| `Records.LastNamedIsLast` | node-ddclient.js:52-56 | no record after the selected one carries the subdomain's name |
| `Records.WellShaped` | node-ddclient.js:46-50 | a reply without `response`, or without `recs`, fails the guard; a reply that passes has an `objs` array and a `count` of at least 1 |
| `Records.Selected` | node-ddclient.js:34-59 | text that does not parse, or a reply lacking `response`, `recs`, `objs` or a positive `count`, yields the empty record; a non-empty selection is named like the subdomain |
| `Records.SelectedIsLastMatch` | node-ddclient.js:46-58 | on a well-shaped reply the selection is non-empty iff some record matches the subdomain, and then it is the last matching record in reply order |
| `Records.GetSubdomain` | node-ddclient.js:34-59 | the parse, shape check and forEach loop return exactly `Selected` of the parsed text |
| `Cloudflare.IpService` | node-ddclient.js:18 | the configured address service when set and non-empty, otherwise the default `http://ifconfig.me/ip`; never empty |
| `Cloudflare.ListQuery` | node-ddclient.js:68-73 | the list query has exactly the keys `a`, `tkn`, `email`, `z` with `a = rec_load_all` and the configured token, email and zone |
| `Cloudflare.EditForm` | node-ddclient.js:97-108 | the edit form has `a = rec_edit`, `type = A`, `name = subdomain`, `service_mode = 0`, `ttl = 1`, the credentials and zone, `content` = the new address, and `id` = the record id exactly when the record has one; no other keys |
| `Cloudflare.NeedsUpdate` | node-ddclient.js:154 | the empty selection always asks for an update; no update is asked for only when the record's content equals the address |
| `Cloudflare.Accepted` | node-ddclient.js:161-171 | a transport error (no body) or a body that does not parse never counts as success; success means the parsed `result` is `success` |
| `Reconcile.FetchStep` | node-ddclient.js:74-85 | getDnsInfo hands on a body iff the fetch and the write succeed, and then the snapshot holds it; otherwise the snapshot is unchanged |
| `Reconcile.AvailStep` | node-ddclient.js:123-139 | checkAvail fetches iff there is no snapshot; a present snapshot is kept and read; a fetch yields and stores exactly the fetched body, and only when the fetch and the write succeed; the text it yields is exactly what the snapshot then holds |
| `Reconcile.Cycle` | node-ddclient.js:144-196 | every cycle starts with the address lookup; it fails with `IpUnavailable` iff the lookup fails and stalls iff only checkAvail fails; an `Updated(from, to)` cycle had the record text, `from` is the selected record's content and `to` the normalised address, which differed from it, the edit reply was accepted and the snapshot is the refetched body |
| `Reconcile.Reconciler.GetDnsInfo` | node-ddclient.js:64-87 | the method's result and new snapshot are those of `FetchStep` on the old snapshot |
| `Reconcile.Reconciler.CheckAvail` | node-ddclient.js:123-139 | the method's text, fetch flag and new snapshot are those of `AvailStep` on the old snapshot |
| `Reconcile.Reconciler.RunCycle` | node-ddclient.js:144-196 | the method's outcome, calls and new snapshot are those of `Cycle` on the old snapshot |
| `Reconcile.EditIssuedIffDrift` | node-ddclient.js:152-161 | an edit is sent iff address and record text are available and the address differs from the selected record's content; it is then the only edit and carries the record's id and the normalised address |
| `Reconcile.EditOutcome` | node-ddclient.js:155-190 | once an edit is sent: a rejected reply ends `Failed(EditRejected)` with no further call and the snapshot as checkAvail left it; an accepted reply is always followed by the refetch, the snapshot becomes the refetched body iff the refetch and its write succeed, and the cycle ends `Updated(old content, address)` iff the final write succeeds as well, `Failed(RefreshFailed)` otherwise |
| `Reconcile.ListFetchedOnlyWhenNeeded` | node-ddclient.js:123-178 | the record list is fetched once when there is no snapshot and once more only after exactly one edit was sent and accepted (body parses and `result` is `success`) |
| `Reconcile.SnapshotReplacedOnlyAfterAcceptedEdit` | node-ddclient.js:155-190 | the snapshot changes after checkAvail only when exactly one edit was sent and accepted, and then to the refetched body; an `Updated` cycle sent one accepted edit and left the snapshot equal to the refetched body; no-update, stalled, failed-lookup and rejected cycles leave it as checkAvail left it |
| `Reconcile.NoUpdateIffInSync` | node-ddclient.js:152-154 | whenever address and record text are available (snapshot read or just fetched), the cycle ends `NoUpdate` iff the selected record's content equals the address, and then it sends no edit and leaves the snapshot as checkAvail left it |
| `Reconcile.SnapshotUsedWhenPresent` | node-ddclient.js:131-192 | with a readable snapshot, the cycle finds nothing to do iff the selected record's content equals the address, and then it issues only the address lookup and keeps the snapshot |
| `Reconcile.NoUpdateIsStable` | node-ddclient.js:144-193 | a cycle run again after a no-update cycle, with the same address and provider answers, is again a no-update cycle with only the address lookup and the same snapshot |
| `Reconcile.QuietAfterUpdate` | node-ddclient.js:152-193 | after an update whose refetched list shows the new address, the next cycle with the same address does nothing but the address lookup |
| `Reconcile.UnusableSnapshotPersists` | node-ddclient.js:153-171 | a snapshot from which nothing is selected makes the cycle send one edit without an `id`; if that edit is rejected the snapshot stays as it was |
| `Reconcile.IpFailureAbortsButFillsSnapshot` | node-ddclient.js:145-151 | a failed address lookup ends the cycle with an error and no edit, while the concurrent checkAvail still fetches and stores an absent snapshot |

## Left out

- HTTP, the filesystem, the daemon and the cron schedule (node-ddclient.js:5-9, 144, 196-199): their results are the fields of `Env`, one cycle at a time.
- The concurrency of `async.parallel` (node-ddclient.js:145-148): the address lookup and checkAvail are modelled one after the other; they share no state, so only the order of calls in the trace is a modelling choice.
- `JSON.parse` and JavaScript's dynamic values: replies are typed datatypes whose fields are strings, integers or arrays. Three shapes on which the source throws are not represented: a top-level `null` (reading `response` throws), an `objs` that is not an array (`forEach` throws) and a `null` record (reading `name` throws). Four more are not represented by the typed replies although the source handles them without throwing: it compares a string `count` numerically (so `"3"` passes the guard), never matches a record whose `name` is not a string, always updates when `content` is not a string, and sends a non-string `rec_id` as the form encoder renders it.
- The `typeof(str) != 'string'` guard of getSubdomain (node-ddclient.js:35): the cycle always passes a string.
- A failed write is modelled as leaving the snapshot as it was before that write; a write that truncates the file and then fails is not modelled.
- Reading the snapshot and checking that it exists are one step: `readOk` says whether the read succeeds.
- Console output (node-ddclient.js:21, 42, 150, 186-192) becomes the `Outcome` value.
- The cron rule and config_example.js: static configuration with no logic.
- Only the last record named like the subdomain is used, and the edit is sent even when that record has no `rec_id`, in which case it carries no `id` field; there is no per-record processing of several matches and no "format error" outcome. The address loses only line feeds, not other whitespace.
