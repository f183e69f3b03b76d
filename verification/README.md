# NIXI SBC: verified models of its protocol engines

NIXI is a SIP back-to-back user agent. This project models the parts of it that keep state
across messages and proves what they guarantee over whole runs:

- the **callee leg of a call** (`b2bua.rs`, `sip_builder.rs`): which INVITE a response
  belongs to, which CSeq the next request carries, the session-refresh machine of RFC 4028,
  and the text of the requests it prints and parses;
- the **registrar** (`register.rs`): bindings, tombstones, caps, the order rule of section
  10.3 (step 7) of RFC 3261;
- the **digest authenticator** (`auth.rs`): nonces, replay protection, and the agreement of
  its client and server halves through header text;
- the **limiters** (`dos.rs`, `rate_limit.rs`): a token bucket per address and a sliding
  window per client;
- the **CDR pipeline** (`storage.rs`, `cdr_writer.rs`, `sbc-storage/src/cdr.rs`): the queue
  with flush barriers, keyset paging, retention;
- **raw message rewriting** (`topology.rs`) and the **trunk loops** (`trunk_tasks.rs`).

## How it is built

Each engine is described twice. A module of values and functions (`CalleeLeg`, `Registrar`,
`DigestAuth`, `CdrQueue`, ...) says what one atomic step does; a run is any sequence of such
steps, and the theorems of the `...Runs` modules hold of every run. Next to it stands the
program's own form: classes with the program's fields and methods (`B2buaCall.CallRecord`,
`InMemoryRegistrar.Store`, `DigestAuthenticator.Authenticator`, `CdrPipeline.Pipeline`,
`DosProtector.Protector`, `RateLimiter.Limiter`, `TopologyHiding.RawSipMessage`,
`TrunkTasks.Backoff`) and its loops, each proved to do what the functions say. The call record,
the authenticator, both limiters and the pipeline carry the run that led to them, and their methods promise
the run theorems of what they return; the setters of the call record without a row below only
extend that run. One locked section of the program is one step (in module `RegistrarRuns` a
contact is one step), and one step reads the clock once. Clocks, random
branches, nonces and delays, the choices a hash map makes while it is iterated, and the
answers of peers and of the database are inputs.

| modules | what they hold |
|---|---|
| `Prelude`, `Text`, `SipMessage` | options and bounds; Rust's string operations with their laws; the shape of a SIP message |
| `SipBuilder`, `CompactNames`, `InviteRenewal`, `RenewedInvites` | parsing of requests, requests of an INVITE's transaction, renewal |
| `InDialogRequests`, `PrintedRequests` | requests of a dialog, and what a peer reads under each header |
| `CalleeLeg`, `CalleeLegRuns`, `CalleeLegRejections`, `CalleeLegReattach`, `B2buaCall` | the callee leg |
| `CalleeLegWire`, `InviteNumbers` | the leg's requests as the callee reads them; the numbers it keeps against the numbers on the wire |
| `Registrar`, `RegistrarRuns`, `RegistrarOrder`, `RegistrarCaps`, `RegistrarSections`, `RegistrarGrants`, `InMemoryRegistrar` | the registrar |
| `DigestText`, `DigestPrinted`, `DigestAuth`, `DigestVerdicts`, `DigestRuns`, `DigestAuthenticator` | digest authentication |
| `CdrQueue`, `CdrPipeline`, `CdrPaging` | call detail records |
| `DosLimiter`, `DosBlacklist`, `DosProtector`, `RateLimiter`, `RateLimiterSections` | the limiters |
| `Topology`, `TopologyHiding`, `TopologyWire` | raw messages |
| `TrunkTasks` | trunk probing and registration |

`dafny verify dfyconfig.toml` checks everything.

## Where the code does less than its comments say

The model follows the code; each point has a theorem that says exactly what holds.

- The per-AOR cap evicts the oldest bindings of the whole table until the AOR loses one:
  `RegistrarCaps.AorCapCostIff` says exactly who pays, `RegistrarCaps.AorPaysAloneIff` when
  the AOR pays alone, and `RegistrarCaps.AnotherAorPays` shows a table where it does not.
- A wildcard REGISTER answers with no bindings even when some were kept
  (`RegistrarOrder.WildcardReplyFaithfulIff` gives the exact condition,
  `RegistrarCaps.WildcardHidesKept` a case).
- A full tombstone table records nothing, and evictions leave no tombstone
  (`RegistrarCaps.DropsIffFull`, `RegistrarCaps.WildcardForgets` and
  `RegistrarCaps.EvictsIffFull` say exactly when, `RegistrarCaps.ForgottenRemovalUndone`
  shows the harm). Another dialog that binds and removes the key takes the protection away
  (`RegistrarOrder.ForeignRemovalReopens`).
- The order test of a contact and the change it leads to are separate lock sections:
  `RegistrarSections.LateChangeBreaksOrderIff` says exactly what a change that comes late can
  break, and `RegistrarSections.RaceUndoesRemoval` shows it.
- Attaching a second leg starts the leg counter at 1 again, so later numbers can fall:
  `CalleeLegReattach.ReattachSafeIff` says exactly when they do not, and
  `CalleeLegReattach.ReattachCanFall` shows a run where they do.
- An attempt older than the last eight is forgotten; `CalleeLegRuns.ForgettingShowsOnlyThere`
  says exactly for which responses that shows, `CalleeLegRuns.NinthAttemptForgets` shows one.
- An INVITE text without a blank line that ends in a line end gets that line end as its body
  when it is renewed (`RenewedInvites.RenewalKeepsRequest`).
- Two requests of unknown clients at the same time can push the sliding-window table above its
  4096 clients, again and again (`RateLimiterSections.CrowdOverfills`,
  `RateLimiterSections.SameVictimGrows`); `RateLimiterSections.StepWithinCapIff` and
  `RateLimiterSections.CapHoldsWhenAlone` say when they do not.
- The address table of the token buckets can outgrow its cap, by blacklisted addresses only
  (`DosLimiter.TableBoundedIff`).
- The idle sweep of the token buckets is harmless exactly when rate x `cleanup_after_secs`
  reaches the burst (`DosLimiter.IntervalBound`, `DosLimiter.EarlySweepBreaksBound`).
- The prefix filter is exact for every prefix whose last character can be incremented, and
  otherwise only for prefixes of top characters (`CdrPaging.PrefixFilterExactIff`).
- Realms, users and values with a comma, or with a quote at an end, do not survive the digest
  headers (`DigestText.ChallengeSurvivesIff`, `DigestText.CredentialsSurviveIff`).

## Model

| member | source | states |
|---|---|---|
| `CalleeLegRuns.CseqDiscipline` | crates/sbc-core/src/b2bua.rs:527-540 | In every run with one attached leg, INVITE numbers that never fall and no wrapped number, each refresh re-INVITE and BYE of the SBC toward the callee is numbered strictly above every INVITE attempt, every earlier SBC request and every relayed number of that leg, and each BYE toward the caller above everything sent that way |
| `CalleeLegReattach.ReattachSafeIff` | crates/sbc-core/src/b2bua.rs:439-441 | After any such run, the first number after attaching again is above everything already sent if and only if the old counter had not passed max(live INVITE number, 1) |
| `CalleeLegReattach.ReattachCanFall` | crates/sbc-core/src/b2bua.rs:772-793 | A concrete run: relayed CSeq 10, attach again, next number 2 |
| `CalleeLegRuns.RefreshOneAtATime` | crates/sbc-core/src/b2bua.rs:1125-1195 | In every run no refresh is sent while one is in flight, only the one in flight is ever consumed, the pending number is the one the log says is in flight, and it has its raw text and equals the last refresh |
| `CalleeLegRuns.ConsumedAtMostOnce` | crates/sbc-core/src/b2bua.rs:1199-1232 | Over every disciplined run, completion and failure together consume each refresh number at most once, and only after it was sent |
| `CalleeLegRuns.RepeatedAnswerRecognised` | crates/sbc-core/src/b2bua.rs:1075-1109 | Until the next refresh, re-arming or refusal to refresh, every answer with the number of the last refresh is a recognised duplicate |
| `CalleeLegRuns.RefreshAnswerNeverCurrent` | crates/sbc-core/src/b2bua.rs:1902-1908 | With no newer INVITE pushed and an unknown branch, an answer to a refresh is classified Stale without an attempt, never Current |
| `CalleeLegRuns.AttemptsAreRetained` | crates/sbc-core/src/b2bua.rs:1836-1838 | In every run the call holds exactly the newest eight attempts of its whole history, in order |
| `CalleeLegRuns.RetainedBranchDecides` | crates/sbc-core/src/b2bua.rs:1885-1898 | With distinct branches, a response with the branch of one of the last eight attempts is Current exactly when that attempt is the newest, else Stale with exactly that attempt, whatever its CSeq |
| `CalleeLegRuns.NoBranchComparesCseq` | crates/sbc-core/src/b2bua.rs:1899-1923 | Without a branch the verdict is the comparison with the newest attempt's CSeq; a lower one is attributed to the newest retained superseded attempt that had it, and to none when none had |
| `CalleeLegRuns.ForgettingShowsOnlyThere` | crates/sbc-core/src/b2bua.rs:1909-1917 | The retained list and the unbounded history disagree on Current exactly for the branch of a forgotten attempt together with the newest attempt's CSeq |
| `CalleeLegRuns.NinthAttemptForgets` | crates/sbc-core/src/b2bua.rs:1836-1838 | Nine attempts with one CSeq: the late answer to the first is Stale with it for the whole history, and Current for the retained eight |
| `CalleeLegRuns.SupersededNeverCurrent` | crates/sbc-core/src/b2bua.rs:1891-1901 | After every run, a superseded attempt that is still retained is answered Stale with itself |
| `CalleeLegRejections.RejectionMakesProgress` | crates/sbc-core/src/b2bua.rs:975-1069 | A counted rejection reports the dialog gone (exactly 408, 481 or the third in a row without progress) or lowers (2^32 - interval, 3 - failures) lexicographically; a 422 raises interval and Min-SE to what it names, nothing else moves them; the next refresh waits min(30 s x 2^min(failures, 4), max(interval/2, 30 s)) exactly |
| `CalleeLegRejections.RejectionsEnd` | crates/sbc-core/src/b2bua.rs:1030-1069 | In any stretch of any run without an arming or a completing 2xx, the rejections that did not end the dialog are at most the patience the stretch started with |
| `CalleeLegRejections.IntervalNeverFalls` | crates/sbc-core/src/b2bua.rs:1020-1040 | Between two armings of any run, whatever else happens to the call, interval and Min-SE never fall, and a timer that was given up does not come back |
| `B2buaCall.CallRecord.AttachOutbound` | crates/sbc-core/src/b2bua.rs:772-793 | Extends the run of the record with a leg that starts at 1 and has no dialog yet; the next number of the SBC is then above everything it ever sent if and only if the old counter had not passed max(live INVITE number, 1) |
| `B2buaCall.CallRecord.NoteRelayedCseq` | crates/sbc-core/src/b2bua.rs:822-833 | The counter of the side the request went to becomes the larger of the two numbers, and the other stays |
| `B2buaCall.CallRecord.PushInviteAttempt` | crates/sbc-core/src/b2bua.rs:1807-1850 | The history of attempts grows by exactly this one, the record holds its newest eight, and the new one has the number and branch of its own text, its destination, transport and trunk |
| `B2buaCall.CallRecord.KeepAttempt` | crates/sbc-core/src/b2bua.rs:1818-1838 | Pushing and dropping the first past eight yields the newest eight; the new attempt says what its text says; a missing trunk keeps the old one |
| `B2buaCall.CallRecord.SetSessionTimer` | crates/sbc-core/src/b2bua.rs:937-958 | A refresh of a call that can be refreshed is due exactly from max(interval/2, 30) s after the arming on; interval and Min-SE are those given, none is in flight, and no answer is taken for one's own or for a duplicate |
| `B2buaCall.CallRecord.DueSessionRefresh` | crates/sbc-core/src/b2bua.rs:1125-1195 | A re-INVITE exactly when one is due, only with none in flight, numbered above every number the record ever put on that leg and above the number each pushed INVITE carries in its text, and carrying that number with the word INVITE itself |
| `B2buaCall.CallRecord.RefreshTimer` | crates/sbc-core/src/b2bua.rs:1140-1190 | The guards in the program's order; number and text go into the leg, the pending slot and the last refresh |
| `B2buaCall.CallRecord.CompleteSessionRefresh` | crates/sbc-core/src/b2bua.rs:1199-1232 | Takes exactly the refresh the log shows in flight, which was never consumed before, forgets the failures, and acknowledges it with its own number |
| `B2buaCall.CallRecord.FailSessionRefresh` | crates/sbc-core/src/b2bua.rs:975-1069 | Takes exactly the refresh in flight, never consumed before; the ACK is that of the pending text, and the dialog is reported gone exactly under the rule |
| `B2buaCall.CallRecord.RejectTimer` | crates/sbc-core/src/b2bua.rs:1000-1069 | 491 reschedules after the given delay, exactly 405/501/420 disable, 422 raises, others count |
| `B2buaCall.CallRecord.RefreshDuplicateAck` | crates/sbc-core/src/b2bua.rs:1075-1109 | Known exactly for the last refresh in the log; no ACK for 1xx, a fresh one for 2xx, that of the stored text for a rejection |
| `B2buaCall.CallRecord.BuildRelayByeTowardCallee` | crates/sbc-core/src/b2bua.rs:1521-1537 | The BYE is numbered above every number the record ever put on that leg and every number in a pushed text, and carries that number with the word BYE; nothing without a dialog |
| `B2buaCall.CallRecord.BuildRelayByeTowardCaller` | crates/sbc-core/src/b2bua.rs:1541-1553 | The BYE is numbered above everything sent toward the caller, and carries that number with the word BYE |
| `B2buaCall.CallRecord.ClassifyInviteResponse` | crates/sbc-core/src/b2bua.rs:1878-1923 | The verdict is just for the whole history of the record: with distinct branches, the branch of one of its last eight attempts decides alone; without a branch, the newest CSeq; an unknown branch with a higher CSeq is nobody's |
| `B2buaCall.FindByBranch` | crates/sbc-core/src/b2bua.rs:1890-1898 | The search from the newest attempt down finds the newest with the branch, or none has it |
| `B2buaCall.FindByCseq` | crates/sbc-core/src/b2bua.rs:1918-1921 | The same by CSeq |
| `B2buaCall.CallRecord.SetEstablishedDialog` | crates/sbc-core/src/b2bua.rs:846-862 | With a leg and a destination there is a dialog toward the callee from then on, and both legs have the identities and the target given |
| `B2buaCall.CallRecord.HandleOk` | crates/sbc-core/src/b2bua.rs:1331-1366 | The leg is up, and the call Connected exactly when the caller's leg is; nothing goes on the wire |
| `B2buaCall.CallRecord.HandleAck` | crates/sbc-core/src/b2bua.rs:1369-1388 | The caller's leg is up, and the call Connected exactly when the callee's is |
| `InviteNumbers.AttemptSaysItsText` | crates/sbc-core/src/b2bua.rs:1807-1850 | Every attempt pushed has the number on the first line of its text that starts with "cseq:" (1 when there is none to read) and the branch of the first Via of its text |
| `InviteNumbers.InviteNumber` | crates/sbc-core/src/b2bua.rs:620-625 | For every text that reads as an INVITE and whose names touch their colon, that number is the one of its first CSeq header |
| `InviteNumbers.PrintedAttempt` | crates/sbc-core/src/b2bua.rs:1807-1850 | The attempt pushed from the printed INVITE of a clean identity has exactly its number and its branch |
| `InviteNumbers.PrintedRenewedAttempt` | crates/sbc-core/src/sip_builder.rs:265-300 | The attempt pushed from the renewal of that text has the next number and the fresh branch |
| `InviteNumbers.RenewedAttempt` | crates/sbc-core/src/sip_builder.rs:265-300 | So for every text that reads as an INVITE and can be renewed: the number its text carries rises by one, in the text and in the attempt |
| `InviteNumbers.RunSaysItsTexts` | crates/sbc-core/src/b2bua.rs:1807-1850 | In every run every attempt of the history says what its text says |
| `InviteNumbers.WireDiscipline` | crates/sbc-core/src/b2bua.rs:527-540 | In every disciplined run each refresh and BYE toward the callee is numbered above the number every INVITE pushed before it carries in its text |
| `InviteNumbers.AboveStoredText` | crates/sbc-core/src/b2bua.rs:527-540 | Before anything was pushed, the next number is one above the larger of the stored INVITE's number and the leg's |
| `CalleeLegWire.ByeTowardCalleeReads` | crates/sbc-core/src/b2bua.rs:1521-1537 | The BYE toward the callee as it reads it: the leg's Call-ID, the SBC as From and the callee as To, its Contact, else the INVITE's URI, else its address as Request-URI, the leg's next number with BYE, the reason, and the SBC's hop as the one Via |
| `CalleeLegWire.ByeTowardCallerReads` | crates/sbc-core/src/b2bua.rs:1541-1553 | The BYE toward the caller: the dialog of the caller's INVITE the other way round, with the next number of that side |
| `CalleeLegWire.EstablishedDialog` | crates/sbc-core/src/b2bua.rs:846-862 | After a 200 OK both BYEs carry the identities it set, each toward its own side |
| `CalleeLegWire.RefreshReads` | crates/sbc-core/src/b2bua.rs:1140-1190 | The refresh re-INVITE as the callee reads it: same dialog, next number with INVITE, the session description last sent with its length in bytes, the timer's interval with the SBC as refresher, the timer's Min-SE, the SBC's Contact and Via |
| `CalleeLegWire.AckReads` | crates/sbc-core/src/b2bua.rs:1199-1232 | The ACK for its 2xx goes to the same dialog with the refresh's own number |
| `CalleeLegWire.DueWhen` | crates/sbc-core/src/b2bua.rs:937-958 | Once armed, a refresh is due if and only if the call can be refreshed and half the interval (at least 30 s) has passed |
| `CalleeLegWire.DueAgain` | crates/sbc-core/src/b2bua.rs:1125-1195 | A refresh in flight blocks the next one for ever; completed, the next is due exactly half the interval after it was sent |
| `SipBuilder.ParseInviteIdentity` | crates/sbc-core/src/sip_builder.rs:147-190 | The one-pass line scan reads what the specification reads: first Via, last From/To/Call-ID/CSeq, all Routes, up to the first empty line |
| `SipBuilder.FindTopViaBranch` | crates/sbc-core/src/sip_builder.rs:196-220 | The branch of the first Via of the header block, or none |
| `SipBuilder.RequestRoundTrip` | crates/sbc-core/src/sip_builder.rs:147-220 | Printing a clean identity as a request and parsing it gives the identity and the branch of its Via back, and the last CSeq line is its number and exactly the method of the start line, for every method |
| `SipBuilder.ParsedIsClean` | crates/sbc-core/src/sip_builder.rs:147-190 | Whatever the text, what is parsed can be printed again: no line end, no blank at an end |
| `CompactNames.ReadsAlike` | crates/sbc-core/src/sip_builder.rs:147-220 | A request reads as the same identity and branch whether its header names are long or compact, in any case |
| `SipBuilder.CancelMatchesInvite` | crates/sbc-core/src/sip_builder.rs:225-242 | A CANCEL exists exactly when the INVITE parses, and parses back to its URI, Via, From, To, Call-ID and CSeq number, so to its branch (section 9.1 of RFC 3261); its CSeq line is that number and the word CANCEL |
| `SipBuilder.AckMatchesInvite` | crates/sbc-core/src/sip_builder.rs:245-260 | The ACK for a rejection parses back to everything of the INVITE, Routes included, with To from the response (section 17.1.1.3 of RFC 3261); its CSeq line is the INVITE's number and the word ACK |
| `InviteRenewal.RenewInviteTransaction` | crates/sbc-core/src/sip_builder.rs:265-300 | The in-place line loop computes the renewed text: first Via with the fresh branch, CSeq lines bumped, body as it was |
| `InviteRenewal.RenewedBranch` | crates/sbc-core/src/sip_builder.rs:265-300 | Whatever the Via value, the renewed one carries exactly the fresh branch |
| `InviteRenewal.RenewalWithBlankLine` | crates/sbc-core/src/sip_builder.rs:265-300 | For an INVITE with a blank line: body byte for byte, same URI, From, To, Call-ID and Routes, the top Via with only its branch replaced, CSeq n + 1 |
| `RenewedInvites.RenewalKeepsRequest` | crates/sbc-core/src/sip_builder.rs:265-300 | The same for every text that reads as an INVITE whose names touch their colon and whose CSeq reads as number and method; the method word and the values under every other header name are kept, and the body if and only if there is a blank line or the text does not end in a line end |
| `RenewedInvites.PrintedInviteRenews` | crates/sbc-core/src/sip_builder.rs:265-300 | Every INVITE printed from a clean identity meets those conditions, and its renewal parses to the same identity with CSeq n + 1, the word INVITE and the fresh branch |
| `InDialogRequests.DialogRequestReads` | crates/sbc-core/src/sip_builder.rs:54-84 | Every in-dialog request the builder prints parses back to its dialog, any extra headers and body, and its CSeq line is the dialog's number and exactly the method of the start line |
| `InDialogRequests.DialogRequestBranch` | crates/sbc-core/src/sip_builder.rs:54-84 | And its top branch is the fresh one, whatever the transport's spelling |
| `InDialogRequests.RejectedRefreshAck` | crates/sbc-core/src/sip_builder.rs:108-142 | The ACK built from a printed refresh re-INVITE has that re-INVITE's CSeq number, with the word ACK, and its branch |
| `PrintedRequests.ReinviteCarries` | crates/sbc-core/src/sip_builder.rs:108-142 | What a peer reads in a re-INVITE under each name: Session-Expires with the SBC as refresher, Min-SE, Contact, Supported, Content-Type, 70 hops, Content-Length in bytes, the body, one Via |
| `PrintedRequests.ByeCarries` | crates/sbc-core/src/sip_builder.rs:86-94 | A BYE carries its reason exactly when there is one, no body, 70 hops, one Via |
| `PrintedRequests.AckFor2xxReads` | crates/sbc-core/src/sip_builder.rs:96-106 | The ACK for a 2xx reads as its dialog, with the INVITE's number and the word ACK |
| `PrintedRequests.TransactionRequestCarries` | crates/sbc-core/src/sip_builder.rs:225-260 | A CANCEL and the ACK for a rejection carry 70 hops, the Routes in order, a length of 0 and no body |
| `PrintedRequests.BytesCounted` | crates/sbc-core/src/sip_builder.rs:76-83 | Content-Length is the number of bytes of the body in UTF-8 (section 3 of RFC 3629) |
| `Registrar.BindingKeyIdentifies` | crates/sbc-core/src/register.rs:166-171 | Two contacts share a key exactly when both name the same instance and reg-id (absent meaning 0), or neither names an instance and the URIs agree |
| `Registrar.EvictDropsOldest` | crates/sbc-core/src/register.rs:373-392 | Eviction ends, only drops, stops once there is room, and never drops a binding while keeping an older one |
| `Registrar.MakeRoomWorks` | crates/sbc-core/src/register.rs:427-432 | After making room the AOR and the table are below both caps, and nothing older than a dropped binding is kept |
| `Registrar.FromConfig` | crates/sbc-core/src/register.rs:51-72 | Whatever the configuration, 1 <= minimum <= default <= maximum, and a sane one is kept |
| `RegistrarRuns.RegisterOk` | crates/sbc-core/src/register.rs:396-435 | Registering keeps every table bound, and the binding just registered is there unless it was out of order in its own dialog |
| `RegistrarRuns.ReachableTablesOk` | crates/sbc-core/src/register.rs:118-124 | In every reachable state each binding sits under its own key, at most 10 per AOR, 5000 in all, 4096 tombstones |
| `RegistrarRuns.ReplyFaithful` | crates/sbc-core/src/register.rs:867-872 | The reply to a request without wildcard lists exactly the AOR's unexpired bindings after it, so at most ten |
| `RegistrarRuns.ContactsAreSteps` | crates/sbc-core/src/register.rs:826-866 | Applying the contacts of a request is a run of them, one after the other |
| `RegistrarRuns.ProcessIsRun` | crates/sbc-core/src/register.rs:768-873 | A whole request, whatever its outcome, is a run of its steps |
| `RegistrarOrder.OutOfOrderIsAboutOwner` | crates/sbc-core/src/register.rs:535-548 | Out of order is exactly: in the dialog of the key's owner (binding, else live tombstone) and not newer than it |
| `RegistrarOrder.OwnDialogMustAdvance` | crates/sbc-core/src/register.rs:826-866 | Any step of the owner's own dialog that changes the key has a strictly higher CSeq and becomes the owner, unless a cap or a full tombstone table interfered |
| `RegistrarOrder.RequestMustAdvance` | crates/sbc-core/src/register.rs:768-873 | The same for a whole request with all its contacts |
| `RegistrarOrder.ChangeTakesOwnership` | crates/sbc-core/src/register.rs:396-476 | Any request that names the key and changes it becomes its owner, under the same proviso |
| `RegistrarCaps.EvictsOnlyForNew` | crates/sbc-core/src/register.rs:404-433 | Only a request for a key without a binding evicts anybody |
| `RegistrarCaps.EvictsIffFull` | crates/sbc-core/src/register.rs:427-432 | Such a request evicts somebody if and only if its AOR holds 10 or the table 5000 |
| `RegistrarCaps.AorCapTakes` | crates/sbc-core/src/register.rs:373-392 | Room for an AOR with ten: every binding older than all of its bindings goes, whoever owns it, and every binding newer than one of them stays |
| `RegistrarCaps.AorCapCostIff` | crates/sbc-core/src/register.rs:423-430 | When no two bindings are of the same age, a binding stays if and only if some binding of the AOR is older |
| `RegistrarCaps.AorPaysAloneIff` | crates/sbc-core/src/register.rs:423-426 | The AOR pays for its cap alone if and only if every other AOR's binding is newer than the AOR's oldest |
| `RegistrarCaps.AnotherAorPays` | crates/sbc-core/src/register.rs:427-429 | A sound table where a new binding of one AOR costs another its only one |
| `RegistrarCaps.DropsIffFull` | crates/sbc-core/src/register.rs:350-363 | A removal by a contact or by a caller of the registrar is forgotten if and only if 4096 tombstones are still live |
| `RegistrarCaps.WildcardForgets` | crates/sbc-core/src/register.rs:478-498 | A wildcard forgets at most the removals beyond the room left, and exactly those when no removed key has a live tombstone |
| `RegistrarCaps.ForgottenRemovalUndone` | crates/sbc-core/src/register.rs:356-361 | A full tombstone table: a removal with CSeq 6 is forgotten, and the request with CSeq 5 undoes it |
| `RegistrarOrder.RemovalSticks` | crates/sbc-core/src/register.rs:437-476 | A recorded removal survives every run of requests for other keys, wildcards, removals and sweeps for its 64 s, as long as whoever names the key is the removing dialog with no higher CSeq |
| `RegistrarOrder.ResurrectionNeedsNewerRequest` | crates/sbc-core/src/register.rs:535-548 | Whatever brings a removed binding back within 64 s is another dialog's contact or the same dialog's with a higher CSeq |
| `RegistrarOrder.ForeignRemovalReopens` | crates/sbc-core/src/register.rs:350-363 | Another dialog that binds and removes the key takes the tombstone over; then no request of the first dialog is out of order |
| `RegistrarOrder.OwnerOnlyAdvances` | crates/sbc-core/src/register.rs:550-573 | Over every run in which one dialog names the key and nothing is capped or expires, the key stays with it, its CSeq never falls, and every change raises it |
| `RegistrarOrder.SecondCheckNeverTaken` | crates/sbc-core/src/register.rs:396-476 | Once a request is in order, `register` binds its dialog and `unregister_binding` removes its own dialog's binding: their own CSeq checks never abort |
| `RegistrarOrder.AllOrNothing` | crates/sbc-core/src/register.rs:768-825 | A 400 or 423 leaves both tables unchanged, and nothing is stored when any contact asked for too short an interval |
| `RegistrarOrder.GrantsAreInRange` | crates/sbc-core/src/register.rs:51-72 | Under any configured policy, every granted and every registered interval lies between minimum and maximum |
| `RegistrarGrants.RegisterStores` | crates/sbc-core/src/register.rs:223-242 | Registering, new or refreshing, stores everything the registration says, the new expiry included; only user agent and reply channel outlive a refresh that brought none; exactly a request of the binding's own dialog that is not newer changes nothing |
| `RegistrarGrants.IntervalIsGranted` | crates/sbc-core/src/register.rs:826-866 | The interval is the contact's own parameter, else the Expires header, else the default, and at most the maximum |
| `RegistrarGrants.GrantIsStored` | crates/sbc-core/src/register.rs:826-866 | A contact in order that is granted g > 0 leaves a binding with its URI, the request's source and dialog, interval g, expiring g seconds from now |
| `RegistrarGrants.BindingLasts` | crates/sbc-core/src/register.rs:550-573 | A binding stays as it is through every run that neither names nor evicts it, sweeps included, until it expires |
| `RegistrarGrants.GrantIsListed` | crates/sbc-core/src/register.rs:508-516 | So after a granted contact and any such run, a lookup lists the binding if and only if the granted interval is not over |
| `RegistrarGrants.OrderTest` | crates/sbc-core/src/register.rs:535-548 | Out of order is: bound, and of the same dialog with no higher CSeq; or removed less than 64 s ago by the same dialog with no lower CSeq |
| `RegistrarGrants.RemovalTest` | crates/sbc-core/src/register.rs:437-476 | A binding goes if and only if its own dialog brings a higher CSeq, another dialog comes half a second or more after its refresh, or the program itself removes it; nothing else goes |
| `RegistrarGrants.WildcardTest` | crates/sbc-core/src/register.rs:478-506 | A wildcard removes exactly the AOR's bindings that are not of its own dialog with a CSeq as high |
| `RegistrarGrants.SweepTest` | crates/sbc-core/src/register.rs:550-573 | The sweep drops exactly the bindings whose second has come and the removals that are 64 s old |
| `RegistrarGrants.RefusedWhen` | crates/sbc-core/src/register.rs:768-825 | Exactly which requests are refused with 400 and which with 423 and the minimum |
| `RegistrarGrants.ConfigIsClamped` | crates/sbc-core/src/register.rs:51-72 | How a configuration is corrected, value by value |
| `RegistrarGrants.ContactTells` | crates/sbc-core/src/register.rs:826-866 | What one contact adds to the reply: its binding, the key it removed, the first interval granted |
| `RegistrarGrants.ReplyTells` | crates/sbc-core/src/register.rs:867-872 | The reply tells what all contacts added in their order, and a wildcard's exactly what it removed |
| `RegistrarOrder.WildcardReplyFaithfulIff` | crates/sbc-core/src/register.rs:779-791 | The empty reply to a wildcard is the truth if and only if no unexpired binding of the AOR is of the request's own dialog and not older |
| `RegistrarCaps.WildcardHidesKept` | crates/sbc-core/src/register.rs:779-791 | A wildcard that keeps a binding of its own dialog and answers that there is none |
| `RegistrarSections.LateChangeBreaksOrderIff` | crates/sbc-core/src/register.rs:396-476 | A request that became out of order after its test still changes the key if and only if the key has no binding any more and the request binds |
| `RegistrarSections.RemovalSticksInSections` | crates/sbc-core/src/register.rs:350-363 | At the grain of lock sections a recorded removal lasts its 64 s, unless a newer request claims the key or a late section binds it or notes another removal |
| `RegistrarSections.RaceUndoesRemoval` | crates/sbc-core/src/register.rs:826-866 | The race in which CSeq 5 undoes the removal by CSeq 6 |
| `InMemoryRegistrar.EvictOldestWhile` | crates/sbc-core/src/register.rs:373-392 | The loop computes the eviction that `Registrar.EvictDropsOldest` describes |
| `InMemoryRegistrar.Store.RegisterBinding` | crates/sbc-core/src/register.rs:396-435 | The new tables; the binding returned is the one stored under the key and, unless out of order in its own dialog, says everything the registration says, with the earlier user agent and reply channel exactly when it brought none |
| `InMemoryRegistrar.Store.RememberRemoval` | crates/sbc-core/src/register.rs:350-363 | The new tombstones; a full table is pruned first and else records nothing |
| `InMemoryRegistrar.Store.Unregister` | crates/sbc-core/src/register.rs:437-476 | The new tables; the binding goes if and only if its own dialog advances or, for another dialog, half a second has passed; what is returned is what was removed, and nothing else was |
| `InMemoryRegistrar.Store.UnregisterEvery` | crates/sbc-core/src/register.rs:478-506 | The new tables after a wildcard, one tombstone per removed binding as room allows |
| `InMemoryRegistrar.Store.CleanupExpired` | crates/sbc-core/src/register.rs:550-573 | Exactly the expired bindings and tombstones go |
| `InMemoryRegistrar.Store.HandleContact` | crates/sbc-core/src/register.rs:826-866 | One contact changes the tables and the outcome as the order theorems assume; a contact in order that is granted an interval leaves the binding that lasts for it; all caps hold |
| `InMemoryRegistrar.Store.HandleContacts` | crates/sbc-core/src/register.rs:826-866 | The loop over the contacts is their run |
| `InMemoryRegistrar.Store.ProcessRegister` | crates/sbc-core/src/register.rs:768-873 | The handler's tables are the run of the request's steps, within all caps; it refuses exactly the requests `RegistrarGrants.RefusedWhen` names and lists at most ten bindings |
| `DigestRuns.ReplaySafe` | crates/sbc-core/src/auth.rs:507-584 | Over every run with nonces never reissued: accepted counts on a nonce are at least 1 and never fall, equal counts carry the same present fingerprint, a request without qop is only ever a nonce's first use, and every use falls within the lifetime of an issued nonce |
| `DigestRuns.AcceptedExactlyWhen` | crates/sbc-core/src/auth.rs:503-584 | Over every such run, a request is accepted if and only if its user is stored and its response is the digest of the stored secret and this request, its nonce was issued at most 300 s ago and is remembered, and, with qop, its count is at least 1 and above every accepted count of the nonce, or equal to it with the same present fingerprint, and without qop, the nonce was never used |
| `DigestVerdicts.VerdictIsJustified` | crates/sbc-core/src/auth.rs:507-584 | Only a stored user whose response is the digest, written out, of the stored secret and this request is accepted, on a live nonce; on a live nonce every other response is BadCredentials or, without such a user, UnknownUser, and changes nothing; the right response refused is Replay exactly when it presents a readable count with qop, else StaleNonce; an unknown nonce is stale; an expired one is dropped |
| `DigestVerdicts.WrongPasswordRefused` | crates/sbc-core/src/auth.rs:182-219 | With a digest without collisions, the printed answer of any password whose secret is not the stored one is refused, as BadCredentials on a live nonce |
| `DigestVerdicts.OneSecret` | crates/sbc-core/src/auth.rs:110-117 | With such a digest one secret's response proves no other |
| `DigestVerdicts.AnswerProves` | crates/sbc-core/src/auth.rs:182-219 | The client answers every challenge with the digest of its own user, realm and password, with qop exactly when the challenge offers auth |
| `DigestVerdicts.CountReads` | crates/sbc-core/src/auth.rs:561-569 | The eight hexadecimal digits of any 32-bit count are read back as that count |
| `DigestVerdicts.MintDisplaces` | crates/sbc-core/src/auth.rs:456-483 | Exactly which nonces a new challenge displaces: none below 100000, then those over 300 s, then those over 150 s, then all |
| `DigestPrinted.ChallengeIsPrinted` | crates/sbc-core/src/auth.rs:485-490 | The challenge on the wire, character by character |
| `DigestPrinted.CredentialsArePrinted` | crates/sbc-core/src/auth.rs:182-219 | The credentials on the wire, character by character; the qop values only together |
| `DigestRuns.GoneStaysGone` | crates/sbc-core/src/auth.rs:596-602 | A nonce that expired or was evicted, and is not issued again, is never accepted again, whatever follows |
| `DigestRuns.TableBounded` | crates/sbc-core/src/auth.rs:456-483 | The nonce table never exceeds its cap, whatever nonces are drawn |
| `DigestAuth.HalvesAgree` | crates/sbc-core/src/auth.rs:507-584 | For every plain realm, user and URI and every password: the printed challenge, parsed by the client, answered with the stored password and verified at most 300 s after the issue of a nonce not used yet is accepted as that user |
| `DigestAuth.FreshChallengeIsAccepted` | crates/sbc-core/src/auth.rs:456-491 | The same for a challenge minted in any state, including one that had to evict others |
| `DigestText.ReadChallenge` | crates/sbc-core/src/auth.rs:136-173 | The part loop reads the last value of every key, or refuses |
| `DigestText.ReadCredentials` | crates/sbc-core/src/auth.rs:242-282 | The part loop reads the last value of every key, or refuses |
| `DigestText.ChallengeReads` | crates/sbc-core/src/auth.rs:485-490 | The printed challenge carries realm, nonce and qop to the reader |
| `DigestText.CredentialsRead` | crates/sbc-core/src/auth.rs:182-219 | Printed credentials are read back unchanged, with or without qop and opaque |
| `DigestText.ChallengeSurvivesIff` | crates/sbc-core/src/auth.rs:136-173 | Exactly the challenges with plain, non-empty realm and nonce survive printing and comma/equals splitting |
| `DigestText.CredentialsSurviveIff` | crates/sbc-core/src/auth.rs:242-282 | Exactly the credentials with plain values and the four mandatory ones non-empty survive |
| `DigestAuthenticator.Authenticator.GenerateChallengeWith` | crates/sbc-core/src/auth.rs:456-491 | The nonce is in the table, unused, and the table within its cap; extends the run of the object |
| `DigestAuthenticator.Authenticator.VerifyWith` | crates/sbc-core/src/auth.rs:507-584 | Every verdict is justified (as `DigestVerdicts.VerdictIsJustified` says), what does not parse is malformed and changes nothing, and what is accepted uses a nonce issued at most 300 s ago and is no replay of anything the object ever accepted |
| `DigestAuthenticator.Authenticator.VerifyParsed` | crates/sbc-core/src/auth.rs:515-584 | Digest first, then nonce, then the replay rule, as the run theorems assume |
| `DigestAuthenticator.Authenticator.SetUsers` | crates/sbc-core/src/auth.rs:421-434 | A reload of the users leaves every nonce and its use as it is |
| `DigestAuthenticator.Authenticator.Cleanup` | crates/sbc-core/src/auth.rs:596-602 | Exactly the nonces past their lifetime go, and their number is returned |
| `CdrQueue.NothingLostOrReordered` | crates/sbc-core/src/cdr_writer.rs:115-166 | Under every interleaving, handed over ++ batch in hand ++ channel is exactly what was answered Queued, in order; a batch has 1 to 64 records; records are given up only once stopping; a stopped writer left nothing behind |
| `CdrQueue.FlushMeansDone` | crates/sbc-core/src/storage.rs:676-687 | A flush is answered only after every record queued before it was handed over, all of them committed unless stopping |
| `CdrQueue.NoFlushForgotten` | crates/sbc-core/src/cdr_writer.rs:124-148 | In every run each flush sent is in the channel, held with the current batch, or answered; an idle writer with an empty channel and a stopped one have answered all |
| `CdrQueue.BarrierIsWhatWasQueued` | crates/sbc-core/src/storage.rs:676-687 | The barrier of a flush is the number of records queued when it was sent, and never moves |
| `CdrQueue.QueueLenIsExact` | crates/sbc-core/src/storage.rs:645-673 | With no insert between send and count, the wrapping 64-bit counter is exactly what is in the channel, the batch, or handed over and not subtracted |
| `CdrPipeline.Pipeline.Insert` | crates/sbc-core/src/storage.rs:645-673 | Queued exactly when there is a sender and room, stored directly exactly when there is none; extends a run of `CdrQueue` |
| `CdrPipeline.Pipeline.SendFlushRequest` | crates/sbc-core/src/storage.rs:676-687 | With a sender and room the flush enters the channel behind everything queued so far; else nothing changes |
| `CdrPipeline.Pipeline.Close` | crates/sbc-core/src/storage.rs:689-711 | Stopping is set, a last flush stands behind everything queued if there is room, and the sender is gone; nothing queued is lost |
| `CdrPipeline.Pipeline.Drain` | crates/sbc-core/src/cdr_writer.rs:124-148 | Once stopping, the writer's turns empty the channel: everything ever queued has been handed over in order and every flush answered |
| `CdrPipeline.Pipeline.CollectBatch` | crates/sbc-core/src/cdr_writer.rs:125-147 | The batch is the first record and the records of a prefix of the channel, at most 64, short only when the channel is empty |
| `CdrPipeline.Pipeline.WriteBatch` | crates/sbc-core/src/cdr_writer.rs:169-225 | Done exactly at the first success or, when stopping, at the first attempt; the whole batch shares one fate; waits of 1, 2, 4, ... 30 s; else the batch is still in hand |
| `CdrPipeline.Pipeline.RecordTurn` | crates/sbc-core/src/cdr_writer.rs:127-142 | A turn hands over exactly the records of a prefix of the channel and then answers its flushes |
| `CdrPipeline.Pipeline.AckAll` | crates/sbc-core/src/cdr_writer.rs:139-142 | Every flush met is answered, after the write |
| `CdrPipeline.Pipeline.RunTurn` | crates/sbc-core/src/cdr_writer.rs:124-148 | One turn of the writer: a leading flush is answered at once, a leading record starts a batch |
| `CdrPaging.RangeIsPrefix` | crates/sbc-storage/src/cdr.rs:63-69 | When the upper bound exists, the range test is exactly "starts with the prefix", for every text |
| `CdrPaging.PrefixFilterExactIff` | crates/sbc-storage/src/cdr.rs:155-163 | The range of a prefix is exact if and only if the bound exists or the prefix consists of top characters |
| `CdrPaging.ListingIsOrdered` | crates/sbc-storage/src/cdr.rs:186-190 | The listing holds the rows, each once, strictly descending by (started_at, rowid) |
| `CdrPaging.ListedWhen` | crates/sbc-storage/src/cdr.rs:131-184 | Field by field, exactly which rows of the table a query with this filter and cursor reads |
| `CdrPaging.QueryIsPrefix` | crates/sbc-storage/src/cdr.rs:185-197 | A page is the first max(limit, 1) selected rows after the offset, and has_more says truthfully whether more exist |
| `CdrPaging.NextSelection` | crates/sbc-storage/src/cdr.rs:176-184 | The rows below the cursor of any row are exactly the listing after that row |
| `CdrPaging.PagingIsExact` | crates/sbc-storage/src/cdr.rs:131-198 | For every filter, offset, cap and sequence of page sizes: following the cursor ends and concatenates to the filtered table of the first page (from the offset, up to the cap) in order, without gap or duplicate, whatever happens above the cursor between pages |
| `CdrPaging.CursorClientReadsAll` | crates/sbc-management/src/routes/calls.rs:325-348 | A client that follows `next_cursor` with any limits reads everything from its first offset on |
| `CdrPaging.CsvExportIsExact` | crates/sbc-management/src/routes/calls.rs:375-398 | The CSV export sends the filtered table, or its first `cap` rows |
| `CdrPaging.InsertAboveIsInvisible` | crates/sbc-storage/src/cdr.rs:176-184 | Rows inserted above the cursor do not change the remaining selection |
| `CdrPaging.PurgeBatch` | crates/sbc-storage/src/cdr.rs:201-212 | At most `batch` rows go, all older than the cutoff, and fewer only when none is left |
| `CdrPaging.PurgeOnce` | crates/sbc-core/src/cdr_writer.rs:453-471 | Exactly the rows older than the retention go, and their number is returned |
| `DosLimiter.StepTokens` | crates/sbc-core/src/dos.rs:212-279 | For an address the cap spares, each allowed request takes exactly one token from the ideal bucket, and nothing else takes any: refills, blacklisting and a late sweep cannot be observed |
| `DosLimiter.AllowedBound` | crates/sbc-core/src/dos.rs:96-125 | From any sane table, over any chronological run, an address gets at most its tokens plus rate x time |
| `DosLimiter.IntervalBound` | crates/sbc-core/src/dos.rs:313-335 | In any interval of length T of any run, at most burst + rate x T allowed answers, when rate x cleanup time reaches the burst |
| `DosLimiter.EarlySweepBreaksBound` | crates/sbc-core/src/dos.rs:328-335 | Whenever it does not, two bursts around a sweep beat the bound |
| `DosLimiter.RoomIffFewBlacklisted` | crates/sbc-core/src/dos.rs:340-358 | Making room succeeds if and only if fewer than the cap are blacklisted |
| `DosLimiter.TableBoundedIff` | crates/sbc-core/src/dos.rs:212-279 | Over every run the table stays within its cap if and only if no check meets a table full of blacklisted addresses and no manual blacklisting a full one |
| `DosLimiter.CapTakes` | crates/sbc-core/src/dos.rs:340-358 | Exactly whom the cap takes: nobody below 100000 and never a blacklisted address; else who was not seen for a quarter of the idle time, then for 10 s, then everybody |
| `DosBlacklist.EveryAnswer` | crates/sbc-core/src/dos.rs:212-279 | Over every run each answer is read off what was said before: Blacklisted exactly before the deadline, else Allowed exactly with a whole token, else one refusal more than before, or the first after a deadline |
| `DosBlacklist.BlacklistedUntil` | crates/sbc-core/src/dos.rs:238-247 | After a manual blacklisting, or the refusal that reached `max_violations`, and until something else is decided about the address, every check before the deadline is answered Blacklisted and costs no token |
| `DosBlacklist.FirstAfterDeadline` | crates/sbc-core/src/dos.rs:105-116 | The first check at or after it is Allowed if and only if a whole token is there, and else counts from 1 again |
| `DosBlacklist.BlacklistedHasCause` | crates/sbc-core/src/dos.rs:238-276 | Nobody is answered Blacklisted without a manual call or a refusal that reached `max_violations`, not over and not overruled |
| `DosBlacklist.StrikeFollowsStrike` | crates/sbc-core/src/dos.rs:250-276 | The n-th refusal follows the (n-1)-st with nothing that forgets in between, so only `max_violations` refusals since the last forgetting blacklist |
| `DosProtector.Protector.CheckIp` | crates/sbc-core/src/dos.rs:212-279 | The answer is read off what was said before: Blacklisted exactly before the deadline, else Allowed exactly with a whole token, else one refusal more; the address stays within burst + rate x T over every stretch of the run that ends here, the table within its cap exactly under the condition, and one counter counts the answer |
| `DosProtector.Protector.JudgeIp` | crates/sbc-core/src/dos.rs:212-279 | Refill, blacklist, consume, violations in the program's order, and the three counters |
| `DosProtector.Protector.MakeRoom` | crates/sbc-core/src/dos.rs:340-358 | The three eviction stages; there is room afterwards exactly when fewer than the cap are blacklisted |
| `DosProtector.Protector.CleanupExpired` | crates/sbc-core/src/dos.rs:313-322 | Exactly the idle, not blacklisted entries go |
| `DosProtector.Protector.BlacklistIp` | crates/sbc-core/src/dos.rs:287-297 | The address is blacklisted for that long, and nothing else of it changes; nobody else is touched and no room is made |
| `DosProtector.Protector.UnblacklistIp` | crates/sbc-core/src/dos.rs:300-308 | The address is not blacklisted any more and its refusals are forgotten; its tokens and everybody else stay |
| `RateLimiter.ExactAdmission` | crates/sbc-management/src/rate_limit.rs:58-80 | With a clock that never goes back and a client the cap never takes, a request is accepted if and only if fewer than `limit` of its accepted requests in its full history are less than `window` old, or the limit is 0 |
| `RateLimiter.NoWindowOverflows` | crates/sbc-management/src/rate_limit.rs:58-80 | Any `limit + 1` accepted requests in a row span at least a window |
| `RateLimiter.PreparedTracks` | crates/sbc-management/src/rate_limit.rs:84-101 | Making room is unobservable for every client the cap does not take |
| `RateLimiter.TableBounded` | crates/sbc-management/src/rate_limit.rs:63-65 | With one check at a time, the table never exceeds 4096 clients |
| `RateLimiterSections.StepWithinCapIff` | crates/sbc-management/src/rate_limit.rs:63-80 | At the grain of single map operations, the only one that can exceed the cap is an insertion, and it does exactly when its client is unknown and the table full |
| `RateLimiterSections.CapHoldsWhenAlone` | crates/sbc-management/src/rate_limit.rs:58-101 | Through every interleaving the cap holds, provided a check of an unknown client begins only when nothing is in flight and nothing begins while it is |
| `RateLimiterSections.AloneIsAtomic` | crates/sbc-management/src/rate_limit.rs:58-101 | A check that runs alone is the atomic check of the other theorems |
| `RateLimiterSections.TwoNewcomersOverfill` | crates/sbc-management/src/rate_limit.rs:63-66 | One below the cap, two unknown clients whose size tests come before either insertion end one above it, whatever the table |
| `RateLimiterSections.CrowdOverfills` | crates/sbc-management/src/rate_limit.rs:63-66 | For instance 4095 clients and two more |
| `RateLimiterSections.SameVictimGrows` | crates/sbc-management/src/rate_limit.rs:93-100 | Two checks that chose the same client remove one and insert two: the table grows by one, at any size |
| `RateLimiterSections.BothChooseTheSame` | crates/sbc-management/src/rate_limit.rs:84-100 | Two unknown clients on a full table of active clients can both choose the least recently seen |
| `RateLimiter.Limiter.FindOldest` | crates/sbc-management/src/rate_limit.rs:93-100 | A least recently seen client |
| `RateLimiter.Limiter.EvictForOne` | crates/sbc-management/src/rate_limit.rs:84-101 | Idle clients go; if that frees nothing, a least recently seen one, by the last hit of each |
| `RateLimiter.Limiter.Hit` | crates/sbc-management/src/rate_limit.rs:58-80 | Unless the cap ever took the client, accepted exactly when fewer than `limit` of all requests of it this limiter ever accepted are less than `window` old, or the limit is 0; exactly an accepted request joins its history |
| `RateLimiter.Limiter.CheckTable` | crates/sbc-management/src/rate_limit.rs:58-80 | Limit 0, room, pruning and the count in the program's order |
| `RateLimiter.PopExpired` | crates/sbc-management/src/rate_limit.rs:67-73 | The loop pops exactly the leading hits outside the window |
| `Topology.RoundTripIff` | crates/sbc-core/src/topology.rs:114-175 | `parse(render(m)) = m` if and only if the start line is trimmed and on one line and every header line is non-empty, without line feed and not blank-leading, any body; and re-printing any parsed text changes nothing more |
| `Topology.ParsedIsWellFormed` | crates/sbc-core/src/topology.rs:114-161 | Whatever text comes in, the parsed message satisfies that condition |
| `TopologyHiding.ParseRaw` | crates/sbc-core/src/topology.rs:114-161 | The folding loop computes the parse of the round-trip theorem |
| `TopologyHiding.RawSipMessage.RemoveHeader` | crates/sbc-core/src/topology.rs:195-205 | Exactly the lines of that name, long or compact, go; the rest stay in order |
| `TopologyHiding.RawSipMessage.PrependHeader` | crates/sbc-core/src/topology.rs:208-210 | The line comes first |
| `TopologyHiding.RawSipMessage.AppendHeader` | crates/sbc-core/src/topology.rs:213-215 | The line comes last |
| `TopologyHiding.RawSipMessage.DecrementMaxForwards` | crates/sbc-core/src/topology.rs:234-253 | The loop computes the edit of `TopologyHiding.DecrementLowers` and refuses exactly with it |
| `TopologyHiding.DecrementLowers` | crates/sbc-core/src/topology.rs:234-253 | The first readable Max-Forwards falls by one; 0 is refused and left alone; without one it becomes 70 |
| `TopologyHiding.NoCompactContact` | crates/sbc-core/src/topology.rs:390-391 | Dropping "m" after "contact" finds nothing left: the compact form is already gone |
| `TopologyHiding.OutboundHeaders` | crates/sbc-core/src/topology.rs:371-403 | The header block after hiding is Record-Route, Via, the lines that are not replaced in order, Contact |
| `TopologyHiding.OutboundHides` | crates/sbc-core/src/topology.rs:371-403 | For every received request text, the produced text parses to: same start line and body; exactly one Via, Contact and Record-Route, each the SBC's; no Route; every other line but Max-Forwards unchanged in order; Max-Forwards one lower (0 stays, none becomes 70) |
| `TopologyHiding.OutboundResponse` | crates/sbc-core/src/topology.rs:371-403 | A response parses to the same message as before |
| `TopologyWire.OwnLinesAre` | crates/sbc-core/src/topology.rs:22-83 | The Via, Contact and Record-Route of the SBC, character by character, for TLS and without, on the standard port and off it |
| `TopologyWire.NothingLeaks` | crates/sbc-core/src/topology.rs:371-403 | No line the sender wrote under Via, Contact, Record-Route or Route, long or compact, in any case, goes out: each such line of the produced text is the SBC's own |
| `TopologyWire.HiddenBranchReads` | crates/sbc-core/src/topology.rs:371-403 | The branch the call manager reads off the produced text is the fresh one |
| `TopologyWire.FoldedReads` | crates/sbc-core/src/topology.rs:114-161 | A message with folded headers is read as the one with each of them on one line |
| `TopologyWire.LineFeedsRead` | crates/sbc-core/src/topology.rs:114-161 | A message whose lines end in line feeds alone is read like one with full line ends |
| `TopologyHiding.ApplyOutbound` | crates/sbc-core/src/topology.rs:371-403 | The edits in the program's order produce that text |
| `TrunkTasks.Backoff.constructor` | crates/sbc-core/src/trunk_tasks.rs:163-166 | No refusal yet; the cap is at least the minimum |
| `TrunkTasks.Backoff.NextWait` | crates/sbc-core/src/trunk_tasks.rs:168-172 | The k-th wait is min(min x 2^k, max) |
| `TrunkTasks.Backoff.Reset` | crates/sbc-core/src/trunk_tasks.rs:174-176 | Counting starts again at 0 |
| `TrunkTasks.SendRegister` | crates/sbc-core/src/trunk_tasks.rs:856-950 | At most two requests with consecutive numbers and the given Expires, the second exactly after a readable challenge, and the outcome the answers amount to |
| `TrunkTasks.TakeTurn` | crates/sbc-core/src/trunk_tasks.rs:650-664 | At most four requests; a 423 that asks for more is obeyed once, and the interval asked for never falls |
| `TrunkTasks.ExchangeMeans` | crates/sbc-core/src/trunk_tasks.rs:856-950 | A 200 is kept for the Expires of its own answer, else the one asked for; a 423 that names a minimum asks for more; which answers are malformed; every other status is a refusal with that status |
| `TrunkTasks.TurnMeans` | crates/sbc-core/src/trunk_tasks.rs:650-664 | A minimum above what was asked is asked for at once, and only once, and from then on |
| `TrunkTasks.RefusalWaits` | crates/sbc-core/src/trunk_tasks.rs:163-176 | A refusal after k others since the last grant waits min(min x 2^k, max) |
| `TrunkTasks.SendFarewell` | crates/sbc-core/src/trunk_tasks.rs:723-775 | At most two requests, all with Expires 0 and the next numbers; at shutdown one, with credentials exactly when a challenge is remembered |
| `TrunkTasks.RegisterLoop` | crates/sbc-core/src/trunk_tasks.rs:628-779 | For every sequence of answers and stops: one Call-ID with CSeq 1, 2, 3, ...; Expires starts with the trunk's interval, at least 1, and never falls before the final 0; at most four requests per cycle; Registered and Unregistered events strictly alternate and after each cycle tell the state; the k-th refusal since success waits min(min x 2^k, max), an exchange without a readable answer a fixed time; a farewell exactly when a registration stands |
| `TrunkTasks.RefreshInTimeIff` | crates/sbc-core/src/trunk_tasks.rs:682-683 | A grant is refreshed after eight tenths of its time, clamped between `refresh_min` and the larger of the interval and the floor; so before it expires if and only if it exceeds `refresh_min` (30 s by default) |
| `TrunkTasks.HealthLoop` | crates/sbc-core/src/trunk_tasks.rs:507-624 | Up and down are published exactly at the changes between consecutive probes; the gauge is exported once the trunk has answered and shows its last probe |
| `TrunkTasks.EdgesAlternate` | crates/sbc-core/src/trunk_tasks.rs:578-619 | Up and down strictly alternate, and the last one tells the last probe |
| `TrunkTasks.NoDownBeforeAnswer` | crates/sbc-core/src/trunk_tasks.rs:591-611 | Nothing is reported down before a first answer |

## Left out

- Sockets, tokio tasks, lock acquisition, DashMap internals, logging and metrics text: a locked section is one atomic step with the time as an argument, so a second clock reading inside the same section is taken to agree with the first.
- `rate_limit.rs` under concurrent calls: module `RateLimiterSections` covers the size of the table; the admission theorems of `RateLimiter` take one request at a time.
- The two clock readings and the two tables inside one registrar operation: module `RegistrarSections` interleaves its lock sections for the order of removals only; the other registrar theorems take one contact as one step.
- MD5 itself: it is a function parameter, of which `DigestAuth.HalvesAgree` and the theorems about printed answers ask that its digests are non-empty and hold no comma or quote, and `DigestVerdicts.WrongPasswordRefused` that it has no collisions. Random nonces, branches, tags and delays are arguments.
- Unicode case folding: header names are lower-cased on ASCII letters only.
- `canonical_aor`, Contact header parsing and GRUU handling: a REGISTER arrives as its AOR and parsed contacts.
- Media, WebRTC, codecs, routing, trunk selection and security bans: not part of this model.
- CDR mirroring to JSONL, the one-time import, the in-memory cache and SQLite's duplicate handling: a commit either stores the whole batch or nothing.
- `ack_for_answered_callee` and `bye_toward_callee` of `b2bua.rs`: they number their request from the leg counter without recording it, so no order is claimed for them.
- `apply_topology_hiding_inbound`, `set_header` and the header strippers of `topology.rs`: they use the same edits and would only add easy members.
- Starting and stopping the loops (`sync`, `shutdown`) of `trunk_tasks.rs`, and the text of its REGISTER and OPTIONS messages.
- B2buaCall.CallRecord.DueSessionRefresh: one call at a time; the tick over the table of calls applies it to each.
- InDialogRequests.DialogRequestBranch: asks that transport and address hold no `=`.
- CalleeLegRuns.CseqDiscipline: asks for one attached leg, INVITE numbers that never fall and no number that wrapped; what a second attached leg does to the order is the subject of `CalleeLegReattach`.
- CdrPipeline.Pipeline.WriteBatch: stopping is constant during one call; stopping set between two retries is covered by the steps of `CdrQueue`.
- CdrPipeline.Pipeline.SendFlushRequest: on a full channel it reports that the flush is not sent yet; when the waiting ends is a matter of the interleavings of `CdrQueue`.
- CdrPipeline.Pipeline.Close: the time limit of the shutdown; the model lets the writer finish (`CdrPipeline.Pipeline.Drain`).
- CdrPaging.PagingIsExact: rows deleted or inserted below the cursor between pages are excluded by its hypothesis; row ids, times and limits are unbounded integers.
- DosLimiter.IntervalBound: arithmetic over real numbers instead of `f64`, a fixed configuration, and an address the cap never evicts.
- RateLimiter.ExactAdmission: a client that the 4096-client cap evicted starts a new history, so it is excluded.
- DigestRuns.ReplaySafe: excludes a nonce used 2^32 times, where the program's use counter wraps.
- TopologyHiding.OutboundHides: asks that the SBC's own address, domain, transport and branch hold no line feed.
- TrunkTasks.RegisterLoop: CSeq is unbounded, waits are whole seconds and the longest possible (a recovering trunk may wake the loop earlier), and the order `refresh_min` <= `refresh_floor` is required, which the program's clamp demands.
- TrunkTasks.SendFarewell: the overall time limit may cut the second request off; it is then not sent.
