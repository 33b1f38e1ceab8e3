# Verified models of the Telegram server's protocols and ledgers

This project models the parts of the server and its tools whose correctness spans many calls: an
idempotent delivery protocol, the admin command journal with the Stars ledger and the account-freeze
machine on top of it, a resumable blob migration, signing-key rotation, keyset paging, search
patterns, and several smaller codecs and ledgers. `dafny verify dfyconfig.toml` checks all of it.

How the pieces fit together:

- `otp_protocol.dfy` is the webhook's `deliverOnce` as interleaved atomic sections over a heap of
  receipt objects; `otp_application.dfy` has the objects themselves, whose methods are proved to be
  those sections.
- `admin_journal.dfy` is the machine of admin commands, one store call per step, with retries, faults,
  lost answers and crashes anywhere. `admin_theorems.dfy` and `account_freeze.dfy` prove what every
  run keeps. `admin_service.dfy` has the service object, whose commands are proved to be runs of the
  machine that keep its invariants. `json_values.dfy` says what the journal's request comparison can tell apart.
- `range_reader.dfy`, `blob_migration.dfy` and `blob_migrator.dfy` are the migration: reader, listing,
  copy, verify, relabel, and the startup gate.
- `key_rotation.dfy`, `keyset.dfy`, `like_escape.dfy`, `python_literal.dfy`, `wallet.dfy`,
  `gift_fetch.dfy`, `permissions.dfy` and `message_selection.dfy` stand on their own. `common.dfy`
  holds what they share.

Where a promise turned out not to hold, the code is kept as it is, one member gives a concrete run or
input, and another states exactly when the promise does hold:

- The same OTP body is delivered twice when a retry is checked before the deadline and swept at it
  (`BodyDeliveredTwice`; exactly when: `RedeliveryExact`; excluded by: `BodyDeliveredAtMostOnce`).
- Overlapping freezes of one user move the start of a freeze in force (`OverlappingFreezesMoveSince`;
  exactly when: `SinceExact`).
- A request is taken for another one exactly if it holds an integer that shares its float64 with
  another: one from 2^53 on, unless it lies below 2^54 and is twice an odd number (`ConfusedExactly`,
  `NumberConfusedExactly`; two such requests: `SameJsonCollides`).
- PostgreSQL journals `{}` for a running command, so a replay of it is an empty result instead of a
  running one (`RunningReplay`, for every command in flight).
- A refused debit still applies a starting grant that was due (`RefusedDebitKeepsGrant`; exactly when:
  `RefusedDebitMovesBalance`).
- The batched freeze lookup does not see an invalid inactive row that fails the single lookup
  (`LookupsDiffer`; exactly when: `BothLookups`).
- A non-empty local file already stored under the digest of the empty object passes the migration's
  verification (`AcceptsFullFileAsEmpty`; exactly when: `MigrateObject`).
- The rating list restarts and repeats rows when the cursor's row is deleted (`DeletedCursorRepeats`;
  exactly when: `RatingWalkRepeats`).
- The full ten-minute retirement margin is one second too long, because RFC 3339 text drops the
  fraction (`FullMarginTooLong`; holds up to: `TokenKeyPublished`, `PublishedExactly`).
- The `-algorithm` flag is upper-cased, so no value of it selects EdDSA (`FlagNeverSelectsEdDSA`);
  the flag's help text offers it.
- The bytes-literal decoder drops the backslash of an unknown escape, keeps a joined line's newline and
  accepts a last backslash (`UnknownEscapeDropsBackslash`); it reads a text as Python does exactly if
  it meets none of the three (`ReadsAsPython`, `LiteralReadsAsPython`).

## Model

| member | source | states |
|---|---|---|
| OtpProtocol.SingleFlight | cmd/otpwebhook-example/main.go:316-366 | in every interleaving at most one delivery per delivery id is in flight |
| OtpProtocol.InFlightNeverEvicted | cmd/otpwebhook-example/main.go:324-329 | a receipt being delivered stays in the table, uncompleted, whatever clocks other calls read |
| OtpProtocol.ClosedExactlyOnce | cmd/otpwebhook-example/main.go:359-364 | a receipt's channel has been closed once if it completed and not at all before |
| OtpProtocol.RedeliveryOnlyAfterSweep | cmd/otpwebhook-example/main.go:324-355 | of two receipts of one id the earlier was completed, found expired and swept before the later began |
| OtpProtocol.WaiterGetsOwnersPair | cmd/otpwebhook-example/main.go:330-347 | a waiter returns exactly the pair its owner returned for the same id and body, even if the receipt was swept before it woke |
| OtpProtocol.AdmissionExact | cmd/otpwebhook-example/main.go:324-355 | by the receipt held for the id: none, or one completed with its deadline not after the clock, and the call delivers; otherwise it waits on that receipt for the same body and is refused for another |
| OtpProtocol.EvictionExact | cmd/otpwebhook-example/main.go:324-355 | an id keeps its receipt exactly if that is uncompleted or its deadline is after the clock; only the call's own receipt is added, with its body and deadline |
| OtpProtocol.WaiterNeverStranded | cmd/otpwebhook-example/main.go:335-346 | a waiter's receipt is closed, or its owner is still in flight and will close it |
| OtpProtocol.RedeliveryExact | cmd/otpwebhook-example/main.go:324-355 | a call for the newest receipt's id delivers again if and only if that receipt was swept, or is completed with its deadline not after the clock |
| OtpProtocol.BodyDeliveredAtMostOnce | cmd/otpwebhook-example/main.go:275-366 | with ordered clocks and requests that have not expired when they sweep, no body is delivered twice |
| OtpProtocol.BodyDeliveredTwice | cmd/otpwebhook-example/main.go:288-329 | a run in which every request passed its expiry check and a retry checked before the deadline delivers the same body a second time |
| OtpApplication.Application.SweepReceipts | cmd/otpwebhook-example/main.go:325-329 | the deleting loop keeps exactly the entries that are uncompleted or whose deadline is after the clock |
| OtpApplication.Application.Enter | cmd/otpwebhook-example/main.go:321-355 | the first critical section on the mutable table is the protocol's step and keeps its invariant; it owns exactly if the table had no entry or a completed one past its deadline, an owner is then the only call delivering that id, a waiter holds the entry of the same body |
| OtpApplication.Application.Complete | cmd/otpwebhook-example/main.go:359-365 | the owner's second critical section is the protocol's step; the channel was open and is closed once |
| OtpApplication.Application.Wake | cmd/otpwebhook-example/main.go:338-343 | a waiter whose channel is closed reads the pair from the object it holds, in the table or not, and it is the pair its owner returned |
| JsonValues.SameJsonExact | internal/admin/service.go:4445-4451 | between requests with integers up to 2^53 the comparison is equality |
| JsonValues.SameJsonCollides | internal/admin/service.go:4445-4451 | two different requests that pass as the same, and two integers above 2^53 that do not |
| JsonValues.NumberConfusedExactly | internal/admin/service.go:4445-4451 | an integer shares its float64 with another exactly from 2^53 on, except twice an odd number below 2^54 |
| JsonValues.Float64Nearest | internal/admin/service.go:4447-4447 | decoding a number takes it to the nearest multiple of the spacing, from the middle to the even one |
| JsonValues.ConfusedExactly | internal/admin/service.go:4445-4451 | a request passes as another one if and only if it holds such an integer |
| AdminTheorems.StepKeeps | internal/admin/service.go:4363-4443 | every step keeps the journal's invariant; rows only appear, keep their request, and never change once finished |
| AdminTheorems.BodyRunsAtMostOnce | internal/admin/service.go:4363-4443 | over every interleaving of calls, retries, lost finishes and crashes the bodies started carry distinct command ids |
| AdminTheorems.LaterCall | internal/admin/service.go:4398-4403 | a later call for a begun id runs nothing and changes no store; it conflicts exactly if action, dry-run flag or the request's decoded JSON differ, and otherwise replays the row |
| AdminTheorems.LaterCallSafe | internal/admin/service.go:4398-4451 | with integers up to 2^53 it is replayed exactly if action, flag and request are equal |
| AdminTheorems.ActionTells | internal/admin/service.go:4399-4399 | the action names tell grant, debit, freeze and every other command apart |
| AdminTheorems.ReplayRepeatsAnswer | internal/admin/service.go:4398-4473 | a retry of an answered command at any later time replays that answer, marked as executed, without transient details and without an error; this covers a freeze past its deadline |
| AdminTheorems.RunningReplay | internal/admin/service.go:4453-4473 | what a replay of a command still running reports, for an empty result column and for the stored {} |
| AdminTheorems.StarsConserved | internal/admin/service.go:1657-1729 | over every run a balance is the initial one, plus the starting grant if applied, plus grants minus debits over postings with distinct non-dry-run command ids; every completed Stars command has its posting, every failed one none |
| AdminTheorems.BalancesNeverNegative | internal/store/postgres/stars.go:104-131 | from balances that are not negative no run makes one negative |
| AdminTheorems.DryRunTouchesJournalOnly | internal/admin/service.go:1657-1729 | no step of a dry run changes a balance, a freeze row or a history |
| AdminTheorems.RefusedDebitMovesBalance | internal/app/stars/service.go:54-85 | once the starting grant call went through, a debit that fails leaves the balance moved exactly when a configured grant was still due; a failing grant call leaves it alone |
| AdminTheorems.RefusedDebitKeepsGrant | internal/app/stars/service.go:54-85 | on a fresh account a debit above the starting grant is refused and the grant stays |
| AdminService.Service.BeginCommand | internal/store/postgres/admin.go:24-49 | insert if absent, otherwise the row that is there, unchanged |
| AdminService.Service.FinishCommand | internal/store/postgres/admin.go:51-107 | writes status, result and error of that row and nothing else, or nothing when the call is lost |
| AdminService.Service.Admit | internal/admin/service.go:4363-4403 | the head of runCommand is the machine's start step; rejected exactly on bad metadata or arguments, a conflict exactly if action, flag or request differ from the row's |
| AdminService.Service.Conclude | internal/admin/service.go:4404-4443 | the tail of runCommand is the machine's finish step; id, action, flag, status, error, message and details of the answer, and what is journalled |
| AdminService.Service.RunLedgerCommand | internal/admin/service.go:1657-1729 | a whole grant, debit or other command is a run of the machine and keeps its invariants; a known id touches nothing and is replayed or refused; without faults a debit completes exactly if balance plus a grant still due suffice, else it ends as insufficient, and balances move by the amount exactly if it completes and is no dry run |
| AdminService.Service.RunFreezeCommand | internal/admin/service.go:1379-1456 | a whole freeze command is a run of the machine; a new one without faults completes exactly if its deadline is after the clock and the start it keeps and the table takes the row; the row then has the requested deadline and appeal and that start, an unfrozen one nothing, and sending is refused exactly for a freeze |
| AccountFreeze.WrittenRowsValidate | internal/admin/service.go:1347-1456 | after any history of commands every stored row passes the reader's validator, so no lookup fails |
| AccountFreeze.ValidFreezeExact | internal/admin/service.go:1347-1366 | the validator in the row's own fields |
| AccountFreeze.RowIsLastChange | internal/admin/service.go:1407-1440 | after every run a user has a row exactly if a change was executed, with the deadline and appeal URL the last one asked for, or empty |
| AccountFreeze.WrittenRow | internal/admin/service.go:1412-1427 | an executed freeze writes the requested deadline and appeal, from the start of the frozen row it read, else from the clock |
| AccountFreeze.SendRefusedExactly | internal/admin/service.go:1368-1377 | after every run sending is refused exactly when the user's last executed change was a freeze, whatever the time |
| AccountFreeze.CanSendExact | internal/admin/service.go:1261-1273 | over any rows sending is refused exactly on an active valid row and fails exactly on an invalid one |
| AccountFreeze.SinceIsRunStart | internal/admin/service.go:1379-1456 | with no overlapping bodies of one user, Since is the start of the current unbroken run of freezes |
| AccountFreeze.SinceExact | internal/admin/service.go:1379-1456 | one executed freeze stores the run's start if and only if the row it read still yields the same start |
| AccountFreeze.OverlappingFreezesMoveSince | internal/admin/service.go:1379-1456 | a run of two overlapping freezes after which Since is not the start of the run |
| AccountFreeze.StaleFreezeChangesNothing | internal/admin/service.go:1379-1456 | a new freeze past its deadline is journalled as failed and touches no row |
| FreezeLookup.UniqueFreezeUserIds | internal/admin/service.go:1315-1329 | the first occurrences of the non-zero ids, in order |
| FreezeLookup.GetInBatches | internal/admin/service.go:1284-1302 | the chunk loop makes one query for each thousand ids begun, of at most a thousand, and returns the frozen rows or fails exactly on an invalid one |
| FreezeLookup.AccountFreezesBatched | internal/admin/service.go:1278-1302 | the batches of a thousand return exactly the frozen rows requested, or fail exactly on an invalid frozen one |
| FreezeLookup.AccountFreezesOneByOne | internal/admin/service.go:1303-1313 | the fallback returns exactly the frozen rows requested, or fails exactly on an invalid one |
| FreezeLookup.BothLookups | internal/admin/service.go:1278-1329 | both return the same map for every id list when rows are valid, and exactly when they agree otherwise |
| FreezeLookup.LookupsDiffer | internal/admin/service.go:1278-1329 | an inactive row with a leftover start fails the single lookup and is not seen by the batch |
| RangeReader.Reader.Read | cmd/blobmigrate/main.go:200-225 | one read hands out the next bytes, fetching a chunk of at most 4 MiB only when the buffer is empty |
| RangeReader.ReadInTurn | cmd/blobmigrate/main.go:187-225 | any sequence of positive buffer sizes yields the object's bytes in order, then EOF |
| RangeReader.CopyAll | cmd/blobmigrate/main.go:187-225 | copying to the end yields the whole object, each byte fetched once |
| RangeReader.EqualBytes | cmd/blobmigrate/main.go:227-236 | true exactly on equal byte strings |
| BlobMigration.ListObjects | internal/store/postgres/blob_migration.go:22-83 | the first objects after the cursor in key order, at most the limit and fewer only at the end, or a refusal exactly if one of them has inconsistent metadata |
| BlobMigrator.Migrator.PutReader | internal/app/files/blobfs.go:91-139 | content-addressed storing keeps an entry that is there |
| BlobMigrator.Migrator.MigrateObject | cmd/blobmigrate/main.go:158-185 | accepted exactly if the object is whole at the source and an entry at the destination fits it; then its verified bytes are at the destination, except exactly for the empty object over a non-empty local file |
| BlobMigrator.Migrator.AcceptsFullFileAsEmpty | cmd/blobmigrate/main.go:158-185 | a non-empty local file under the digest of the empty object is accepted as that object |
| BlobMigrator.Migrator.MigrateOne | cmd/blobmigrate/main.go:97-113 | whatever the source holds, a stop before the copy or between copy and relabel leaves the label where it was, and the turn aborts exactly on an object that cannot be copied |
| BlobMigrator.Migrator.Run | cmd/blobmigrate/main.go:82-121 | whatever rows and stores it starts on and wherever it is interrupted, only labels differ, every moved label names verified bytes and no truthful label became untruthful; keys are visited once each in increasing order; left to run long enough it finishes exactly if all metadata is consistent and, in a real run, every object can be copied, and then no row is left on the source |
| BlobMigrator.Migrator.RunRepeatedly | cmd/blobmigrate/main.go:82-121 | the same over any sequence of stopped, aborted and finished runs; a state with truthful labels stays one, and over rows whose objects can be copied a last run that is left to run finishes, with no row left on the source |
| BlobMigrator.DryRunReportsSame | cmd/blobmigrate/main.go:88-121 | a finished dry run visits the same keys and reports the same totals as a finished real run |
| BlobMigrator.RequireConfiguredBackend | cmd/telesrv/blob_storage.go:22-41 | the mismatches are exactly the other backends that still have rows |
| BlobMigrator.GateAgreesWithMigration | cmd/telesrv/blob_storage.go:22-41 | startup accepts a backend exactly when no row is on the other one, so the gate opens for the destination exactly when the migration is finished |
| KeyRotation.RotateSigning | cmd/telegramloginkeygen/main.go:177-220 | succeeds exactly on a supported algorithm, a manifest of 1 to 31 keys, exactly one active key and a result that loads; drops what is past its deadline, retires the active key, appends the new one |
| KeyRotation.RotatedExactly | cmd/telegramloginkeygen/main.go:190-219 | the manifest entry by entry: the new key, and all old entries but retired ones whose deadline is not after now, the active key of the algorithm retired until now plus the publishing time, cut to the second |
| KeyRotation.LoadableExactly | internal/app/telegramlogin/keyfiles.go:44-95 | what the loader demands, said of the entries |
| KeyRotation.RotateReachable | cmd/telegramloginkeygen/main.go:113-120 | on manifests this tool produced, refused exactly for bad durations, unsupported algorithms, no manifest or 32 keys; otherwise the machine's step |
| KeyRotation.OneActiveKeyEach | cmd/telegramloginkeygen/main.go:128-220 | after every run from init on each algorithm has exactly one active key, at most 32 keys are listed and the manifest loads |
| KeyRotation.InitExact | cmd/telegramloginkeygen/main.go:128-175 | init lists one active key of each algorithm and the code key, and does nothing over existing files |
| KeyRotation.PublishedExactly | internal/app/telegramlogin/jose.go:254-276 | a retired key is published exactly until its deadline, an active one always |
| KeyRotation.TokenKeyPublished | cmd/telegramloginkeygen/main.go:113-120 | a token signed while its key was active, or within the margin less a second after retirement, has its key published as long as it is valid |
| KeyRotation.FullMarginTooLong | cmd/telegramloginkeygen/main.go:207-207 | a run in which a token signed at the full margin outlives its key |
| KeyRotation.FlagNeverSelectsEdDSA | cmd/telegramloginkeygen/main.go:71-71 | no value of the algorithm flag selects EdDSA |
| KeyRotation.FlagSelects | cmd/telegramloginkeygen/main.go:71-71 | which flag values select each other algorithm |
| KeyRotation.RotateCode | cmd/telegramloginkeygen/main.go:222-242 | refused exactly at sixteen keys or on an invalid manifest; otherwise adds the key, activates it and keeps every other key |
| KeyRotation.NewCodeExact | cmd/telegramloginkeygen/main.go:222-242 | over runs a code key is added and active exactly from one to fifteen keys |
| KeyRotation.CodeKeysKept | cmd/telegramloginkeygen/main.go:222-242 | over every run no code key is lost, the active one is listed and there are at most sixteen |
| Keyset.List | cmd/telesrv-admin/readstore.go:546-583 | the append-and-truncate loop over limit + 1 rows returns the page and whether more rows follow |
| Keyset.PageExact | cmd/telesrv-admin/readstore.go:76-111 | a page is ordered, after the cursor, and leaves out only later rows, and only when it is full and says so |
| Keyset.WalkOrdered | cmd/telesrv-admin/readstore.go:546-583 | however the table changes between requests, following cursors returns no row twice, in order, and only rows that were there |
| Keyset.WalkComplete | cmd/telesrv-admin/readstore.go:546-583 | a row present at every request is returned once the client is done |
| Keyset.WalkTerminates | cmd/telesrv-admin/readstore.go:546-583 | when new rows come first, the client is done after pages enough for the rows of the first request |
| Keyset.IdListWalk | cmd/telesrv-admin/readstore.go:546-583 | following before_id while rows are deleted and larger ids arrive returns ids strictly falling and every id present throughout, and ends within pages enough for the first request's rows |
| Keyset.IdsGrow | cmd/telesrv-admin/readstore.go:1530-1567 | lists by descending id meet that condition when new ids are larger |
| Keyset.CollectibleById | internal/admin/service.go:686-708 | the one row listed before id + 1 is the asset exactly if it exists, up to the largest id |
| Keyset.RatingListExact | cmd/telesrv-admin/readstore.go:1715-1785 | over a fixed table enough pages of any sizes give exactly the filtered rows by level and stars descending and user ascending |
| Keyset.RatingListOrder | cmd/telesrv-admin/readstore.go:1715-1785 | the walk in users and scores: listed exactly if level, user and search admit it, by level falling, then stars falling, then user rising |
| Keyset.RatingCursorLost | cmd/telesrv-admin/readstore.go:1738-1764 | the same for the second request, in terms of the two pages |
| Keyset.RatingWalkRepeats | cmd/telesrv-admin/readstore.go:1738-1764 | over a whole walk with rows only deleted between requests, some row is returned twice if and only if some request's cursor row is gone while a row returned before is still there |
| Keyset.DeletedCursorRepeats | cmd/telesrv-admin/readstore.go:1738-1764 | three users of one score, the second of a page of two deleted: the first comes again |
| LikeEscape.EscapeIsOnePass | cmd/telesrv-admin/readstore.go:262-266 | the three successive replacements are one per-character escape |
| LikeEscape.EscapedIsLiteral | cmd/telesrv-admin/readstore.go:259-266 | an escaped query followed by any pattern matches exactly the texts that start with the query and whose rest matches the pattern |
| LikeEscape.PrefixSearchExact | cmd/telesrv-admin/readstore.go:1538-1545 | a text matches the escaped query followed by % if and only if it starts with the query |
| LikeEscape.UnescapedFindsMore | cmd/telesrv-admin/readstore.go:259-261 | without the escape a search for a name with an underscore finds another name |
| LikeEscape.LoweringCommutes | cmd/telesrv-admin/readstore.go:1732-1732 | lowering before or after escaping gives the same pattern, for every case mapping that leaves the metacharacters alone |
| LikeEscape.AsciiFixesMeta | cmd/telesrv-admin/readstore.go:1732-1732 | ASCII lower-casing is such a mapping |
| LikeEscape.SearchesExact | cmd/telesrv-admin/readstore.go:2664-2675 | both ways of building the pattern find exactly the names that start with the lowered query |
| LikeEscape.TypedNameSearch | cmd/telesrv-admin/readstore.go:1538-1538 | a name typed with or without @ and space finds exactly the names that start with it |
| PythonLiteral.PythonBytesLiteralToHex | cmd/stickerseeddeploy/main.go:256-320 | the literal test, the quote check and the hexadecimal result, with the error cases |
| PythonLiteral.DecodeInner | cmd/stickerseeddeploy/main.go:266-318 | the index loop ends in bounds on every input and reads the escapes one after the other |
| PythonLiteral.HexValueExact | cmd/stickerseeddeploy/main.go:297-297 | which characters are hexadecimal digits, and their values |
| PythonLiteral.OctalExact | cmd/stickerseeddeploy/main.go:304-304 | which characters are octal digits |
| PythonLiteral.SpellingsRead | cmd/stickerseeddeploy/main.go:266-318 | any mix of plain bytes, named, hexadecimal and octal escapes of section 2.4.1 of the Python Language Reference reads as the bytes meant |
| PythonLiteral.ReadsAsPython | cmd/stickerseeddeploy/main.go:266-318 | what the decoder accepts it reads as Python does if and only if no token is an unknown escape, a joined line or a last backslash |
| PythonLiteral.RefusesAsPython | cmd/stickerseeddeploy/main.go:293-313 | what it refuses Python refuses too, unless there is an octal escape above 377, with which it always refuses |
| PythonLiteral.LiteralReadsAsPython | cmd/stickerseeddeploy/main.go:256-320 | a converted literal has the hexadecimal form of the bytes Python gives it exactly if its inner text does not depart |
| PythonLiteral.ReprRoundTrip | cmd/stickerseeddeploy/main.go:256-320 | decoding the Python repr of any byte string yields its hexadecimal form |
| PythonLiteral.HexRoundTrip | cmd/stickerseeddeploy/main.go:319-319 | the hexadecimal form determines the bytes |
| PythonLiteral.UnknownEscapeDropsBackslash | cmd/stickerseeddeploy/main.go:266-318 | the shortest texts that read differently: unknown escape, joined line, last backslash |
| SeedJson.NormalizeSeedJson | cmd/stickerseeddeploy/main.go:213-254 | the loops over keys and items compute the normal form, or fail if any bytes literal does |
| SeedJson.AcceptedExactly | cmd/stickerseeddeploy/main.go:213-254 | which trees are accepted, level by level, and that lists keep their items in order |
| SeedJson.FieldsKept | cmd/stickerseeddeploy/main.go:216-243 | file_reference_hex is found under file_reference, every other field under its name, each normalised, and a literal under bytes in hexadecimal |
| SeedJson.NormalizeGivesNormal | cmd/stickerseeddeploy/main.go:213-254 | an accepted tree becomes one without file_reference_hex and without literals under bytes |
| SeedJson.NormalizeIdempotent | cmd/stickerseeddeploy/main.go:213-254 | normalising again changes nothing, and exactly the normal trees are left alone |
| WalletLedger.WalletStore.Transfer | cmd/walletminiapp/main.go:429-455 | accepted exactly for a recipient, 1 to 500000 cents, a memo of at most 180 and a balance, 125000 when new, that suffices; the returned transaction has the next id, trimmed recipient and memo, amount and time, and heads the list |
| WalletLedger.WalletStore.TakeSnapshot | cmd/walletminiapp/main.go:422-427 | opens the account with 125000 if it is new and reports balance and recent transfers |
| WalletLedger.RunExplained | cmd/walletminiapp/main.go:394-466 | after every run balances are 125000 less the accepted transfers and not negative, ids count up over all users, and the kept lists are the newest eight |
| WalletLedger.RecentExact | cmd/walletminiapp/main.go:446-454 | a user's list is a prefix of length min(8, n) of all that user's transfers in strictly falling id order |
| GiftFetch.DownloadPartSize | cmd/giftfetch/main.go:946-963 | for sizes strictly between 0 and 512 KiB the least rung of 4 KiB * 2^k above the size, else 512 KiB; every answer divides 1 MiB |
| GiftFetch.DownloadPlan | cmd/giftfetch/main.go:910-944 | the single-chunk branch is taken exactly for sizes strictly between 0 and 512 KiB |
| GiftFetch.BoundedBuffer.Write | cmd/giftfetch/main.go:985-995 | keeps what fits, counts it, and fails exactly if not all fitted or the buffer was full |
| GiftFetch.WriteAll | cmd/giftfetch/main.go:980-995 | any sequence of writes keeps the longest prefix of the concatenated input within the maximum, and says which writes failed |
| GiftFetch.FailsExactly | cmd/giftfetch/main.go:985-995 | a nonempty write fails exactly if it was not wholly stored, an empty one exactly at a full buffer |
| GiftFetch.MissingThumbKeyInjective | cmd/giftfetch/main.go:1091-1093 | the key tells document, kind and type apart for every kind without a colon |
| GiftFetch.ParseAllowedMissingThumbs | cmd/giftfetch/main.go:1058-1089 | the entries are the flag cut at its commas; refused exactly on a mistaken entry, otherwise allows exactly the thumbnails the entries name |
| GiftFetch.EntryExact | cmd/giftfetch/main.go:1061-1084 | an entry names a thumbnail exactly if, trimmed, it is a positive 64-bit number, photo or video, and a plain type between colons; blank ones are skipped |
| GiftFetch.SafeExact | cmd/giftfetch/main.go:1045-1056 | the characters a type may have |
| GiftFetch.KeyIsAnEntry | cmd/giftfetch/main.go:1058-1093 | a thumbnail's key used as an entry of the flag names that thumbnail |
| Permissions.NewPanelPermissions | cmd/telesrv-admin/security.go:170-187 | the names configured, in the list once each in the order first configured, and the wildcard flag |
| Permissions.NewPermissionSet | internal/adminapi/rbac.go:90-104 | the names configured with the wildcard kept apart |
| Common.TrimSpaceExact | internal/adminapi/rbac.go:93-93 | trimming takes white space off both ends, all of it, and nothing else |
| Permissions.AnswersAgree | cmd/telesrv-admin/security.go:170-205 | panel set, API set and the panel set rebuilt from its own list all answer as the configured list means |
| Permissions.PrincipalFor | internal/adminapi/rbac.go:139-157 | the scan without early exit finds the first match over master and scoped tokens, with exactly that token's permissions |
| Permissions.BearerTokenOf | internal/adminapi/rbac.go:140-140 | a header carries the token after "Bearer " or alone |
| Permissions.AuthorizedAll | internal/adminapi/rbac.go:177-192 | the route runs exactly if a token matched and grants every permission; a refusal names the first missing one |
| MessageSelection.NormalizeIds | internal/admin/service.go:4584-4605 | accepts exactly nonempty lists of at most 1000 valid ids and lists them once each in increasing order |
| MessageSelection.NormalizeRetry | internal/admin/service.go:4584-4605 | two accepted lists journal the same ids exactly if they name the same messages |
| MessageSelection.ValidateSelection | internal/admin/service.go:4607-4625 | refused exactly on a message of another owner, of no user dialog or of another peer; otherwise found and missing ids in order |
| MessageSelection.SelectExact | internal/admin/service.go:4615-4624 | found and missing split the ids without loss, each in increasing order |

## Left out

- HTTP, cookies, JSON encoding and SQL text: request plumbing. A table is a finite set or map of rows, a query its keyset predicate, order and limit.
- Real time, timeouts and cancellation: clocks are parameters of the steps, and interruption is a step that may happen anywhere.
- SHA-256, HMAC, key generation and PEM: digests are uninterpreted, equal digests mean equal bytes, new key ids are fresh.
- Store calls that report an error are taken not to have changed the store, except a lost finish and a lost answer, which are modelled.
- The result of url.ParseRequestURI stands for the appeal URL; the ASCII part of Unicode white space and one byte per character stand for Go strings in trimming and length limits.
- Command metadata reaches the journal model trimmed, and the details a body reports are arbitrary.
- Request checks of the OTP webhook other than the expiry: version, recipient, code and channel are single tests without state.
- MintCollectibleUsername with a zero purchase date folds the clock into its payload; it is not among the commands whose retries replay.
- Message texts: error strings are shortened, and which of several mistakes a map walk reports first is not told apart.
- Audit rows and freeze notifications written beside a finished command or a freeze row.
- SeedJson.NormalizeSeedJson: builds new maps and lists where the original rewrites them in place, so aliasing between subtrees is not captured.
- Permissions.PrincipalFor: comparison of tokens is equality; that it takes constant time is not captured.
- KeyRotation.RotateSigning: private key files and their checks on loading are not part of the manifest here.
- JsonValues.ConfusedExactly: integers are unbounded, and other numbers than integers are not part of the trees.
- PythonLiteral.ReadsAsPython: which characters Python admits plainly between the quotes is not part of its reading here.
- KeyRotation.FlagSelects: upper-casing is the ASCII one; other letters that Go maps to ASCII capitals are not covered.
- Keyset.List: the columns of a row beyond its place in the order are not carried.
- LikeEscape.SearchesExact: lowering maps character by character, so case mappings that change the length of a text are not covered, and the numeric search term is not part of it.
- Bot verification decisions, session revocation and the simple set-field admin commands: each is one guarded store call inside the journal protocol already proved.
- commandMetaFromAPI and collectUpgradeAttributes: field copying around the modelled commands and downloads.
- ListAccounts and ListChannels, whose cursors go through a floating-point timestamp.
