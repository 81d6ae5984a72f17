# Verified model of the hslock firmware

hslock is dual-core door-lock firmware for the RP2040. Core 1 reads the keypad and opens the latch;
core 0 owns storage, network time and the serial console. This project models the parts of that firmware
in which correctness spans several functions, several steps or two cores, and proves properties of the
model with Dafny. `dafny verify dfyconfig.toml` checks all of it.

## What is modelled

**The door-verify mailbox** (`Mailbox`, `MailboxSafety`, `MailboxTrace`, `MailboxWrap`, `MailboxLive`,
`Door`, `Lock`). Every volatile access of `process_input` and `core0_handle_door_verify` is one atomic step
of a transition system. Each core's stores wait in a buffer of its own and may become visible in any order between two
`__dmb()` calls (in order for one location). A schedule is any sequence of key presses, steps and buffer
drains, so a statement about every reachable state covers every interleaving, every delay of core 0, a
time-out at any poll, and payloads torn between two attempts. Sequence numbers are 32-bit words that
wrap; each carries the number of its attempt as bookkeeping that no step compares. The safety proof is an
inductive invariant over both program counters, both buffers and memory (`MailboxSafety.Inv`). `MailboxLive`
adds the other direction: what is typed is asked, and an undisturbed attempt ends as it should. `Door` has
the same two ends as imperative code, and puts mailbox, key store and TOTP together; `Lock` adds the
debouncer, so that its statements start at the scans of the key matrix.

**One-time passwords** (`Totp`), **calendar** (`Clock`), **network time** (`Ntp`). HMAC is a function
parameter with 20-byte results. The calendar conversions are the two loops of the source, proved against
plain day counting. The NTP state is proved against a specification in unbounded integers, and its budget
over whole runs of replies.

**Codecs** (`Base64`, `Base32`), proved against the definitions of RFC 4648.

**Key store, backup and transfer** (`Records`, `Storage`, `Backup`, `Revocation`, `Transfer`). A file system
directory is a map from names to bytes. What the file system does is a parameter: whether the directory
opens, which files a listing returns before it ends or fails, which files can be read, and how far each
write, commit, overwrite and removal gets. A store is *well formed* when every file holds one record of an
id in range under that id's name; completed saves, deletions and imports keep it so. The CRC is a fold of an
arbitrary byte step. `Transfer` follows the keys of one device through export, base64 text, the paste loop
and import into another.

**Console, session, login, keypad** (`Console`, `Session`, `SessionTrace`, `SessionTable`, `Login`,
`Keypad`). Session and debouncer are small state machines with properties of whole runs; `SessionTable` says
what each word of the console starts; `Login` ties the session to the key store.

Where the source changes state in place, so does the model (classes and arrays), with contracts that
equate the new state with a function of the old one; the properties are then proved of these functions.

## Where the code differs from what its documentation says

- `network/ntp.c:118-122` says that no rejected datagram touches `ntp_state`; the pre-epoch arm sets it to
  failed (`network/ntp.c:168-172`). A refused reply moves the state if and only if it is dated before 1970 and
  the poll has not failed yet (`Ntp.RefusalMovesPollIff`); a reply with a zero timestamp is one
  (`Ntp.ZeroTimestampFails`).
- `network/ntp.h:16-21` reads as an absolute bound of 300 s on backward drift. Elapsed time is cut to whole
  seconds at each sync, and the fraction is charged to nobody. The 300 s hold if and only if there are at most
  50 syncs after the first (`Ntp.BudgetHoldsIff`); `Ntp.LagExactly` gives the exact bound for every number of
  syncs, and `Ntp.BudgetLeaks` a run more than 300 s behind with nothing charged.
- `network/ntp.h:11-13` says that a 5 s correction never moves the OTP window. It moves the password step if
  and only if it goes back further than the current step has run, and then by one
  (`Ntp.StepMovesAtMostOne`); every correction from 1 to 5 s does so in some run (`Ntp.StepCanMove`).
- The transmit timestamp's seconds wrap on 2036-02-07; from then on every reply with the true time is
  refused as one from before 1970 (`Ntp.EraRefused`). This is also why no accepted reply is ever measured
  against a saturated projection, whatever the build time (`Ntp.AcceptedUnsaturated`).
- `shared/door_verify.h:22` (never reused) and `core1.c:71` (never 0) hold for fewer than 2^32 attempts.
  `MailboxWrap.SafeUntilWrap` shows the bound to be exact, by a run in which attempt 2^32 opens the latch on
  the verdict meant for attempt 1.
- `storage/backup.c:172-195` refuses a backup without an enabled admin so that an import never leaves the
  device without one. With duplicate ids the last record wins, and a plain key can replace the only admin
  (`Backup.DuplicateLosesAdmin`); `Backup.AdminIffSurvives` gives the exact condition.
- The import deletes by the id inside a record (`storage/backup.c:197-200`), the listing opens by file name
  (`storage/storage.c:402-403`). They agree on well-formed stores. A file that an earlier deletion overwrote
  with zeros but failed to remove has lost its id, and no import removes it (`Backup.OverwrittenFileStays`).
- An import reports success without looking at what its listing and its deletions achieved
  (`storage/backup.c:196-201`), nor at how `storage_key_save` closes its files (`storage/storage.c:335-337`). What
  a successful import leaves are exactly its own keys if and only if the last write of every id was committed
  or left just the record it was to write, and every other file is written anew, or was seen by the listing and
  then removed (`Backup.ImportReplacesIff`; `Backup.ImportStoresIff` for the writes alone, over any store).
  `Backup.RemovalIgnored` is a store whose one key outlives such an import because its removal fails,
  `Backup.UnsyncedReported` a device on which commits fail and leave no file, and a successful import leaves
  nothing. `Revocation.OldKeyOpensIff` says which old keys still open the door.
- An export reports success and leaves out every key whose file its listing does not see
  (`Backup.ExportedKeys`).
- `serial/commands_system.c:149` says that access is never granted if storage cannot be trusted. A key
  directory that does not open, or files that it does not return or that cannot be read, count as keys that are
  not there (`storage/storage.c:393-404`), and Wi-Fi settings that cannot be read as a device without Wi-Fi
  (`storage/storage.c:236-247`). On a device that is set up, a login succeeds without a presented admin key if
  and only if the Wi-Fi settings cannot be read or no admin key's file is seen (`Login.SetUpPermitsIff`).
  `Login.FailuresOpen` gives three such devices, one with a directory read to its end.
- `network/ntp.h:23-27` allows steps of up to a day ahead. After a true reply and one ahead of the true time,
  the true time is refused until the device restarts if and only if the step is more than 5 s, or 6 s for a
  device not started on a whole second (`Ntp.ForwardStepLocksOut`, `Ntp.LockedOutForGood`); `Ntp.LockedOutIff`
  gives the exact condition for every state.
- `libs/base64/base64.h:10-11` bounds the decoded length before padding, and `serial/commands_backup.c:136`
  compares that bound with the size of the largest blob. The export of a full store (128 keys) fits but is
  refused: an export can be imported again if and only if it has at most 127 keys
  (`Transfer.WrappedDelivers`).
- `docs/COMMANDS.md:53-54` says to paste the exported data back. The export is printed as one line, while
  the paste loop drops what a line has beyond 255 characters (`serial/commands_backup.c:81`,
  `serial/commands_backup.c:111-113`): pasted as printed, it is importable if and only if it has at most three
  keys (`Transfer.PrintedDelivers`). Broken into shorter lines it arrives whole.
- A delete on an empty console line is appended to it (`serial/console.c:94-102`); a completed line holds a
  delete if and only if it began with one (`Console.DeleteInLineIff`).
- `help` and `status` look at `admin_mode` without the expiry check. In an expired session an acceptable
  command runs if and only if the table does not mark it as admin-only (`SessionTrace.ExpiredStartsIff`);
  `SessionTrace.StatusAfterExpiry` is a run from boot in which `status` does.
- `serial/commands.c:18-21` takes a deadline of 0 for none. A grant exactly five minutes before the 64-bit
  timer wraps arms 0 (`SessionTrace.AdminIffLive`).

## Model

| member | source | states |
|---|---|---|
| MailboxSafety.InvStep | core1.c:70-101 | Every atomic step of either core, of a key press or of a store buffer keeps the invariant: payloads are never behind the sequence number that vouches for them, core 0 answers in attempt order, and its locals and the response belong to the current attempt whenever their numbers say so. |
| MailboxSafety.InvHolds | main.c:55-87 | The invariant holds after every schedule. |
| MailboxSafety.VerdictIsOwn | core1.c:78-94 | In every reachable state, a response that core 1 acted on, fewer than 2^32 attempts after the request it answers, answers this very attempt: core 0 decided exactly its id and code, after they were published, with this verdict. Stale and torn payloads are excluded. |
| MailboxSafety.BarriersDrain | core1.c:75-83 | In every reachable state behind a `__dmb()` of either core, that core has no store on its way. |
| MailboxTrace.OrderHolds | core1.c:70-76 | Requests, publications, decisions and outcomes each happen at most once for an attempt and in attempt order, in every schedule. |
| MailboxTrace.EachEndsOnce | core1.c:70-101 | In every reachable state between attempts, every attempt so far was asked exactly once, published exactly once, and ended exactly once: in an opening, a refusal or a time-out. |
| MailboxTrace.TimesOutLate | core1.c:95-99 | In every schedule, an attempt times out only if some poll found its deadline passed. |
| MailboxTrace.ResponseConsumedOnce | shared/door_verify.h:22-26 | No response is consumed by two attempts, with fewer than 2^32 attempts between an answer and its use. |
| MailboxTrace.TypedReads | core1.c:51-59 | Splitting 7 to 9 digits into id and code and reading each with `atoi` gives the id below 1000 and the code below 10^6 whose digits were typed: value = id * 10^6 + code. |
| MailboxTrace.KeysHold | core1.c:114-153 | In every schedule the input buffer is the first nine digits typed since the last `*` or `#`, and every request carries the id and code that those digits read as. |
| MailboxTrace.LatchOpensRightly | core1.c:44-101 | With fewer than 2^32 attempts between an answer and its use, the latch opens for an attempt only if, in this order, digits reading as its id and code were typed, exactly this id and code were published (once), and core 0 granted exactly them. |
| MailboxWrap.PromptVerdict | core1.c:79-94 | One uninterrupted handler run of core 0 during a poll makes the next poll return that run's verdict on this attempt, even when the deadline has passed. |
| MailboxWrap.WrappedAttemptOpens | core1.c:70-71 | A concrete schedule in which attempt 2^32 matches the idle word 0 and opens on the verdict that was meant for attempt 1. |
| MailboxWrap.SafeUntilWrap | shared/door_verify.h:22-26 | Opening always means that core 0 granted that very attempt if and only if at most 2^32 - 1 attempts are made. |
| MailboxWrap.OpenedNeedsGrant | core1.c:78-88 | However often the numbers wrap, the latch opens only after core 0 has granted something. |
| MailboxLive.AsksIff | core1.c:44-76 | From every reachable state between attempts, `#` starts an attempt if and only if at least 7 digits were typed since the last clear; it then asks, under the next number, for the id and the code below 10^6 whose value id * 10^6 + code is that of the first nine digits. Otherwise nothing is asked and the input is cleared. |
| MailboxLive.AttemptAnswered | core1.c:44-101 | From every reachable state between attempts with core 0 watching, if both cores go on undisturbed, `#` after at least 7 digits has exactly these events: the id and code spelled are asked, published, and decided by the judge, and the latch opens if and only if the judge grants them, even past the deadline; except when the new number repeats the last one handled. |
| MailboxLive.NumberIsNew | core1.c:70-71 | The new number does not repeat the last one handled while fewer than 2^32 attempts separate the two. |
| Door.VerifyCore.HandleDoorVerify | main.c:55-87 | The handler as code: answers a new sequence number with the door rule's verdict on the id and code in the mailbox and remembers it; otherwise changes nothing. |
| Door.HandlerRefines | main.c:55-87 | The handler's atomic steps, run without interruption from any state with empty buffers, change mailbox and memory of the last number exactly as that code does, and leave core 1 alone. |
| Door.KeypadCore.Press | core1.c:108-157 | One key in core 1: the buffer stays the first nine digits since the last clear, and exactly on `#` after at least 7 digits a request goes out, under the next 32-bit number, whose id and code have the value id * 10^6 + code of the first nine of those digits. |
| Door.RightCodeOpens | main.c:55-87 | The right code opens the door, and no other: after at least 7 digits and `#`, from every reachable state between attempts with core 0 watching, both cores undisturbed, the latch opens if and only if the id and code spelled name an intact, enabled, readable key in a mounted store and its HOTP value for a step of the window; otherwise the attempt is refused. |
| Door.DoorOpensRightly | main.c:68-80 | End to end, for fewer than 2^32 attempts between an answer and its use: the latch opens only if the first nine digits typed since the last clear number 7 to 9 and have the value id * 10^6 + code, the key was then present, intact and enabled in a mounted store, and the code is the HOTP value (section 5.3 of RFC 4226) for the clock's step or a neighbouring one. |
| Totp.PackStepIsBigEndian | shared/totp.c:15-24 | The eight message bytes are the step as a big-endian number, for every 64-bit step. |
| Totp.TotpIsHotp | shared/totp.c:14-40 | The masks and shifts compute HOTP as section 5.3 of RFC 4226 defines it: the low 31 bits of the four bytes at the dynamic offset, modulo 10^6. |
| Totp.TotpVerify | shared/totp.c:42-58 | Accepts exactly the passwords of the steps tried; nothing while the clock is unset. |
| Totp.AcceptsIff | shared/totp.c:42-58 | At time t a code is accepted if and only if it is the HOTP value of a step n with t / 30 - 1 <= n <= t / 30 + 1, or, in the first 30 s of the epoch, of step 2^64 - 1. |
| Totp.WindowSteps | shared/totp.c:49-52 | Steps last 30 s, and the three steps tried are t / 30 and its plain neighbours, except that the step before step 0 is 2^64 - 1. |
| Totp.CodeAcceptedWithinOneStep | shared/totp.c:49-55 | A code that a token shows is accepted whenever token and lock are at most one step apart. |
| Clock.ZellerCountsDays | hardware/clock.c:70-76 | The closed-form weekday agrees with counting days from Thursday 1970-01-01, for every valid date. |
| Clock.FieldOrder | hardware/clock.c:35-88 | Comparing valid dates field by field from year to second is comparing their Unix seconds (so a time has one date). |
| Clock.Rtc.SetFromUnixTime | hardware/clock.c:35-88 | For every 32-bit time: the loops end, the month table is indexed in range, and the fields are a valid Gregorian date of exactly that time with weekday (t / 86400 + 4) mod 7. |
| Clock.Rtc.GetUnixTime | hardware/clock.c:3-33 | Reads a valid date back as its Unix seconds modulo 2^32; nothing if the clock is unset. |
| Clock.Rtc.RoundTrip | hardware/clock.c:3-88 | Setting the clock and reading it back returns the time that was set, for every 32-bit time. |
| Ntp.Discipline.RollbackCheck | network/ntp.c:53-96 | In saturating and wrapping 32-bit arithmetic, decides exactly: at most 5 s back, at most a day ahead, within what is left of the budget; charges exactly the step back. |
| Ntp.Discipline.ApplyTime | network/ntp.c:102-110 | Sets the clock to that time and the sync state to time and monotonic reading. |
| Ntp.Discipline.ReceiveReply | network/ntp.c:116-191 | Accepts exactly genuine replies in the sane band that the check allows, and then sets clock, state and budget: the date set, counted by the calendar from 1900, is the transmit timestamp. Every refused datagram leaves clock, sync state and budget unchanged, and the poll state too unless it is dated before 1970, which fails it. |
| Ntp.NtpEpoch | network/ntp.c:23-23 | The constant between the epochs is the number of seconds in the Gregorian years 1900 to 1969, and the timestamp is the big-endian number in bytes 40 to 43. |
| Ntp.AcceptedIff | network/ntp.c:116-191 | The whole acceptance chain in numbers: length and source, nonce, leap, mode and stratum fields of the header of section 7.3 of RFC 5905, a time from 1970 on, from the build to twenty years of 365 days after it, and once synced at most 5 s behind, 86400 s ahead and 300 s behind in all. |
| Ntp.CheckIsIdealIff | network/ntp.c:57-95 | The check agrees with unbounded integers on all times if and only if last sync plus elapsed seconds fits 32 bits. |
| Ntp.StateStaysSane | network/ntp.c:176-189 | After every run of replies a synced time lies in the sane band and the budget used is at most 300. |
| Ntp.AcceptedUnsaturated | network/ntp.c:60-63 | No accepted reply was measured against a saturated projection. |
| Ntp.EraRefused | network/ntp.c:163-172 | A genuine reply with the true time reads as pre-epoch exactly from the wrap of its seconds on, and then changes no sync state. |
| Ntp.Conservation | network/ntp.c:53-110 | Over every run: time of the last sync + budget used = time of the first sync + sum of whole elapsed seconds + sum of forward corrections. |
| Ntp.SecondsTruncated | network/ntp.c:57-58 | Over every run on a monotonic clock, the counted seconds fall short of the elapsed microseconds by less than one second for each sync. |
| Ntp.ClockLowerBound | network/ntp.c:53-110 | However many syncs: the clock is behind by at most 5 s for each of the first 60 later syncs, plus one second for each later sync less one for each started million of them; stated for the monotonic time without, and with, what passes between check and application. |
| Ntp.ChargedAtMostFive | network/ntp.c:82-93 | Over every run the budget used is at most 300 and at most 5 for each later sync. |
| Ntp.LagExactly | network/ntp.c:53-110 | That bound is exact: for every number of syncs that fits before the band or the timestamp ends, all runs with so many syncs stay within a given bound if and only if it is at least this one. |
| Ntp.BudgetHoldsIff | network/ntp.h:16-21 | The 300 s bound how far the clock can fall behind if and only if at most 50 syncs follow the first. |
| Ntp.BudgetLeaks | network/ntp.h:16-21 | A run of accepted replies that falls more than 300 s behind without using any budget. |
| Ntp.StepMovesAtMostOne | network/ntp.h:11-14 | An allowed step back lowers the 30 s password step by at most one, and does so if and only if it is larger than the seconds that the current step has run. |
| Ntp.StepCanMove | network/ntp.h:11-14 | For every correction of 1 to 5 s, a run of two accepted replies from boot in which it lowers the password step. |
| Ntp.ZeroTimestampFails | network/ntp.c:166-172 | A genuine reply with zero in its timestamp leaves the sync state and makes a waiting poll fail. |
| Ntp.LockedOutIff | network/ntp.c:57-95 | For a device started at any microsecond: the true time is refused at every moment after a sync if and only if the clock is further ahead of it than the correction limit and the budget let it go back (by one second more when the true time was inside a second at the sync), or more than a day behind. |
| Ntp.LockedOutForGood | network/ntp.c:116-191 | Once locked out, no run of replies with the true time, whatever its phase, changes the sync state. |
| Ntp.ForwardStepLocksOut | network/ntp.h:23-27 | For every start and every step of up to a day: a true reply and one that far ahead are both accepted from boot, without charge, and then the truth is locked out if and only if the step is more than 5 s, or 6 s when the device was not started on a whole second. |
| Base64.TableIsAlphabet | libs/base64/base64.c:3-3 | The encoder's table is the alphabet of section 4 of RFC 4648. |
| Base64.Sextets | libs/base64/base64.c:9-12 | The shifts and masks on three bytes are the four 6-bit groups of their 24-bit string. |
| Base64.Base64Encode | libs/base64/base64.c:5-29 | Writes the RFC 4648 encoding of the input, a NUL, and nothing after it. |
| Base64.DecodeOne | libs/base64/base64.c:53-118 | One quad: rejected, or its bytes appended within the capacity; nothing before the output end or past the capacity changes. |
| Base64.QuadDecodes | libs/base64/base64.c:58-100 | A quad that is accepted is the canonical encoding of the bytes it yields, padded only at the end of the input. |
| Base64.GroupDecodes | libs/base64/base64.c:53-118 | The encoding of one to three bytes is accepted and yields these bytes. |
| Base64.DecodesIffEncoded | libs/base64/base64.c:47-121 | A string decodes to x if and only if it is the encoding of x (canonical, section 3.5 of RFC 4648). |
| Base64.Base64Decode | libs/base64/base64.c:47-121 | Succeeds if and only if the input encodes some x with at most `out_cap` bytes, and then yields exactly x; never writes past the capacity. |
| Base64.EncodeInjective | libs/base64/base64.c:5-29 | Different inputs have different encodings. |
| Base64.RoundTrip | libs/base64/base64.c:5-121 | Decoding what was encoded gives it back, given that much room. |
| Base32.ReadGroup | libs/base32/base32.c:13-15 | Five bits taken from the wrapping 32-bit buffer are those of the whole input read as one number. |
| Base32.Base32Encode | libs/base32/base32.c:5-24 | Writes ceil(8n/5) symbols, the 5-bit groups of the input bit string filled up with zero bits (section 6 of RFC 4648, without padding), a NUL, and nothing after it. |
| Base32.EncodeInjective | libs/base32/base32.c:5-24 | Different inputs of one length have different encodings. |
| Records.KeyChecksumCoversBody | storage/storage.c:53-62 | Chaining the CRC field by field is the CRC over the whole packed record. |
| Records.BodyRoundTrip | storage/storage.c:43-51 | The packed little-endian layout loses no field. |
| Records.BodyLayout | storage/storage.c:43-51 | Byte for byte: id in bytes 0 and 1 with the low byte first, name in 2 to 17, secret in 18 to 37, the enabled and the admin flag in 38 and 39, the creation time in 40 to 43 with the low byte first. |
| Records.StoredRoundTrip | storage/storage.c:66-85 | A record read back from what was stored has a valid checksum and the same fields, its name cut to 15 bytes and a NUL (id, secret, flags and time unchanged). |
| Records.ChangedByteDetected | storage/storage.c:53-85 | A stored record reads as valid if and only if its last four bytes are the CRC, from all ones, of the 44 before them. For a CRC step that is injective in the byte and in the register, one changed byte anywhere in a valid record makes it invalid. |
| Decimals.StrtoulIs | serial/commands_system.c:131-132 | `strtoul` reads digits behind blanks and a sign up to the first other character, none of them as 0; a value from 2^32 on saturates, and a minus sign negates modulo 2^32. |
| Storage.NameRoundTrip | storage/storage.c:190-192 | Parsing the file name made from an id gives the id, for every 16-bit id. |
| Storage.SaveKeepsWellFormed | storage/storage.c:318-342 | Saving a key with an id in range keeps a store well formed. |
| Storage.LookupAfterSave | storage/storage.c:289-342 | After a save the saved id finds that key, valid, with its id, secret, flags and time as saved and its name cut to 15 bytes and a NUL; every other id finds what it found before. |
| Storage.Store.KeyGet | storage/storage.c:289-316 | Finds a record only in a mounted store and in a file that is there, can be read and is long enough to hold one. |
| Storage.Store.KeySave | storage/storage.c:318-342 | Refuses ids above 127 and unmounted stores without a change; otherwise at most this key's file changes: to the whole record, not at all without a file handle, or to whatever a failed write or a failed commit leaves of it. Reports success for the whole record and for a failed commit. |
| Storage.Store.KeyDelete | storage/storage.c:344-383 | Changes exactly this key's file, if it is there: removed, or, if the removal fails, zeros as far as the overwriting got and the old bytes after that; the overwriting may fail at any piece without stopping the removal. |
| Storage.WrittenWellFormedIff | storage/storage.c:318-342 | An attempted save keeps a well-formed store well formed if and only if it is done or never starts, or leaves no file or one with a record of that id. |
| Storage.DeletedWellFormedIff | storage/storage.c:344-383 | An attempted deletion keeps a well-formed store well formed if and only if there is no such file or it is removed, or nothing was overwritten, or the id is 0. |
| Storage.Store.KeyList | storage/storage.c:385-409 | Fails if the store is unmounted or the directory does not open; otherwise yields, in order and at most 128, the records of the entries returned that can be read, skipping the others. |
| Storage.SeenEntries | storage/storage.c:398-404 | What a listing sees are exactly the files that an open directory returns and that can be read, each once. |
| Storage.FileIsLookup | storage/storage.c:402-403 | In a well-formed store, opening by the number parsed from a file name reads that file, and its record has that id. |
| Storage.FewFiles | storage/storage.c:385-409 | A listing of a well-formed store sees at most 128 files. |
| Storage.ListingComplete | storage/storage.c:385-409 | The 128-entry listing of a well-formed store has one record for each file seen. |
| Backup.NamesTerminated | storage/backup.c:148-161 | Holds exactly if every name contains a NUL. |
| Backup.IdsInRange | storage/backup.c:163-169 | Holds exactly if every id is at most 127. |
| Backup.AnyAdmin | storage/backup.c:179-191 | Holds exactly if some record has both flag bytes nonzero. |
| Backup.Validate | storage/backup.c:101-195 | The checks in their order accept exactly the valid blobs: header, count 1 to 128, length, checksum, names, ids, an enabled admin. |
| Backup.BlobLayout | storage/backup.h:13-31 | A backup byte for byte: 0x48 0x53 0x4C 0x4C, version 1, the number of keys, and the CRC of the rest, each in four bytes with the low byte first; then the 44-byte records. |
| Backup.ValidBlobIff | storage/backup.c:101-195 | The checks byte for byte: a blob is valid if and only if it has 16 bytes, starts with that magic and version, holds the 1 to 128 records it announces, its checksum is that of the records, every record has a NUL in its name and an id of at most 127, and in some record both flag bytes are nonzero. |
| Backup.DeleteExisting | storage/backup.c:197-204 | Attempts, in order, to delete under the id of each listed record, however each attempt goes. |
| Backup.DeletedNames | storage/backup.c:197-204 | In any store, with any removals failing, the loop removes exactly the files named after the ids inside listed records whose removal succeeds. |
| Backup.ClearedExactly | storage/backup.c:197-204 | In a well-formed store, with any removals failing, these are the files that the listing sees and whose removal succeeds. |
| Backup.ClearedWellFormed | storage/backup.c:197-204 | A well-formed store is emptied if every file is seen and every removal succeeds. |
| Backup.OverwrittenFileStays | storage/backup.c:197-204 | A file that an earlier deletion overwrote but failed to remove, unless of id 0, survives the delete loop of every import, whatever is listed and removed. |
| Backup.WriteAll | storage/backup.c:206-216 | Saves the records in order up to the first whose save reports failure, whatever becomes of each; succeeds exactly if every save reports success. |
| Backup.AllWritten | storage/backup.c:206-216 | The write loop succeeds if and only if every save reports success; if every one is done, every record has been saved in order. |
| Backup.TriedIs | storage/backup.c:206-214 | The loop tries all records if it succeeds, and otherwise all up to and including the first whose save reports failure. |
| Backup.WriteKeysTries | storage/backup.c:206-216 | The store it leaves is what the tried writes, one after the other, leave. |
| Backup.ImportStoresIff | storage/backup.c:206-216 | If every save reports success, over any store: all records have been saved if and only if the last write of every id was committed, or left just the record it was to write. |
| Backup.UnsyncedReported | storage/storage.c:335-341 | If every commit fails and leaves no file, all saves report success, and a store that was empty stays empty. |
| Backup.BackupImport | storage/backup.c:101-216 | A blob that fails a check, or an unmounted store, leaves the store unchanged. Otherwise store and result are those of the delete loop followed by the write loop, for every behaviour of the file system; the import succeeds exactly if every save reports success. If it does, and a well-formed store was seen and emptied in full, it holds exactly the blob's records if and only if the last write of every id stored its record. |
| Backup.LastWins | storage/backup.c:206-216 | After records are saved in order, every id finds the last record of that id, valid, with every field but the name as saved and the name cut to 15 bytes and a NUL; every other id finds what it found before. |
| Backup.ImportLookup | storage/backup.c:206-216 | After an import, successful or not, over any store and for every outcome of every write: an id finds the record in what the last try at its file left, which is the key, valid and field for field, if that was stored; ids whose file no write touched find what they found before. |
| Backup.ImportAdminIff | storage/backup.c:172-216 | After an import, successful or not, over any store and for every outcome of every write: a valid enabled admin key is left if and only if the last try at the file of some key left one, or the store had one in a file that no write touched. |
| Backup.ImportReplacesIff | storage/backup.c:197-216 | After a successful import, whatever is listed, removed and committed, a store that was well formed holds exactly the imported keys if and only if the last write of every id stored its record, and every earlier file is written anew, or was seen by the listing and then removed. |
| Backup.RemovalIgnored | storage/backup.c:199-201 | A store of one key, listed in full, whose removal fails: an import of other keys reports success, and the old key is found, valid and field for field. |
| Backup.ImportWellFormed | storage/backup.c:206-216 | The write loop over a well-formed store leaves one, even if it fails, as long as every write is done, never starts, or leaves no file. |
| Backup.ReachedWellFormed | storage/storage.c:318-383 | Every store reached from an empty directory by any saves, deletions and imports that leave nothing half done is well formed. |
| Backup.AdminIffSurvives | storage/backup.c:172-216 | Saving a blob over any store leaves a valid enabled admin key if and only if the blob has an enabled admin that no later record of its id replaces, or the store had one under an id that the blob does not name. |
| Backup.DistinctIdsKeepAdmin | storage/backup.c:172-195 | Saving a valid blob with pairwise distinct ids over any store leaves a valid enabled admin key. |
| Backup.DuplicateLosesAdmin | storage/backup.c:172-195 | A blob that passes every check and leaves no admin key. |
| Backup.BackupExport | storage/backup.c:59-95 | Fails without a write if the store is unmounted, its directory does not open, or the buffer is too small for the listing; otherwise writes the blob of the checksum-valid records listed, and nothing after it. |
| Revocation.SavedKeyOpensIff | storage/storage.c:318-342 | Once a key is saved in a mounted store and its file can be read, an id and a code open the door if and only if, for that id, the key is enabled and the code is one of its own secret, and for any other id they did before. |
| Revocation.DeletedOpensIff | storage/storage.c:344-383 | After an attempt to delete a key, whatever it reports, the key opens the door as before if and only if the file was neither removed nor overwritten at all. |
| Revocation.OldKeyOpensIff | storage/backup.c:197-216 | After an import over a well-formed store, successful or not, a key that the blob does not name opens the door if and only if it did before and the listing did not see its file and have it removed or overwritten. |
| Backup.ExportedKeys | storage/backup.c:74-80 | The export of a well-formed store contains exactly the checksum-valid records whose files the listing sees, each found under its own id, in range, with a terminated name. |
| Backup.ExportThenImport | storage/backup.c:59-216 | The import accepts the export of a well-formed store if and only if an enabled, valid admin key is among the files that the listing saw; what it writes is, for every id, the checksum-valid record that was seen, field for field, and nothing for the others. |
| Transfer.ExportKeys | serial/commands_backup.c:12-34 | For every mounted store whose directory opens the buffers suffice, and the text is the base64 encoding of the blob of the checksum-valid records listed. |
| Transfer.ReadPaste | serial/commands_backup.c:76-115 | The paste loop over its two buffers collects what the specification of single characters says, and stays inside both buffers for every input. |
| Transfer.ImportKeys | serial/commands_backup.c:117-161 | The store changes, or the import succeeds, only if the paste delivers a valid blob to a mounted store; then store and result are those of the import of that blob, for every behaviour of the file system. After a success, a well-formed store that was seen and emptied in full holds exactly its records if and only if the last write of every id stored its record. |
| Transfer.WrappedDelivers | serial/commands_backup.c:131-142 | An export pasted in lines of at most 255 characters, in any such division and with either line end, reaches the import unchanged if and only if it has fewer than 128 keys; the export of a full store is always refused. |
| Transfer.PrintedDelivers | serial/commands_backup.c:97-114 | An export pasted back on one line, as it is printed, reaches the import if and only if it has at most three keys, and then unchanged. |
| Transfer.TransferRestores | serial/commands_backup.c:12-161 | From any well-formed store whose listing sees an enabled admin and fewer than 128 valid keys: export, text, paste in lines that fit, and import leave, for every id, exactly the checksum-valid record that was seen, field for field. |
| SessionTable.FindIs | serial/commands.c:70-127 | Every word is looked up to the handler at its position in the handler list, with the number of arguments and the admin gate of that handler; any word that is none of the 23 is unknown. |
| SessionTable.StartsIff | serial/commands.c:135-184 | A line starts a handler if and only if its first word is in the table, the arguments are as many as that handler takes, storage is mounted or the word is `help`, `?` or `format-storage`, and the handler is ungated or admin mode is on and in time; the handler started is the one at the word's position in the handler list. |
| SessionTable.AdminAfter | serial/commands.c:135-184 | Admin mode after any line: a started login turns it on if permitted, a started logout or reboot, and a started format-storage that restarts the device, turn it off, a gated word outside its time turns it off, and nothing else changes it. |
| SessionTable.EndingWordEndsSession | serial/commands_system.c:225-239 | After every run, the word `logout` or `reboot`, or a `format-storage` that restarts, on a device with mounted storage leaves no session live, so that no gated handler starts before another login. |
| Session.AdminSession.AdminGrant | serial/commands.c:28-31 | Turns admin mode on with a deadline five minutes ahead, in 64-bit arithmetic. |
| Session.AdminSession.SessionExpired | serial/commands.c:36-43 | Ends the session exactly if it is on, armed and past its deadline. |
| Session.AdminSession.OnDisconnect | serial/commands.c:45-51 | Ends a session and its deadline when the host goes away. |
| Session.AdminSession.RunHandler | serial/commands_system.c:130-239 | What each handler does to the session: login may grant, logout clears the flag only, a restart clears everything, the others leave it. |
| Session.AdminSession.Dispatch | serial/commands.c:135-184 | The table loop and its gates, in their order, compute the specified next session and events. |
| SessionTrace.InvRun | serial/commands.c:135-184 | After every run from boot the session variables match the trace, and every event in it was rightly caused. |
| SessionTrace.AdminIffLive | serial/commands.c:16-31 | Admin mode is on exactly while some login is followed by no logout, disconnect, expiry or restart; the deadline is then five minutes after the last grant in 64-bit arithmetic, and 0 exactly if that is 2^64. |
| SessionTrace.GatedNeedsSession | serial/commands.c:152-178 | In every run, an admin-gated handler starts only in a session that a permitted login began, that nothing has revoked since, and whose last grant (login or refresh) is less than five minutes old. |
| SessionTrace.GatedStartsIff | serial/commands.c:152-174 | A gated command with the right number of arguments starts if and only if the run so far has such a session. |
| SessionTrace.UnexpiredMeans | serial/commands.c:36-43 | Passing the deadline check means less than five minutes since the grant, exactly so unless the 64-bit timer is about to wrap. |
| SessionTrace.GrantsExtend | serial/commands.c:174-179 | A permitted login, and every admin-gated command except logout and reboot, leaves a session with five minutes from the end of its handler. |
| SessionTrace.EndsSession | serial/commands_system.c:225-229 | In every run: after a logout that runs, a disconnect or a restart no session is live, so no admin-gated command starts before another login, although logout leaves its deadline behind. |
| SessionTrace.ExpiredStartsIff | serial/commands.c:146-174 | In an expired session, any command of the table with the right number of arguments starts if and only if it is not admin-only; an admin-only one ends the session instead. |
| SessionTrace.UngatedIgnoresExpiry | serial/commands.c:146-174 | Every command that is not admin-only, except login and format-storage, runs in every session and leaves it in place. |
| SessionTrace.StatusAfterExpiry | serial/commands_system.c:29-31 | A run from boot, for every permitted login and every time from five minutes after it: `status` starts with admin mode on in an expired session. |
| Login.CmdLogin | serial/commands_system.c:130-223 | Grants exactly by the login rule: storage mounted; then open while no Wi-Fi settings can be read, or the clock is unset and five minutes have passed, or the listing fails or shows no admin key; otherwise only for a valid code of a valid, enabled admin key that can be read. Changes the session only by granting. |
| Login.AdminListedIff | serial/commands_system.c:134-145 | In a well-formed store the scan finds an admin key if and only if the listing sees the file of one. |
| Login.PermitsIff | serial/commands_system.c:130-219 | For every device with a well-formed key store, fresh, unsynced or set up: a login succeeds if and only if storage is mounted and either no Wi-Fi settings are read; or the clock was not set and 300 s have passed since boot; or the clock was set and no admin key's file is seen; or the clock was set and the id and code are right for an admin key. |
| Login.SetUpPermitsIff | serial/commands_system.c:134-192 | On a device with Wi-Fi settings, clock and an admin key in a mounted, well-formed store, a login succeeds if and only if an admin key is presented, or the Wi-Fi settings cannot be read, or the directory does not open, or every admin key's file is not returned by it or cannot be read. |
| Login.FailuresOpen | serial/commands_system.c:134-192 | Three such devices on which any id and code log in: the directory does not open; it is read to its end but the admin key's file cannot be read; every key is seen but the Wi-Fi settings cannot be read. |
| Login.GatedNeedsAdminKey | serial/commands_system.c:158-219 | On a device that is set up, every admin-gated handler runs in a session granted less than five minutes before and opened with an accepted code of an enabled, valid admin key, unless at that login the Wi-Fi settings could not be read or no admin key's file was seen. |
| Keypad.Keypad.GetKey | hardware/keypad.c:53-82 | One scan changes variables and result as the debouncer's step function says. |
| Keypad.TracksAll | hardware/keypad.c:53-82 | After any scans the variables are the last reading, the debounced level, and 20 ms after the last change. |
| Keypad.EmitsIff | hardware/keypad.c:60-82 | A scan reports a key if and only if its reading has settled for 20 ms and differs from the debounced level before it. |
| Keypad.EmittedWasHeld | hardware/keypad.c:60-76 | A reported key was read by every scan since the last change, at least 20 ms ago. |
| Keypad.NoRepeat | hardware/keypad.c:72-80 | Between two reports of the same key there is a debounced release or a report of another key. |
| Keypad.KeyMoment | hardware/keypad.c:53-82 | The keys reported over a run come from single scans, one for each, in order. |
| Lock.RunInv | core1.c:114-157 | Scanning between attempts and feeding the debounced keys to core 1 stays inside the mailbox model, and the keys pressed there are exactly those that the debouncer reported. |
| Lock.RequestFromScans | core1.c:114-153 | Every request is what the scans up to its `#` say: debounced keys, each read for at least 20 ms, of which the first nine digits since the last clear are its id and code. |
| Lock.LockOpensRightly | core1.c:44-157 | End to end from the key matrix, for fewer than 2^32 attempts between an answer and its use: the latch opens only if the debounced scans spell the id and code of an intact, enabled key in a mounted store whose HOTP value, at the clock's step or a neighbouring one, is that code. |
| Lock.ScannedCodeOpens | core1.c:44-157 | From the key matrix to the latch: after any run of scans and steps, when a scan between attempts reports `#` behind at least 7 debounced digits and both cores go on undisturbed (core 0 watching, the new number not the last one handled), the latch opens if and only if the id and code that the first nine of these digits spell are right; otherwise the attempt is refused. |
| Console.ProcessLine | serial/console.c:24-45 | In place, yields exactly the first eight space-separated tokens as strings inside the line, and writes nothing at or past its end. |
| Console.Console.Receive | serial/console.c:82-102 | One byte edits the line as specified or completes it; the line stays within the 256-byte buffer. |
| Console.ShownIsTyped | serial/console.c:82-102 | Without deletes and line ends, the line is what shows of the bytes received (codes from 32 on, others ignored), up to 255 characters, and either line end completes exactly that, or nothing if it is empty. |
| Console.DeleteTakesBackIff | serial/console.c:94-102 | A character and a delete leave the line as it was if and only if it had fewer than 255 characters; on a full line they take away its last character. |
| Console.TokensOfSpaced | serial/console.c:29-39 | However words are spaced out, the tokens are the words. |
| Console.WordsArrive | serial/console.c:24-102 | Words typed with spaces in 255 characters or fewer and ended by either line end are dispatched as those words, the first eight of them. |
| Console.TruncationUnseen | serial/console.c:29-39 | The dispatcher does the same on the first eight tokens as on all of them, and refuses any line of more than three. |
| Console.DeleteInLineIff | serial/console.c:86-101 | Over every run of bytes, a completed line holds a delete if and only if it began with one, that is, the byte that came when the line was last empty was a delete. |

## Left out

- HMAC-SHA-1, the CRC step, `atoi` and `strtoul` as library code: the first two are parameters, the others are specified in `Decimals`. mbedtls and littlefs are not part of this model.
- littlefs and flash: files are a map, with the outcomes named above as parameters; entries of the key directory that are not regular files, and failed flash locks, are not modelled.
- Storage.Store.KeySave: a file that gets no handle is taken to be unchanged; what flash holds after a power loss is not modelled.
- Records.BodyRoundTrip: flags are read from flash as any nonzero byte; the source loads them as `bool`, which is defined for 0 and 1 only.
- Ntp.ClockLowerBound: holds for less than 2^32 s of uptime, because the elapsed seconds are cut to 32 bits.
- Ntp.LagExactly: for numbers of syncs, one every 7 s, that end before the sane band and the timestamp's wrap in 2036; `Ntp.BudgetHoldsIff` needs a build date at least six minutes before that.
- MailboxTrace.LatchOpensRightly: loads happen in program order and each access is whole, as on the Cortex-M0+; a compiler that reorders volatile accesses is not modelled.
- Door.VerifyCore.HandleDoorVerify: runs undisturbed; the interleaved form is the transition system.
- Login.CmdLogin: starts with id and code parsed, from one snapshot of storage and clock for each call; listing, the later read of the presented key and the read of the Wi-Fi settings may each fail on their own.
- Ntp.LockedOutIff: at moments for which the elapsed seconds, the true time and the projection fit 32 bits.
- Session.AdminSession.Dispatch: handlers other than login, logout, reboot and format-storage only take their place in the trace; the `test` command, which pulses the latch without a login, is one of them, and the latch theorems are about core 1.
- Keypad.Keypad.GetKey: the clock is an unbounded number of microseconds and is read once for each scan.
- `lwIP`, DNS, `ntp_sync`, Wi-Fi: the reply callback gets a datagram, a source match flag, the nonce and the clock readings.
- GPIO, matrix scan, buzzer, LED, latch pulse, watchdog: hardware effects; opening the latch is an event.
- Random numbers, key creation, QR codes, help text and all console output.
- CONFIRM prompts of import and format, the exports that an import prints before it starts, and the markers printed around an export.
- Wiping of secrets and volatile zeroing: no functional meaning here.
- Fairness and durations beyond the explicit deadlines: a time-out may happen at any poll.
