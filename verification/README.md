# Kubek: verified models of the panel's core logic

Kubek is a panel for Minecraft servers. This project models the parts of it that hold real state, parsing or
protocol logic, and proves what they promise for every input and every run:

- **`.properties` documents** - parsing with continuation lines and escapes, editing in place, printing. Texts are
  sequences of UTF-16 code units. (`JsText`, `PropertyEntry`, `PropertyLines`, `PropertySyntax`,
  `PropertyEdits`, `KeyOrder`, `EditableProperties`, `PropertiesRoundTrip`, `PropertiesRecord`)
- **Access and accounts** - the lattice of levels, the verdicts on a request, account and role requests as atomic
  guarded steps on the store, role names. (`AccessLevels`, `AccountPolicy`, `RoleNames`, `PanelSteps`,
  `PanelStore`, `Confinement`, `RequestEffects`, `AccessChange`)
- **The attempt limiter** - fixed windows and growing locks with lazy forgetting. (`AttemptLimiter`, `WindowBound`,
  `BackoffLaw`, `LimiterLives`)
- **The server life cycle** - launches, exits, crash restarts, stops, restores and locks, interleaved at every
  await. (`ServerLocks`, `ServerLifecycle`, `ServerStatus`, `EarlyStarts`, `RequestedExits`, `CrashBudget`,
  `ServerInstances`, `PendingStops`)
- **Small concurrent and graph algorithms** - lookup slots, the worker pool, cascading removal, the head cache, the
  try order of a network. (`LookupSlots`, `RunPool`, `CascadeRemoval`, `HeadsMemory`, `TryOrder`)
- **Addresses** - the subnet test on binary text and the limiter key of an address. (`Numerals`, `Subnets`,
  `AddressText`, `IpKeys`)

Where the source changes fields or loops, the model is a class or a method proved against a specification function
(`View`, `State`, or a function of the fields). Dispatchers tie the objects to the runs the theorems are about:
`Panel.HandleAll` makes every sequence of requests a `RunState`, `ManagedServer.HandleAll` every sequence of events a
`Run`, `Network.HandleAll` every sequence of operations an `IsRun`; `ServeNonAdmins`, `ServeWithDiscipline` and `Serve`
state the theorems on the objects themselves. Promises and timers are events: code between two awaits is one step, a
timer is a step at its due time, and time, ids, environment values and what `isIPv4`/`isIPv6` say are parameters.

Beside the theorems about whole runs stand the plain meanings they rest on, told without the functions they are about:
how texts are read (`PropertySyntax`), what a stored account may do and what each request changes (`RequestEffects`),
how long failures are remembered (`LimiterLives`), what each event does to a server (`ServerStatus`).

## What turned out different from the obvious claim

- *Edit round trip.* Printing and reading back keeps the entries **exactly when** no untouched line with a dangling
  continuation backslash stands before another line and no respelled key starts with white space that trimming drops
  but the key escaper leaves (NBSP, vertical tab and the like). `RoundTripExactly` is that equivalence for every text
  and every run of edits, on entries with order and duplicates. The effective record survives whenever this holds
  (`PrintableRecordSurvives`), and `RecordRoundTripsExactly` is the equivalence for the record when no key has two
  entries. `DanglingSourceBreaks` and `LostHeadBreaks` show each half failing, `BreakingInputsExist` gives inputs at
  which the record is lost.
- *Printing an untouched document* gives the text back exactly when its terminators are all LF or all CR LF; lone CRs
  and mixed terminators are made alike.
- *Copy names.* The name a duplicate gets passes the uniqueness check unless the source role has the empty name and
  `(copy)` is taken: the candidate is trimmed only after it was probed.
- *Window bound.* Any interval of one window length admits at most `2 * limit - 1` attempts of a key, not just
  `2 * limit`, plus `limit` for every reset of the key **inside** the interval; resets before or after it cost nothing.
  For every limit, every window of at least 2 ms and every number of resets some run reaches that bound.
- *Restore exclusion* needs one thing of callers: no manual start while a launch is still in flight. Crash restarts
  need no such care. The condition is exact at the moment of the start: without any further start a violation can
  follow **if and only if** a launch is in flight and the server has a row (`StartBreaksExactly`), whether the lock is
  free or a backup holds it; after every disciplined run of a server with a row that is the discipline itself
  (`DisciplineIsExact`). Without a row no restore can begin (`NoRowNoRestore`).
- *Killed servers* can come back: the exit a kill or a stop leads to plans no restart (`RequestedExitIsNoCrash`), but
  the server launches again by itself **if and only if** that exit counts as a crash and a restart from an earlier
  crash is still waiting out its delay, with the row present and nothing disposed or shutting down
  (`KilledReturnsExactly`).
- *Crash relaunches between two resets.* With crash restarts on, a server comes back at most `attempts` (or 3) times
  after a manual start **if and only if** no crash restart was still waiting out its delay at that start
  (`LimitHoldsExactly`). In general the attempts left plus the restarts waiting bound the relaunches, and from every
  launch some run uses that budget up. A start that comes too early for the limit happens under every setting
  (`WaitingStartHappens`).
- *Changed access.* From a stored account, whose lists have no repeats, the list comparison behind the session
  decision reports no change exactly when nothing differs and the request's lists repeat nothing: a server listed
  twice is reported as a change although the stored set is the same. A repeat in the first list could hide a change.
- *Subnet lengths* of 0 or below take in the whole family, so `10.0.0.0/-1` matches every IPv4 address, and lengths
  above the width count as the width (`LengthsOutOfRange`, `MinusOneIsRead`).

## Model

| member | source | states |
|---|---|---|
| `PropertyEntry.UnescapeText` | backend/src/core/properties/properties-document.ts:147-167 | the index loop with its look-ahead for four hex digits computes the recursive meaning of the escapes, a lone final backslash dropped |
| `PropertyEntry.ParseEntryLine` | backend/src/core/properties/properties-document.ts:130-145 | the loop that steps over escaped characters, even past the end, splits a logical line at the first unescaped separator |
| `PropertyEntry.EndsWithContinuation` | backend/src/core/properties/properties-document.ts:124-128 | the count of trailing backslashes is odd exactly when the last backslash is not itself escaped |
| `PropertyEntry.EscapeCommonIsPerUnit` | backend/src/core/properties/properties-document.ts:169-176 | the five chained global replacements never touch each other's output: the result is one spelling per character |
| `PropertyEntry.EscapersPerUnit` | backend/src/core/properties/properties-document.ts:178-187 | key and value escapers spell character by character, behind at most one leading backslash |
| `PropertyEntry.UnescapeInverts` | backend/src/core/properties/properties-document.ts:147-187 | `unescape` inverts both escapers, for every key and value |
| `PropertyEntry.ParseUndoesSerialise` | backend/src/core/properties/properties-document.ts:109 | the entry parser reads a serialised line back to its key and value, for every pair |
| `PropertyEntry.SerialisedIsOneLine` | backend/src/core/properties/properties-document.ts:109 | a serialised line holds no line terminator and never ends in an odd run of backslashes |
| `PropertyEntry.TrimSerialised` | backend/src/core/properties/properties-document.ts:29-30 | a serialised line survives trimming and is no comment whenever its key does not start with white space the escaper leaves alone |
| `PropertyEntry.TrimLosesKey` | backend/src/core/properties/properties-document.ts:29-30 | otherwise trimming shortens the key that is read, or leaves a comment |
| `PropertySyntax.HexEscapeReads` | backend/src/core/properties/properties-document.ts:158-161 | a `u` escape with the four hex digits of any unit, in either case, reads as that unit, whatever follows |
| `PropertySyntax.ShortHexEscapeReads` | backend/src/core/properties/properties-document.ts:158-164 | with fewer than four hex digits behind it the `u` stands for itself |
| `PropertySyntax.LetterEscapeReads` | backend/src/core/properties/properties-document.ts:162-164 | escaped t, n, r and f are the control characters, every other escaped character is itself |
| `PropertySyntax.PlainReads` | backend/src/core/properties/properties-document.ts:148-157 | text without a backslash stands for itself, and a lone one at its end is dropped |
| `PropertySyntax.KeyEndsAtFirstSeparator` | backend/src/core/properties/properties-document.ts:130-137 | the key reaches to the first blank, `=` or `:` that no backslash of its own stands before |
| `PropertySyntax.EntryReads` | backend/src/core/properties/properties-document.ts:130-145 | key, blanks, at most one `=` or `:`, blanks, value: every such layout is read as that key and value |
| `PropertySyntax.CommentsAreKept` | backend/src/core/properties/properties-document.ts:27-33 | exactly lines of white space, and those with `#` or `!` behind white space, are kept as they are |
| `PropertySyntax.FoldingIsInvisible` | backend/src/core/properties/properties-document.ts:36-42 | a line folded by a backslash, and continued behind any blanks, reads the same entries |
| `PropertySyntax.PlainPairIsWritten` | backend/src/core/properties/properties-document.ts:109 | a pair with nothing to escape is written `key=value`, but for the backslash before a comment mark or a leading space |
| `PropertySyntax.SpecialsAreWritten` | backend/src/core/properties/properties-document.ts:169-181 | the five characters written with a letter and the three more a key escapes |
| `JsText.TrimmedUnits` | backend/src/core/properties/properties-document.ts:29 | the characters `trimStart` and `trim` take away, one by one |
| `JsText.TrimIsExact` | backend/src/modules/roles/roles.service.ts:77 | `trim` takes away white space at both ends, all of it and nothing else |
| `JsText.FoldsLetters` | backend/src/modules/rate-limit/ip-key.ts:8 | lower case changes the letters A to Z and nothing else |
| `PropertyLines.FaithfulPrint` | backend/src/core/properties/properties-document.ts:20-48 | `parse(text).toString()` is the text with each line terminator replaced by the detected one, for every text, blank tails and continuations included |
| `PropertyLines.PrintIsIdentityWhenUniform` | backend/src/core/properties/properties-document.ts:104-113 | reading and printing is the identity if and only if all terminators are LF or all are CR LF |
| `EditableProperties.PropertiesDocument.Parse` | backend/src/core/properties/properties-document.ts:20-48 | the parsing loops build the document the specification describes |
| `EditableProperties.PropertiesDocument.ReadLines` | backend/src/core/properties/properties-document.ts:26-46 | the loop over physical lines groups them into notes and entries |
| `EditableProperties.PropertiesDocument.ReadEntry` | backend/src/core/properties/properties-document.ts:35-45 | the inner loop gathers exactly the continuation lines of one entry and drops a dangling backslash |
| `EditableProperties.PropertiesDocument.LastEntry` | backend/src/core/properties/properties-document.ts:115-121 | the backward scan finds the last entry of a key |
| `EditableProperties.PropertiesDocument.Get` | backend/src/core/properties/properties-document.ts:50-52 | reading by the last entry is a lookup in the effective record |
| `EditableProperties.PropertiesDocument.Has` | backend/src/core/properties/properties-document.ts:54-56 | true exactly for the keys of the effective record |
| `EditableProperties.PropertiesDocument.Keys` | backend/src/core/properties/properties-document.ts:58-60 | the keys of the effective record, each once, in enumeration order |
| `KeyOrder.EnumerationOrder` | backend/src/core/properties/properties-document.ts:59-101 | array indices by value, then the other keys by their first line: what `Object.keys` makes of the map the loop fills |
| `KeyOrder.OrderIsUnique` | backend/src/core/properties/properties-document.ts:58-60 | only one listing of the keys is in that order |
| `KeyOrder.IndicesAreNumerals` | backend/src/core/properties/properties-document.ts:58-60 | just the decimal numerals up to 4294967294 come first, by value |
| `EditableProperties.PropertiesDocument.Set` | backend/src/core/properties/properties-document.ts:63-72 | changes only the last entry of the key, appends an unknown key, leaves the lines alone when the value already matches |
| `EditableProperties.PropertiesDocument.Delete` | backend/src/core/properties/properties-document.ts:75-85 | the backward splice loop keeps exactly the other lines in order and reports whether the key was effective |
| `EditableProperties.PropertiesDocument.Assign` | backend/src/core/properties/properties-document.ts:88-93 | deleting key by key and then setting pair by pair is filtering once and setting all |
| `EditableProperties.PropertiesDocument.EffectiveValues` | backend/src/core/properties/properties-document.ts:96-102 | the loop computes the effective record, later duplicates winning, and collects each key where it is met first |
| `EditableProperties.PropertiesDocument.ToText` | backend/src/core/properties/properties-document.ts:104-113 | prints the current lines with the document's own terminator |
| `PropertyEdits.LastEntryIsEffective` | backend/src/core/properties/properties-document.ts:115-121 | the last entry of a key carries its effective value, and there is one exactly when the key is in the record |
| `PropertyEdits.SetUpdatesRecord` | backend/src/core/properties/properties-document.ts:63-72 | `set` updates one key of the effective record and no other, with duplicates anywhere |
| `PropertyEdits.DeleteRemovesKey` | backend/src/core/properties/properties-document.ts:75-85 | `delete` removes one key of the effective record, all duplicates included |
| `PropertyEdits.AssignGivesRecord` | backend/src/core/properties/properties-document.ts:88-93 | after `assign(r)` the effective record is r, whatever the document held |
| `PropertyEdits.SetAllPatches` | backend/src/core/properties/properties-document.ts:92 | setting all pairs of a record respells only the last entry of keys whose value changes and appends the new keys in record order |
| `PropertyEdits.AssignDisturbsNothingElse` | backend/src/core/properties/properties-document.ts:87-93 | `assign` also keeps comments and blank lines in order, raw spellings of matching entries, and puts new keys last |
| `PropertiesRoundTrip.RunFromSource` | backend/src/core/properties/properties-document.ts:62-93 | in every run of edits each untouched entry still spells itself, and a dangling line is followed by changed entries only |
| `PropertiesRoundTrip.RoundTripExactly` | backend/src/core/properties/properties-document.ts:20-113 | for every text and run of edits, reading the printed document back gives its entries if and only if the document is printable |
| `PropertiesRecord.PrintableRecordSurvives` | backend/src/core/properties/properties-document.ts:20-113 | for every text and run of edits, repeated keys included, a printable document keeps its effective record through printing and reading |
| `PropertiesRecord.EditedRecordSurvives` | backend/src/core/properties/properties-document.ts:20-113 | if no source entry dangles and no edited key loses its head, every run of edits keeps the effective record through printing and reading |
| `PropertiesRoundTrip.ReadBackOrShrunk` | backend/src/core/properties/properties-document.ts:20-113 | a document that is not printable always comes back with fewer entries, or as many with fewer characters in their keys |
| `PropertiesRecord.RecordRoundTripsExactly` | backend/src/core/properties/properties-document.ts:96-113 | for every text and run of edits that leaves no key with two entries, the effective record survives printing and reading if and only if the document is printable |
| `PropertiesRecord.DanglingSourceBreaks` | backend/src/core/properties/properties-document.ts:37-42 | adding any new key to a source that ends in a dangling backslash loses entries, and the effective record when the source had no key twice |
| `PropertiesRecord.LostHeadBreaks` | backend/src/core/properties/properties-document.ts:29-30 | setting a key with such a head to a new value loses entries in every document, and the effective record when it had no key twice |
| `PropertiesRecord.BreakingInputsExist` | backend/src/core/properties/properties-document.ts:29-42 | two concrete inputs whose effective record differs after printing and reading: a dangling `a=1`, and NBSP as a key |
| `AccessLevels.MergeMaps` | shared/access/areas.ts:89-100 | the nested in-place loops compute the join: a level is covered exactly when some map covers it |
| `AccessLevels.MergeIsJoin` | shared/access/areas.ts:79-100 | the merged map covers an area and level if and only if one of the maps does |
| `AccessLevels.MergeIsLeast` | shared/access/areas.ts:88-118 | the merge is below every map that all merged maps are within: a least upper bound for `accessWithin` |
| `AccessLevels.LevelsInOrder` | shared/access/areas.ts:70-86 | read, write, manage stand in this order, for the comparison and the maximum; no level is below all |
| `AccessLevels.CanExactly` | shared/access/can.ts:22-29 | admins may everything, others what their stored level of the area is one of the levels that are enough for |
| `AccessLevels.MeaningfulLevels` | shared/access/areas.ts:35-54 | in which areas reading, writing and managing mean something |
| `AccountPolicy.NothingAboveMeansHeld` | backend/src/modules/accounts/accounts.policy.ts:53-60 | nothing is reported above the actor if and only if it has every level and key itself |
| `AccountPolicy.EffectiveLevel` | backend/src/modules/accounts/accounts.policy.ts:39-50 | an account has a level exactly when its own grants or one of its roles give it |
| `AccountPolicy.CanGrantExactly` | backend/src/modules/accounts/accounts.policy.ts:124-158 | a plan is allowed if and only if everything it gives - levels, keys, servers - is the actor's own; the check role by role adds nothing |
| `AccountPolicy.GrantedPlanIsHeld` | backend/src/modules/accounts/accounts.policy.ts:124-143 | every power of a granted plan is one of the actor |
| `AccountPolicy.ReachableExactly` | backend/src/modules/accounts/accounts.policy.ts:85-98 | a target is allowed if and only if it reaches no server the actor does not reach |
| `AccountPolicy.CanManageExactly` | backend/src/modules/accounts/accounts.policy.ts:72-83 | an account may be managed if and only if it is no admin's unless the actor is one, and every level, key and server of it is one of the actor |
| `AccountPolicy.ManageReasons` | backend/src/modules/accounts/accounts.policy.ts:72-98 | the reason a refused target is given is really the case |
| `AccountPolicy.GrantReasons` | backend/src/modules/accounts/accounts.policy.ts:123-158 | so is the reason a refused plan is given |
| `RoleNames.CandidatesDiffer` | backend/src/modules/roles/roles.service.ts:182-187 | different probe numbers give names that differ even regardless of case |
| `RoleNames.TakenCandidatesNeedNames` | backend/src/modules/roles/roles.service.ts:182-187 | pigeonhole: k taken candidates need k stored names |
| `RoleNames.FirstFree` | backend/src/modules/roles/roles.service.ts:182-187 | the first free candidate, found within one probe more than there are roles |
| `RoleNames.CopyName` | backend/src/modules/roles/roles.service.ts:182-187 | the unbounded probing loop ends and returns the first free candidate |
| `RoleNames.CopyNamePasses` | backend/src/modules/roles/roles.service.ts:154-180 | the trimmed candidate passes `freeName` if and only if the source name is not empty or `(copy)` is free |
| `RoleNames.CandidateTexts` | backend/src/modules/roles/roles.service.ts:184 | the probed names are `name (copy)`, then `name (copy n)` with n in decimal |
| `RoleNames.EmptyNameCopyFails` | backend/src/modules/roles/roles.service.ts:154-187 | a store in which the copy of the empty name is refused |
| `PanelSteps.DecisionsArePermitted` | backend/src/modules/roles/roles.service.ts:73-162 | every write any request decides on is covered by the policy verdicts and takes no name that is in use |
| `PanelSteps.StepKeepsValid` | backend/src/modules/roles/roles.service.ts:73-138 | every request, by admins too, keeps role names unique regardless of case, stored names trimmed and references to roles intact |
| `PanelSteps.DuplicateGetsFreeName` | backend/src/modules/roles/roles.service.ts:154-180 | in a valid store a duplicate without a name conflicts only for the empty source name with `(copy)` taken |
| `PanelStore.Panel.Handle` | backend/src/modules/accounts/accounts.controller.ts:105-233 | one request of a stored account on the object, guard included, is one step of the model with its response |
| `PanelStore.Panel.HandleAll` | backend/src/modules/roles/roles.service.ts:73-162 | any sequence of requests on the object is a run of the model |
| `PanelStore.Panel.ServeNonAdmins` | backend/src/modules/accounts/accounts.policy.ts:123-143 | whatever non-admins send to the store, nobody ends up with a power none of them had, no admin is made or removed, and role names stay unique |
| `PanelStore.Panel.AddAccount` | backend/src/modules/accounts/accounts.controller.ts:114-134 | creating an account is the guarded step of the model, refusals included |
| `PanelStore.Panel.UpdateAccount` | backend/src/modules/accounts/accounts.controller.ts:150-204 | updating an account is the guarded step of the model: managed, resolved, granted, then written |
| `PanelStore.Panel.Amend` | backend/src/modules/accounts/accounts.controller.ts:163-174 | fields are assigned one by one, the admin flag only by admins |
| `PanelStore.Panel.DeleteAccount` | backend/src/modules/accounts/accounts.controller.ts:220-233 | deleting an account is the guarded step of the model |
| `PanelStore.Panel.CreateRole` | backend/src/modules/roles/roles.service.ts:73-88 | the name is checked before the access, nothing is written on a refusal |
| `PanelStore.Panel.UpdateRole` | backend/src/modules/roles/roles.service.ts:90-122 | the checks in the source's order on the old role, its members, the name and the new access |
| `PanelStore.Panel.RemoveRole` | backend/src/modules/roles/roles.service.ts:124-138 | a removed role also leaves every account that had it |
| `PanelStore.Panel.Duplicate` | backend/src/modules/roles/roles.service.ts:154-162 | a copy has the source's access and the asked or first free name |
| `Confinement.TakeoverGivesNothing` | backend/src/modules/accounts/accounts.policy.ts:72-83 | whoever may manage an account has every power of it already, on each server separately |
| `Confinement.WriteConfined` | backend/src/modules/accounts/accounts.policy.ts:62-158 | a permitted write of a non-admin gives any account only powers the actor has, on each server separately |
| `Confinement.StepConfined` | backend/src/modules/accounts/accounts.controller.ts:114-233 | whatever power an account gains in a non-admin's step, that actor held before it |
| `Confinement.StepKeepsAdmins` | backend/src/modules/accounts/accounts.controller.ts:172-174 | a non-admin's step neither makes an admin nor removes one |
| `Confinement.RunKeepsValid` | backend/src/modules/roles/roles.service.ts:170-180 | role names stay unique and references intact in every run |
| `Confinement.RunConfined` | shared/access/can.ts:22-68 | in every run of non-admins, what all of them together can do never grows |
| `Confinement.RunKeepsAdmins` | backend/src/modules/accounts/accounts.policy.ts:73-76 | in every run of non-admins the set of admins stays what it was |
| `RequestEffects.PowersOfAccount` | shared/access/can.ts:22-68 | every power of an account, read off its stored record and those of its roles |
| `RequestEffects.GuardExactly` | backend/src/modules/accounts/accounts.controller.ts:105 | account requests are let in with the write or manage level of the accounts area, role requests with manage, and nobody else |
| `RequestEffects.CreateAccountExactly` | backend/src/modules/accounts/accounts.controller.ts:114-134 | exactly when creating an account succeeds, and the record it leaves |
| `RequestEffects.UpdateAccountExactly` | backend/src/modules/accounts/accounts.controller.ts:150-204 | exactly when updating succeeds; then just the named fields change, admin rights only by admins |
| `RequestEffects.DeleteAccountExactly` | backend/src/modules/accounts/accounts.controller.ts:220-233 | exactly when deleting succeeds, and that one account goes |
| `RequestEffects.CreateRoleExactly` | backend/src/modules/roles/roles.service.ts:73-88 | exactly when creating a role succeeds, and the record it leaves |
| `RequestEffects.DuplicateRoleExactly` | backend/src/modules/roles/roles.service.ts:154-162 | a copy has the source's access under the asked name, or the first free candidate |
| `RequestEffects.UpdateRoleExactly` | backend/src/modules/roles/roles.service.ts:90-122 | exactly when updating a role succeeds; built-in names stay, the named fields change |
| `RequestEffects.RemoveRoleExactly` | backend/src/modules/roles/roles.service.ts:124-138 | exactly when removing a role succeeds; every account loses just that role |
| `RequestEffects.RefusalsAreTrue` | backend/src/modules/roles/roles.service.ts:73-138 | every other answer names something that is the case, and nothing is written |
| `AccessChange.SameSetMeansElements` | backend/src/modules/accounts/accounts.policy.ts:188-190 | length and one-way inclusion mean equal sets without repeats, by counting, once the first list has none |
| `AccessChange.AccessChangedExactly` | backend/src/modules/accounts/accounts.policy.ts:178-186 | from a stored account and for every request, no change is reported if and only if nothing differs as a set and the request's lists repeat nothing |
| `AccessChange.UnchangedKeepsPowers` | backend/src/modules/accounts/accounts.policy.ts:173-197 | no change reported: no power gained or lost, so the sessions that stay see the same access |
| `AccessChange.RepeatHidesChange` | backend/src/modules/accounts/accounts.policy.ts:188-190 | a repeat in the first list hides a change |
| `AttemptLimiter.Limiter.Current` | backend/src/modules/rate-limit/attempt-limiter.ts:79-91 | looking at a key forgets it exactly at its expiry |
| `AttemptLimiter.Limiter.RetryAfterMs` | backend/src/modules/rate-limit/attempt-limiter.ts:40-43 | the wait of the live state, 0 for a forgotten key |
| `AttemptLimiter.Limiter.HitKey` | backend/src/modules/rate-limit/attempt-limiter.ts:46-53 | the in-place update is the window step of the model |
| `AttemptLimiter.Limiter.FailKey` | backend/src/modules/rate-limit/attempt-limiter.ts:55-69 | the in-place update is the backoff step of the model |
| `AttemptLimiter.ResetForgives` | backend/src/modules/rate-limit/attempt-limiter.ts:71-73 | after a reset every later question about the key is answered as by a fresh limiter |
| `AttemptLimiter.Limiter.PruneKeys` | backend/src/modules/rate-limit/attempt-limiter.ts:75-77 | looking at every key, in any order, drops exactly the expired ones |
| `AttemptLimiter.PruneIsInvisible` | backend/src/modules/rate-limit/attempt-limiter.ts:75-97 | taking every `prune` out of a run with nondecreasing times changes no answer |
| `AttemptLimiter.PrunesDoNotMatter` | backend/src/modules/rate-limit/attempt-limiter.ts:75-77 | two runs that differ only in where they prune answer alike |
| `AttemptLimiter.RunCoversLocks` | backend/src/modules/rate-limit/attempt-limiter.ts:82-85 | in every run no lock outlives the state that carries it |
| `AttemptLimiter.ForgettingKeepsWaits` | backend/src/modules/rate-limit/attempt-limiter.ts:40-43 | expiry never shortens a lock: the answered wait is what the stored lock says |
| `WindowBound.OneWindowIsBounded` | backend/src/modules/rate-limit/attempt-limiter.ts:46-53 | a window admits at most `limit` attempts from its opening on, and `limit` more for every reset before its end |
| `WindowBound.AnyIntervalIsBounded` | backend/src/modules/rate-limit/attempt-limiter.ts:46-97 | in every timed run an interval of one window length starting anywhere admits at most 2 * limit - 1 attempts of a key plus limit for every reset of it inside the interval |
| `WindowBound.WithoutResetTwiceIsEnough` | backend/src/modules/rate-limit/attempt-limiter.ts:46-97 | an interval without a reset stays within that 2 * limit - 1, whatever was reset before or after it |
| `WindowBound.BoundIsReached` | backend/src/modules/rate-limit/attempt-limiter.ts:46-73 | for every limit, window of at least 2 ms and number of resets inside the interval a run that reaches the bound |
| `BackoffLaw.BackoffHolds` | backend/src/modules/rate-limit/attempt-limiter.ts:55-69 | in every run the k-th failure of a life locks for 0, the doubled base or the cap, and reports a fresh lock exactly at the first over-limit one |
| `BackoffLaw.JustLockedOnce` | backend/src/modules/rate-limit/attempt-limiter.ts:58-68 | a life that goes over the limit reports a fresh lock exactly once, any other never |
| `BackoffLaw.PoliteLifeIsSpaced` | backend/src/modules/rate-limit/attempt-limiter.ts:40-91 | if failures come only while the wait is 0, each comes after the lock of the one before |
| `BackoffLaw.GuessingTakesTime` | backend/src/modules/rate-limit/attempt-limiter.ts:40-91 | then n + 1 over-limit failures of one life take at least the first n locks |
| `BackoffLaw.DoublingLocks` | backend/src/modules/rate-limit/attempt-limiter.ts:63-66 | until the cap the locks sum to base * (2^n - 1) |
| `BackoffLaw.CappedLocks` | backend/src/modules/rate-limit/attempt-limiter.ts:63-66 | once the cap is reached every later lock is the cap |
| `LimiterLives.LifeGoesOnExactly` | backend/src/modules/rate-limit/attempt-limiter.ts:79-91 | a failure continues the key's life if and only if there was no reset since the last one and that is less than `forgetAfterMs` ago or its lock still holds |
| `LimiterLives.QuickFailuresLock` | backend/src/modules/rate-limit/attempt-limiter.ts:55-69 | failures in quick succession, with anything but a reset between, are answered as the first, second, ... of one life |
| `LimiterLives.LocksByNumber` | backend/src/modules/rate-limit/attempt-limiter.ts:58-66 | free failures lock for 0, the next for the base, each further one for twice the lock before, up to the cap |
| `LimiterLives.PruneKeepsRemembered` | backend/src/modules/rate-limit/attempt-limiter.ts:75-77 | pruning keeps just the keys whose last failure is still remembered |
| `LimiterLives.WaitIsExact` | backend/src/modules/rate-limit/attempt-limiter.ts:40-43 | a key told to wait is told the rest of it until then, and 0 from then on |
| `LimiterLives.LockIsServed` | backend/src/modules/rate-limit/attempt-limiter.ts:55-69 | a failure locks the key for just as long as it answers |
| `WindowBound.WindowWaitIsExact` | backend/src/modules/rate-limit/attempt-limiter.ts:46-53 | an attempt told to wait is refused until that time and admitted from then on |
| `ServerLocks.ServerLocksService.Acquire` | backend/src/core/locks/server-locks.service.ts:17-32 | hands out a fresh release exactly when the server is free |
| `ServerLocks.ServerLocksService.Run` | backend/src/core/locks/server-locks.service.ts:27-31 | a release works once |
| `ServerLocks.HolderHasRelease` | backend/src/core/locks/server-locks.service.ts:34-36 | a server is busy if and only if a release for it has not run, and the holder is the kind that one was taken for |
| `ServerLocks.AcquireKeepsConsistent` | backend/src/core/locks/server-locks.service.ts:17-32 | each held lock keeps exactly one unspent release, of its own kind |
| `ServerLocks.ReleaseKeepsConsistent` | backend/src/core/locks/server-locks.service.ts:27-31 | and keeps it when any release runs, spent or not |
| `ServerLocks.ReleaseFreesOwnOnly` | backend/src/core/locks/server-locks.service.ts:27-31 | a release changes the holder if and only if the lock is still its own |
| `ServerLifecycle.StepKeepsInv` | backend/src/modules/instances/instance.ts:171-245 | every step keeps: one runtime alive at most, no launch beside it, nothing running or starting while the status is restorable or a restore holds the lock |
| `ServerLifecycle.RestoreIsExclusive` | backend/src/modules/instances/instance.ts:335-383 | in every interleaving without a manual start during a launch, a held restore lock never coexists with a process or a launch past its lock check |
| `EarlyStarts.StartBreaksExactly` | backend/src/modules/instances/instance.ts:329-343 | in every state that keeps the invariant a manual start now makes a violation reachable without any further start if and only if a launch is in flight and the server has a row |
| `EarlyStarts.DisciplineIsExact` | backend/src/modules/instances/instance.ts:329-383 | after every disciplined run from an idle server a manual start makes a violation reachable if and only if it is undisciplined |
| `EarlyStarts.SecondStartBreaksExclusion` | backend/src/modules/instances/instance.ts:335-383 | a start during a launch is enough, before that launch has its runtime or after, the lock free or held by a backup |
| `EarlyStarts.NoRowNoRestore` | backend/src/modules/backups/backups.service.ts:76-82 | a missing row stays missing, and no restore takes the lock without one |
| `ServerLifecycle.StaleReleaseIsHarmless` | backend/src/modules/backups/backups.service.ts:195-225 | in every run, disciplined or not, a stale or repeated release frees nobody else's lock |
| `ServerStatus.ExitIsJudged` | backend/src/modules/instances/instance.ts:171-218 | an exit sets stopped or crashed by its code alone, and plans one restart just for a crash nobody asked for with restarts on and fewer than `attempts` (or 3) behind it |
| `ServerStatus.StatusFollows` | backend/src/modules/instances/instance.ts:290-308 | what every other event makes of the status |
| `ServerStatus.ExitIsAskedFor` | backend/src/modules/instances/instance.ts:310-317 | a kill and the first stop of a running server ask for the exit, a launch takes that back |
| `ServerStatus.StopGoesOn` | backend/src/modules/instances/pending-stop.ts:13-40 | a stop is open, then killed, settled by the exit or given up after the kill, then cleared, and nothing else moves it |
| `ServerStatus.LocksAreTaken` | backend/src/modules/backups/backups.service.ts:74-84 | a restore locks exactly a stopped or crashed server that is free, a backup any that is free |
| `RequestedExits.RequestedExitIsNoCrash` | backend/src/modules/instances/instance.ts:197-200 | whatever happens between a kill or stop of a running server and the exit it leads to, that exit plans no restart and counts no attempt |
| `RequestedExits.ReturnsExactly` | backend/src/modules/instances/instance.ts:224-230 | a server that is down launches again without a manual start if and only if a crash restart waits, its status is crashed and it is neither disposed nor shutting down |
| `RequestedExits.KilledReturnsExactly` | backend/src/modules/instances/instance.ts:310-317 | so a killed or stopped server comes back by itself if and only if its exit counts as a crash while an earlier crash restart waits |
| `CrashBudget.RunIsBudgeted` | backend/src/modules/instances/crash-restart.ts:18-26 | between resets, relaunches done, restarts waiting and attempts left never add up to more than at the start |
| `CrashBudget.ResetRefills` | backend/src/modules/instances/crash-restart.ts:13-15 | a manual start of a server that is down, and a line that says it is up, give the whole limit back |
| `CrashBudget.CrashRelaunchesAreBounded` | backend/src/modules/instances/crash-restart.ts:18-26 | at most `attempts` (or 3) crash relaunches between two resets, plus the restarts waiting at the first |
| `CrashBudget.BudgetIsUsedUp` | backend/src/modules/instances/instance.ts:171-245 | from every launch that nothing suppresses, under every setting with crash restarts on, some run without a reset relaunches exactly as often as attempts left and restarts waiting allow |
| `CrashBudget.LimitHoldsFrom` | backend/src/modules/instances/instance.ts:224-245 | during such a launch with no attempt used, the limit alone bounds every continuation up to the next reset if and only if no restart is waiting |
| `CrashBudget.LimitHoldsExactly` | backend/src/modules/instances/instance.ts:328-333 | for a server that is down: after a manual start at most `attempts` (or 3) relaunches up to the next reset if and only if no crash restart was waiting at that start |
| `CrashBudget.MostRelaunchesExactly` | backend/src/modules/instances/crash-restart.ts:18-26 | after a manual start with none waiting the most relaunches up to the next reset are `attempts`, 3 when missing or 0, none when restarts are off |
| `CrashBudget.WaitingStartHappens` | backend/src/modules/instances/instance.ts:224-245 | under every setting with crash restarts on, an idle server can reach a start that comes while a restart waits and so exceeds the limit |
| `ServerInstances.CrashRestartPolicy.Crash` | backend/src/modules/instances/crash-restart.ts:18-26 | an attempt is counted exactly with the verdict to restart |
| `ServerInstances.ServerInstance.UpdateStatus` | backend/src/modules/instances/instance.ts:290-308 | being up resets the attempts, a missing row stays missing |
| `ServerInstances.ServerInstance.OnClose` | backend/src/modules/instances/instance.ts:171-218 | the exit handler is the exit step of the protocol: an unfinished last line may still set a status and reset the attempts, then the verdict, and a pending stop settles |
| `ServerInstances.ServerInstance.LaunchUntilAwait` | backend/src/modules/instances/instance.ts:335-371 | a launch up to its first await throws only for a restore lock, and then changes nothing |
| `ServerInstances.ServerInstance.StartUntilAwait` | backend/src/modules/instances/instance.ts:329-333 | a manual start is the start step of the protocol |
| `ServerInstances.ServerInstance.RestartDelayOver` | backend/src/modules/instances/instance.ts:224-245 | after its delay a crash restart launches only a server nobody touched |
| `ServerInstances.ManagedServer.Handle` | backend/src/modules/instances/instance.ts:171-449 | one event on instance and locks together is one step of the protocol |
| `ServerInstances.ManagedServer.HandleAll` | backend/src/modules/instances/instance.ts:171-449 | any sequence of events on the objects is a run of the protocol |
| `ServerInstances.ServeWithDiscipline` | backend/src/modules/instances/instance.ts:335-383 | a server object handled without a manual start during a launch never has a process or a launch while its folder is being restored |
| `ServerInstances.ServerInstance.LaunchRejected` | backend/src/modules/instances/instance.ts:231-244 | only a crash restart puts the status back to crashed, and only while nothing runs |
| `ServerInstances.ServerInstance.StopUntilAwait` | backend/src/modules/instances/instance.ts:431-449 | the first stop of a running server asks for the exit, says stopping and arms its timer; a second one changes nothing |
| `ServerInstances.BackupsService.BeginRestore` | backend/src/modules/backups/backups.service.ts:74-84 | a restore takes the lock exactly of a stopped or crashed server that is free |
| `ServerInstances.BackupsService.EndRestore` | backend/src/modules/backups/backups.service.ts:208-221 | however the restore ends, its own release runs |
| `PendingStops.TimeoutInRange` | backend/src/core/utils/stopTimeout.ts:5-14 | 60 s without a usable setting, else the nearest whole second, halves up, between 1 and 3600 |
| `PendingStops.SettlesExactlyOnce` | backend/src/modules/instances/pending-stop.ts:13-40 | in every run a stop is in flight or has settled, never twice |
| `PendingStops.SettlesInTime` | backend/src/modules/instances/pending-stop.ts:13-40 | it settles within the timeout and 3 s, so within 3603 s for any setting, true if and only if the process exited in between |
| `PendingStops.PendingIsInTime` | backend/src/modules/instances/pending-stop.ts:17-21 | a stop in flight has a timer armed and has not used up its time |
| `PendingStops.EscalatesOnceAfterTimeout` | backend/src/modules/instances/pending-stop.ts:17-21 | a stop escalates at most once, exactly when the full timeout is over |
| `PendingStops.HungStopIsGivenUp` | backend/src/modules/instances/pending-stop.ts:17-21 | a stop whose process never exits settles with false just 3 s after the full timeout, once its timers have fired |
| `PendingStops.SecondStopJoins` | backend/src/modules/instances/instance.ts:433-434 | a second stop starts nothing while one is in flight |
| `PendingStops.PendingStop.BeginStop` | backend/src/modules/instances/pending-stop.ts:13-26 | begins a stop with its timer |
| `PendingStops.PendingStop.FinishStop` | backend/src/modules/instances/pending-stop.ts:35-40 | settles once, later calls do nothing |
| `PendingStops.PendingStop.Exit` | backend/src/modules/instances/pending-stop.ts:29-33 | an exit disarms the timer and settles with true |
| `PendingStops.PendingStop.TimerFires` | backend/src/modules/instances/pending-stop.ts:17-21 | the first timer escalates and arms the second, the second gives up |
| `LookupSlots.SlotQueue.Acquire` | backend/src/modules/mojang/mojang-profile.client.ts:128-137 | grants, queues or rejects by count and queue length |
| `LookupSlots.SlotQueue.Release` | backend/src/modules/mojang/mojang-profile.client.ts:139-143 | wakes the oldest waiter without giving the slot up, or frees it |
| `LookupSlots.RunKeepsInv` | backend/src/modules/mojang/mojang-profile.client.ts:119-143 | in every run the counter is the number of holders, nobody both waits and holds, and calls taken in are those served followed by those waiting |
| `LookupSlots.BoundedAndFair` | backend/src/modules/mojang/mojang-profile.client.ts:119-143 | at most 4 hold and 32 wait, someone waits only while 4 hold, and calls are served in the order they came |
| `LookupSlots.ReleaseHandsOver` | backend/src/modules/mojang/mojang-profile.client.ts:139-143 | a release wakes exactly the oldest waiter or frees exactly one slot |
| `LookupSlots.RejectedLeavesNoTrace` | backend/src/modules/mojang/mojang-profile.client.ts:133-135 | a call is rejected if and only if 4 hold and 32 wait, and then nothing changes |
| `RunPool.PoolState.Turn` | backend/src/core/utils/run-pool.ts:14-17 | one turn of a lane takes the next item or finishes |
| `RunPool.PoolState.WorkerAnswers` | backend/src/core/utils/run-pool.ts:16-20 | a completion keeps the first failure |
| `RunPool.StartsInOrder` | backend/src/core/utils/run-pool.ts:10-26 | under every completion order items start once, in index order, with at most max(1, min(limit, n)) in flight |
| `RunPool.LimitHolds` | backend/src/core/utils/run-pool.ts:24-26 | in every run at most `limit` items are in flight, one when the limit is lower, and no more than there are |
| `RunPool.LimitIsReached` | backend/src/core/utils/run-pool.ts:24-26 | and some run has that many in flight |
| `RunPool.NothingStartsAfterFailure` | backend/src/core/utils/run-pool.ts:14-20 | after a failure nothing starts and the failure stays |
| `RunPool.ReturnsComplete` | backend/src/core/utils/run-pool.ts:24-28 | when all lanes are done nothing is in flight, and either every item completed exactly once or the first failure is kept |
| `RunPool.RunsEnd` | backend/src/core/utils/run-pool.ts:13-22 | a run has at most 2 n + lanes steps |
| `RunPool.NoDeadlock` | backend/src/core/utils/run-pool.ts:13-26 | until all lanes are done some lane or its worker can go on |
| `CascadeRemoval.ContentInstaller.RemoveVisiting` | backend/src/modules/modrinth/content-installer.ts:122-139 | one call of the recursion terminates on any graph and sweeps exactly what it newly visited, each record deleted once |
| `CascadeRemoval.ContentInstaller.RemoveDependants` | backend/src/modules/modrinth/content-installer.ts:132-136 | the loop visits every dependant, those of what it visits included |
| `CascadeRemoval.ContentInstaller.RemoveRecordWithFile` | backend/src/modules/modrinth/content-installer.ts:122-139 | with cascade exactly the records reachable through dependants go, each once, cycles included; the rest is untouched |
| `CascadeRemoval.NoDanglingDependant` | backend/src/modules/modrinth/content-installer.ts:132-138 | no survivor depends on a record the cascade removed |
| `HeadsMemory.Memory.FromMemory` | backend/src/modules/heads/heads.service.ts:108-115 | a hit returns the entry and makes its key the youngest, a miss changes nothing |
| `HeadsMemory.Memory.Remember` | backend/src/modules/heads/heads.service.ts:117-124 | stores the entry as the youngest and keeps every other entry but the evicted one |
| `HeadsMemory.CacheIsMostRecent` | backend/src/modules/heads/heads.service.ts:108-124 | after any history the cache holds exactly the at most 500 distinct keys touched last, in touch order |
| `HeadsMemory.TouchedStays` | backend/src/modules/heads/heads.service.ts:117-124 | the key just touched stays, and only the oldest key can go |
| `TryOrder.Network.AddMember` | backend/src/modules/networks/network-members.service.ts:67-76 | a new member is listed, as default, only when nobody is |
| `TryOrder.Network.RemoveMember` | backend/src/modules/networks/network-members.service.ts:88-93 | the other members stay and are renumbered |
| `TryOrder.Network.SetOrder` | backend/src/modules/networks/network-members.service.ts:102-119 | accepts exactly non-empty lists of distinct members and gives each its place |
| `TryOrder.Network.CompactOrder` | backend/src/modules/networks/network-members.service.ts:134-142 | for any stored orders, equal ones included, filter, stable sort and renumbering in place leave orders 0 .. k-1 in the old relative order, with a default when nobody is listed |
| `TryOrder.RemoveKeepsOrder` | backend/src/modules/networks/network-members.service.ts:88-93 | removal leaves a well-ordered network without the member |
| `TryOrder.RemovedConcat` | backend/src/modules/networks/network-members.service.ts:88-90 | filtering works part by part, so the others keep their places |
| `TryOrder.RemovedOne` | backend/src/modules/networks/network-members.service.ts:88-90 | a member stays as it is unless it is the one removed |
| `TryOrder.RemovalKeepsRelativeOrder` | backend/src/modules/networks/network-members.service.ts:134-142 | two listed members that stay are tried in the same order as before |
| `TryOrder.SetOrderKeepsOrder` | backend/src/modules/networks/network-members.service.ts:104-119 | an accepted list gives the orders 0 .. its length - 1 |
| `TryOrder.SetOrderPlaces` | backend/src/modules/networks/network-members.service.ts:102-119 | the k-th member of an accepted list is tried k-th, the first is the default, others are not tried; any other list changes nothing |
| `TryOrder.RunKeepsOrder` | backend/src/modules/networks/network-members.service.ts:60-142 | in every run of add, remove and setOrder the orders are 0 .. k-1 without repeats, with k >= 1 while there are members |
| `TryOrder.EveryRunIsOrdered` | backend/src/modules/networks/network-members.service.ts:60-142 | so every run from an empty network on |
| `TryOrder.Network.Handle` | backend/src/modules/networks/network-members.service.ts:60-142 | one operation on the object is one step of those runs |
| `TryOrder.Network.HandleAll` | backend/src/modules/networks/network-members.service.ts:60-142 | any sequence of operations on the object is such a run |
| `TryOrder.Serve` | backend/src/modules/networks/network-members.service.ts:60-142 | whatever is asked of a new network, its orders are contiguous and it has a default while it has members |
| `Numerals.PrefixIsQuotient` | backend/src/core/utils/subnets.ts:49 | equal prefixes of equally long binary texts are equal quotients of their numbers |
| `Numerals.DigitIsSpelled` | backend/src/core/utils/subnets.ts:66-69 | the digits 0 to 9 and a to f, in either case, have these values and no other character is one |
| `Subnets.BitsSpellNumber` | backend/src/core/utils/subnets.ts:56-72 | padded binary parts joined spell the big-endian number of their values |
| `Subnets.SplitUndoesJoin` | backend/src/core/utils/subnets.ts:66-67 | splitting at a separator undoes joining parts without it |
| `Subnets.IntegerIsRead` | backend/src/core/utils/subnets.ts:31 | white space, sign, digits, anything behind them: `parseInt` reads the signed number |
| `Subnets.NoDigitNoInteger` | backend/src/core/utils/subnets.ts:31-32 | without a digit after white space and sign there is none |
| `AddressText.WrittenMapped` | backend/src/core/utils/subnets.ts:75-78 | the text contains `::ffff:` exactly when `::` is followed by the group `ffff` and another group |
| `AddressText.MarksAreSpelled` | backend/src/core/utils/subnets.ts:75-78 | the marks looked for in an address, spelled out |
| `AddressText.ExpandWritten` | backend/src/core/utils/subnets.ts:74-93 | every written IPv6 address expands to its eight groups, the mapped form is refused |
| `AddressText.BinaryOfWritten` | backend/src/core/utils/subnets.ts:56-72 | the binary text of an address spells its number in 32 or 128 digits |
| `AddressText.SubnetTestMeansCidr` | backend/src/core/utils/subnets.ts:27-54 | for any addresses and any text after the slash, the test holds if and only if that text starts with an integer, neither address is mapped, and both integers agree after division by 2^(width - p) |
| `AddressText.SubnetTestOfLength` | backend/src/core/utils/subnets.ts:27-54 | the same for `net/p` with 0 <= p <= width |
| `AddressText.LengthsOutOfRange` | backend/src/core/utils/subnets.ts:49 | a length of 0 or below takes in the whole family, one of the width or above only the address itself |
| `AddressText.MinusOneIsRead` | backend/src/core/utils/subnets.ts:31 | `-1` is read as such a length |
| `AddressText.NeverMatches` | backend/src/core/utils/subnets.ts:30-42 | no length, or something that is no address, never matches |
| `IpKeys.SpellingIsValue` | backend/src/modules/rate-limit/ip-key.ts:17-20 | lower case without leading zeros is one spelling for each group value |
| `IpKeys.KeyOfWritten` | backend/src/modules/rate-limit/ip-key.ts:5-21 | the key is made of the address's own first four groups, however it abbreviates |
| `IpKeys.SharedKeyMeansOneBlock` | backend/src/modules/rate-limit/ip-key.ts:1-21 | two IPv6 addresses share a key if and only if they lie in one /64 |
| `IpKeys.KeyAgreesWithSubnetTest` | backend/src/modules/rate-limit/ip-key.ts:5-21 | the two expanders agree: sharing a key is passing the other's /64, unless `::ffff:` makes the subnet test refuse |
| `IpKeys.DottedKeysAreTheirOwn` | backend/src/modules/rate-limit/ip-key.ts:6-7 | an IPv4 key is shared with no other address and not with the unknown one |
| `IpKeys.KeysAreSpelled` | backend/src/modules/rate-limit/ip-key.ts:5-21 | `?` for no address, an IPv4 address itself, `::/64` behind the groups of the others |
| `IpKeys.ZoneIsIgnored` | backend/src/modules/rate-limit/ip-key.ts:8 | a zone behind an IPv6 address makes no difference to its key |

## Left out

- `.properties`: a record passed to `assign` is given as its pairs in enumeration order; `toRecord` is a map, its order is that of `keys`.
- Accounts: password hashing awaits between the check and the write, so a request is one atomic step here; usernames (accounts are named by id), descriptions, passwords, sessions, events and audit are not modelled, nor are `changePassword` and FTP passwords.
- Verdict texts: reduced to reasons, without the lists of areas and servers they name.
- SQLite: tables are maps by id; levels an area does not know, missing roles and missing servers are skipped on write; role names compare in ASCII without case.
- Life cycle: one server; no `adopt` and no Docker details; a process exit and its handler are one step; a launch can fail only before the spawn; a stop's promise is cleared in a step of its own; file work of a restore is opaque.
- `PendingStops.SettlesInTime`: timers fire exactly when due, the delay of a busy event loop is not modelled.
- `LookupSlots.SlotQueue.Release`: asks for a held slot, which `limited` guarantees; the caches and requests around the slots are not modelled.
- Worker pool: a worker that throws before its first await is the same as one that rejects.
- Cascading removal: deleting the files, and a failure of that, which would end the recursion early.
- Head cache: the disk cache, ages and refreshes, only the in-memory map.
- Try order: members that are no longer servable and drop out of a draft; the files a commit writes; aliases, forwarding modes and access checks.
- Limiter: times and policy numbers are naturals; the overflow of `2 ** n` to infinity is hidden by the cap.
- Addresses: zone ids in the subnet test and embedded dotted IPv4 appear only as texts the runtime may classify, the theorems are about plain written addresses; `toLowerCase` outside ASCII; `checkSubnetAccess` around the test.
- Regular expressions for status and error lines: an output line carries the status it is detected as.
