# Verified models of the gateway, the guard, the gates and the release tooling

A Dafny 4.11 project that models the decision-making parts of the repository and proves what
they promise over all inputs, all runs and all interleavings. `dafny verify dfyconfig.toml`
checks everything. Nothing here executes the original program.

## What is modelled

**Tool namespaces in the gateway** (`gateway/codex_gateway.py`). A request may list tools in
namespaces. The gateway advertises each member under a flat name, renames every call in the
request's JSON to that name, and gives calls in the response their namespace back.
`ToolNames` is the naming loop with its collision fallback, `ToolList` the rewriting of the tool
list, `ToolCalls` the two walks as functions on JSON values, and `ToolCallsInPlace` the walks as
they run, changing dictionaries and lists where they stand. `ToolCallRoundTrip` and
`ToolCallResend` say exactly which trees survive a trip in one direction and back, as
if-and-only-if results over all trees. In the first direction the condition can be checked node
by node before the call. In the other, `ToolCallPlainResend` has such a condition for every tree
whose tool results have plain texts; where a text is itself a list or dictionary, the outcome
depends on Python's `str` of it. `ToolListNames` says when the flattened list has distinct names.
`ToolCallMeaning` and `ToolListMeaning` describe the outcome of the walks and of the flattening by
relations between the fields before and after, written with the texts the source uses, and prove
that the outcome is the only one they allow.

**The verification guard** (`client/prompts/runtime_guard.py`). `Guard` is the hook's state
machine with its two bounded ordered dictionaries (`OrderedDict`), `GuardRuns` what holds in
every run of it, and `GuardTable` the table of such states with its eviction.

**Invitations and refresh tokens** (`gateway/auth.py`). `SessionStore` is the store, one
operation per transaction; `SessionRuns` is about every interleaving of those operations. An
exchange is two operations there, because no transaction spans its check and its insertion.

**Access tokens** (`gateway/auth.py`). `Base64Url` models the codec through the padding
arithmetic, on top of the lenient decoder it calls; `AccessToken` is issuing and reading tokens.

**The regression gates** (`scripts/mcp_conformance/`). `RegressionReport`, `RegressionGate` and
`GateRelation` read reports and judge a candidate against a baseline; `RegressionLoops` and
`RegressionEvaluation` are the loops; `RegressionClean` says which full reports are free of
problems, in terms of their cases and checks; `RegressionVerdict` says what the gate answers and
what compaction keeps in terms of what the two report documents state, `RegressionCrash` for which
documents it raises, and `RegressionShown` and `RegressionErrors` what is listed and which errors
are given for any two documents, however much is wrong with them; `ReportFacts`, `Compaction` and
`SkippedBaseline` are about compact baselines. `ReviewReport`, `ReviewLoops`, `ReviewClean`,
`ReviewVerdict`, `ReviewShown`, `ReviewErrors` and `ReviewCompaction` do the same for the sibling
gate.

**Smaller components.** `AgentRoles`, `RoleResults`, `RoleLayers` and `RoleMeaning` load agent
roles from configuration layers; `EventBatches` groups tracked events into requests; `VersionText` and
`ReleaseVersion` convert between version spellings and release tags; `WrapperArgs` parses and
completes the lint wrapper's arguments.

## Conventions

- Library functions whose inside does not matter are fields of a parameter: SHA-256, HMAC,
  `json.dumps` and `json.loads`, `str` on a non-string, `sorted`, file parsing. What a result
  needs of them is a named predicate (`Sha256`, `Faithful`, `Sane`, `Sorts`, `Lists`).
- Clocks, freshly drawn tokens, the allowlist in force and workspace snapshots are parameters of
  each operation. No result assumes that the clock advances unless it says so.
- Code that raises returns `Raise`; an unhashable dictionary key or set member raises.
- Where a source works in place or in a loop, a class or method does too and is proved equal to a
  function; the results are about that function.

## Where a plausible property is false

- The naming loop loses a pair when two fallback digests agree, and for names with a NUL in them
  that happens under every hash function: `ToolNames.NulCollision`, with the exact condition in
  `ToolNames.LosslessIff`.
- An attempt to rotate an expired token does not revoke it, so a clock that goes back lets it
  rotate after a new invitation: `SessionRuns.ExpiredAttemptRevives`, with the exact condition in
  `SessionRuns.RacedAttemptRevokesIff`.
- A compact baseline can fail a candidate that the full report passes:
  `SkippedBaseline.CompactFormFailsIt` has such a report for every suite with distinct versions and
  named scenarios, `Compaction.CompactionNeedsCoverage` the whole family and
  `Compaction.CompactionPreservesIff` the exact condition. The review gate has no such case.
- Two tools of the flattened list can have the same name: `ToolListNames.ImpostorCollides`, with the
  exact condition in `ToolListNames.NamesDistinctIff`.
- Normalising accepts an undocumented spelling of a beta, because one rewriting feeds the next:
  `ReleaseVersion.UndocumentedBeta`, with the exact accepted set in `ReleaseVersion.NormaliseIff`.
- Wrapping the wrapper's own output changes it when the manifest path to be added reads as the
  separator: `WrapperArgs.SeparatorPathExample`, with the exact condition in
  `WrapperArgs.WrapTwiceIff`.

## Model

| member | source | states |
|---|---|---|
| ToolNames.CleanChars | gateway/codex_gateway.py:81-83 | cleaning keeps the length and leaves only letters, digits, underscores and dashes |
| ToolNames.FlatNameSafe | gateway/codex_gateway.py:86-92 | every flat name is non-empty, at most 64 characters and only safe ones, for any namespace and name |
| ToolNames.FallbackNameSafe | gateway/codex_gateway.py:217-220 | a fallback name is safe and 19 characters long |
| ToolNames.FallbackNeverFlat | gateway/codex_gateway.py:86-92 | no fallback name equals the ordinary flat name of any pair |
| ToolNames.StepAssigns | gateway/codex_gateway.py:212-222 | after every iteration the key chosen for the next member is the one its pair has by first occurrence, whatever comes later |
| ToolNames.BuiltDescribes | gateway/codex_gateway.py:207-222 | after any members, with repeats and collisions, the mapping holds exactly the assigned names, each with the last member listed under it |
| ToolNames.BuiltInvertible | gateway/codex_gateway.py:207-222 | in every mapping that can be built no pair has two keys and every key is safe, so it can be read backwards |
| ToolNames.SamePairSameName | gateway/codex_gateway.py:207-222 | a pair gets the same key at every occurrence |
| ToolNames.LosslessIff | gateway/codex_gateway.py:207-222 | two different pairs never share a key if and only if the digests of the fallback names are separate |
| ToolNames.LastListingWins | gateway/codex_gateway.py:207-222 | with separate digests, the kind a pair is restored by is the one of its last listing |
| ToolNames.NulCollision | gateway/codex_gateway.py:213-222 | four members with NULs in their names for which a pair is lost under every hash function |
| ToolList.FlattenNamespace | gateway/codex_gateway.py:205-243 | the inner loop adds each member to the mapping and the tool list as specified, skipping what is not a dictionary |
| ToolList.Request.constructor | gateway/codex_gateway.py:188-192 | a request holds the payload's fields |
| ToolList.Request.FlattenTools | gateway/codex_gateway.py:188-251 | the payload's tools are replaced by the flattened list and nothing else changes; if it raises, nothing changes |
| ToolList.MemberAdvertised | gateway/codex_gateway.py:207-243 | one iteration extends the mapping by one member and advertises that member under its assigned name |
| ToolList.ToolsAdvertised | gateway/codex_gateway.py:188-251 | for any tool list, the stateful walk yields the mapping of all listed members in order and a tool list in which each appears exactly under its assigned name |
| ToolListNames.AdvertisedNames | gateway/codex_gateway.py:188-251 | the flattened list holds the request's own function tools and one function tool for each listing of a member, and no others |
| ToolListNames.MemberNamesDistinctIff | gateway/codex_gateway.py:207-222 | the members' names are distinct if and only if each pair is listed once and the fallback digests are separate |
| ToolListNames.NamesDistinctIff | gateway/codex_gateway.py:188-251 | no two function tools of the flattened list share a name if and only if the members' names are distinct, the request's own are, and no own tool has a member's name |
| ToolListNames.ImpostorCollides | gateway/codex_gateway.py:193-203 | a request with a function tool named like a namespaced one, which is advertised twice under that name |
| ToolList.GatewayRoundTrip | gateway/codex_gateway.py:188-412 | for the mapping of any tool list, both round trips hold for exactly the trees that conform, the second also in the form that runs no walk |
| ToolListMeaning.FlatNameIff | gateway/codex_gateway.py:81-92 | a flat name is the two cleaned names around two underscores if that has at most 64 characters, and otherwise its first 51, an underscore and the first 12 digits of the digest |
| ToolListMeaning.FallbackNameReads | gateway/codex_gateway.py:217-220 | a fallback name is `gw_` and the first 16 digits of the digest of the two names around a NUL |
| ToolListMeaning.ConvertedStands | gateway/codex_gateway.py:223-243 | the function tool for a member keeps every other field, and has the described text and, unless the member is a function, the one-string schema and strict mode |
| ToolListMeaning.OneStands | gateway/codex_gateway.py:223-243 | only one function tool stands for a member under a name in that sense |
| ToolListMeaning.FlattenedMeans | gateway/codex_gateway.py:188-251 | for any tool list, the flattened one is, tool by tool, the passed-on tools and for each namespace a function tool standing for each of its members under its assigned name |
| ToolListMeaning.RaisesIff | gateway/codex_gateway.py:193-207 | flattening raises if and only if some namespace lists its members in something that cannot be iterated |
| ToolCalls.Retyped | gateway/codex_gateway.py:338-412 | setting a node's type changes only the type, and the node is then read as that kind |
| ToolCallMeaning.FoldIsText | gateway/codex_gateway.py:358-365 | a tool result folds to the texts of its parts, first to last |
| ToolCallMeaning.FoldConcat | gateway/codex_gateway.py:360-365 | the fold of two lists of parts, one after the other, is the fold of the first followed by that of the second |
| ToolCallMeaning.OnePart | gateway/codex_gateway.py:360-365 | one part folds to its own text, or to nothing if that is false |
| ToolCallMeaning.NormaliseIff | gateway/codex_gateway.py:342-365 | what the mapping-independent part makes of a node, field by field: a completed status for assistant messages without one, one text for a foldable tool result, all else as it was |
| ToolCallMeaning.FlattenIff | gateway/codex_gateway.py:342-365 | what flattening makes of a call, field by field: its flat name and no namespace if its pair is advertised, and as a function call with the input wrapped if it was a custom one |
| ToolCallMeaning.RestoreIff | gateway/codex_gateway.py:378-404 | what restoring makes of a call or done event, field by field: the own name and namespace of its member, and for a custom member the input its arguments carry, or the argument text itself |
| ToolCallMeaning.NodeIff | gateway/codex_gateway.py:342-404 | in each walk a node is rewritten to given fields if and only if they are related to its own in that way; it raises where no fields are |
| ToolCallMeaning.WalkIff | gateway/codex_gateway.py:338-412 | for every tree and each walk, the outcome is a given tree if and only if node by node, from the root to the leaves, the two are related in that way |
| ToolCallRoundTrip.VisitKeepsShape | gateway/codex_gateway.py:338-412 | a walk keeps every value that is no list or dictionary, and keeps which nodes are lists and which dictionaries |
| ToolCallRoundTrip.FunctionCallRoundTrip | gateway/codex_gateway.py:347-353 | a flattened function call, its children walked, is recognised by its flat name and restored with its own fields |
| ToolCallRoundTrip.CustomCallRoundTrip | gateway/codex_gateway.py:347-357 | the same for a custom call with text input and no arguments, whose input goes through JSON text and back |
| ToolCallRoundTrip.ConformingRoundTrips | gateway/codex_gateway.py:338-412 | for every tree of any depth whose mapped calls match their member kind, whose other calls use no advertised name and whose done events already carry the member they name, restoring after flattening gives exactly the mapping-independent normal form |
| ToolCallRoundTrip.RoundTrippingConforms | gateway/codex_gateway.py:338-412 | only such trees come back as their normal form |
| ToolCallRoundTrip.RoundTripIff | gateway/codex_gateway.py:338-412 | restoring after flattening gives the normal form if and only if the tree conforms |
| ToolCallResend.SameTextsJoin | gateway/codex_gateway.py:360-365 | folding a tool result depends only on the texts of its parts |
| ToolCallResend.ConformingResends | gateway/codex_gateway.py:338-412 | flattening what was restored from a model's output gives it back up to the same normal form, for every tree whose nodes are resendable |
| ToolCallResend.ResendIff | gateway/codex_gateway.py:338-412 | flattening after restoring gives the normal form if and only if every node is resendable; for a foldable tool result that means that restoring does not raise in it and keeps the text it folds to |
| ToolCallPlainResend.RestoresIff | gateway/codex_gateway.py:376-412 | restoring raises in no node if and only if types and names can be looked up and the arguments of mapped custom calls are text or absent, wherever restoring keeps a node |
| ToolCallPlainResend.StableFoldIff | gateway/codex_gateway.py:358-365 | a foldable tool result with plain texts keeps the text it folds to if and only if restoring does not raise in it |
| ToolCallPlainResend.PlainResendIff | gateway/codex_gateway.py:338-412 | for every tree whose tool results have plain texts, flattening after restoring gives the normal form if and only if each node meets a condition on its own fields |
| ToolCallsInPlace.Node.OfDict | gateway/codex_gateway.py:338-412 | a dictionary over documents that share nothing is a document |
| ToolCallsInPlace.Node.OfList | gateway/codex_gateway.py:338-412 | a list over documents that share nothing is a document |
| ToolCallsInPlace.Node.Set | gateway/codex_gateway.py:346-365 | assigning a key changes that field of the document and no other, and keeps the tree |
| ToolCallsInPlace.Node.Pop | gateway/codex_gateway.py:353-357 | removing a key removes that field and no other, and keeps the tree |
| ToolCallsInPlace.FlattenNode | gateway/codex_gateway.py:350-357 | the assignments that flatten a call, in their order, amount to the flattened call |
| ToolCallsInPlace.RestoreNode | gateway/codex_gateway.py:384-394 | the assignments that restore a call amount to the restored call; arguments that are no text raise |
| ToolCallsInPlace.FlattenDict | gateway/codex_gateway.py:342-365 | a dictionary is rewritten in place as specified, touching no other node, and raises exactly when the specification does |
| ToolCallsInPlace.RestoreDict | gateway/codex_gateway.py:378-404 | the same for restoring |
| ToolCallsInPlace.WalkDict | gateway/codex_gateway.py:366-367 | rewriting a dictionary and then walking its remaining children in any order gives the specified document |
| ToolCallsInPlace.WalkList | gateway/codex_gateway.py:368-370 | walking the elements of a list in order gives the specified document |
| ToolCallsInPlace.Walk | gateway/codex_gateway.py:341-412 | the recursive in-place walk terminates, changes only nodes of the document, raises exactly when the value-level walk does and otherwise leaves exactly its result |
| ToolCallsInPlace.FlattenInputCalls | gateway/codex_gateway.py:338-373 | the request document becomes the flattened one in place |
| ToolCallsInPlace.RestoreOutputCalls | gateway/codex_gateway.py:376-412 | the response document becomes the restored one in place |
| OrderedDict.PutSpec | client/prompts/runtime_guard.py:154-181 | assigning a key of an insertion-ordered dictionary changes that key alone and appends only a new key |
| OrderedDict.RemoveSpec | client/prompts/runtime_guard.py:158-175 | removing a key removes that key alone |
| OrderedDict.DropFirstSpec | client/prompts/runtime_guard.py:180-181 | dropping the first entry loses the oldest key alone |
| Guard.GuardState.constructor | client/prompts/runtime_guard.py:128-133 | a new guard has no baseline and remembers nothing |
| Guard.GuardState.Load | client/prompts/runtime_guard.py:215-219 | a stored state is read back as it was |
| Guard.GuardState.Transition | client/prompts/runtime_guard.py:125-199 | the event handler updates the state and replies as the step function says, and a raising event changes nothing |
| Guard.GuardState.FinishCheck | client/prompts/runtime_guard.py:158-181 | a reported check leaves flight; success sets the verified snapshot and clears the count, failure clears the snapshot and counts up to three, evicting the oldest entries |
| Guard.NewestDropsOldest | client/prompts/runtime_guard.py:178-181 | the eviction loop keeps the newest sixteen entries |
| GuardRuns.AlwaysBounded | client/prompts/runtime_guard.py:154-181 | in every run pending calls and failure counts have at most sixteen entries each |
| GuardRuns.FlightOrigin | client/prompts/runtime_guard.py:144-159 | a call in flight was put there by the last accepted start of that call, with that event's snapshot |
| GuardRuns.FlightLost | client/prompts/runtime_guard.py:154-159 | a call stops being in flight only by its own report, or when another call starts while sixteen are in flight and no other has been so since an earlier start |
| GuardRuns.FlightsInOrder | client/prompts/runtime_guard.py:154-157 | in every run the calls in flight stand in the order of the accepted starts since which each has been in flight without a break |
| GuardRuns.SinceStart | client/prompts/runtime_guard.py:144-159 | that start is an accepted start of the call, and the call has been in flight after every event since |
| GuardRuns.FlightIff | client/prompts/runtime_guard.py:144-159 | in every run a call is in flight after an event if and only if the event starts it, or it was in flight and the event neither reports it nor starts a call while sixteen are in flight and this one has been so longest |
| GuardRuns.EvidenceIsVerified | client/prompts/runtime_guard.py:144-177 | if a check started and ended at a snapshot with exit code 0, and no check start was accepted and no check reported after its report, that snapshot is verified |
| GuardRuns.VerifiedHasEvidence | client/prompts/runtime_guard.py:144-177 | a verified snapshot always has such a check in its run, under any interleaving of parallel checks |
| GuardRuns.StopAllowedIff | client/prompts/runtime_guard.py:182-198 | in every run a stop is allowed if and only if the snapshot is the baseline, or has such evidence, or the final message admits the blocker |
| GuardRuns.BaselineIsFirstPrompt | client/prompts/runtime_guard.py:128-131 | the baseline is the snapshot of the first answered prompt |
| GuardRuns.BaselineFixed | client/prompts/runtime_guard.py:128-131 | once set, the baseline is the same after any longer run |
| GuardRuns.CountsFailures | client/prompts/runtime_guard.py:166-181 | in every run the stored count of a command and snapshot is the smaller of three and its failures since it last had no entry |
| GuardRuns.EntryLost | client/prompts/runtime_guard.py:166-181 | an entry disappears only by a success of its own check, or when another check without an entry fails while sixteen have one and no other has had its entry for longer |
| GuardRuns.EntryIff | client/prompts/runtime_guard.py:166-181 | in every run a check has an entry after an event if and only if the event reports its failure, or it had one and the event neither reports its success nor the failure of a check without one while sixteen have one and this one has had it longest |
| GuardRuns.FailuresInOrder | client/prompts/runtime_guard.py:178-181 | in every run the failure entries are ordered by the event since which each has been there, so the one evicted is the one that has been there longest |
| GuardRuns.JustUpdatedIsKept | client/prompts/runtime_guard.py:154-181 | the entry just updated is never the one evicted, in either dictionary |
| GuardRuns.DeniedIff | client/prompts/runtime_guard.py:144-153 | a check start is denied if and only if that check has failed three times or more since it last had no entry |
| GuardRuns.BlockRemembered | client/prompts/runtime_guard.py:188-198 | after a block the stop request stays recorded |
| GuardRuns.BlockOnce | client/prompts/runtime_guard.py:188-198 | in every run a guard blocks at most once |
| GuardRuns.StopRequestedIff | client/prompts/runtime_guard.py:188-198 | in every run a stop request is recorded if and only if some event of the run was blocked |
| GuardRuns.EveryReply | client/prompts/runtime_guard.py:125-199 | in every run the reply to the next event is the one its own fields and the events before it call for: when to raise, deny, allow, block or halt |
| GuardTable.GuardStore.constructor | client/prompts/runtime_guard.py:210-213 | the table starts empty |
| GuardTable.GuardStore.Handle | client/prompts/runtime_guard.py:202-227 | an event updates its own row with the time and the new state and the table is trimmed to its most recently updated 128 rows; a raising event leaves the table as it was |
| GuardTable.OtherRowsKept | client/prompts/runtime_guard.py:202-227 | a visit changes no other surviving row and a raising one changes nothing |
| GuardTable.RowIsRun | client/prompts/runtime_guard.py:202-227 | in every run of the table each row holds the state its own events since its creation lead to, so all results about runs apply to it |
| GuardTable.SurvivorsOrdered | client/prompts/runtime_guard.py:220-226 | with an increasing clock the rows, newest first, are the ids by last handled event |
| GuardTable.MostRecentSurvive | client/prompts/runtime_guard.py:220-226 | with an increasing clock the table holds an id if and only if it is one of the 128 most recently handled |
| SessionStore.InvitationStore.constructor | gateway/auth.py:45-71 | the store starts with no invitation and no token |
| SessionStore.InvitationStore.Invite | gateway/auth.py:73-87 | an invitation is added or renewed and enabled, and tokens are untouched |
| SessionStore.InvitationStore.Revoke | gateway/auth.py:89-104 | the invitation is disabled and exactly the login's unrevoked tokens are revoked now |
| SessionStore.InvitationStore.Invited | gateway/auth.py:205-214 | a login is invited if its invitation is enabled and has no expiry or a later one |
| SessionStore.InvitationStore.CreateRefreshToken | gateway/auth.py:127-145 | a fresh token is added for the login with the configured lifetime; a repeated hash raises and changes nothing |
| SessionStore.InvitationStore.RotateRefreshToken | gateway/auth.py:147-189 | a usable token of an allowed login is revoked and replaced in one transaction; one whose login is no longer allowed is revoked; any other attempt changes nothing |
| SessionStore.InvitationStore.RevokeRefreshToken | gateway/auth.py:191-197 | a live token is revoked and nothing else changes |
| SessionRuns.TokensKept | gateway/auth.py:127-197 | in every interleaving a token is never deleted, keeps its login and times, and is never un-revoked |
| SessionRuns.LastWordIff | gateway/auth.py:73-104 | the last word on a login is a given operation if and only if that one invites or revokes it and no later one does |
| SessionRuns.TableHoldsLastWord | gateway/auth.py:73-104 | in every interleaving the invitation of a login is the last one given, enabled unless a revocation came later |
| SessionRuns.TableIff | gateway/auth.py:73-104 | in every interleaving a login has a row if and only if it was ever invited, and the row is that of the last invitation with its times, disabled if and only if the login was revoked since |
| SessionRuns.LetInIff | gateway/auth.py:118-125 | in every interleaving a login is let in if and only if it is allowlisted or the last word on it is an invitation that has no expiry or a later one |
| SessionRuns.RotatedIff | gateway/auth.py:147-189 | a rotation succeeds if and only if the token is unrevoked and unexpired, its login is let in by the operations before and the drawn token is new, and answers with the login; it raises if and only if all but the last holds, and answers nothing to any other attempt |
| SessionRuns.RefusedIff | gateway/auth.py:147-175 | a rotation is refused for lack of an invitation if and only if the token is unrevoked and unexpired and its login is not let in by the operations before |
| SessionRuns.RevokedIff | gateway/auth.py:89-197 | a token is revoked if and only if some operation of the run ended it: its logout, its rotation or refusal, or the revocation of its login |
| SessionRuns.RevokedWhen | gateway/auth.py:89-197 | the recorded revocation time is that of the last operation that set it |
| SessionRuns.OpenIff | gateway/auth.py:222-239 | an exchange is under way for a login if and only if its last check passed for that login and it has not inserted since |
| SessionRuns.RevokedNeverRotates | gateway/auth.py:147-189 | a revoked token is never rotated from then on |
| SessionRuns.RotatedOnce | gateway/auth.py:147-189 | in every interleaving a refresh token is rotated successfully at most once |
| SessionRuns.RevokeKills | gateway/auth.py:89-104 | a token present when its login is revoked never rotates again, whatever is invited later |
| SessionRuns.NotInvited | gateway/auth.py:73-104 | after a revocation the login is not invited until it is invited again |
| SessionRuns.RacedCannotRotate | gateway/auth.py:147-175 | a token inserted by an exchange that raced the revocation cannot rotate until the login is invited again or allowlisted |
| SessionRuns.RacedAttemptKills | gateway/auth.py:147-175 | one such attempt kills the token for good, unless the clock later goes back across the token's expiry |
| SessionRuns.RacedAttemptRevokesIff | gateway/auth.py:147-175 | the attempt leaves the token revoked if and only if it was already revoked or not yet expired |
| SessionRuns.ExpiredAttemptRevives | gateway/auth.py:147-175 | a run in which the clock goes back and a token that was refused once rotates after all |
| SessionRuns.TokenMade | gateway/auth.py:127-189 | every token was made by one exchange or rotation, at that moment, and expires exactly the configured time later |
| SessionRuns.TokenThereIff | gateway/auth.py:127-189 | a token is there if and only if an exchange or rotation of the run made it |
| SessionRuns.InsertRaisesIff | gateway/auth.py:127-145 | inserting raises if and only if an earlier exchange or rotation made that token |
| SessionRuns.MadeOnce | gateway/auth.py:127-189 | no token is made twice |
| SessionRuns.GrantOrigin | gateway/auth.py:222-239 | an exchange under way passed its check for its login, which was allowed at that moment |
| SessionRuns.EveryTokenDescends | gateway/auth.py:147-189 | every token descends by rotations from the insertion of an exchange |
| SessionRuns.DescendantKeepsLogin | gateway/auth.py:147-189 | every descendant carries the login that exchange was checked for |
| SessionRuns.LiveTokensConserved | gateway/auth.py:89-197 | in every run a login's unrevoked tokens are its exchanges since the last revocation, minus logouts of live tokens, minus rotations refused for lack of an invitation; a successful rotation changes nothing |
| Base64Url.EncodeIsBare | gateway/auth.py:353-354 | encoding, padding and stripping the padding gives the bare symbols |
| Base64Url.EncodeBits | gateway/auth.py:353-354 | bit by bit as in section 5 of RFC 4648: symbol i is the letter of the alphabet numbered by bits 6i to 6i+5 of the bytes, filled up with zeros, and there are as many as the bits need |
| Base64Url.DecodeEncode | gateway/auth.py:353-361 | decoding undoes encoding for every byte string |
| Base64Url.DecodeIff | gateway/auth.py:357-361 | a text decodes to given bytes if and only if it is their encoding, although the decoder underneath is lenient |
| Base64Url.DecodeInjective | gateway/auth.py:357-361 | no two texts decode to the same bytes |
| AccessToken.JoinSplit | gateway/auth.py:304-308 | splitting a token at its dots loses nothing |
| AccessToken.SealedSegments | gateway/auth.py:288-301 | an issued token splits into exactly its three encoded segments |
| AccessToken.IssuedTokenLifetime | gateway/auth.py:288-323 | an issued token is accepted at every instant before its expiry, with this issuer and audience, its login, its times and its id as claims, and is expired at every instant from the expiry on |
| AccessToken.ReadIff | gateway/auth.py:304-323 | a token is accepted with given claims if and only if it is, character for character, the signed form of a right header and of those claims, and they are for this service and not expired; it is expired if and only if the same holds but for the expiry, and an uncaught error comes of signed claims that are no object |
| RegressionReport.StableNameSpec | scripts/mcp_conformance/run_codex_compliance.py:1446-1449 | exactly a decimal arrival number after the last number sign is dropped, and only if something precedes it; any other name is kept |
| RegressionLoops.CollectChecks | scripts/mcp_conformance/run_codex_compliance.py:1639-1664 | the loop over one case's checks merges statuses by identity, notes each malformed check and collects the observed scenarios |
| RegressionLoops.CollectTransportCases | scripts/mcp_conformance/run_codex_compliance.py:1593-1613 | the cases of a full report are indexed by mode and transport, with malformed and repeated ones noted |
| RegressionLoops.ReadRequiredModes | scripts/mcp_conformance/run_codex_compliance.py:1615-1679 | the loop over modes and transports reads every required case and notes every missing one |
| RegressionLoops.CompareCandidate | scripts/mcp_conformance/run_codex_compliance.py:1772-1781 | every failing identity of the candidate is listed, in order, as known or new, and shipping failures are errors |
| RegressionLoops.CompareBaseline | scripts/mcp_conformance/run_codex_compliance.py:1783-1798 | every identity of the baseline that lost its result is listed as missing and every repaired one as fixed |
| RegressionLoops.Evaluate | scripts/mcp_conformance/run_codex_compliance.py:1767-1809 | the two comparison loops together give the verdict of the specification |
| RegressionEvaluation.ReadIdentities | scripts/mcp_conformance/run_codex_compliance.py:1516-1554 | the loop over a bucket of a compact baseline adds each identity once under the bucket's status and notes malformed and repeated records |
| RegressionEvaluation.CheckCoverage | scripts/mcp_conformance/run_codex_compliance.py:1556-1590 | the closing loop notes exactly the missing catalogs, cases and scenarios, judged from the identities alone |
| RegressionEvaluation.RequiredRegressionChecks | scripts/mcp_conformance/run_codex_compliance.py:1459-1679 | any report, full or compact, yields exactly the errors and merged identities of the specification, and raises where it does |
| RegressionEvaluation.EvaluateRegressionGate | scripts/mcp_conformance/run_codex_compliance.py:1744-1809 | from the two reports to the verdict, the gate computes what the results below are about |
| RegressionClean.CheckIff | scripts/mcp_conformance/run_codex_compliance.py:1424-1664 | a check is read as an observation if and only if its own fields say it: source and status by their texts, a result that is false exactly for a failure, and the check id or else the name without its arrival number |
| RegressionClean.ChecksCleanIff | scripts/mcp_conformance/run_codex_compliance.py:1639-1664 | a case's checks leave no error if and only if each of them is well-formed, and then exactly what they say is observed |
| RegressionClean.CollectCleanIff | scripts/mcp_conformance/run_codex_compliance.py:1593-1613 | the case list leaves no error if and only if every case is an object and those of required versions name a transport, each pair once; the table then holds exactly those |
| RegressionClean.FullCleanIff | scripts/mcp_conformance/run_codex_compliance.py:1459-1679 | a full report has no error if and only if its header is right, its cases are in order and every required version ran its catalog and has a good case for both transports |
| RegressionClean.FullObserves | scripts/mcp_conformance/run_codex_compliance.py:1614-1679 | what is observed in such a report is exactly what the checks of its required cases say |
| GateRelation.NoWorseIff | scripts/mcp_conformance/run_codex_compliance.py:1772-1801 | the four lists are acceptable if and only if, identity by identity, nothing newly fails, nothing that ran is gone and shipping does not fail |
| GateRelation.NoWorseReflexive | scripts/mcp_conformance/run_codex_compliance.py:1772-1801 | without shipping failures every set of results is no worse than itself |
| GateRelation.NoWorseTransitive | scripts/mcp_conformance/run_codex_compliance.py:1772-1801 | being no worse is transitive over all status sets |
| GateRelation.SkipsDoNotMatter | scripts/mcp_conformance/run_codex_compliance.py:1772-1798 | dropping skips from the baseline changes none of the four lists |
| RegressionGate.PassesIff | scripts/mcp_conformance/run_codex_compliance.py:1744-1809 | the gate passes if and only if both reports are usable under one sign-in policy and the candidate is no worse |
| RegressionGate.GateReflexive | scripts/mcp_conformance/run_codex_compliance.py:1744-1809 | a usable report without shipping failures passes against itself |
| RegressionGate.GateTransitive | scripts/mcp_conformance/run_codex_compliance.py:1744-1809 | if C passes against B and D against C then D passes against B |
| RegressionVerdict.RecordIff | scripts/mcp_conformance/run_codex_compliance.py:1522-1547 | a record of a compact baseline is read as an identity if and only if its fields spell it and its version is required |
| RegressionVerdict.BucketCleanIff | scripts/mcp_conformance/run_codex_compliance.py:1516-1554 | a bucket leaves no error if and only if each record spells a required identity and none is spelled twice, and then exactly those are read |
| RegressionVerdict.CompactCleanIff | scripts/mcp_conformance/run_codex_compliance.py:1459-1590 | a compact baseline has no error if and only if its header, versions, transports and buckets are right and every required case and scenario is spelled in it; what is observed is then what its buckets spell |
| RegressionVerdict.UsableIff | scripts/mcp_conformance/run_codex_compliance.py:1459-1765 | a report of either form can be used if and only if the document itself is in order and records its sign-in policy |
| RegressionVerdict.StatedIff | scripts/mcp_conformance/run_codex_compliance.py:1459-1679 | the results the gate compares are exactly those the document states |
| RegressionVerdict.GateIff | scripts/mcp_conformance/run_codex_compliance.py:1744-1809 | the gate passes if and only if both documents are in order under one sign-in policy and, by what they state, nothing newly fails, nothing that ran is gone and shipping does not fail |
| RegressionShown.ShownIff | scripts/mcp_conformance/run_codex_compliance.py:1459-1679 | of any report on which reading does not raise exactly the results are read that it shows: those of the well-formed checks of the first case for each required version and transport, or of the well-formed records of a compact baseline |
| RegressionShown.UsableShows | scripts/mcp_conformance/run_codex_compliance.py:1459-1679 | a report in order shows exactly what it states |
| RegressionShown.ListsIff | scripts/mcp_conformance/run_codex_compliance.py:1772-1798 | for any two reports the gate gives a verdict on, also with errors, each of the four lists holds an identity if and only if the two documents show the results that list is for, once and in order |
| RegressionErrors.ProblemIff | scripts/mcp_conformance/run_codex_compliance.py:1459-1679 | for each kind of error and any report on which reading does not raise, the error is noted if and only if the document has that fault, spelled out by its fields |
| RegressionErrors.ErrorsIff | scripts/mcp_conformance/run_codex_compliance.py:1744-1801 | for any two reports the gate gives a verdict on, it gives an error if and only if what the error says about them is so |
| RegressionVerdict.NewFailureFails | scripts/mcp_conformance/run_codex_compliance.py:1772-1801 | a candidate stating a failure that the baseline does not state never passes |
| RegressionVerdict.CompactsIff | scripts/mcp_conformance/run_codex_compliance.py:1682-1726 | a report compacts if and only if its document is in order and states no shipping failure |
| RegressionVerdict.CompactFormStates | scripts/mcp_conformance/run_codex_compliance.py:1682-1726 | the compact form states exactly the results the report states, without the skipped ones |
| RegressionShown.CompactDocument | scripts/mcp_conformance/run_codex_compliance.py:1682-1726 | the compact baseline of a report, field by field: which fields it has, their texts, the catalogs and the two lists of records, each once and in order |
| RegressionCrash.CheckRaisesIff | scripts/mcp_conformance/run_codex_compliance.py:1424-1664 | reading a check raises if and only if its source is a list or dictionary, or its status is and the rest of it is well-formed |
| RegressionCrash.RaisesIff | scripts/mcp_conformance/run_codex_compliance.py:1459-1679 | reading a report raises if and only if a list or dictionary stands where a text is looked up: in the transports or records of a compact baseline, or in a check of the first case for a required version and transport |
| RegressionCrash.GateRaisesIff | scripts/mcp_conformance/run_codex_compliance.py:1744-1766 | there is no verdict if and only if one of the two reports is such a document |
| ReportFacts.CleanFacts | scripts/mcp_conformance/run_codex_compliance.py:1459-1679 | a report without errors, full or compact, is well-formed, covers every required case and scenario and ran the catalog |
| ReportFacts.CoverageIff | scripts/mcp_conformance/run_codex_compliance.py:1556-1590 | the coverage checks note nothing if and only if every mode ran its catalog and every case and scenario was observed |
| Compaction.CompactFormReads | scripts/mcp_conformance/run_codex_compliance.py:1682-1726 | reading a compact form gives back exactly the observations that were not skipped |
| Compaction.CompactedReading | scripts/mcp_conformance/run_codex_compliance.py:1682-1726 | the compact form of a report has its identities without skips and its sign-in policy, and is free of errors if and only if coverage does not rest on skips |
| Compaction.CompactionPreserves | scripts/mcp_conformance/run_codex_compliance.py:1682-1726 | under that condition gating any candidate against the compact form gives the same verdict, errors and four lists as against the full report |
| Compaction.CompactionNeedsCoverage | scripts/mcp_conformance/run_codex_compliance.py:1682-1726 | without it the compact form fails the baseline itself, which the full report passes |
| SkippedBaseline.CompactFormFailsIt | scripts/mcp_conformance/run_codex_compliance.py:1682-1726 | for every suite with distinct versions and named scenarios, a report in which all of it was observed and skipped compacts, passes against itself and fails against its own compact form |
| Compaction.CompactionPreservesIff | scripts/mcp_conformance/run_codex_compliance.py:1682-1726 | compaction keeps the decision for every candidate if and only if every required case and scenario has a check that was not skipped |
| Compaction.CompactAgain | scripts/mcp_conformance/run_codex_compliance.py:1682-1726 | under the same condition compacting again changes nothing, and without it it raises |
| ReviewLoops.CollectRequiredCases | scripts/mcp_conformance/review_regressions.py:886-903 | the loop over a compact baseline's cases collects each once and notes malformed and repeated ones |
| ReviewLoops.CollectRecords | scripts/mcp_conformance/review_regressions.py:909-938 | the loop over a bucket records each valid identity once with the bucket's result |
| ReviewLoops.CollectChecks | scripts/mcp_conformance/review_regressions.py:969-988 | the loop over a case's checks records each once and computes the case's success |
| ReviewLoops.CollectCases | scripts/mcp_conformance/review_regressions.py:940-993 | the loop over a full report's cases accepts each required case once and notes every disagreement |
| ReviewLoops.RequiredReviewChecks | scripts/mcp_conformance/review_regressions.py:859-1029 | any report yields exactly the errors and check results of the specification |
| ReviewLoops.CompareCandidate | scripts/mcp_conformance/review_regressions.py:1087-1093 | every failing check is listed, in order, as known or new |
| ReviewLoops.CompareBaseline | scripts/mcp_conformance/review_regressions.py:1095-1100 | every vanished check is listed as missing and every repaired one as fixed |
| ReviewLoops.EvaluateReviewGate | scripts/mcp_conformance/review_regressions.py:1070-1110 | from the two reports to the verdict, the gate computes what the results below are about |
| ReviewClean.ResultsListed | scripts/mcp_conformance/review_regressions.py:969-988 | the results of a case are exactly its checks, each with its own result |
| ReviewClean.AllResultsListed | scripts/mcp_conformance/review_regressions.py:940-993 | the results of a report are exactly those of its cases |
| ReviewClean.FullCleanIff | scripts/mcp_conformance/review_regressions.py:859-1029 | a full report has no error if and only if its header is right, it has exactly the required cases, each in order, and its totals and success agree with their results; its checks are then those results |
| ReviewClean.TotalsIff | scripts/mcp_conformance/review_regressions.py:995-1029 | the totals agree if and only if the five numbers count the passed, failed and all checks and the passed and all cases |
| ReviewVerdict.RequiredIff | scripts/mcp_conformance/review_regressions.py:886-903 | the case list of a compact baseline leaves no error if and only if each entry names a case and none is named twice |
| ReviewVerdict.RecordsIff | scripts/mcp_conformance/review_regressions.py:909-938 | a bucket leaves no error if and only if each record spells a check of a required case under the review prefix that was not read before, and then exactly those are added with the bucket's result |
| ReviewVerdict.UsableIff | scripts/mcp_conformance/review_regressions.py:859-1029 | a report of either form has no error if and only if the document itself is in order |
| ReviewVerdict.GateIff | scripts/mcp_conformance/review_regressions.py:1070-1110 | the gate passes if and only if both documents are in order and, by what they state, nothing newly fails and no check is gone |
| ReviewShown.ShownIff | scripts/mcp_conformance/review_regressions.py:859-1029 | of any report exactly the results are read that it shows: of each required case the first, of each name in it the first well-formed check, or the well-formed records of a compact baseline, passing before failing |
| ReviewShown.UsableShows | scripts/mcp_conformance/review_regressions.py:859-1029 | a report in order shows exactly what it states |
| ReviewShown.ListsIff | scripts/mcp_conformance/review_regressions.py:1087-1100 | for any two reports, also with errors, each of the four lists holds a check if and only if the two documents show the results that list is for, once and in order |
| ReviewErrors.ProblemIff | scripts/mcp_conformance/review_regressions.py:859-1029 | for each kind of error and any report, the error is noted if and only if the document has that fault, spelled out by its fields |
| ReviewErrors.ErrorsIff | scripts/mcp_conformance/review_regressions.py:1070-1110 | for any two reports the gate gives an error if and only if the report it is about has that fault |
| ReviewVerdict.CompactFormStates | scripts/mcp_conformance/review_regressions.py:1032-1067 | a report compacts if and only if its document is in order, and the compact form states exactly the same results |
| ReviewShown.CompactDocument | scripts/mcp_conformance/review_regressions.py:1032-1067 | the compact baseline of a report, field by field: which fields it has, their texts, the totals, the required cases and the two lists of records, each once and in order |
| ReviewCompaction.PassesIff | scripts/mcp_conformance/review_regressions.py:1070-1110 | the gate passes if and only if neither report has an error, nothing newly fails and no check is gone |
| ReviewCompaction.GateReflexive | scripts/mcp_conformance/review_regressions.py:1070-1110 | a report without errors passes against itself |
| ReviewCompaction.GateTransitive | scripts/mcp_conformance/review_regressions.py:1070-1110 | passing is transitive |
| ReviewCompaction.CleanFacts | scripts/mcp_conformance/review_regressions.py:995-1029 | a report without errors observed exactly the required cases and agrees with its own totals |
| ReviewCompaction.CompactScanned | scripts/mcp_conformance/review_regressions.py:1032-1067 | a compact form reads back as exactly the results it was made from, with all required cases |
| ReviewCompaction.CompactClean | scripts/mcp_conformance/review_regressions.py:1032-1067 | the compact form of a report without errors has no error and the same results |
| ReviewCompaction.CompactionPreserves | scripts/mcp_conformance/review_regressions.py:1032-1110 | for every baseline that compacts and every candidate the verdict, errors and lists are the same against the compact form |
| ReviewCompaction.CompactAgain | scripts/mcp_conformance/review_regressions.py:1032-1067 | compacting again changes nothing |
| ReviewCompaction.CompactsIff | scripts/mcp_conformance/review_regressions.py:1032-1040 | a report compacts if and only if it has no error |
| AgentRoles.LoadWithoutLayers | codex-rs/agent-roles/src/loader.rs:125-145 | the strict loop accepts each declaration or fails at the first unreadable, undescribed or repeated one |
| AgentRoles.DeclareRoles | codex-rs/agent-roles/src/loader.rs:46-73 | the loop over a layer's declarations fills the layer's roles, the declared files and the warnings as specified |
| AgentRoles.DiscoverRoles | codex-rs/agent-roles/src/loader.rs:290-335 | the loop over a folder's role files skips declared ones, warns about unreadable and repeated ones and keeps the rest |
| AgentRoles.LoadLayer | codex-rs/agent-roles/src/loader.rs:35-98 | one layer's declarations and files are combined as specified; only an unlistable folder is an error |
| AgentRoles.MergeLayer | codex-rs/agent-roles/src/loader.rs:100-113 | the loop over a layer's roles merges each into the result or drops it with a warning |
| AgentRoles.LoadLayers | codex-rs/agent-roles/src/loader.rs:34-117 | the loop over the layers computes the load of the specification |
| AgentRoles.LoadAgentRoles | codex-rs/agent-roles/src/loader.rs:23-117 | with layers the layered loader runs, without any the strict one |
| RoleResults.RolesResolve | codex-rs/agent-roles/src/loader.rs:34-117 | for any stack of layers each field of a role is the last value set by a definition from the first described one on, and the definitions before that are reported once each and otherwise ignored |
| RoleResults.RoleExistsIff | codex-rs/agent-roles/src/loader.rs:100-117 | a role exists if and only if some layer's accepted definition of it has a description |
| RoleResults.MergeNamesPerName | codex-rs/agent-roles/src/loader.rs:100-113 | a layer changes each role it names once, whatever the order of its names |
| RoleResults.LoadFailsIff | codex-rs/agent-roles/src/loader.rs:75-82 | the layered loader fails if and only if some layer's folder cannot be listed |
| RoleLayers.LayerTakesFirst | codex-rs/agent-roles/src/loader.rs:46-98 | a layer's definition of a role is its first readable declaration of that name, or else its first readable undeclared file of that name |
| RoleLayers.DeclareReports | codex-rs/agent-roles/src/loader.rs:46-73 | the warnings are, declaration by declaration and in order: that it cannot be read, that an earlier readable one has its name, or none |
| RoleLayers.UnreportedIsRole | codex-rs/agent-roles/src/loader.rs:46-73 | a declaration without a warning is the layer's role of its name |
| RoleLayers.RoleIsUnreported | codex-rs/agent-roles/src/loader.rs:46-73 | every declared role is that of one declaration without a warning, and every other readable one of its name has the duplicate warning |
| RoleLayers.DiscoverReports | codex-rs/agent-roles/src/loader.rs:290-335 | the warnings on role files are, file by file and in order: that it cannot be read, that an earlier readable undeclared one has its name, or none |
| RoleLayers.AddFoundReports | codex-rs/agent-roles/src/loader.rs:76-97 | a discovered role gets the duplicate warning if and only if a declaration has its name |
| RoleLayers.LayerReports | codex-rs/agent-roles/src/loader.rs:35-98 | the warnings of a layer are exactly these, in this order, after the one on declarations that do not parse |
| RoleLayers.LayerAccounts | codex-rs/agent-roles/src/loader.rs:35-98 | the roles and warnings of a layer are together as many as its declarations and undeclared role files |
| RoleLayers.DeclareAccounts | codex-rs/agent-roles/src/loader.rs:46-73 | the roles and warnings of the declarations are together as many as the declarations |
| RoleLayers.StrictIffSilent | codex-rs/agent-roles/src/loader.rs:125-145 | the strict loader succeeds with given roles if and only if the layered one, on the same declarations as its only layer, gives those roles without a warning |
| RoleMeaning.DeclaresIff | codex-rs/agent-roles/src/loader.rs:147-166 | a declaration is read as a role if and only if its settings are valid and, with a role file, the file can be read: the file's name, and its description and nicknames before the declaration's own |
| RoleMeaning.DeclaredFilesIff | codex-rs/agent-roles/src/loader.rs:46-60 | a file counts as declared if and only if some readable declaration refers to it, also one whose name is taken |
| RoleMeaning.DefinitionIff | codex-rs/agent-roles/src/loader.rs:35-98 | the role a layer defines is that of the first declaration of the name or, without one, that of the first role file of the name that no declaration refers to |
| RoleMeaning.LoadReports | codex-rs/agent-roles/src/loader.rs:34-117 | all warnings of any stack of layers, in order: for each layer those within it and then each role it names that neither it nor a lower layer describes |
| EventBatches.TrackEventRequestBatches | codex-rs/analytics/src/client.rs:845-866 | for every event list the batches concatenate to it, none is empty, isolated events are alone, and no other such split has as few batches |
| EventBatches.GroupHolds | codex-rs/analytics/src/client.rs:845-866 | at every point of the loop the closed batches are legal, the open one has no isolated event and nothing is lost |
| EventBatches.GroupIsFewest | codex-rs/analytics/src/client.rs:845-866 | every other legal split has at least as many batches, and one with as many is the same split |
| EventBatches.Retain | codex-rs/analytics/src/client.rs:831-832 | under an API key the events are filtered in order |
| EventBatches.SendTrackEvents | codex-rs/analytics/src/client.rs:819-843 | the requests sent are the fewest legal batches of exactly the events that may be sent: all under a backend sign-in, the filtered ones under an API key, none otherwise |
| EventBatches.KeptExactly | codex-rs/analytics/src/events.rs:156-170 | each event that may be sent is kept as often as it was tracked and no other is |
| EventBatches.SendableIff | codex-rs/analytics/src/events.rs:156-170 | an event may be sent if and only if there is a sign-in and it names a plugin, under an API key, or the sign-in uses the backend, otherwise |
| EventBatches.KeptInOrder | codex-rs/analytics/src/client.rs:819-843 | whether an event is kept depends on that event alone, and those kept stay in order |
| VersionText.ScanIff | sdk/python/release_version.py:10-12 | the normalised pattern accepts exactly the texts of well-formed versions, and each text is that of one version |
| VersionText.MatchWordIff | sdk/python/release_version.py:76-78 | a prerelease suffix matches if and only if the text ends in the word, an optional dot and a number, and the match is unique |
| VersionText.MatchHotfixIff | sdk/python/release_version.py:75 | the same for the alpha hotfix suffix with its two numbers |
| ReleaseVersion.NormaliseIff | sdk/python/release_version.py:68-82 | a text normalises to a version if and only if, stripped and without its prefix, it is one of that version's spellings |
| ReleaseVersion.StripIff | sdk/python/release_version.py:69 | stripping gives the one text between spaces that neither starts nor ends in one |
| ReleaseVersion.SpaceIff | sdk/python/release_version.py:69 | the characters stripping removes, by their code points |
| ReleaseVersion.BaseIff | sdk/python/release_version.py:10-12 | the base of a version is one or more numbers joined by dots |
| ReleaseVersion.UnprefixedIff | sdk/python/release_version.py:70-73 | one `rust-v` or one `v` is taken off, and nothing else |
| ReleaseVersion.NormaliseIdempotent | sdk/python/release_version.py:68-82 | normalising again changes nothing |
| ReleaseVersion.TagRoundTrip | sdk/python/release_version.py:45-82 | for every accepted text the release tag normalises to the same version, and a tag is its own tag |
| ReleaseVersion.TagsIdentify | sdk/python/release_version.py:45-82 | two accepted texts get the same tag if and only if they normalise to the same version |
| ReleaseVersion.TagIff | sdk/python/release_version.py:45-82 | a text gets a given tag if and only if, stripped and without its prefix, it spells a version whose release tag is that text: the base alone, with a numbered alpha, beta or candidate, with an alpha and its hotfix, or the plain text of any other post-release |
| ReleaseVersion.UndocumentedBeta | sdk/python/release_version.py:75-78 | a text that no documented spelling covers and that is accepted as a beta |
| ReleaseVersion.ResolveRoundTrip | sdk/python/release_version.py:35-42 | every stable, alpha or alpha post-release runtime version resolves to itself and a tag that normalises back to it |
| ReleaseVersion.ResolveIff | sdk/python/release_version.py:35-65 | a text resolves to a tag if and only if it is three dotted numbers, alone, with an alpha, or with an alpha and a post-release, and the tag is the matching release, numbered alpha or hotfix; it resolves to itself |
| ReleaseVersion.ResolveInjective | sdk/python/release_version.py:35-42 | two runtime versions never resolve to the same tag |
| WrapperArgs.ParseWrapperArgs | tools/argument-comment-lint/wrapper_common.py:55-104 | the loop finds exactly what the arguments say: how the first separator splits them, which flags some argument before it sets, which option is left waiting and whether an argument after it selects targets |
| WrapperArgs.ParseIff | tools/argument-comment-lint/wrapper_common.py:55-104 | parsing gives a result if and only if the result is what the arguments say in that sense |
| WrapperArgs.SplitExact | tools/argument-comment-lint/wrapper_common.py:60-73 | the two parts and the separator between them are all the arguments |
| WrapperArgs.FlagsIff | tools/argument-comment-lint/wrapper_common.py:75-102 | each flag is set if and only if some argument before the separator sets it by its spelling, or as the value of the option before it; an option at the end is left waiting |
| WrapperArgs.TargetIff | tools/argument-comment-lint/wrapper_common.py:22-32 | the cargo arguments that select targets are seven words, and four options with or without a value |
| WrapperArgs.BuildFinalArgs | tools/argument-comment-lint/wrapper_common.py:107-122 | the final arguments, word by word: the missing defaults, the lint arguments, and a separator with the cargo arguments and, unless fixes or targets were asked for, all targets; without any of these no separator |
| WrapperArgs.BuildIff | tools/argument-comment-lint/wrapper_common.py:107-122 | for every parsed input there is one such list and it is the one built |
| WrapperArgs.ParseBuilt | tools/argument-comment-lint/wrapper_common.py:55-122 | parsing the final arguments finds the missing defaults, word by word, before the caller's arguments, whose meaning is unchanged, and all targets after the cargo arguments unless fixes or targets were asked for |
| WrapperArgs.WrapTwiceIff | tools/argument-comment-lint/wrapper_common.py:55-122 | for every argument list, including dangling options and separators among the cargo arguments, wrapping the output again returns it if and only if the manifest path is not the separator or was given |
| WrapperArgs.SeparatorPathExample | tools/argument-comment-lint/wrapper_common.py:107-122 | with no arguments and the separator as manifest path the output changes when it is wrapped again |

## Left out

- Key order of JSON objects and of Python dictionaries, except where the guard's eviction depends on it.
- Documents in which one dictionary or list occurs twice: the in-place walks are for trees, as decoding JSON yields.
- What is left of a document, a payload or an error list when the code raises half-way through.
- ToolCallResend.ResendIff: where a text of a foldable tool result is itself a list or dictionary, the condition compares the folded texts and so runs the restoring walk on it, because Python's `str` of the result decides.
- SHA-256, HMAC, JSON text and `str` of non-strings: parameters with the assumptions named above; the hash is not assumed free of collisions.
- Normalising logins, reading the allowlist from the environment and generating random tokens (`gateway/auth.py`): inputs of the operations.
- HTTP, streaming, routing, metrics, subprocesses, SQLite and git: tables are maps and transactions single steps.
- Taking a workspace snapshot and recognising a check command (`client/prompts/runtime_guard.py`): opaque inputs of an event.
- Lifting additional tools, dropping guardian tools and the model catalogue (`gateway/codex_gateway.py`): list filters that would only add easy members.
- Running the conformance suites and building their reports (`scripts/mcp_conformance`): the gates start from a report.
- Parsing and validating a role file or declaration (`codex-rs/agent-roles`): a function from path to result.
- Messages of warnings and errors: each kind is a constructor with what it is about.
- Sending a batch, retries and the event reducer (`codex-rs/analytics`).
- Lint environment variables and toolchain lookup (`tools/argument-comment-lint`).
- The agent graph store, agent identity, model multiplexer, packaging and benchmark code.
