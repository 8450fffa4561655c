# Verified models of tiauth, tiauth2 and borink-kv

This project models the parts of the repository whose correctness does not show in any single function body, and proves
what they promise over every input, every run or every interleaving. Each file holds one module; `dafny verify
dfyconfig.toml` checks all of them.

What is modelled, in the order of the table below:

- **The append-only map** (`Probing`, `OpenTable`, `AppendOnlyMap`, `ConcurrentViews`, `ConcurrentProgress`):
  write-once slots, triangular probing, one writer and any number of views. A `get` is run one slot read at a time, and so
  is an insert, with the steps of all threads interleaved freely. The hash is an arbitrary function.
- **The compact "already seen" set** (`CompactRange`, `CompactSpec`, `CompactRuns`, `CompactRefusals`, `CompactSize`,
  `CompactMixed`, `CompactSet`, `CompactRepair`, `SavedSet`, `SavedGrammar`): fixed-size ranges, fill-up, merges, expiry stamps and expiry
  collapse, for every range size from 2 to 255.
- **The atomic dynamic bit set** (`AtomicBitSet`, `BitSetProtocol`, `BitSetProgress`): words of 64 bits, and any number of
  concurrent callers whose vector reads, pushes (reserving a place and publishing a word) and `fetch_or`s are single
  steps.
- **Refresh-token rotation** (`RefreshTable`, `RefreshProtocol`, `RefreshReuse`, `RefreshFamilies`): section 6 of RFC 6749
  with the reuse detection of section 4.14.2 of RFC 9700. Every request is a read, a check and one transaction.
  Transactions are serializable, row ids are never reused, family ids are fresh, and only tokens that were handed out
  decrypt.
- **Claims** (`Entries`, `Subset`, `SubsetOrder`, `SubsetMisses`, `ClaimsMaps`, `Claims`, `ClaimsAdding`, `ClaimsRemoving`,
  `ClaimsSelection`, `ByteOrder`): sorted insertion and removal, and the two selection algorithms with the order of what
  they return, for keys under any strict total order.
- **Encoders and decoders** (`Base64Url`, `Combining`, `FixedWidth`, `ProofCodec`, `MessagePack`, `Utf8Text`, `Names`,
  `Records`, `WireGrammar`, `WireFormats`, `RecordExamples`): base64url streamed over slices, proofs as text, and the
  MessagePack records with the grammar of what is read, and the test vectors and tables of the standards.
- **Ephemeral and session keys** (`KeyWindow`): the sliding window of keys derived from the time.
- **Credentials** (`Credentials`, `CredentialFlows`, `CredentialOrigins`, `CutOff`, `RegisterPanic`, `LoginOnce`):
  registration, login, sessions and change of password as interleaved requests, with ideal encryption and a hash that is
  injective where that is said.
- **Prefix search** (`PrefixRange`): the upper bound of a prefix range and the metadata layout of the key-value store.

Rows of the table that begin with "One step:" or "One call:" are building blocks; the results over runs rest on them.

Operations that update in place are methods of classes with the source's fields; each is proved against a function of
the old state, and the lemmas about that function carry the results. A Rust panic is an outcome of its own (a `Panic`
or `GetPanic` constructor, or `None` where a comment says so), so that "never panics" and "panics exactly when" are
theorems and not preconditions.

## What the code does differently from what it says

- `AppendOnlyArcMap::new` announces a load below 75%. Both branches allocate the next power of two, so a requested
  power of two leaves no slot spare, and looking up an absent key in the full table reaches the panic
  (`OpenTable.NoSpareSlotExactly`, `OpenTable.AbsentLookupPanicsExactly`). `used` never grows, so `CapacityError` cannot
  occur.
- The growing branch of `add_num_ranges` does not record the number it grows for, and starts a new range on the upper
  end of the last one, so that a recorded boundary number is forgotten. "Accepted at most once" holds exactly below the
  upper end (`CompactRuns.AcceptedOnceExactly`). `CompactRepair` is a repair and not the code.
- `subset_linear` waits for ever for an absent key, `remove_claims` does the same, and `subset_binary_split` gives up
  both halves around an absent middle key. The exact conditions are stated with the presence of the keys.
- `combine_encode` indexes past the end when one left-over byte meets a one-byte slice.
- `prefix_range` writes to index 0 of an empty vector when no byte is below 255, and with a carry its range also holds
  some strings shorter than the prefix.
- The presentation of a consumed refresh token revokes its family exactly when the request reads the table after the row
  is gone (`RefreshReuse.ReuseDetectedExactly`). Two refreshes that race on one token can both read it before: the loser
  gets an error, and the family lives on (`RefreshReuse.RaceGoesUndetected`). The comment at
  `tiauth2/src/data/refresh.rs:65` is outdated: the transaction does fail when the row is gone.
- A change of password cuts off what was made under the old file, except for requests that have already read that file
  and hold something good that is bound to it (`CutOff.CutOffExactly`, `CutOff.RaceIsReachable`).
- `user_change_ephemeral` unwraps the check of a new user's token. That is safe if and only if `valid` intervals and the
  gap between the two clock readings together do not exceed two intervals and the leeway
  (`RegisterPanic.NeverPanicsExactly`): with two valid keys, the default, that means readings at most the leeway apart, and
  with more it is never safe.
- The two selection algorithms find the same entries when all wanted keys are there, but not in the same order: the binary
  split emits the middle first, so that for two or more keys its output is out of key order. The exact condition, with
  wanted keys that are not there too, is `SubsetOrder.InOrder`. `subset_serialize` keeps the order of emission, and
  `check_session` rejects the claims as unsorted where it is out of order (`ClaimsSelection.SubsetSerialize`).
- Login tokens, which live a minute, and proof tokens, which live twelve hours, draw on one counter and one compact set.
  The comment above `add_num` takes it for granted that lower numbers expire no later. Refusals are right exactly when
  that holds from slot to slot (`CompactRefusals.RefusalsExplainedExactly`), and with the two lifetimes it does not: a proof
  token that was never presented and has not expired can be refused (`CompactMixed.LifetimesMixed`).
- `EphemeralContent::deserialize` panics where the type string cannot be read, and every other malformed field is an
  error, an unknown type name among them (`Records.EphemeralPanicsExactly`).

## Model

| member | source | states |
|---|---|---|
| Probing.ProbeStep | tiauth/tiauth-core/src/appendonly.rs:336-339 | Stepping the index by 1, 2, 3, … modulo the capacity stays on h + j(j+1)/2. |
| Probing.ProbeInjective | tiauth/tiauth-core/src/appendonly.rs:319-340 | In a table of 2^m slots no two of the first 2^m rounds look at the same slot, for every hash. |
| Probing.ProbeVisitsEverySlotOnce | tiauth/tiauth-core/src/appendonly.rs:319-340 | Every slot of a power-of-two table is looked at in exactly one round of a full iteration. |
| OpenTable.GetIsMapLookup | tiauth/tiauth-core/src/appendonly.rs:296-341 | A lookup hits exactly for the keys of the abstract map, with their value, and reaches the panic exactly when the table is full and the key is absent. |
| OpenTable.InsertIsFirstWrite | tiauth/tiauth-core/src/appendonly.rs:235-249 | An insert is a first-write-wins update of the abstract map: a present key returns its first value and changes nothing, a new key is added and every other key stays findable; it panics exactly on a new key in a full table and never reports a capacity error. |
| OpenTable.KeysAreUnique | tiauth/tiauth-core/src/appendonly.rs:242-248 | No key occupies two slots. |
| OpenTable.FullWhenCounted | tiauth/tiauth-core/src/appendonly.rs:321-324 | The table is full exactly when it holds as many keys as it has slots. |
| OpenTable.CapacityIsNextPowerOfTwo | tiauth/tiauth-core/src/appendonly.rs:211-218 | Both branches allocate the next power of two: at least the requested capacity and less than twice it. |
| OpenTable.NoSpareSlotExactly | tiauth/tiauth-core/src/appendonly.rs:211-218 | No slot is spare exactly for a requested power of two, and there the promised load factor fails. |
| OpenTable.TableRefinesFirstWrites | tiauth/tiauth-core/src/appendonly.rs:238-304 | After every history of inserts the table is the first-write-wins map of that history; a history panics exactly when it has more distinct keys than slots. |
| OpenTable.RequestedKeysFit | tiauth/tiauth-core/src/appendonly.rs:200-249 | As many distinct keys as were requested can always be inserted, without panic or capacity error. |
| OpenTable.AbsentLookupPanicsExactly | tiauth/tiauth-core/src/appendonly.rs:321-324 | With at most the requested keys inserted, looking up another key panics exactly when all of them are in and their number is a power of two. |
| AppendOnlyMap.SearchSlots | tiauth/tiauth-core/src/appendonly.rs:307-341 | The probe loop terminates within one full iteration and finds the key's slot, the vacant slot for it, or panics, as the search over the slots' values says. |
| AppendOnlyMap.AppendOnlyArcMap.constructor | tiauth/tiauth-core/src/appendonly.rs:207-223 | A new map is empty and consistent, with the capacity above. |
| AppendOnlyMap.AppendOnlyArcMap.View | tiauth/tiauth-core/src/appendonly.rs:227-233 | A view shares the slots and the hash of its map. |
| AppendOnlyMap.AppendOnlyArcMap.Set | tiauth/tiauth-core/src/appendonly.rs:104-112 | A slot is written at most once; a second write panics; `used` does not move. |
| AppendOnlyMap.AppendOnlyArcMap.Insert | tiauth/tiauth-core/src/appendonly.rs:238-249 | The slots and the result are those of the first-write-wins insert; the map stays consistent. |
| AppendOnlyMap.AppendOnlyArcMap.Get | tiauth/tiauth-core/src/appendonly.rs:296-304 | A hit is exactly the abstract map's entry. |
| AppendOnlyMap.MapView.Get | tiauth/tiauth-core/src/appendonly.rs:347-355 | A view answers from the shared slots exactly as the map does. |
| ConcurrentViews.StepKeepsInv | tiauth/tiauth-core/src/appendonly.rs:307-355 | Every single slot read or write of any thread keeps the table consistent and only ever fills empty slots. |
| ConcurrentViews.GetLinearizes | tiauth/tiauth-core/src/appendonly.rs:343-355 | The last slot read of a `get` is its linearization point: it returns what the map holds at that instant, and a miss means the key was absent then. |
| ConcurrentViews.InsertLinearizes | tiauth/tiauth-core/src/appendonly.rs:238-249 | The map changes only in the write step of an insert of a new key, by exactly that entry; a repeated key returns the first value. |
| ConcurrentViews.LaterGetsAgree | tiauth/tiauth-core/src/appendonly.rs:344-355 | Over every interleaving, once a key is in the map every `get` of it that returns later returns that value and never misses. |
| ConcurrentViews.ReturnedValueIsFinal | tiauth/tiauth-core/src/appendonly.rs:344-346 | A value once returned by some view is returned by every later `get` of that key on every view. |
| ConcurrentViews.InitialInv | tiauth/tiauth-core/src/appendonly.rs:207-233 | The runs above start from a new map with no call in flight. |
| ConcurrentProgress.InsertReturns | tiauth/tiauth-core/src/appendonly.rs:238-249 | In every interleaving an insert in flight keeps its key and value, nothing else touches the slots, and within |slots| + 1 steps of its own it returns, having done the first-write-wins insert. |
| ConcurrentProgress.InsertStores | tiauth/tiauth-core/src/appendonly.rs:238-249 | A started insert that is given its steps has stored its entry, or the key's first value stays, from then on; only a new key in a full table is excepted. |
| ConcurrentProgress.GetReturns | tiauth/tiauth-core/src/appendonly.rs:343-355 | In every interleaving, the writer's steps included, a get in flight returns within |slots| + 1 steps of its own, with what the map holds at that instant. |
| CompactRange.RangeAddExact | tiauth/tiauth-core/src/counter.rs:180-210 | Adding to a range answers membership and records exactly that number, also when the range fills up. |
| CompactRange.LastEntryFills | tiauth/tiauth-core/src/counter.rs:191-194 | When the last free entry is taken, the N distinct entries are all N numbers of the range (pigeonhole). |
| CompactSpec.LocateSlot | tiauth/tiauth-core/src/counter.rs:309-317 | Every number from the first min on belongs to the last range whose min is not above it and, up to the upper end, lies inside that range. |
| CompactSpec.GrowKeeps | tiauth/tiauth-core/src/counter.rs:321-329 | Growing reaches the number, keeps the ranges ordered and gap-free, records nothing, and forgets the shared boundary number. |
| CompactSpec.MergedRange | tiauth/tiauth-core/src/counter.rs:347-402 | The merged range reaches from the full neighbour on the left, whose expiry it has, to the one on the right, and stands in its place. |
| CompactSpec.MergeExactly | tiauth/tiauth-core/src/counter.rs:347-402 | All three merge shapes keep the ranges ordered and the represented set exactly as it was. |
| CompactSpec.AddLandsExactly | tiauth/tiauth-core/src/counter.rs:332-404 | A call that lands in an existing range answers membership, and the represented set grows by exactly that number. |
| CompactSpec.AddGrowsExactly | tiauth/tiauth-core/src/counter.rs:321-330 | A call past the last range answers "not seen", does not record its number, and loses the old upper boundary number and nothing else. |
| CompactSize.SizeIsBounded | tiauth/tiauth-core/src/counter.rs:347-402 | Over every run of a new set two full ranges are neighbours only at the front, and there are at most two ranges more than twice those that are still filling up. |
| CompactRuns.ExpiredCountSplits | tiauth/tiauth-core/src/counter.rs:443-454 | With stamps in order (unknown last) the expired ranges are exactly a prefix, so the binary search by expiry is sound. |
| CompactRuns.StampKeeps | tiauth/tiauth-core/src/counter.rs:417-421 | Stamping keeps the stamps in order and the represented set unchanged. |
| CompactRuns.CheckExpiredExactly | tiauth/tiauth-core/src/counter.rs:457-473 | Expiry collapse adds exactly the numbers of the expired ranges, and keeps order and both ends. |
| CompactRuns.NumExistsExactly | tiauth/tiauth-core/src/counter.rs:86-97 | One call, completely: its answer is membership, and the represented set changes exactly by the number, or the boundary lost to growth, and, if a time comes with a number divisible by four, by what has expired. |
| CompactRuns.GrowthAnswersTwice | tiauth/tiauth-core/src/counter.rs:321-330 | A number that made the ranges grow is answered "not seen" once more. |
| CompactRuns.SeenStaysSeen | tiauth/tiauth-core/src/counter.rs:308-473 | A number recorded below the upper end stays seen through any growth, merges and collapses of any run. |
| CompactRuns.AcceptedOnceExactly | tiauth/tiauth-core/src/counter.rs:86-97 | An accepted number is never accepted again, whatever calls follow, if and only if it was presented below the upper end of the ranges. |
| CompactRefusals.RefusalsExplainedExactly | tiauth/tiauth-core/src/counter.rs:407-473 | For every range size N and every expiries of the numbers: over all runs of a new set every refused number was presented earlier or expires at or before a time checked earlier, if and only if expiries never decrease from one slot of N - 1 numbers to a later one. |
| CompactRefusals.RefusalsAreExplained | tiauth/tiauth-core/src/counter.rs:411-413 | So it is for numbers issued with non-decreasing expiries, which the code takes for granted. |
| CompactRefusals.UnsweptRefusals | tiauth/tiauth-core/src/counter.rs:92-94 | Where no number divisible by four comes with a time, every refused number was presented earlier, whatever the expiries are. |
| CompactMixed.LifetimesMixed | tiauth/tiauth-core/src/state.rs:234-241 | One-minute and twelve-hour tokens on one counter: as soon as a login token has a number in a later slot than a proof token and expires before it, some run refuses a number without a reason. |
| CompactMixed.UnpresentedIsRefused | tiauth/tiauth-core/src/ops/verify.rs:17-20 | Such a run, with literal numbers: an unpresented and unexpired proof token is refused after two login tokens. |
| CompactRepair.RepairedIsPlainSet | tiauth/tiauth-core/src/counter.rs:321-330 | With the repaired growing branch (a declared change of the code) every call agrees with a plain set. |
| CompactRepair.RepairedAcceptsOnce | tiauth/tiauth-core/src/counter.rs:86-97 | With that repair a number presented before is never accepted again, over every run. |
| CompactSet.AddToRange | tiauth/tiauth-core/src/counter.rs:180-210 | The loop over the entries adds as specified; its panic cannot be reached. |
| CompactSet.CompactSetRange.constructor | tiauth/tiauth-core/src/counter.rs:107-114 | A new set is well-formed and has seen nothing. |
| CompactSet.CompactSetRange.SearchMin | tiauth/tiauth-core/src/counter.rs:309-315 | The binary search by min finds the range that a number belongs to. |
| CompactSet.CompactSetRange.SearchExpired | tiauth/tiauth-core/src/counter.rs:443-454 | The binary search by expiry counts the expired ranges. |
| CompactSet.CompactSetRange.Remove | tiauth/tiauth-core/src/counter.rs:373-378 | The shifting loop and the truncation remove exactly the given run of ranges. |
| CompactSet.LongEnough | tiauth/tiauth-core/src/counter.rs:170-178 | Whenever ranges are replaced by a full one there are at least N numbers between its ends, so that the assertion in `Range::full` never fails. |
| CompactSet.CompactSetRange.Join | tiauth/tiauth-core/src/counter.rs:369-399 | Overwriting the first of a run of ranges and shifting out the others collapses the run. |
| CompactSet.CompactSetRange.MergeNeighbours | tiauth/tiauth-core/src/counter.rs:347-402 | The in-place merges do what the merge on values does. |
| CompactSet.CompactSetRange.AddNumRanges | tiauth/tiauth-core/src/counter.rs:308-405 | The in-place update and its answer are those specified, and the set stays well-formed. |
| CompactSet.CompactSetRange.AddNum | tiauth/tiauth-core/src/counter.rs:414-424 | Adding and stamping in place do what is specified, and keep the set well-formed. |
| CompactSet.CompactSetRange.CheckExpired | tiauth/tiauth-core/src/counter.rs:457-473 | Rotation, truncation and push collapse exactly the expired ranges. |
| CompactSet.CompactSetRange.NumExists | tiauth/tiauth-core/src/counter.rs:86-97 | The answer is membership in the represented set before the call, and the set stays well-formed. |
| SavedSet.RangeBack | tiauth/tiauth-core/src/counter.rs:212-272 | Deserializing undoes serializing for every range, full or not, stamped or not. |
| SavedSet.ValidSetsAreRestored | tiauth/tiauth-core/src/counter.rs:116-143 | Every state the set can be in is saved and restored exactly. |
| SavedSet.SerializeRange | tiauth/tiauth-core/src/counter.rs:212-237 | The bytes of a range, in order. |
| SavedSet.DeserializeRange | tiauth/tiauth-core/src/counter.rs:239-272 | Reads exactly what the byte format allows and panics on everything else. |
| SavedSet.ToSavedBytes | tiauth/tiauth-core/src/counter.rs:116-126 | The loop writes the bytes of all ranges in order. |
| SavedSet.FromSavedBytes | tiauth/tiauth-core/src/counter.rs:128-143 | The loop reads as many ranges as announced, or panics. |
| SavedSet.SetRoundTrip | tiauth/tiauth-core/src/counter.rs:116-143 | Saving and restoring gives back the same ranges. |
| RecordExamples.RangeExample | tiauth/tiauth-core/src/counter.rs:212-237 | A range with members, byte by byte. |
| RecordExamples.FullRangeExample | tiauth/tiauth-core/src/counter.rs:212-237 | A full range with a stamp, byte by byte. |
| SavedGrammar.RangeExactly | tiauth/tiauth-core/src/counter.rs:239-272 | A range is restored if and only if the bytes begin with its fields, in order; every other input makes an `unwrap` fail. |
| AtomicBitSet.OrSetsOneBit | tiauth/tiauth-core/src/counter.rs:806-819 | `fetch_or` with one bit sets that bit and leaves the 63 others alone. |
| AtomicBitSet.IndexesIdentify | tiauth/tiauth-core/src/counter.rs:846-852 | From 64 on, word index and bit index together identify the number, and the bit index lies inside the word. |
| AtomicBitSet.RecordsOnly | tiauth/tiauth-core/src/counter.rs:880-896 | Setting the bit of a number records that number and no other. |
| AtomicBitSet.AtomicU64BitSet.Exists | tiauth/tiauth-core/src/counter.rs:806-819 | Answers whether the bit was set and sets it; panics exactly from 64 on. |
| AtomicBitSet.AtomicDynamicBitSet.CreateUpTo | tiauth/tiauth-core/src/counter.rs:864-876 | Afterwards the word of the number exists, and no membership has changed. |
| AtomicBitSet.AtomicDynamicBitSet.Exists | tiauth/tiauth-core/src/counter.rs:879-895 | Panics exactly when the word of the number was never created; otherwise answers membership and adds the number. |
| AtomicBitSet.AtomicDynamicBitSet.NumExists | tiauth/tiauth-core/src/counter.rs:949-955 | One caller at a time sees a plain set, and no `unwrap` fails. |
| BitSetProtocol.StepKeepsInv | tiauth/tiauth-core/src/counter.rs:864-896 | Every step of every concurrent call keeps the invariant. |
| BitSetProtocol.UnwrapsNeverFail | tiauth/tiauth-core/src/counter.rs:879-895 | Under every interleaving no `unwrap` after `create_up_to` fails. |
| BitSetProtocol.ExactlyOneFalse | tiauth/tiauth-core/src/counter.rs:949-955 | Under every interleaving, once some call with a number has returned, exactly one call with it has been answered false. |
| BitSetProtocol.AnswersAreLinear | tiauth/tiauth-core/src/counter.rs:806-819 | At its `fetch_or` a call answers whether some call with the same number has returned before. |
| BitSetProtocol.NumbersDoNotInterfere | tiauth/tiauth-core/src/counter.rs:846-896 | A step of a call with one number never changes whether another is recorded. |
| BitSetProgress.CallReturns | tiauth/tiauth-core/src/counter.rs:864-896 | In every interleaving in which no other call keeps it waiting, a call returns within three of its own steps for every missing place and a few more. |
| BitSetProgress.WaitsForAnother | tiauth/tiauth-core/src/counter.rs:864-876 | A call is kept waiting only by another one that has reserved the place of its word and not yet published it. |
| BitSetProgress.NewCallAnswers | tiauth/tiauth-core/src/counter.rs:949-955 | From every reachable state with no push half done a new call left alone returns, with whether a call with its number has returned before. |
| RefreshTable.Store.DeleteByIdRequired | tiauth2/src/data/db.rs:106-121 | Removes the row, or reports that there was none. |
| RefreshTable.Store.InsertReturnId | tiauth2/src/data/db.rs:123-132 | Adds the row under a fresh id. |
| RefreshTable.Store.DeleteByColumn | tiauth2/src/data/db.rs:87-95 | Removes the rows of the family, and leaves every other row as it was. |
| RefreshTable.Store.DeleteInsertReturnIdTransaction | tiauth2/src/data/db.rs:97-103 | Replaces a row that exists, or changes nothing at all. |
| RefreshProtocol.StepKeepsInv | tiauth2/src/auth/tokens.rs:156-195 | Every step of every interleaved request keeps the invariant: one live row a family, fixed origin values, tokens that name their rows, consumed ids gone. |
| RefreshProtocol.RevokedFamilyStaysDead | tiauth2/src/auth/tokens.rs:166-175 | Once `delete_family` has run, no row of that family ever exists again and no refresh of it succeeds, in flight or later, under every interleaving. |
| RefreshReuse.ReplayRevokesFamily | tiauth2/src/auth/tokens.rs:166-175 | Over every interleaving, a token whose row is gone: a request that has not read by then, or begins later, ends with the family revoked unless it ends in another error, and one that had read the row before never succeeds. |
| RefreshReuse.ReuseDetectedExactly | tiauth2/src/auth/tokens.rs:166-175 | A request that does not fail for other reasons runs `delete_family` if and only if it read after the row was gone, and then its family is revoked. |
| RefreshReuse.OutcomeIsFinal | tiauth2/src/auth/tokens.rs:156-195 | A request that has ended keeps its outcome. |
| RefreshProtocol.LiveRowIsUniqueAndUnchanged | tiauth2/src/auth/tokens.rs:121-137 | In every reachable state a live row is its family's only one and carries the exp, access value and id value fixed at creation. |
| RefreshProtocol.EachIdConsumedOnce | tiauth2/src/data/db.rs:97-121 | No row id is consumed by two successful refreshes. |
| RefreshFamilies.FamiliesAreIsolated | tiauth2/src/data/db.rs:87-95 | A step leaves the rows of every other family as they were and revokes no other family. |
| RefreshFamilies.RowGoesExactly | tiauth2/src/auth/tokens.rs:166-175 | A row goes in a step if and only if it is the row that a refresh replaces, or one of a family that is being revoked. |
| RefreshFamilies.RevokedOnlyByOwnReplay | tiauth2/src/auth/tokens.rs:166-175 | A family is revoked only in a step of one of its own requests, which has found its row gone. |
| RefreshFamilies.FamilyLivesExactly | tiauth2/src/auth/tokens.rs:127-137 | After any run from an empty table a family has exactly one row if it has not been revoked, and none if it has. |
| RefreshFamilies.AnyTokenRefreshesExactly | tiauth2/src/auth/tokens.rs:156-195 | One call: any token, forged or not, is refreshed if and only if it names a row with its nonce and family, issued in time and not expired; a row that does not match is left alone, and a missing one revokes the family. |
| RefreshFamilies.FamilyExpires | tiauth2/src/auth/tokens.rs:121-125 | Rotation does not extend a family: over any run all its refreshes pass the check within 63 minutes of its creation. |
| RefreshFamilies.NewTokenIsGoodExactly | tiauth2/src/auth/tokens.rs:177-185 | The first token of a family refreshes from its creation for exactly 63 minutes. |
| RefreshFamilies.RotatedTokenIsGoodExactly | tiauth2/src/auth/tokens.rs:121-137 | So does the token of a refresh, from that refresh on, to the same end. |
| RefreshProtocol.SuccessRotates | tiauth2/src/auth/tokens.rs:121-137 | One step: a successful refresh removes its row and leaves exactly the row that the returned token names, with a new nonce and issue time and all else kept. |
| RefreshProtocol.RefreshAllTokens | tiauth2/src/auth/tokens.rs:156-195 | One undisturbed call changes the table and answers as specified: family deleted, refused, or rotated. |
| RefreshProtocol.UndisturbedRun | tiauth2/src/auth/tokens.rs:156-195 | The separate steps of one request add up to that call. |
| RefreshProtocol.NewTokenFamily | tiauth2/src/auth/tokens.rs:216-240 | A new family starts with one row, and the token names it. |
| RefreshProtocol.LiveTokenRefreshesExactly | tiauth2/src/auth/tokens.rs:177-185 | One call: undisturbed, the token of a live row is refreshed exactly when the row's times allow it. |
| RefreshReuse.RaceGoesUndetected | tiauth2/src/auth/tokens.rs:127-137 | From an empty table a run in which a consumed token is presented, the request ends in an error, and yet no family is revoked and the family's new row is alive. |
| ByteOrder.StringOrder | tiauth/tiauth-core/src/data.rs:541 | Byte-wise order of strings is a strict total order, which is all the claims results ask of the keys. |
| Claims.ToClaimsSorted | tiauth/tiauth-core/src/data.rs:733-749 | Accepts exactly the keys in which no key is below the one before it. |
| Claims.BinarySearch | tiauth/tiauth-core/src/data.rs:541 | Finds a key or the place where it would go. |
| ClaimsAdding.AddClaims | tiauth/tiauth-core/src/data.rs:525-557 | Fails on unsorted claims and, without `exists_ok`, exactly on a clash. Otherwise the keys stay sorted, the added keys hold their last added value, each key is held as often as before or once, and all other entries are kept; strictly sorted claims become the right-biased union of the two maps. |
| ClaimsRemoving.RemoveClaims | tiauth/tiauth-core/src/data.rs:559-586 | The loop over keys and values, cut to the shorter of the two, removes what the removal on entries removes, or fails as it does. |
| ClaimsMaps.RemoveFailsExactly | tiauth/tiauth-core/src/data.rs:571-581 | Removal fails if and only if it comes to a descent of the given keys, the ones before it ascending and all held. |
| ClaimsMaps.RemoveIsFilterExactly | tiauth/tiauth-core/src/data.rs:565-585 | Removal drops all the given keys and nothing else if and only if no present key comes after an absent one. |
| ClaimsRemoving.AddThenRemove | tiauth/tiauth-core/src/data.rs:525-586 | Adding fresh strictly sorted claims and removing the same keys gives back exactly the original. |
| Subset.LinearFinds | tiauth/tiauth-core/src/data.rs:660-682 | The linear merge finds, in order, the wanted entries before the first absent key and no others. |
| Subset.LinearIsFilterExactly | tiauth/tiauth-core/src/data.rs:660-682 | It equals the plain filter if and only if no present key comes after an absent one. |
| Subset.SplitIsFilterExactly | tiauth/tiauth-core/src/data.rs:685-722 | The binary split finds only wanted entries, each at most once, and a reordering of the plain filter if and only if every visited middle key is present or nothing of its part is. |
| Subset.SplitMissesNothing | tiauth/tiauth-core/src/data.rs:685-722 | With all wanted keys present it reports each of them as found, once, and none as missing. |
| SubsetMisses.SplitIsLookups | tiauth/tiauth-core/src/data.rs:685-722 | The shrinking ranges lose nothing: every visited wanted key gets what a lookup among all the entries gives. |
| SubsetMisses.MissesAreAbsent | tiauth/tiauth-core/src/data.rs:685-722 | What the split reports missing is wanted and not held, and it reports something unless every wanted key is held. |
| SubsetMisses.LinearMisses | tiauth/tiauth-core/src/data.rs:660-682 | The linear merge reports the first wanted key that is not held, once for every entry above it, and no other. |
| SubsetOrder.LinearMissesNothing | tiauth/tiauth-core/src/data.rs:660-682 | With all wanted keys present the linear merge, too, reports each of them as found, once, and none as missing. |
| SubsetOrder.LinearInOrder | tiauth/tiauth-core/src/data.rs:660-682 | What the linear merge finds is always in key order. |
| SubsetOrder.SplitInOrderExactly | tiauth/tiauth-core/src/data.rs:685-722 | For any strictly increasing wanted keys, held or not: what the split finds is in key order if and only if no visited middle key that is held has the middle key of its left part held too; with all of them held, if and only if at most one was wanted. |
| SubsetOrder.AlgorithmsAgreeExactly | tiauth/tiauth-core/src/data.rs:596-622 | With all wanted keys present both algorithms emit each wanted entry exactly once and nothing as missing; as sequences they are equal if and only if one key was wanted. |
| ClaimsSelection.SubsetSerialize | tiauth/tiauth-core/src/data.rs:626-658 | For all wanted keys, held or not: the linear merge returns the entries before the first key that is not held, and reports that key once for every entry above it; the split returns what the lookups give. `to_claims_sorted` accepts the former, and the latter if and only if it was emitted in order. |
| ClaimsSelection.SubsetLinear | tiauth/tiauth-core/src/data.rs:660-682 | The loop emits, in order, what the linear merge on entries lists. |
| ClaimsSelection.SplitItem | tiauth/tiauth-core/src/data.rs:693-721 | One turn of the work list, for any claims: what it reports are entries for wanted keys, and the work left is smaller; on strictly sorted claims its results and those of the two ranges it pushes are the results of its range. |
| ClaimsSelection.SubsetBinarySplit | tiauth/tiauth-core/src/data.rs:685-722 | The work list terminates for any claims and reports only entries for wanted keys; on strictly sorted claims it emits, in order, what the binary split lists. |
| Base64Url.DecodesExactly | tiauth/tiauth-core/src/proof.rs:521-527 | A text decodes to exactly those bytes of which it is the unpadded base64url encoding (RFC 4648, sections 4, 5 and 3.2). |
| WireFormats.CharIsAlphabet | tiauth/tiauth-core/src/proof.rs:521-527 | The characters are those of Table 2 of RFC 4648. |
| WireFormats.LongVectors | tiauth/tiauth-core/src/util.rs:121-135 | The test vectors of section 10 of RFC 4648 that have more than one triplet. |
| Combining.EncodeConcat | tiauth/tiauth-core/src/util.rs:121-135 | Encoding may be done piecewise at whole triplets. |
| Combining.WriteSlice | tiauth/tiauth-core/src/util.rs:87-136 | One slice is consumed with every write inside the buffer; it fails exactly where one left-over byte meets a one-byte slice or the buffer is too small. |
| Combining.CombineEncode | tiauth/tiauth-core/src/util.rs:79-142 | For all slices and any announced length: the result is the base64url encoding of the concatenation if and only if the announced length has as many whole triplets and no one-byte slice meets one left-over byte; the panics and the text left by a buffer that is too large are stated exactly too. |
| FixedWidth.LittleEndianExactly | tiauth/tiauth-core/src/proof.rs:534 | Four bytes read as a length exactly when they are that length's little-endian bytes. |
| WireFormats.LittleEndianBytes | tiauth/tiauth-core/src/proof.rs:534 | The lowest byte comes first. |
| ProofCodec.EncodeProof | tiauth/tiauth-core/src/proof.rs:550-558 | Encodes content, signature and content length; panics exactly for a one-byte signature after a content that leaves one byte over. |
| ProofCodec.DecodeProof | tiauth/tiauth-core/src/proof.rs:517-548 | Accepts exactly the encodings of proofs with at least 64 signature bytes and a content below 2^32 bytes, and returns that proof. |
| ProofCodec.RoundTrip | tiauth/tiauth-core/src/proof.rs:514-559 | Decoding undoes encoding for every content below 2^32 bytes with a 64-byte signature. |
| MessagePack.HeadBack | tiauth/tiauth-core/src/util.rs:57-77 | Reading a length undoes writing it in every length class of arrays, strings and binaries. |
| MessagePack.StrBack | tiauth/tiauth-core/src/util.rs:67-77 | Reading a string undoes writing it, whatever follows. |
| MessagePack.BinBack | tiauth/tiauth-core/src/util.rs:57-65 | Reading a binary undoes writing it, whatever follows. |
| WireGrammar.StringExactly | tiauth/tiauth-core/src/util.rs:67-77 | A string is read if and only if the bytes begin with a head of any form for its length, followed by that much well-formed UTF-8. |
| WireGrammar.BinaryExactly | tiauth/tiauth-core/src/util.rs:57-65 | A binary is read if and only if the bytes begin with a head of any form for its length, followed by that many bytes. |
| WireFormats.StringHeads | tiauth/tiauth-core/src/util.rs:67-77 | The first bytes and length classes of the str family in the MessagePack specification. |
| WireFormats.BinaryHeads | tiauth/tiauth-core/src/util.rs:57-65 | The first bytes and length classes of the bin family. |
| WireFormats.LongFormsAreRead | tiauth/tiauth-core/src/util.rs:57-77 | Lengths in longer forms than needed are read as well. |
| Utf8Text.Utf8Exactly | tiauth/tiauth-core/src/util.rs:67-77 | Bytes are accepted as a string if and only if they encode a sequence of Unicode scalar values (RFC 3629). |
| MessagePack.Cursor.TrySlice | tiauth/tiauth-core/src/util.rs:42-55 | Returns the next bytes and moves past them, or fails where too few are left. |
| MessagePack.Cursor.NextBin | tiauth/tiauth-core/src/util.rs:57-65 | Reads a binary at the cursor and leaves exactly the bytes after it. |
| MessagePack.Cursor.NextStr | tiauth/tiauth-core/src/util.rs:67-77 | Reads a string of valid UTF-8 at the cursor and leaves exactly the bytes after it. |
| Names.ActionNamesExactly | tiauth/tiauth-core/src/proof.rs:59-89 | A name is read as an action exactly when it is that action's name. |
| Names.TargetNamesExactly | tiauth/tiauth-core/src/proof.rs:40-57 | A name is read as a target exactly when it is that target's name. |
| Names.KeyNamesExactly | tiauth/tiauth-core/src/proof.rs:938-959 | A name is read as an ephemeral type exactly when it is that type's name. |
| Records.SerializeProof | tiauth/tiauth-core/src/proof.rs:317-331 | The fields of a proof content in order, the list of targets by a loop. |
| Records.DeserializeProof | tiauth/tiauth-core/src/proof.rs:333-365 | Accepts exactly what the record format allows. |
| Records.ProofBack | tiauth/tiauth-core/src/proof.rs:317-365 | Deserializing a proof content undoes serializing it for all field sizes. |
| Records.ProofRoundTrip | tiauth/tiauth-core/src/proof.rs:317-365 | Serializing and deserializing a proof content gives it back. |
| RecordExamples.ProofExample | tiauth/tiauth-core/src/proof.rs:317-331 | One proof content, byte by byte: the order of the fields, their markers and names. |
| WireGrammar.ProofExactly | tiauth/tiauth-core/src/proof.rs:333-365 | A proof content is read if and only if the bytes begin with an array of six and its fields, in order and each in one of its forms. |
| Records.SerializeEphemeral | tiauth/tiauth-core/src/proof.rs:1254-1267 | The fields of an ephemeral content in order. |
| Records.DeserializeEphemeral | tiauth/tiauth-core/src/proof.rs:1269-1290 | Accepts exactly what the record format allows, and panics where the read on values does. |
| Records.EphemeralPanicsExactly | tiauth/tiauth-core/src/proof.rs:1269-1290 | Panics if and only if all fields before the type are well-formed and no string can be read in its place; an unknown type name is an error, and nothing that was serialized panics. |
| Records.EphemeralBack | tiauth/tiauth-core/src/proof.rs:1254-1290 | Deserializing an ephemeral content undoes serializing it for all field sizes. |
| Records.EphemeralRoundTrip | tiauth/tiauth-core/src/proof.rs:1254-1290 | Serializing and deserializing an ephemeral content gives it back. |
| RecordExamples.EphemeralExample | tiauth/tiauth-core/src/proof.rs:1254-1267 | One ephemeral content, byte by byte. |
| WireGrammar.EphemeralExactly | tiauth/tiauth-core/src/proof.rs:1269-1290 | An ephemeral content is read if and only if the bytes begin with an array of five and its fields, in order and each in one of its forms. |
| KeyWindow.WindowExactly | tiauth/tiauth-core/src/proof.rs:744-757 | With the reference time not in the future nothing underflows, and the keys are exactly those of the current interval and the `valid - 1` before it. |
| KeyWindow.FutureReferenceUnderflows | tiauth/tiauth-core/src/proof.rs:735-750 | Both functions underflow exactly for a reference time in the future. |
| KeyWindow.AcceptedExactly | tiauth/tiauth-core/src/proof.rs:727-757 | A key used at t is accepted at now exactly when fewer than `valid` interval boundaries lie between: surely up to (valid-1) intervals, surely not from `valid` intervals on. |
| KeyWindow.AcceptedIsUnexpired | tiauth/tiauth-core/src/proof.rs:1108-1119 | For any number of valid keys and any gap that together do not exceed two intervals and the leeway: where the key is accepted, the token is unexpired at a clock reading up to the gap later. |
| KeyWindow.AcceptedToTheLast | tiauth/tiauth-core/src/proof.rs:727-757 | A key taken into use at the reference time is accepted up to the last second of `valid` intervals, and not at the next one. |
| KeyWindow.SessionKeys.Rotate | tiauth/tiauth-core/src/state.rs:120-123 | The oldest key leaves and the new one comes last. |
| KeyWindow.SessionKeys.Invalidate | tiauth/tiauth-core/src/state.rs:125-139 | The first copy of the invalid key leaves, or the oldest key where it is not there; the others keep their order and the new key comes last. |
| KeyWindow.InvalidatedStaysOutExactly | tiauth/tiauth-core/src/state.rs:120-139 | An invalidated key is accepted no more through all later rotations and invalidations that do not bring it back, if and only if it was held at most once. |
| Credentials.UserTable.RegisterFinish | tiauth/tiauth-core/src/ops/register.rs:122-181 | The table changes only by a new user's token for an unknown user or a change token whose hash matches the stored file; an existing user's file is left alone by a new user's token. |
| Credentials.ReplacedExactly | tiauth/tiauth-core/src/ops/register.rs:91-114 | One step: in every state and for every step, a stored file is replaced if and only if the step is a decryptable, unexpired change token bound to the file stored then. |
| Credentials.RegisteredExactly | tiauth/tiauth-core/src/ops/register.rs:72-90 | One step: a user comes into being if and only if a decryptable, unexpired new user's token is finished. |
| Credentials.SessionCheckedExactly | tiauth/tiauth-core/src/proof.rs:1345-1356 | One step: a session is accepted, and a change of password may follow, if and only if it is bound to the file that was read, has not expired and, for a change, is at most 600 seconds old. |
| CredentialFlows.RegisterFlow | tiauth/tiauth-core/src/ops/register.rs:122-181 | An undisturbed registration stores the file if and only if the token is finished within twelve hours and the leeway and under an accepted key. |
| CredentialFlows.FinishFlow | tiauth/tiauth-core/src/ops/login.rs:78-131 | An undisturbed finish of a login is accepted if and only if the token decrypts, is at most a minute and the leeway old, is unused and is bound to the stored file. |
| CredentialFlows.SessionFlow | tiauth/tiauth-core/src/ops/verify.rs:62-87 | A session opens for thirty days and the leeway, and for a change of password in its first ten minutes. |
| CredentialFlows.ChangeFlow | tiauth/tiauth-core/src/ops/register.rs:91-114 | A change of password takes effect if and only if its token comes in time and the file is still the same. |
| CredentialFlows.LoginToChange | tiauth/tiauth-core/src/ops/modify.rs:121-149 | From any state, a whole login and the use of its session for a change end with the change allowed if and only if the session is used within ten minutes. |
| Credentials.FilesOnlyGrow | tiauth/tiauth-core/src/ops/register.rs:122-181 | Over any run users and their past files are never lost or rewritten. |
| CutOff.CutOffExactly | tiauth/tiauth-core/src/ops/login.rs:78-118 | Requests, compact set and clock together: while another file is stored, over every interleaving, nothing bound to the old file is accepted, if and only if no request in flight has read the old file and holds a login token bound to it that is neither expired nor spent, or a session bound to it that is good for the time it has read. |
| CutOff.ChangeCutsOffExactly | tiauth/tiauth-core/src/proof.rs:1327-1343 | After a change to another file everything made under the replaced one is dead until that is stored again, if and only if no such request is in flight at the change. |
| CutOff.RaceIsReachable | tiauth/tiauth-core/src/ops/login.rs:78-118 | For any two files, and with some key valid, there is a run from the start in which a login has read the first, with a good token, and the second is stored; what was made under the first is not dead there. |
| Credentials.ReachableIsOk | tiauth/tiauth-core/src/ops/login.rs:54-72 | Whatever is issued or accepted in any run is bound to a file that was really stored for that user. |
| CredentialOrigins.NothingForged | tiauth/tiauth-core/src/ops/login.rs:78-131 | In every run whatever is accepted is a token that was issued or a session that was made, to that user and bound to that file, and sessions exist only where a login was accepted before. |
| CutOff.LoginSpendsNumber | tiauth/tiauth-core/src/proof.rs:1214-1232 | A finishing login asks the set, with its own number, expiry and time, unless its token has expired; an accepted one has its number spent, if that lies below the upper end. |
| LoginOnce.AcceptedOnceExactly | tiauth/tiauth-core/src/ops/login.rs:106-115 | With the compact set in place of an arbitrary answer: an accepted login token is never accepted again, through any calls in between, if and only if its number lay below the upper end of the ranges. |
| RegisterPanic.NeverPanicsExactly | tiauth/tiauth-core/src/ops/register.rs:80-84 | Over all runs, tokens and clock readings: the `unwrap` never fails if and only if no key is valid or `valid` intervals and the gap between the readings do not exceed two intervals and the leeway. |
| PrefixRange.Bound | borink-core/borink-kv/src/lib.rs:335-350 | The carry loop raises the last byte below 255 by one and zeroes all after it; it panics if and only if there is no such byte. |
| PrefixRange.RangeExactly | borink-core/borink-kv/src/lib.rs:335-350 | Between a prefix and its bound lie exactly the strings that start with the prefix, and the shorter beginnings of the bound that are not beginnings of the prefix. |
| PrefixRange.PrefixSearch | borink-core/borink-kv/src/lib.rs:299-350 | Strings at least as long as the prefix are found if and only if they start with it, through arbitrary carry chains. |
| PrefixRange.ShorterKeysSlipIn | borink-core/borink-kv/src/lib.rs:335-350 | A concrete shorter string that is found without starting with the prefix. |
| PrefixRange.JoinPrefixWithMeta | borink-core/borink-kv/src/lib.rs:315-333 | Prefix, length, search bytes and metadata in order; panics exactly beyond 65535 search bytes. |
| PrefixRange.ReadsExactly | borink-core/borink-kv/src/lib.rs:359-379 | Metadata reads back as exactly what was joined, and nothing else reads back at all. |

## Left out

- The hash of the map, OPAQUE, AES-GCM-SIV, Ed25519, SHA-256 and ChaCha20: arbitrary functions or ideal encryption.
- HTTP servers, routers, clients, command lines, language bindings and the governor loop: input and output.
- The engines behind the stores (redb, SQLite, Postgres, Redis): maps with atomic transactions.
- Weak memory: atomics and `OnceLock`s are sequentially consistent single steps, and `boxcar::Vec::push` is the two steps of reserving and publishing.
- `AppendOnlyArcVec` in push mode, and its iterator, which stops one slot short of the end; `AtomicSmallBitSet`, which picks its word by bit index.
- Capacities from 2^63 on, where `next_power_of_two` overflows.
- Values near 2^64 in the compact set, where `min + N - 1` would overflow; numbers are unbounded here.
- CompactSet.Full: the assertion of `Range::full` is its precondition; every call meets it (`CompactSet.LongEnough`), so it is no outcome.
- Numbers below the first range's min, 1 in a new set, for which the index before the first range underflows; the counter starts at 1.
- ClaimsSelection.SubsetLinear: not called with an empty list of wanted keys, which the source asserts and the heuristic rules out.
- The `f32` cost heuristic between the two selection algorithms: its choice is a parameter of `ClaimsSelection.SubsetSerialize`. They agree on the entries, not on their order.
- `VarZeroVec` and the serde encodings of claims, tokens and sessions.
- ClaimsAdding.AddClaims: works, like the selections, on claims with as many values as keys; with fewer values the code panics at an index. The claims that are added, and those that keys are removed from, may differ in length.
- Decoding the stored access and id values of a refresh (`get_finish_tokens_from_save`) and signing the new tokens: a refresh may fail at any point for such reasons, as a step of its own.
- Memory: room for as many targets as a proof announces is reserved before any is read (`proof.rs:347`), and can run out; here there is always room.
- The kinds and positions of MessagePack read errors: every caller in the modelled code drops them.
- RefreshProtocol.StepKeepsInv: times are integers and `as i32` wraps, as in a release build; a debug build panics on that overflow instead.
- Whether a counter value was used is an arbitrary answer in `Credentials`; `LoginOnce` and `CutOff` put the compact set in its place.
- Deleting users, which the code does not do.
- Session status rows and which session key decrypts: an arbitrary answer in `Credentials`.
- Fairness between threads: calls return when they are given their steps (`ConcurrentProgress`, `BitSetProgress`), and no scheduler is modelled.
- borink-git, lazy-borink, the governor, the admin user scan, experiments and benchmarks: file-system bound or easy.
