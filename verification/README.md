# Burner account store of `useBurner`, in Dafny

This project models the store layer of the `useBurner` React hook from
create-burner. The hook keeps disposable Starknet "burner" accounts in one
persisted `"burners"` entry. That entry maps each address to a record of
`privateKey`, `publicKey`, `deployTx` and an `active` flag. The hook reads and
rewrites the map in five places:

- `list` projects each record to its address and flag.
- `select` clears every flag and raises the target's flag.
- `get` is a pure lookup.
- The save step of `create` deactivates every record and inserts the new one as active.
- The mount effect restores the first active record, or drops the whole entry when a receipt probe fails.

Files:

- `wrappers.dfy` (`Wrappers`): `Option` and `Result`.
- `burner_store.dfy` (`BurnerStore`): the store itself. It is an association list of `Entry(address, Record)` with distinct addresses. The list order is the object's key order, and every key is a `0x` hex address, so that order is insertion order. The module also holds the primitive rewrites (`Find`, `DeactivateAll`, `Activate`, `Put`, `FirstActive`) and the active-count lemmas.
- `use_burner.dfy` (`UseBurner`): the hook's operations over a `State`. A `State` pairs the persisted entry (`Option<Store>`: absent or present) with the hook's `account` (`current`). Chain replies are plain inputs: whether a master account was passed, whether the prefund was accepted, the deploy transaction hash, and whether a receipt was found.
- `burner_session.dfy` (`BurnerSession`): a step function over all calls, plus the invariants that hold across any sequence of calls. A present store has exactly one active record, and the current account is that record's signer.

Three behaviours of the code that the model keeps as written:

- A failed prefund does not abort `create`. The error is caught and the deploy is submitted anyway (`CreateIgnoresPrefund`).
- Restoring from a stored but empty object with a master account present does not do nothing. The probe reads `.deployTx` of a missing first record and throws (`NoRecordToProbe`). `RestoreSucceedsUnderInv` shows that no reachable store gets there.
- `list` returns records in the object's key order, and the restore picks the first active record in that order.

## Model

| member | source | states |
|---|---|---|
| BurnerStore.Find | src/hooks/useBurner.ts:93-95 | the lookup `storage[address]` fails exactly when no entry has that address, and otherwise yields that entry's record |
| BurnerStore.DeactivateAll | src/hooks/useBurner.ts:97-99 | the clearing loop leaves no record active and keeps every address, its position, its keys and its deploy transaction |
| BurnerStore.Activate | src/hooks/useBurner.ts:100 | raising the target's flag sets it on the entry under that address, keeps the other flags as they were, and changes nothing else |
| BurnerStore.Put | src/hooks/useBurner.ts:157-162 | assigning `storage[address]` overwrites an existing key where it stands or appends a new key last; the other entries are unchanged |
| BurnerStore.FirstActive | src/hooks/useBurner.ts:65-75 | the restore loop finds the first entry in key order whose flag is set, and finds nothing exactly when no flag is set |
| BurnerStore.SoleActiveCount | src/hooks/useBurner.ts:97-100 | when exactly the target's flag is set, exactly one record is active |
| BurnerStore.CountOneIsUnique | src/hooks/useBurner.ts:65-75 | with one active record, that record is the one the restore loop stops at |
| UseBurner.List | src/hooks/useBurner.ts:80-88 | one listing per stored address, in key order, each with its record's flag; a missing store lists nothing |
| UseBurner.Get | src/hooks/useBurner.ts:108-116 | fails with "burner not found" exactly when the address is absent, and otherwise returns the signer built from that address and its private key |
| UseBurner.Select | src/hooks/useBurner.ts:91-105 | fails with "burner not found" exactly when the address is absent; otherwise the saved store keeps every address and key, only the target is active, exactly one record is active, and the target's signer becomes current |
| UseBurner.SaveNew | src/hooks/useBurner.ts:152-166 | earlier records keep their address and keys but become inactive; the new address maps to its keys, deploy transaction and `active: true`; exactly one record is active |
| UseBurner.Create | src/hooks/useBurner.ts:119-170 | a missing master account and a rejected deploy both throw before the save step; otherwise the saved store is exactly the save step applied to the loaded store (earlier records kept in order with their keys and deploy transactions, all inactive), the new burner is stored active, and its signer becomes current |
| UseBurner.Restore | src/hooks/useBurner.ts:53-77 | an absent store sets nothing. With a master account, the first record's deploy receipt is probed, and an empty store throws. A failed probe removes the entry and unsets the account. Otherwise the first active record in key order becomes current |
| BurnerSession.FreshStateInv | src/hooks/useBurner.ts:48-54 | a fresh install (nothing persisted, no account) satisfies the session invariant |
| BurnerSession.RestoreSucceedsUnderInv | src/hooks/useBurner.ts:57-58 | on any store that the hook's own writes can produce, the probe always has a first record to read |
| BurnerSession.RestoreSelectsTheActive | src/hooks/useBurner.ts:65-75 | on such a store, when the probe finds the receipt or is skipped, the restore keeps the store, makes the single active record's signer current, and reports nothing stale |
| BurnerSession.StepPreservesInv | src/hooks/useBurner.ts:53-170 | every call keeps the invariant: a present store has exactly one active record, and the current account is its signer |
| BurnerSession.RunPreservesInv | src/hooks/useBurner.ts:53-170 | any sequence of calls keeps the invariant, so no sequence of selects and creates leaves two records active |
| BurnerSession.ReadsAndFailedSelectKeepState | src/hooks/useBurner.ts:91-95 | get, list and a select of an absent address leave the store and the account unchanged |
| BurnerSession.SelectKeepsLookups | src/hooks/useBurner.ts:97-114 | after a select, every address resolves (or fails) exactly as before, with the same signer |
| BurnerSession.SelectIdempotent | src/hooks/useBurner.ts:91-105 | selecting the same address twice gives the same store and account as selecting it once |
| BurnerSession.ListAgreesWithGet | src/hooks/useBurner.ts:80-116 | an address appears in the listing exactly when get resolves it, and its listed flag is its record's flag |
| BurnerSession.CreateKeepsOtherLookups | src/hooks/useBurner.ts:152-166 | a successful create leaves the lookup of every other address as it was |
| BurnerSession.CreateIgnoresPrefund | src/hooks/useBurner.ts:134-147 | whether the prefund was accepted has no effect on the outcome of create |
| BurnerSession.FailedCreateKeepsState | src/hooks/useBurner.ts:130-147 | a create that throws leaves the store and the account unchanged |
| BurnerSession.StaleRestoreEmptiesList | src/hooks/useBurner.ts:57-61 | after a failed probe the listing is empty, however many records existed, and stays empty until the next create |
| BurnerSession.EmptyStaysEmpty | src/hooks/useBurner.ts:92-95 | with nothing persisted, no call other than create brings the entry back |
| BurnerSession.SelectScenario | src/hooks/useBurner.ts:91-114 | with A active and B inactive, selecting B yields A inactive and B active with B current, and get(A) still returns A's signer |
| BurnerSession.SelectOnEmptyStoreFails | src/hooks/useBurner.ts:92-95 | select on an absent or empty store fails with "burner not found" |

## Left out

- React plumbing (`useState`, `useEffect`, `useCallback`) and the `isDeploying` flag are not modelled. The `account` state is the explicit `current` field.
- The connector-list effect (src/hooks/useBurner.ts:172-189) is not modelled. It is UI glue over `BurnerConnector`, which is not part of this model.
- The Starknet calls are not modelled: `Provider`/`Account` construction, `stark.randomAddress`, `getStarkKey` and `calculateContractAddressFromHash`. The private key, public key and address are opaque inputs (`Keys`), so the model says nothing about how the address is derived.
- `prefundAccount` and `deployAccount` are not modelled. They are network submission and polling. Their outcomes are inputs (`ChainReplies`).
- The `Storage` serialisation layer is not part of this model. The store is an in-memory value that is read and written whole.
- Console logging is not modelled.
- UseBurner.Restore: the receipt probe is asynchronous and settles after the restore loop. The model collapses this into one step whose result is an input. It does not model other calls that run before the probe settles.
- UseBurner.Restore: the error thrown inside the probe's `catch` is an unhandled rejection, not an error returned to a caller. The model reports it as the `stale` flag.
- BurnerStore.Find: the lookup ignores JavaScript's prototype chain. A name such as `toString` counts as absent, although `storage["toString"]` is truthy in the source.
- Key order: the model does not reproduce JavaScript's ordering rule for integer-like keys. Addresses are always `0x` hex strings, so only insertion order applies.
- Concurrent `create`/`select` read-modify-write races are not modelled. Calls are sequential steps.
