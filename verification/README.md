# ccoinjoin-wallet bookkeeping, modelled in Dafny

This project models the bookkeeping core of a command-line Bitcoin Cash HD
wallet. There are two commands:

- **get-address** (`src/commands/get-address.js`) hands out the wallet's next
  receive address. It rejects a missing wallet name and opens the wallet
  file. It derives the leaf `0/<nextAddress>` below the BIP-44 account
  `m/44'/145'/0'`, using the counter's value *before* the increment. It then
  increments `nextAddress`, prints a consolidation advisory once more than 100
  addresses exist, writes the wallet file, and only then encodes and returns
  the cash address.
- **update-balances** (`src/commands/update-balances.js`) refreshes the
  balances. It re-derives every issued address, indices
  `0 .. nextAddress - 1`, and queries the balance service for each one in
  index order, tagging each record with its index. It keeps the records whose
  confirmed or unconfirmed balance is positive, as the `hasBalance` list. It
  then replaces `balance` and `hasBalance` wholesale and writes the wallet file.

Modules:

- `Wrappers`: the `Option` and `Result` types.
- `Decimal`: how a template literal writes an index, and the inverse reading.
- `HdPath`: the two derivation-path strings the commands pass to the library.
  It also holds a reader for BIP-32 path notation. The reader shows that the
  two strings together denote the five BIP-44 levels
  purpose'/coin_type'/account'/change/address_index. Here that is
  44'/145'/0'/0/index. Coin type 145 is Bitcoin Cash in SLIP-0044.
- `WalletModel`: things both commands share. These are the wallet record, the
  BITBOX library, the effect trace, and address derivation.
  - The BITBOX library is a record of function values. It holds the seed,
    master-node, path-derivation, address-encoding and balance-service
    functions.
  - The effect trace (`Run`) lists the effects of one command run, in order:
    opening a file, one balance query, the advisory, writing a file, and
    encoding the address.
  - `Persist` replays the successful writes of a trace onto a map from
    wallet name to wallet record.
- `BalanceReconciler`: the update-balances command.
- `AddressDeriver`: the get-address command. It also covers a session of
  repeated calls, and how that session relates to a later refresh.

Inputs to the model:

- Everything the source delegates to the BITBOX SDK is a parameter of the
  model: cryptography, address encoding, and the REST balance service.
  Properties are proved for every such library whose calls return; only the
  balance service is modelled as able to fail.
- Whether a wallet-file write succeeds is a boolean parameter.
- The wallet files that can be opened are a map from name to wallet record.

## Model

| member | source | states |
|---|---|---|
| `BalanceReconciler.ValidateFlags` | src/commands/update-balances.js:47-54 | succeeds, returning true, exactly when the name flag is present and non-empty; otherwise fails with the missing-name error, whose message is "You must specify a wallet with the -n flag." |
| `BalanceReconciler.EndpointMatchesMasterNetwork` | src/commands/update-balances.js:31-34 | the balance service is queried at the testnet endpoint exactly when the master node used for derivation (update-balances.js:104-106) is a testnet node, and at the mainnet endpoint exactly when it is a mainnet node: the two choices read the same network field |
| `WalletModel.PlanDerivation` | src/commands/update-balances.js:100-112 | an address is derived from the wallet's mnemonic, and the master node is a testnet node exactly when the wallet's network field is "testnet" |
| `WalletModel.PlanFollowsBip44` | src/commands/update-balances.js:108-112 | the account path reads as m/44'/145'/0' (hardened purpose, Bitcoin Cash coin type, first account). For an index below 2^31 the leaf path reads as the unhardened external chain 0 followed by the index; from 2^31 on it names no valid unhardened level |
| `HdPath.AccountPathIsBip44` | src/commands/get-address.js:49-50 | the fixed account path parses to the three hardened BIP-44 levels 44', 145', 0' from the master node |
| `HdPath.LeafPathIsExternalChain` | src/commands/get-address.js:52-56 | for an index below 2^31, the leaf path `0/<index>` parses to the external chain followed by exactly that index, both unhardened; for a larger index it does not parse, since BIP-32 reserves indices from 2^31 up for hardened children |
| `HdPath.LeafPathInjective` | src/commands/update-balances.js:111-112 | two indices give the same leaf path exactly when they are equal |
| `Decimal.ToNatFromNat` | src/commands/get-address.js:55 | reading back the decimal numeral written for an index gives the index |
| `Decimal.FromNatInjective` | src/commands/update-balances.js:112 | distinct indices are written as distinct numerals |
| `WalletModel.DistinctIndicesDistinctPaths` | src/commands/update-balances.js:99-112 | two different indices of one wallet are derived along different paths |
| `WalletModel.AddressDependsOnSeedMaterialOnly` | src/commands/update-balances.js:99-119 | an address depends on the wallet only through its mnemonic and network, not on its counter or balances |
| `BalanceReconciler.QueryAddresses` | src/commands/update-balances.js:81-93 | queries addresses 0, 1, … in order, one per index; on success returns one record per index, tagged with that index and holding the service's answer for that address; otherwise stops at the first failing index with its error (`IsWalk`) |
| `BalanceReconciler.GetAddressData` | src/commands/update-balances.js:77-96 | on success returns exactly nextAddress records in index order, record i tagged with addressIndex i and holding the service's answer for the address derived at i; a failing query aborts the walk with that query's error |
| `BalanceReconciler.QueryDependsOnSeedMaterialOnly` | src/commands/update-balances.js:82-83 | the whole walk, queries and records, is the same for two wallets with equal mnemonic and network |
| `BalanceReconciler.GenerateHasBalance` | src/commands/update-balances.js:123-146 | position i is kept if and only if its confirmed or unconfirmed balance is positive; the list is no longer than the input, its indices strictly increase and stay below the input length, and each element copies the five fields of the record at its index |
| `BalanceReconciler.HasBalanceIndexIsAddressIndex` | src/commands/update-balances.js:127-139 | composed with the walk, each hasBalance index equals the addressIndex of its record, is below nextAddress, and the stored cash address is the one the service reported for that index |
| `BalanceReconciler.UpdateBalances` | src/commands/update-balances.js:56-73 | queries every issued address in order. If a query fails, the run has queried exactly the addresses up to and including the first failing index (never more than nextAddress), fails with that query's error as a provider error, and writes nothing. Otherwise it writes, under the wallet's name, a record that keeps every other field, sets balance to the summation of the new hasBalance, and lists exactly the funded indices in order. It returns that same record when the write succeeds |
| `BalanceReconciler.RefreshWallet` | src/commands/update-balances.js:17-37 | the command as run: a missing name fails before anything is opened; a wallet that cannot be opened fails after the open. Otherwise every query goes to the endpoint the wallet file's network selects, and every write is under the flag's name of a record whose `name` field is that flag (update-balances.js:27), whatever name the file held. A successful run returns, and has written, the record the refresh contract (`IsRefreshOf`) prescribes for that wallet at that endpoint |
| `BalanceReconciler.RefreshIgnoresPreviousBalances` | src/commands/update-balances.js:62-69 | the wallet's previous balance and hasBalance have no influence on the run: hasBalance is replaced, never merged |
| `BalanceReconciler.RefreshIsUnique` | src/commands/update-balances.js:121-146 | at most one record satisfies the refresh contract, so that contract fully determines the written record |
| `BalanceReconciler.RefreshPersistsAtomically` | src/commands/update-balances.js:67-72 | a failed refresh leaves every wallet file unchanged; a successful one replaces only the wallet's own file, with the record it returns |
| `AddressDeriver.GetAddress` | src/commands/get-address.js:33-88 | a missing or empty name fails before any file is opened, with the message "You must specify a wallet with the -n flag."; a missing wallet fails after the open, with the message "Could not open <name>.json". Otherwise the written record is the opened one with nextAddress increased by exactly 1 and nothing else changed. The advisory appears exactly when the new counter exceeds 100, at most once, and before the write. The write precedes the encoding. The address returned is the one derived at the old counter, and it is returned exactly when the write succeeds |
| `AddressDeriver.AllocationPersistsAtomically` | src/commands/get-address.js:58-71 | a failed call leaves every wallet file unchanged; a successful one changes only the wallet's own file, and only by advancing its counter by one |
| `AddressDeriver.GetAddressIgnoresRestUrl` | src/commands/get-address.js:17-22 | the testnet flag, which only chooses the REST endpoint, does not change the run at all; the master node's network comes from the wallet record alone |
| `AddressDeriver.IssueAddresses` | src/commands/get-address.js:53-59 | `count` successive calls return the addresses of indices nextAddress, nextAddress + 1, … in order and leave the counter advanced by `count`, with nothing else of the wallet changed (`IsSession`) |
| `AddressDeriver.IssuedAddressesAreReconciled` | src/commands/update-balances.js:77-83 | from a fresh wallet, `count` calls return the addresses of indices 0 .. count - 1 and leave nextAddress at `count`. A later refresh queries exactly those addresses, in the same order, and queries all of them when it succeeds |

## Left out

- BITBOX cryptography (`Mnemonic.toSeed`, `HDNode.fromSeed`, `HDNode.derivePath`, `toCashAddress`): foreign library code. It is a parameter (`Library`), and every property holds for any library whose calls return.
- `Address.details`: the network balance service. It is a parameter that either answers with a record or fails. The source takes element 0 of the array it answers with; the model takes one record per query.
- `sumConfirmedBalances` (src/commands/update-balances.js:150-165): it sums floating-point BCH amounts and then floors at 1e-8. IEEE-754 arithmetic is not reproduced, so the summation is the parameter `sumConfirmed`. The model proves only that `balance` is that summation of the new `hasBalance`.
- Wallet file I/O (`openWallet`, `saveWallet`, and the `appUtil` versions): files are a name-to-record map. A write is an event whose success is a parameter. JSON formatting, the `require` cache, and partial writes of a failing `fs.writeFile` are not modelled. The `appUtil` module is not part of this model; update-balances opening a wallet through it is modelled like get-address's `openWallet`, failing with `CannotOpen` when the name has no file.
- File locations: get-address reads `../../wallets/<name>.json` relative to its own module (get-address.js:83) but writes `./wallets/<name>.json` relative to the working directory (get-address.js:94). The name-to-record map treats both as the one file of that name. That holds only when the command runs from the repository root; from elsewhere the write goes to a different file than the read, which the model does not represent.
- `UpdateBalances.run`, `GetAddress.run`: oclif parsing, `console.log` output, the top-level `catch`, and async/Promise machinery. `BalanceReconciler.RefreshWallet` keeps what update-balances' `run` decides: the validation, the open, the overwrite of the record's `name` by the flag, and the endpoint choice. For get-address the endpoint comes from the `testnet` flag and is an input. The errors keep the messages the commands print (`WalletModel.Message`); a failed write rejects with no message.
- `toLegacyAddress` in `getAddress` (get-address.js:75): the legacy address is computed and then discarded, so the library record has no such function and the model does not compute it.
- JavaScript values: `nextAddress` is a `nat`, balances are `real`s and satoshi amounts are `int`s. Missing or non-numeric JSON fields (`undefined`, `NaN`) are not modelled.
- `AddressDeriver.GetAddress`: `toSeed`, `fromSeed`, `derivePath` and `toCashAddress` are modelled as total functions that never throw; only the balance service can fail. In the source, `toCashAddress` and the discarded `toLegacyAddress` run after `await this.saveWallet` (get-address.js:71-75). If either throws, the call fails with the advanced counter already written. No run of the model has that shape, so `AddressDeriver.AllocationPersistsAtomically` holds only for a library whose calls return. A `derivePath` that throws, in either command, is not modelled either.
- `AddressDeriver.GetAddress`: `nextAddress++` (get-address.js:59) is a double-precision increment, exact only up to 2^53; from there on the counter would stop advancing. The model's counter is an unbounded `nat` that always advances by one. The decimal rendering of an index is likewise exact only below 1e21, where JavaScript switches to exponent notation.
- `AddressDeriver.GetAddress`: the command does not stop at index 2^31. From there on the leaf path `0/<index>` names no unhardened BIP-32 child, and what the library then does is not modelled; the model still derives with the path string, and `WalletModel.PlanFollowsBip44` states that the path no longer parses.
- `AddressDeriver.IssueAddresses`: models a session in which every write succeeds and nothing else touches the file between calls. Concurrent runs on one wallet are not modelled.
- The `testnet` flag of get-address is read but not declared among the command's flags. The model takes its value as an input, because how the argument parser treats an undeclared flag is not part of this model.

## Notes

- Network: the code compares the wallet file's `network` string with `"testnet"` (update-balances.js:32 and 104, get-address.js:45), and any other value means mainnet. The model keeps the field as that string, and `HdNetwork` only names the two master-node kinds it selects.
- Which indices a refresh walks: update-balances.js:79 walks `0 .. nextAddress - 1`, and line 78 holds a commented-out alternative `nextAddress - 1`. The walk as written is not off by one. After `k` calls of get-address the counter is `k`, and indices `0 .. k - 1` are exactly the ones handed out; `AddressDeriver.IssuedAddressesAreReconciled` proves this.
- Balance summation: update-balances.js:150-165 sums floating-point BCH amounts and floors the total. The model leaves the summation abstract rather than substituting an integer-satoshi sum.
