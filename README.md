# CampusChain Marketplace: listed-item store and wallet session, in Dafny

`js/app.js` is the script that every page of the marketplace shares. This
project models the two parts of it whose behaviour can be stated precisely.

* **The listed-item store.** One `listedItems` entry in local storage holds the
  ordered collection of marketplace records. `getListedItems` reads the entry
  and defaults to an empty collection when the key was never written.
  `saveListedItems` overwrites the entry. `addListedItem` appends a record.
  `updateListedItemById` merges caller fields over every record whose `id` is
  strictly equal to the target. `deleteListedItemById` filters those records
  out. Each mutating call reads the whole collection and rewrites it, even
  when nothing matched.
* **The wallet session.** Two session-storage keys, `userAddress` and
  `username`, hold the tab's wallet session. The connect button's label is
  computed from these two keys. `connectWallet` stores the first account, then
  picks a username: an ENS name, else a username already held, else the
  answer to a prompt, else `"User"`. A click on the button disconnects after
  confirmation when an address is held, and otherwise connects. `resolveENS`
  turns the provider's reverse lookup into "a name" or "no name".

Files:

* `wrappers.dfy`: `Option`.
* `listed_items.dfy`: module `ListedItems`. It defines JSON values, records as
  `map<string, Value>`, strict id equality, the spread merge, and
  `UpdateById` / `DeleteById` as pure functions. The lemmas cover order,
  "nothing else changes", no-op cases, idempotence, and id uniqueness under
  caller discipline.
* `item_store.dfy`: module `ItemStore`. Class `LocalStore` holds the
  `listedItems` entry. Its methods do the read-modify-write and are proved
  against the functions above.
* `wallet.dfy`: module `Wallet`. It holds the pure session logic:
  `ResolveEns`, JavaScript `substring` clamping, the button label, and the
  connect and click transitions with their lemmas.
* `wallet_page.dfy`: module `WalletPage`. Class `Page` holds the two session
  keys and the button text. Its methods write the keys one at a time, as the
  script does, and are proved to agree with the transitions in `Wallet`.

Modelling choices:

* JavaScript truthiness is explicit. Both `null` and `""` count as absent at
  the address test, the ENS test, the stored-username test, the prompt answer
  and the label choice (`Wallet.Truthy`).
* `it.id === id` is `ListedItems.HasId`. Every read parses the stored text
  again, so an array or object held in a record is a new reference and never
  strictly equal to the caller's argument. Only a primitive id can match. A
  record without an `id` field never matches.
* An empty account list makes `accounts[0]` `undefined`. Session storage
  keeps it as the text `"undefined"` (`Wallet.FirstAccount`).
* `substring` clamps its arguments. A short address therefore contributes all
  it has to either end of the abbreviation (`Wallet.AbbreviateShortAddress`).
* Answers from outside the page are parameters: the presence of
  `window.ethereum`, the presence of the `ethers` provider, the outcome of the
  account request, the outcome of the reverse lookup, and the answers of
  `prompt` and `confirm`.

What the code does not promise, and the model does not claim either:

* **Unique ids.** The code does not enforce unique ids. `addListedItem`
  appends whatever it is given, and `updateListedItemById` can rewrite `id`
  itself. `AddMayDuplicateId` and `UpdateMayDuplicateId` exhibit duplicates.
  `RunKeepsIdsUnique` proves that ids stay unique over a run when every add
  brings a new id and no update changes `id`.
* **Unreadable stored data.** The read falls back to `[]` when the stored text
  is falsy: a missing key, or an empty string. Stored text that is not JSON
  makes `JSON.parse` throw. The model has no rule that corrupt data reads as
  empty. Its entry holds either nothing or a sequence, and `saveListedItems`
  never stores an empty string.
* **Partial connect.** The code writes `userAddress` before it looks for a
  name. Within this model no failure can follow that write, but no atomicity
  is claimed.

## Model

| member | source | states |
|---|---|---|
| ListedItems.HasIdIsStrictEquality | js/app.js:93 | a record matches only if it has an `id` field equal to the target; a target that is an array or an object never matches, since every read yields fresh references |
| ListedItems.Merge | js/app.js:93 | the spread `{...it, ...fields}` has the keys of both; keys in `fields` take its values, other keys keep the record's |
| ListedItems.UpdateById | js/app.js:91-95 | the mapped collection has the same length as the one read |
| ListedItems.DeleteById | js/app.js:97-101 | the filtered collection is never longer than the one read |
| ListedItems.UpdateAt | js/app.js:93 | at every position a record with the id becomes the merge and any other record is passed through unchanged; length and order are kept |
| ListedItems.UpdateMergesFields | js/app.js:93 | for a matching record, fields given take the new values, fields not given keep the old ones, and no field is lost |
| ListedItems.UpdateWithoutMatchIsIdentity | js/app.js:91-95 | when no record has the id, the update returns the same collection |
| ListedItems.UpdateIdempotent | js/app.js:91-95 | updating twice with the same id and fields equals updating once, even when the fields rewrite `id` |
| ListedItems.UpdateAppend | js/app.js:93 | the update works record by record, so it distributes over concatenation |
| ListedItems.DeleteRemovesAll | js/app.js:99 | no record left after the delete has the id |
| ListedItems.DeleteKeepsOthersInOrder | js/app.js:97-101 | the result is exactly the records without the id: each is taken from an ascending list of original positions, and every record without the id is kept |
| ListedItems.DeleteMultiset | js/app.js:99 | a record with the id occurs zero times afterwards; every other record occurs exactly as often as before |
| ListedItems.DeleteWithoutMatchIsIdentity | js/app.js:97-101 | when no record has the id, the delete returns the same collection |
| ListedItems.DeleteIdempotent | js/app.js:97-101 | deleting the same id twice equals deleting it once |
| ListedItems.DeleteAppend | js/app.js:99 | the delete works record by record, so it distributes over concatenation |
| ListedItems.DeleteAfterUpdate | js/app.js:91-101 | an update whose fields do not change `id` to another value does not change what a later delete of that id keeps |
| ListedItems.AddFreshKeepsIdsUnique | js/app.js:85-89 | appending a record whose id is not yet present keeps ids unique |
| ListedItems.AddMayDuplicateId | js/app.js:85-89 | the add checks no ids, so appending a copy of a record yields a duplicate id |
| ListedItems.DeleteKeepsIdsUnique | js/app.js:97-101 | deleting keeps ids unique |
| ListedItems.UpdateKeepsIdsUnique | js/app.js:91-95 | an update that does not change `id` to another value keeps ids unique |
| ListedItems.UpdateMayDuplicateId | js/app.js:93 | an update whose fields set `id` to an id already present yields a duplicate |
| ListedItems.Apply | js/app.js:85-101 | an add puts the record last and keeps the earlier ones as they were; an update keeps the length; a delete never lengthens |
| ListedItems.RunKeepsIdsUnique | js/app.js:85-101 | ids stay unique through any run of adds, updates and deletes in which every add brings a new id and no update changes `id` |
| ItemStore.LocalStore.constructor | js/app.js:77-79 | a fresh origin has no `listedItems` entry |
| ItemStore.LocalStore.GetListedItems | js/app.js:77-79 | a read returns the stored collection, or the empty one when the key was never written |
| ItemStore.LocalStore.SaveListedItems | js/app.js:81-83 | the entry then holds exactly the collection given |
| ItemStore.LocalStore.AddListedItem | js/app.js:85-89 | the entry holds the old collection with the record appended: one longer, earlier records unchanged in value and position |
| ItemStore.LocalStore.UpdateListedItemById | js/app.js:91-95 | the entry holds the updated collection, which has the same length and equals the old one when nothing matched; it is written even then |
| ItemStore.LocalStore.DeleteListedItemById | js/app.js:97-101 | the entry holds the filtered collection; no record in it has the id, and it equals the old one when nothing matched |
| ItemStore.FirstAddOnFreshStore | js/app.js:77-89 | a never-written store reads as empty, and after one add it holds exactly that record |
| Wallet.ResolveEns | js/app.js:104-112 | a name comes back if and only if a provider exists and the lookup returned a non-empty name; no provider, a thrown lookup and a falsy name all give "no name" |
| Wallet.ClampIndex | js/app.js:52 | a `substring` index is clamped into `[0, length]` and left alone when already inside |
| Wallet.JsSubstring | js/app.js:52 | `substring` of in-range ascending indices is the plain slice and never longer than the string |
| Wallet.JsSubstringSymmetric | js/app.js:52 | exchanging the two indices of `substring` gives the same result |
| Wallet.Abbreviate | js/app.js:52 | the abbreviation is the first six characters (or all, if fewer), then `...`, then the last four (or all, if fewer) |
| Wallet.ButtonLabel | js/app.js:44-56 | the label is never empty; it is `Connect Wallet` without a truthy address, the username when both address and username are truthy, and the abbreviated address (first six, `...`, last four) when the address is truthy and the username is not |
| Wallet.AbbreviateLongAddress | js/app.js:52 | an address of ten or more characters shows as 13 characters: its first six, `...`, its last four |
| Wallet.AbbreviateShortAddress | js/app.js:52 | an address of at most four characters appears whole on both sides of `...` |
| Wallet.LabelOfUnnamedAddress | js/app.js:50-52 | `0x1234567890abcdef1234567890abcdef12345678` with no username shows as `0x1234...5678` |
| Wallet.FirstAccount | js/app.js:20-21 | the stored address is the first account, or the text `undefined` for an empty list |
| Wallet.ChooseUsername | js/app.js:24-34 | the chosen username is never empty, and is the ENS name, the held username, the prompt answer or `User` |
| Wallet.ConnectStep | js/app.js:12-42 | no wallet leaves the session alone; a rejected account request reports failure and leaves the session alone; otherwise the address is the first account and the username is non-empty |
| Wallet.ConnectUsernamePriority | js/app.js:24-34 | after a connect the username is the looked-up name when the provider returned a non-empty one; else the username already held, if non-empty; else the prompt answer, if non-empty; else `User` |
| Wallet.ClickStep | js/app.js:61-71 | with a truthy address, the click leaves no address exactly when the user confirms; a confirmation also removes the username, and a decline changes nothing; without a truthy address the click is the connect transition |
| Wallet.ConnectedLabelIsUsername | js/app.js:24-36 | after connecting to a non-empty account, the button shows the chosen username: ENS name first, then the held username, then the prompt answer, then `User` |
| Wallet.ConnectWithEnsNameShowsIt | js/app.js:24-26 | a connect resolving `alice.eth` shows `alice.eth`, whatever username was held before |
| Wallet.ReconnectKeepsUsername | js/app.js:27-33 | with a username held and no ENS name, a connect keeps that username and its result does not depend on the prompt answer |
| Wallet.StepsKeepSessionCoherent | js/app.js:12-74 | connecting and clicking keep a username only alongside an address |
| Wallet.ClickWhileConnected | js/app.js:62-69 | with a truthy address, a confirmed click removes both keys and the label asks to connect; a declined click changes neither key |
| Wallet.ClickWhileDisconnectedConnects | js/app.js:62-70 | with no truthy address, a click is exactly a connect, whatever `confirm` would answer |
| WalletPage.Page.Load | js/app.js:58-74 | on load the keys are as the tab left them, and a page with the button shows their label |
| WalletPage.Page.UpdateConnectButton | js/app.js:44-56 | the button, if present, shows the session's label; nothing else changes |
| WalletPage.Page.ConnectWallet | js/app.js:12-42 | writing the keys one at a time ends in the session and outcome of `ConnectStep`; the button is refreshed only after a successful connect |
| WalletPage.Page.OnConnectButtonClick | js/app.js:61-71 | the keys end as `ClickStep` says; the button reads `Connect Wallet` after a confirmed disconnect, is refreshed after a successful connect, and is unchanged otherwise |
| WalletPage.ConnectThenDisconnect | js/app.js:12-71 | a tab that connects with ENS name `alice.eth` shows it, then shows `Connect Wallet` after a confirmed disconnect |

## Left out

- JSON serialisation (js/app.js:78, 82). The store holds the record sequence directly. Effects of a JSON round trip are not modelled: `undefined` fields dropped, non-finite numbers turned into `null`, and a throw on unparseable text.
- Values: numbers are reals, with no NaN and no negative zero. A target id of `undefined` is not representable: it would match every record without an `id` field. Collections holding non-object entries are not modelled: `null.id` would throw.
- Strings are sequences of Unicode scalar values. JavaScript's `length` and `substring` count UTF-16 code units, so `Wallet.Abbreviate` matches js/app.js:52 only for addresses without characters outside the Basic Multilingual Plane. Real account addresses are ASCII hex.
- `window.ethereum.request`, the `ethers.BrowserProvider` construction and `provider.lookupAddress` (js/app.js:8-9, 19, 107) are library and network calls. Only their outcomes enter, as parameters. The provider exists only if `window.ethereum` did when the script loaded, so its presence is a separate parameter from that of `window.ethereum` at click time.
- `alert`, `prompt`, `confirm`, `console.error` and `location.reload` (js/app.js:15, 31, 39-40, 64, 68) are host UI calls. Only the answers of `prompt` and `confirm` enter, as parameters. The reload after a disconnect is not modelled; a later `Page.Load` stands for it.
- A throwing `sessionStorage.setItem` or `localStorage.setItem` (a full quota) is not modelled. Only a rejected account request is a connect failure here.
- The scanner modal `openScannerForOwner`, `closeScanner` and the outside-click listener (js/app.js:120-152) are DOM styling, an HTML template and a 900 ms timer with unguarded interleaving. They are UI and timing.
- `buyItem` (js/app.js:115-117) only shows an alert and has no state.
- The `window.*` exports (js/app.js:155-162) are plumbing.
- Concurrency: asynchronous interleaving of `connectWallet` with other clicks, and last-writer-wins between tabs on local storage. The model is sequential.
