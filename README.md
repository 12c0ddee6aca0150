# Staff card commands: a verified model

The bot's `/staff` command lets administrators manage a catalog of collectible cards and
hand copies of them to users. This project models the logic of `commands/staff.js`:

- **Tier labels** (`tier_label.dfy`): a tier key is shown as `key.replace(/([a-z])([A-Z])/g, "$1 $2")`.
  `Label` is that replacement as the regular-expression engine does it: it scans left to right
  and does not let global matches overlap. `Spaced` is the index-wise description: a space goes
  before position `i` exactly when `s[i-1]` is lowercase and `s[i]` is uppercase. The lemmas
  prove the two are the same, place every character of the key in the label, and prove
  idempotence. For keys that hold no space of their own they also prove the round trip and
  injectivity.
- **Autocomplete** (`autocomplete.dfy`): the `id` option's suggestions. The handler keeps the
  catalog ids that start with the upper-cased typed text, turns each into a `{name: id, value: id}`
  pair, and cuts the list to 25. It is proved equal to an independent scan, `FirstMatches`, which
  keeps the first 25 matching ids in catalog order.
- **Subcommands** (`staff.dfy`): `upload`, `droppable`, `delete` and `give` are methods over two
  store classes:
  - `CardStore`: the catalog, a map from stored id to record.
  - `InventoryStore`: quantities per (user id, card document key).

  The store operations are the database wrappers' `get`, `create`, `update`, `delete` and `add`.
  Their code is not part of this model, so each one promises only what `staff.js` relies on
  when it calls it. Every state change
  is stated as a function of the old state (`Toggled`, `Added`, `Purged`). Lemmas relate those
  functions to each other and to the invariant that no inventory entry outlives its card.
- `text.dfy` holds the ASCII character classes, `toUpperCase` and `startsWith`.
  `interaction.dfy` holds `Option` and the `{name, value}` choice pair.

Where one might expect otherwise, the model follows the code:

- The code looks a card up with the id exactly as typed (`get(id)`, lines 52, 85 and 103). It
  stores the upper-cased id (line 79). The model's `Get` therefore does not normalise case.
  One consequence, stated by `Upload`'s contract and exercised by the client `LowerCaseReupload`:
  an upload of `abc` passes the pre-check even when `ABC` is stored, and stores over it.
  `ReplaceOrphans` shows that this would orphan the old card's inventory entries. That orphaning
  comes from modelling `create` on an existing id as a replacement; a store that kept both
  documents would orphan nothing.
- The commit does not check for a conflict again after the button press (line 79). The model
  has no such check.
- A missing button press and a press of any button other than `upload` both end in the same
  "canceled" reply (lines 73-74). There is no separate "expired" outcome.
- The typed text is upper-cased, but the stored ids are compared with it case-sensitively
  (line 118).

## Model

| member | source | states |
|---|---|---|
| Text.Upper | commands/staff.js:118 | `toUpperCase` keeps the length and upper-cases each ASCII lowercase letter, leaving every other character alone |
| Text.UpperIdempotent | commands/staff.js:79 | an upper-cased id has no lowercase letter left, so upper-casing it again changes nothing |
| TierLabel.LabelIsSpaced | commands/staff.js:19 | the global, non-overlapping regex replacement equals the index-wise description: no boundary is missed, because the uppercase half of a match cannot start the next match |
| TierLabel.SpacedLength | commands/staff.js:62 | the label is longer than the key by exactly the number of lowercase-to-uppercase boundaries |
| TierLabel.SpacedChar | commands/staff.js:62 | character `i` of the key appears in the label at `i` plus the number of spaces inserted up to it |
| TierLabel.SpacedGap | commands/staff.js:62 | right in front of each key character stands the inserted space if it follows a boundary, and the previous key character otherwise |
| TierLabel.SpacedNoBoundary | commands/staff.js:62 | the label has no lowercase-to-uppercase boundary left |
| TierLabel.LabelUnchanged | commands/staff.js:62 | a key with no boundary is shown unchanged |
| TierLabel.LabelIdempotent | commands/staff.js:62 | formatting a label a second time changes nothing |
| TierLabel.LabelRoundTrip | commands/staff.js:19 | removing the inserted spaces from the label gives back any key that holds no space itself |
| TierLabel.LabelInjective | commands/staff.js:19 | two distinct space-free tier keys are never offered under the same label |
| TierLabel.TierChoices | commands/staff.js:19 | one choice per configured key, in order; its value is the key and its name is the key with a space inserted at every lowercase-to-uppercase boundary (`Spaced`), which for a space-free key decodes back to the key |
| Autocomplete.Matching | commands/staff.js:118 | the filter keeps no more ids than it is given, and every kept id starts with the prefix |
| Autocomplete.Suggest | commands/staff.js:118 | one suggestion per id, with both `name` and `value` equal to that id |
| Autocomplete.MatchingMembers | commands/staff.js:118 | an id is kept exactly when it is in the list and starts with the prefix |
| Autocomplete.MatchingSubsequence | commands/staff.js:116-118 | the kept ids stay in the order the catalog listed them |
| Autocomplete.MatchingAppend | commands/staff.js:118 | filtering a concatenated list filters each part in turn |
| Autocomplete.MatchingEmptyPrefix | commands/staff.js:118 | with an empty prefix nothing is filtered out |
| Autocomplete.TakeMatching | commands/staff.js:118-119 | filtering and then keeping the first `n` is the same as the in-order scan that stops after `n` matches |
| Autocomplete.FirstMatchesBounded | commands/staff.js:119 | at most `n` ids are suggested, each starting with the prefix |
| Autocomplete.FirstMatchesComplete | commands/staff.js:119 | fewer than `n` suggestions means every matching id was suggested |
| Autocomplete.FirstMatchesEmptyPrefix | commands/staff.js:116-119 | with nothing typed, the suggestions are the first `n` ids of the catalog |
| Autocomplete.FirstMatchesAppend | commands/staff.js:116-119 | once `n` matching ids have been seen, ids further down the catalog do not affect the suggestions |
| Autocomplete.Respond | commands/staff.js:114-121 | the handler returns at most 25 suggestions, each with `name == value`, each starting with the upper-cased typed text: the first 25 matching ids in catalog order |
| Autocomplete.RespondEmptyFocus | commands/staff.js:117-119 | with nothing typed, the handler suggests the first 25 catalog ids |
| Staff.Toggled | commands/staff.js:88 | only the `droppable` field of the record under `id` changes, to its negation; every other field and record stays as it was, and an unknown id changes nothing |
| Staff.ToggledTwice | commands/staff.js:88 | flipping twice restores the catalog |
| Staff.Added | commands/staff.js:107 | the (user, card) quantity grows by the granted amount, starting from zero if absent; every other entry is unchanged |
| Staff.AddedTwice | commands/staff.js:107 | granting `q1` and then `q2` copies equals granting `q1 + q2` |
| Staff.AddedPositive | commands/staff.js:107 | a grant of at least one keeps every stored quantity at least one |
| Staff.Purged | commands/staff.js:95 | no entry for the deleted card's key remains for any user; every other entry stays with its quantity |
| Staff.PurgedIdempotent | commands/staff.js:95 | purging twice equals purging once |
| Staff.AddedNoOrphans | commands/staff.js:103-107 | granting a card the catalog holds leaves no inventory entry without its card |
| Staff.DeleteNoOrphans | commands/staff.js:95 | deleting a card and purging its entries leaves no inventory entry without its card |
| Staff.InsertNoOrphans | commands/staff.js:79 | storing a record under an id not yet stored leaves no orphan |
| Staff.ReplaceOrphans | commands/staff.js:52-79 | storing a record over an already stored id with a new key orphans the old card's inventory entries |
| Staff.CardStore.Get | commands/staff.js:52 | exact-match lookup of the id as passed: the stored record, or nothing |
| Staff.CardStore.Create | commands/staff.js:79 | the record is stored under the given id with the supplied fields and a fresh document key |
| Staff.CardStore.Update | commands/staff.js:88 | sets `droppable` on the record under `id` and changes nothing else; an unknown id changes nothing |
| Staff.CardStore.Delete | commands/staff.js:95 | removes the record under `id`, returns it (or nothing), and purges every inventory entry for its key |
| Staff.InventoryStore.Add | commands/staff.js:107 | the inventory becomes `Added(old, user, key, quantity)` and quantities stay at least one |
| Staff.InventoryStore.RemoveAllForCard | commands/staff.js:95 | the inventory becomes `Purged(old, key)` |
| Staff.CopiesPhrase | commands/staff.js:108 | the reply says "a copy of" exactly when the quantity is at most one, otherwise it names the quantity |
| Staff.Upload | commands/staff.js:43-81 | an id already stored leaves the catalog unchanged and nothing is created; no press, or a press of any button but `upload`, leaves it unchanged; `upload` stores exactly one record, under the upper-cased id, with the supplied name, group, era, tier, droppable and image |
| Staff.Droppable | commands/staff.js:83-92 | an unknown id changes nothing; otherwise the catalog becomes `Toggled(old, id)` and the reply reports the flag's old value |
| Staff.Delete | commands/staff.js:93-98 | the record under `id` is removed with every inventory entry for it, the key counter is kept, and consistent stores stay consistent (no orphan appears); an unknown id changes nothing and is reported |
| Staff.Give | commands/staff.js:99-109 | an unknown id leaves the inventory unchanged; otherwise the quantity, defaulting to 1, is added under the card's document key, the reply names the stored id with `CopiesPhrase`, and consistent stores stay consistent (no orphan appears) |

## Left out

- The slash-command schema and permission flags (lines 7-35) are not modelled. Only the tier choices of line 19 are, as `TierChoices`. The minimum quantity of 1 (line 35) becomes `Give`'s precondition.
- Embeds, colours, buttons and the `reply`, `editReply` and `respond` calls are presentation. Replies are reduced to the `Reply` datatype. The "Card Verification" preview is not modelled; it shows the upper-cased id and the tier label, and both functions are modelled.
- The timing of `awaitMessageComponent` (line 72) is reduced to an optional custom id. So is the fact that any user may press the button, since no filter is given.
- `fetch(attachment.url)` and `Buffer.from` (lines 77-78) are network I/O. The image is a parameter of opaque bytes. A failed fetch throws before `create`; that exception path is not modelled.
- The store wrappers' code is not part of this model. That covers whether `get` normalises case, how `create` treats an id already stored, whether `add` is atomic, and storage failures. Their contracts here promise only what the command relies on.
- The order of catalog documents is not held by `CardStore`. `Autocomplete.Respond` takes the list of ids in store order as input instead.
- `mongo.update` on line 88 is not awaited. The model applies it before the reply, and any interleaving with other requests is left out. That includes the gap between the pre-check and `create`.
- `config.tiers` and `config.theme` (line 2) are not read. Tier keys are passed in as a sequence of strings.
- Text.Upper: models `toUpperCase` on the ASCII letters only. Unicode case mapping is not modelled; in JavaScript it can change a string's length.
- Staff.Give: models whole-number quantities only. The platform's number option also admits fractions such as 2.5, which would need floating point.
- Staff.CardStore.Create: storing under an id the map already holds replaces that record. A document store without a unique index would keep two documents instead. This case is reachable only through case differences that the exact-match pre-check misses.
- Staff.CardStore.Delete: the cascade into inventories is an assumption, not proven behaviour. The call passes an inventory store to `delete` (line 95), and the model reads that as purging every user's entries for the card.
