/**
 * The `/staff` command's subcommands (`upload`, `droppable`, `delete`, `give`) over a card
 * catalog and the users' inventories. The two stores stand for the bot's database wrappers,
 * whose code is not part of this model; each operation promises only what the command
 * relies on when it calls it.
 */
module Staff {
  import opened Text
  import opened Interaction

  type Bytes = seq<bv8>

  /** A catalog record. `key` is the document key the database assigns (`_id`). */
  datatype Card = Card(key: nat, id: string, name: string, group: string, era: string,
                       tier: string, droppable: bool, image: Bytes)

  /** An inventory entry is addressed by the owner's user id and the card's document key. */
  type Entry = (string, nat)

  /** No two records share a document key. */
  ghost predicate DistinctKeys(cards: map<string, Card>) {
    forall a, b :: a in cards && b in cards && a != b ==> cards[a].key != cards[b].key
  }

  /** Every stored quantity is at least one. */
  ghost predicate Positive(entries: map<Entry, nat>) {
    forall e :: e in entries ==> entries[e] >= 1
  }

  /** Every inventory entry refers to a card the catalog still holds. */
  ghost predicate NoOrphans(cards: map<string, Card>, entries: map<Entry, nat>) {
    forall e :: e in entries ==> exists id :: id in cards && cards[id].key == e.1
  }

  // ---------------------------------------------------------------------------
  // The state changes the stores perform, as functions of the old state.

  /** The catalog after `droppable` is flipped on the record stored under `id`. */
  function Toggled(cards: map<string, Card>, id: string): (r: map<string, Card>)
    ensures r.Keys == cards.Keys
    ensures forall k :: k in cards && k != id ==> r[k] == cards[k]
    ensures id in cards ==> r[id].droppable == !cards[id].droppable
    ensures id in cards ==> r[id].(droppable := cards[id].droppable) == cards[id]
  {
    if id in cards then cards[id := cards[id].(droppable := !cards[id].droppable)] else cards
  }

  /** The inventory after `q` copies of the card with key `key` are added for `user`. */
  function Added(entries: map<Entry, nat>, user: string, key: nat, q: nat): (r: map<Entry, nat>)
    ensures r.Keys == entries.Keys + {(user, key)}
    ensures r[(user, key)] == (if (user, key) in entries then entries[(user, key)] else 0) + q
    ensures forall e :: e in entries && e != (user, key) ==> r[e] == entries[e]
  {
    var before := if (user, key) in entries then entries[(user, key)] else 0;
    entries[(user, key) := before + q]
  }

  /** The inventory after every entry for the card with key `key` is removed, for every user. */
  function Purged(entries: map<Entry, nat>, key: nat): (r: map<Entry, nat>)
    ensures forall e :: e in r ==> e.1 != key
    ensures forall e :: e in entries && e.1 != key ==> e in r && r[e] == entries[e]
    ensures r.Keys <= entries.Keys
  {
    map e | e in entries && e.1 != key :: entries[e]
  }

  /** Two flips bring the catalog back. */
  lemma ToggledTwice(cards: map<string, Card>, id: string)
    ensures Toggled(Toggled(cards, id), id) == cards
  {
  }

  /** Two grants of the same card to the same user add up. */
  lemma AddedTwice(entries: map<Entry, nat>, user: string, key: nat, q1: nat, q2: nat)
    ensures Added(Added(entries, user, key, q1), user, key, q2) == Added(entries, user, key, q1 + q2)
  {
  }

  /** A positive grant keeps every stored quantity at least one. */
  lemma AddedPositive(entries: map<Entry, nat>, user: string, key: nat, q: nat)
    requires Positive(entries) && q >= 1
    ensures Positive(Added(entries, user, key, q))
  {
  }

  /** Purging twice is purging once. */
  lemma PurgedIdempotent(entries: map<Entry, nat>, key: nat)
    ensures Purged(Purged(entries, key), key) == Purged(entries, key)
  {
  }

  /** Granting a card the catalog holds leaves no orphan. */
  lemma AddedNoOrphans(cards: map<string, Card>, entries: map<Entry, nat>, user: string, id: string, q: nat)
    requires NoOrphans(cards, entries) && id in cards
    ensures NoOrphans(cards, Added(entries, user, cards[id].key, q))
  {
  }

  /** Deleting a card and purging its entries leaves no orphan. */
  lemma DeleteNoOrphans(cards: map<string, Card>, entries: map<Entry, nat>, id: string)
    requires NoOrphans(cards, entries) && DistinctKeys(cards) && id in cards
    ensures NoOrphans(cards - {id}, Purged(entries, cards[id].key))
  {
    var rest := cards - {id};
    var r := Purged(entries, cards[id].key);
    forall e | e in r
      ensures exists j :: j in rest && rest[j].key == e.1
    {
      var j :| j in cards && cards[j].key == e.1;
      assert j != id;
      assert j in rest && rest[j].key == e.1;
    }
  }

  /** A record stored under a new id leaves no orphan. */
  lemma InsertNoOrphans(cards: map<string, Card>, entries: map<Entry, nat>, id: string, card: Card)
    requires NoOrphans(cards, entries) && id !in cards
    ensures NoOrphans(cards[id := card], entries)
  {
    var r := cards[id := card];
    forall e | e in entries
      ensures exists j :: j in r && r[j].key == e.1
    {
      var j :| j in cards && cards[j].key == e.1;
      assert j in r && r[j] == cards[j];
    }
  }

  /**
   * A record stored under an id the catalog already holds replaces the old record; if the
   * new record has a new key, every inventory entry for the old record becomes an orphan.
   */
  lemma ReplaceOrphans(cards: map<string, Card>, entries: map<Entry, nat>, id: string, card: Card, user: string)
    requires DistinctKeys(cards) && id in cards && (user, cards[id].key) in entries
    requires card.key != cards[id].key
    ensures !NoOrphans(cards[id := card], entries)
  {
  }

  // ---------------------------------------------------------------------------
  // The stores.

  /** The card collection (the bot's card database wrapper). */
  class CardStore {
    var cards: map<string, Card>
    var nextKey: nat

    ghost predicate Valid()
      reads this
    {
      && (forall id :: id in cards ==> cards[id].id == id && cards[id].key < nextKey)
      && DistinctKeys(cards)
    }

    constructor ()
      ensures Valid() && cards == map[] && nextKey == 0
    {
      cards := map[];
      nextKey := 0;
    }

    /** Exact-match lookup; the id is passed on as given, without case normalisation. */
    method Get(id: string) returns (card: Option<Card>)
      ensures card == if id in cards then Some(cards[id]) else None
    {
      card := if id in cards then Some(cards[id]) else None;
    }

    /** Stores a new record under `id` with a freshly assigned document key. */
    method Create(id: string, name: string, group: string, era: string, tier: string, droppable: bool, image: Bytes)
      requires Valid()
      modifies this
      ensures Valid()
      ensures cards == old(cards)[id := Card(old(nextKey), id, name, group, era, tier, droppable, image)]
      ensures nextKey == old(nextKey) + 1
    {
      cards := cards[id := Card(nextKey, id, name, group, era, tier, droppable, image)];
      nextKey := nextKey + 1;
    }

    /** Sets the `droppable` field of the record stored under `id`; an unknown id changes nothing. */
    method Update(id: string, droppable: bool)
      requires Valid()
      modifies this
      ensures Valid() && nextKey == old(nextKey)
      ensures cards == if id in old(cards) then old(cards)[id := old(cards)[id].(droppable := droppable)] else old(cards)
    {
      if id in cards {
        cards := cards[id := cards[id].(droppable := droppable)];
      }
    }

    /** Removes the record stored under `id` and every inventory entry for it; returns the removed record. */
    method Delete(id: string, inventory: InventoryStore) returns (card: Option<Card>)
      requires Valid() && inventory.Valid()
      modifies this, inventory
      ensures Valid() && inventory.Valid() && nextKey == old(nextKey)
      ensures card == if id in old(cards) then Some(old(cards)[id]) else None
      ensures cards == old(cards) - {id}
      ensures inventory.entries == if id in old(cards) then Purged(old(inventory.entries), old(cards)[id].key) else old(inventory.entries)
    {
      if id in cards {
        card := Some(cards[id]);
        cards := cards - {id};
        inventory.RemoveAllForCard(card.value.key);
      } else {
        card := None;
      }
    }
  }

  /** The inventory collection (the bot's inventory database wrapper), for all users at once. */
  class InventoryStore {
    var entries: map<Entry, nat>

    ghost predicate Valid()
      reads this
    {
      Positive(entries)
    }

    constructor ()
      ensures Valid() && entries == map[]
    {
      entries := map[];
    }

    /** Adds `quantity` copies of the card with key `key` to `user`'s inventory. */
    method Add(user: string, key: nat, quantity: nat)
      requires Valid() && quantity >= 1
      modifies this
      ensures Valid()
      ensures entries == Added(old(entries), user, key, quantity)
    {
      AddedPositive(entries, user, key, quantity);
      entries := Added(entries, user, key, quantity);
    }

    /** Removes every entry for the card with key `key`, whoever owns it. */
    method RemoveAllForCard(key: nat)
      requires Valid()
      modifies this
      ensures Valid()
      ensures entries == Purged(old(entries), key)
    {
      entries := Purged(entries, key);
    }
  }

  /** Both stores are well formed and no inventory entry outlives its card. */
  ghost predicate Consistent(store: CardStore, inventory: InventoryStore)
    reads store, inventory
  {
    store.Valid() && inventory.Valid() && NoOrphans(store.cards, inventory.entries)
  }

  // ---------------------------------------------------------------------------
  // The subcommands.

  /** How the `give` reply counts the copies. */
  datatype Copies = ACopy | CopiesOf(n: int)

  /** "a copy of" for a quantity of at most one, "<n> copies of" above it. */
  function CopiesPhrase(quantity: int): (r: Copies)
    ensures r == ACopy <==> quantity <= 1
    ensures r.CopiesOf? ==> r.n == quantity
  {
    if quantity > 1 then CopiesOf(quantity) else ACopy
  }

  /** What the command replies with, by outcome, without the embed presentation. */
  datatype Reply =
    | AlreadyExists
    | Canceled
    | Uploaded
    | NoSuchCard
    | NoLongerDroppable(id: string)
    | NowDroppable(id: string)
    | Deleted(id: string)
    | Given(user: string, copies: Copies, cardId: string)

  /** The custom id of the confirming button. */
  const UploadButton: string := "upload"

  /**
   * `upload`: refuse an id that is already stored, otherwise show the preview and wait
   * for one button press; `component` is the custom id of the button pressed, if any.
   * Only the confirming button stores the card, under the upper-cased id.
   */
  method Upload(store: CardStore, name: string, group: string, era: string, id: string, tier: string,
                droppable: bool, image: Bytes, component: Option<string>) returns (reply: Reply)
    requires store.Valid()
    modifies store
    ensures store.Valid()
    ensures id in old(store.cards) ==> reply == AlreadyExists && unchanged(store)
    ensures id !in old(store.cards) && component != Some(UploadButton) ==> reply == Canceled && unchanged(store)
    ensures id !in old(store.cards) && component == Some(UploadButton) ==>
      && reply == Uploaded
      && store.cards == old(store.cards)[Upper(id) := Card(old(store.nextKey), Upper(id), name, group, era, tier, droppable, image)]
      && store.nextKey == old(store.nextKey) + 1
  {
    var card := store.Get(id);
    if card.Some? {
      return AlreadyExists;
    }
    if component != Some(UploadButton) {
      return Canceled;
    }
    store.Create(Upper(id), name, group, era, tier, droppable, image);
    reply := Uploaded;
  }

  /** `droppable`: flip the flag of the card stored under `id`, and say which way it went. */
  method Droppable(store: CardStore, id: string) returns (reply: Reply)
    requires store.Valid()
    modifies store
    ensures store.Valid() && store.nextKey == old(store.nextKey)
    ensures store.cards == Toggled(old(store.cards), id)
    ensures reply == if id !in old(store.cards) then NoSuchCard
                     else if old(store.cards)[id].droppable then NoLongerDroppable(id)
                     else NowDroppable(id)
  {
    var card := store.Get(id);
    if card.None? {
      return NoSuchCard;
    }
    store.Update(id, !card.value.droppable);
    reply := if card.value.droppable then NoLongerDroppable(id) else NowDroppable(id);
  }

  /** `delete`: remove the card stored under `id` together with every inventory entry for it. */
  method Delete(store: CardStore, inventory: InventoryStore, id: string) returns (reply: Reply)
    requires store.Valid() && inventory.Valid()
    modifies store, inventory
    ensures store.Valid() && inventory.Valid() && store.nextKey == old(store.nextKey)
    ensures store.cards == old(store.cards) - {id}
    ensures inventory.entries == if id in old(store.cards) then Purged(old(inventory.entries), old(store.cards)[id].key)
                                 else old(inventory.entries)
    ensures old(Consistent(store, inventory)) ==> Consistent(store, inventory)
    ensures reply == if id in old(store.cards) then Deleted(id) else NoSuchCard
  {
    ghost var cards, entries := store.cards, inventory.entries;
    var card := store.Delete(id, inventory);
    if card.None? {
      assert store.cards == cards;
      return NoSuchCard;
    }
    if NoOrphans(cards, entries) {
      DeleteNoOrphans(cards, entries, id);
    }
    reply := Deleted(id);
  }

  /** `give`: add `quantity` copies (one when omitted) of the card stored under `id` to `user`. */
  method Give(store: CardStore, inventory: InventoryStore, user: string, id: string, quantity: Option<int>)
    returns (reply: Reply)
    requires store.Valid() && inventory.Valid()
    requires quantity.Some? ==> quantity.value >= 1
    modifies inventory
    ensures inventory.Valid()
    ensures id !in store.cards ==> reply == NoSuchCard && inventory.entries == old(inventory.entries)
    ensures id in store.cards ==>
      && inventory.entries == Added(old(inventory.entries), user, store.cards[id].key, quantity.GetOr(1))
      && reply == Given(user, CopiesPhrase(quantity.GetOr(1)), store.cards[id].id)
    ensures old(Consistent(store, inventory)) ==> Consistent(store, inventory)
  {
    var q := quantity.GetOr(1);
    var card := store.Get(id);
    if card.None? {
      return NoSuchCard;
    }
    if NoOrphans(store.cards, inventory.entries) {
      AddedNoOrphans(store.cards, inventory.entries, user, id, q);
    }
    inventory.Add(user, card.value.key, q);
    reply := Given(user, CopiesPhrase(q), card.value.id);
  }

  /**
   * A client of the contracts: the exact-match pre-check does not see the stored "ABC123"
   * when the id is typed as "abc123", so the upload goes ahead and stores over it.
   */
  method LowerCaseReupload()
  {
    var store := new CardStore();
    var reply := Upload(store, "Name", "Group", "Era", "ABC123", "Common", true, [], Some(UploadButton));
    assert Upper("ABC123") == "ABC123";
    assert reply == Uploaded && store.cards["ABC123"].key == 0;
    reply := Upload(store, "Other", "Group", "Era", "abc123", "Rare", false, [], Some(UploadButton));
    assert Upper("abc123") == "ABC123";
    assert reply == Uploaded;
    assert store.cards["ABC123"].key == 1 && store.cards["ABC123"].name == "Other";
  }

  /** A client of the contracts: upload, grant three and then two copies, delete. */
  method GrantThenDelete()
  {
    var store := new CardStore();
    var inventory := new InventoryStore();
    var reply := Upload(store, "Name", "Group", "Era", "abc123", "Common", true, [], Some(UploadButton));
    assert Upper("abc123") == "ABC123";
    assert reply == Uploaded && "ABC123" in store.cards;
    var key := store.cards["ABC123"].key;

    reply := Upload(store, "Name", "Group", "Era", "ABC123", "Common", true, [], Some(UploadButton));
    assert reply == AlreadyExists;

    reply := Give(store, inventory, "U1", "ABC123", Some(3));
    assert reply == Given("U1", CopiesOf(3), "ABC123");
    reply := Give(store, inventory, "U1", "ABC123", Some(2));
    assert inventory.entries[("U1", key)] == 5;

    // The lookup is exact, so the id as typed in lower case finds nothing.
    reply := Give(store, inventory, "U1", "abc123", None);
    assert reply == NoSuchCard;

    reply := Delete(store, inventory, "ABC123");
    assert reply == Deleted("ABC123");
    assert ("U1", key) !in inventory.entries;
  }
}
