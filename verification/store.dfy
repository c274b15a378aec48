/**
 * The hosted database as the client sees it: tables of rows in storage order, the requests
 * the client sends, and what each request does to the tables or returns from them.
 * Handlers elsewhere return the requests they issue and take the responses as inputs;
 * the lemmas that relate the two live next to the handlers.
 */
module Store {
  import opened Wrappers
  import opened Sequences
  import opened Entities

  datatype Tables = Tables(
    profiles: seq<Profile>,
    items: seq<WishlistItem>,
    conversations: seq<Conversation>,
    messages: seq<Message>)

  /** The columns an `update` of the purchase toggle writes. */
  datatype PurchasePatch = PurchasePatch(itemId: Id, purchased: bool, purchasedBy: Option<Id>)

  /** The record `insert` sends for a new wishlist item. */
  datatype NewItem = NewItem(userId: Id, title: string, url: Option<string>, price: real, purchased: bool)

  /** The columns a profile `update` writes; `avatarUrl == None` means the column is left out. */
  datatype ProfilePatch = ProfilePatch(name: string, birthday: string, role: string, avatarUrl: Option<string>)

  /** Requests the core sends to the database. */
  datatype Call =
    | SelectItemsOf(owner: Id)
    | UpdatePurchase(patch: PurchasePatch)
    | InsertItem(item: NewItem)
    | DeleteItemById(itemId: Id)
    | UpdateProfile(profileId: Id, profilePatch: ProfilePatch)

  /** `.single()`: the row when exactly one row matched, no data otherwise. */
  function Single<T>(rows: seq<T>): Option<T> {
    if |rows| == 1 then Some(rows[0]) else None
  }

  function ProfileHasId(id: Id): Profile -> bool {
    (p: Profile) => p.id == id
  }

  /** `select().eq("id", id).single()` on `profiles`. */
  function ProfileById(t: Tables, id: Id): Option<Profile> {
    Single(Filter(t.profiles, ProfileHasId(id)))
  }

  /** The `purchased_by_profile(name)` join. */
  function PurchaserName(t: Tables, purchasedBy: Option<Id>): Option<string> {
    match purchasedBy
    case None => None
    case Some(id) =>
      match ProfileById(t, id)
      case None => None
      case Some(p) => Some(p.name)
  }

  function OwnedBy(owner: Id): WishlistItem -> bool {
    (i: WishlistItem) => i.userId == owner
  }

  function WithJoin(t: Tables): WishlistItem -> WishlistItem {
    (i: WishlistItem) => i.(purchaserName := PurchaserName(t, i.purchasedBy))
  }

  /** `select("*, purchased_by_profile(name)").eq("user_id", owner)`: the owner's items, joined. */
  function ItemsOf(t: Tables, owner: Id): (r: seq<WishlistItem>)
    ensures |r| <= |t.items|
    ensures forall j :: 0 <= j < |r| ==>
      r[j].userId == owner && r[j].purchaserName == PurchaserName(t, r[j].purchasedBy)
  {
    var rows := Filter(t.items, OwnedBy(owner));
    assert forall j :: 0 <= j < |rows| ==> rows[j] in rows;
    Map(rows, WithJoin(t))
  }

  /** Every row the owner has is returned, with its purchaser joined in. */
  lemma ItemsOfComplete(t: Tables, owner: Id, k: nat)
    requires k < |t.items| && t.items[k].userId == owner
    ensures WithJoin(t)(t.items[k]) in ItemsOf(t, owner)
  {
    var rows := Filter(t.items, OwnedBy(owner));
    assert t.items[k] in rows;
    var j :| 0 <= j < |rows| && rows[j] == t.items[k];
    assert ItemsOf(t, owner)[j] == WithJoin(t)(t.items[k]);
  }

  /** Every returned item is one of the owner's rows with its purchaser joined in. */
  lemma ItemsOfSound(t: Tables, owner: Id, j: nat)
    requires j < |ItemsOf(t, owner)|
    ensures exists k :: 0 <= k < |t.items| && t.items[k].userId == owner && ItemsOf(t, owner)[j] == WithJoin(t)(t.items[k])
  {
    var rows := Filter(t.items, OwnedBy(owner));
    assert rows[j] in rows;
    var k :| 0 <= k < |t.items| && t.items[k] == rows[j];
    assert ItemsOf(t, owner)[j] == WithJoin(t)(t.items[k]);
  }

  /** The row `insert(item).select().single()` stores and returns, under the id the database assigns. */
  function InsertedRow(newId: Id, n: NewItem): (i: WishlistItem)
    ensures i.id == newId && i.userId == n.userId && i.title == n.title && i.url == n.url && i.price == n.price
    ensures i.purchased == n.purchased && i.purchasedBy == None && i.purchaserName == None
  {
    WishlistItem(newId, n.userId, n.title, n.price, n.url, n.purchased, None, None)
  }

  /** `insert(item)`: the new row goes after the existing ones. */
  function ApplyInsert(t: Tables, newId: Id, n: NewItem): (t': Tables)
    ensures t'.items == t.items + [InsertedRow(newId, n)]
    ensures t'.profiles == t.profiles
  {
    t.(items := t.items + [InsertedRow(newId, n)])
  }

  /** `update({purchased, purchased_by}).eq("id", itemId)`. */
  function ApplyPurchase(t: Tables, p: PurchasePatch): (t': Tables)
    ensures |t'.items| == |t.items|
    ensures forall k :: 0 <= k < |t.items| && t.items[k].id == p.itemId ==>
      t'.items[k] == t.items[k].(purchased := p.purchased, purchasedBy := p.purchasedBy)
    ensures forall k :: 0 <= k < |t.items| && t.items[k].id != p.itemId ==> t'.items[k] == t.items[k]
    ensures t'.profiles == t.profiles
  {
    t.(items := Map(t.items, PurchaseWhere(p)))
  }

  function PurchaseWhere(p: PurchasePatch): WishlistItem -> WishlistItem {
    (i: WishlistItem) => if i.id == p.itemId then i.(purchased := p.purchased, purchasedBy := p.purchasedBy) else i
  }

  /** `delete().eq("id", itemId)`. */
  function ApplyDelete(t: Tables, itemId: Id): (t': Tables)
    ensures forall i :: i in t'.items <==> i in t.items && i.id != itemId
    ensures forall i :: multiset(t'.items)[i] == if i.id != itemId then multiset(t.items)[i] else 0
    ensures IsSubsequence(t'.items, t.items)
    ensures t'.profiles == t.profiles
  {
    t.(items := Filter(t.items, ItemIdIsNot(itemId)))
  }

  function ItemIdIsNot(itemId: Id): WishlistItem -> bool {
    (i: WishlistItem) => i.id != itemId
  }

  /** `update(patch).eq("id", id)` on `profiles`: the avatar column only when the patch carries one. */
  function ApplyProfilePatch(t: Tables, id: Id, p: ProfilePatch): (t': Tables)
    ensures |t'.profiles| == |t.profiles|
    ensures forall k :: 0 <= k < |t.profiles| && t.profiles[k].id != id ==> t'.profiles[k] == t.profiles[k]
    ensures forall k :: 0 <= k < |t.profiles| && t.profiles[k].id == id ==>
      && t'.profiles[k].id == id
      && t'.profiles[k].name == p.name && t'.profiles[k].birthday == p.birthday && t'.profiles[k].role == Some(p.role)
      && t'.profiles[k].avatarUrl == (if p.avatarUrl.Some? then p.avatarUrl else t.profiles[k].avatarUrl)
  {
    t.(profiles := Map(t.profiles, PatchWhere(id, p)))
  }

  function PatchWhere(id: Id, p: ProfilePatch): Profile -> Profile {
    (q: Profile) => if q.id == id then PatchProfile(q, p) else q
  }

  /** The effect of a profile update on one row. */
  function PatchProfile(q: Profile, p: ProfilePatch): Profile {
    q.(name := p.name, birthday := p.birthday, role := Some(p.role),
       avatarUrl := if p.avatarUrl.Some? then p.avatarUrl else q.avatarUrl)
  }
}
