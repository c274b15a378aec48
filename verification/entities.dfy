/** The records the client exchanges with the hosted database (components/app-main.tsx, components/chat-view.tsx). */
module Entities {
  import opened Wrappers

  /** Row identifiers are opaque strings. */
  type Id = string

  /** A `profiles` row. `birthday` is the date column's text, "YYYY-MM-DD". */
  datatype Profile = Profile(id: Id, name: string, avatarUrl: Option<string>, birthday: string, role: Option<string>)

  /**
   * A `wishlist_items` row as the client reads it: `purchaserName` is the joined
   * `purchased_by_profile.name`, present when a purchaser row was found.
   */
  datatype WishlistItem = WishlistItem(
    id: Id,
    userId: Id,
    title: string,
    price: real,
    url: Option<string>,
    purchased: bool,
    purchasedBy: Option<Id>,
    purchaserName: Option<string>)

  /** The row invariant the purchase toggle maintains: a purchaser is recorded exactly when purchased. */
  predicate PurchaseConsistent(i: WishlistItem) {
    i.purchasedBy.None? <==> !i.purchased
  }

  /** A `conversations` row: two participants in the order they were stored. */
  datatype Conversation = Conversation(id: Id, participant1: Id, participant2: Id)

  /** A `messages` row; `createdAt` is the server-assigned timestamp, in milliseconds. */
  datatype Message = Message(id: Id, conversationId: Id, senderId: Id, content: string, createdAt: int)
}
