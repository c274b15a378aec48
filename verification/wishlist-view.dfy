/** A wishlist screen (components/wishlist-view.tsx): the add-item form, the purchase tally, and each card's actions. */
module WishlistView {
  import opened Wrappers
  import opened Sequences
  import opened Text
  import opened Birthdays

  /** The add form's fields as typed, and whether the form is open. */
  datatype Form = Form(title: string, url: string, price: string, showForm: bool)

  /** What `onAddItem` receives. */
  datatype AddRequest = AddRequest(title: string, url: string, price: real)

  datatype AddOutcome = AddOutcome(request: Option<AddRequest>, form: Form)

  const EmptyForm: Form := Form("", "", "", false)

  function OpenForm(f: Form): (f': Form)
    ensures f'.showForm && f' == f.(showForm := true)
  {
    f.(showForm := true)
  }

  /** Cancel hides the form; what was typed stays for the next time it opens. */
  function CancelForm(f: Form): (f': Form)
    ensures !f'.showForm && f' == f.(showForm := false)
  {
    f.(showForm := false)
  }

  /** `disabled={!newItemTitle}` on the Add button. */
  predicate AddDisabled(f: Form) {
    f.title == ""
  }

  /**
   * `handleAddItem`: with a title and a handler, passes title, url and the price
   * (`parseFloat(price) || 0`; `parsed` is the parse, `None` for NaN) and clears the form;
   * otherwise does nothing.
   */
  function HandleAddItem(f: Form, hasOnAddItem: bool, parsed: Option<real>): (r: AddOutcome)
    ensures r.request.Some? <==> f.title != "" && hasOnAddItem
    ensures r.request.Some? ==> r.request.value == AddRequest(f.title, f.url, if parsed.Some? then parsed.value else 0.0)
    ensures r.request.Some? ==> r.form == EmptyForm
    ensures r.request.None? ==> r.form == f
  {
    if f.title != "" && hasOnAddItem then
      AddOutcome(Some(AddRequest(f.title, f.url, parsed.GetOr(0.0))), EmptyForm)
    else
      AddOutcome(None, f)
  }

  /** On the own wishlist (where the handler is always passed) the button is enabled exactly when pressing it adds. */
  lemma AddEnabledIffFires(f: Form, parsed: Option<real>)
    ensures !AddDisabled(f) <==> HandleAddItem(f, true, parsed).request.Some?
  {
  }

  /** The title is not trimmed: a title of blanks is added as is. */
  lemma BlankTitleIsAdded(f: Form, parsed: Option<real>)
    requires f.title != "" && AllWhitespace(f.title)
    ensures Trim(f.title) == []
    ensures HandleAddItem(f, true, parsed).request.Some?
    ensures HandleAddItem(f, true, parsed).request.value.title == f.title
  {
  }

  /** Cancelling and reopening shows the draft that was there. */
  lemma CancelKeepsDraft(f: Form)
    ensures OpenForm(CancelForm(f)) == OpenForm(f)
  {
  }

  function IsPurchased(i: DisplayItem): bool {
    i.purchased
  }

  /** `purchasedCount`: how many items are marked purchased. */
  function PurchasedCount(items: seq<DisplayItem>): (n: nat)
    ensures n <= |items|
    ensures n == |items| <==> forall i :: 0 <= i < |items| ==> items[i].purchased
    ensures n == 0 <==> forall i :: 0 <= i < |items| ==> !items[i].purchased
    ensures n == |set k: nat | k < |items| && items[k].purchased|
  {
    var bought := Filter(items, IsPurchased);
    PurchasedPositions(items);
    FilterKeepsAll(items, IsPurchased);
    assert |bought| == |items| ==> forall i :: 0 <= i < |items| ==> items[i].purchased by {
      if |bought| == |items| { FilterFullLength(items, IsPurchased); }
    }
    assert |bought| == 0 <==> forall i :: 0 <= i < |items| ==> !items[i].purchased by {
      if |bought| == 0 {
        forall i | 0 <= i < |items| ensures !items[i].purchased {
          assert items[i] in items;
        }
      } else {
        assert bought[0] in bought;
      }
    }
    |bought|
  }

  lemma PurchasedPositions(items: seq<DisplayItem>)
    ensures |Filter(items, IsPurchased)| == |set k: nat | k < |items| && items[k].purchased|
  {
    FilterLengthCountsIndices(items, IsPurchased);
    assert MatchingIndices(items, IsPurchased, |items|) == set k: nat | k < |items| && items[k].purchased;
  }

  /** The tally counts each item once: purchased plus not purchased is the total. */
  lemma PurchasedCountComplement(items: seq<DisplayItem>)
    ensures PurchasedCount(items) + |Filter(items, IsUnpurchased)| == |items|
  {
    FilterPartition(items, IsPurchased, IsUnpurchased);
  }

  function IsUnpurchased(i: DisplayItem): bool {
    !i.purchased
  }

  /** What one card offers. */
  datatype CardActions = CardActions(
    toggle: bool,            // the Purchased switch
    byLine: Option<string>,  // "by X"
    surprise: bool,          // the "Surprise!" badge
    delete: bool,            // the trash button
    link: bool)              // "View Item"

  /** `WishlistItemCard`. */
  function Card(item: DisplayItem, isOwn: bool, hasOnDeleteItem: bool): (c: CardActions)
    ensures c.toggle <==> !isOwn
    ensures c.byLine.Some? <==> !isOwn && item.purchased && Truthy(item.purchasedBy)
    ensures c.byLine.Some? ==> c.byLine == item.purchasedBy
    ensures c.surprise <==> isOwn && item.purchased
    ensures c.delete <==> isOwn && !item.purchased && hasOnDeleteItem
    ensures c.link <==> item.url != ""
  {
    CardActions(
      !isOwn,
      if !isOwn && item.purchased && Truthy(item.purchasedBy) then item.purchasedBy else None,
      isOwn && item.purchased,
      isOwn && !item.purchased && hasOnDeleteItem,
      item.url != "")
  }

  /** On one's own wishlist a card does not depend on who bought the item: the surprise is kept. */
  lemma OwnCardHidesPurchaser(item: DisplayItem, buyer: Option<string>, hasOnDeleteItem: bool)
    ensures Card(item, true, hasOnDeleteItem) == Card(item.(purchasedBy := buyer), true, hasOnDeleteItem)
  {
  }

  /** A purchased item cannot be deleted from the card, and a friend's items never can. */
  lemma DeleteOnlyOwnUnpurchased(item: DisplayItem, isOwn: bool, hasOnDeleteItem: bool)
    requires Card(item, isOwn, hasOnDeleteItem).delete
    ensures isOwn && !item.purchased
  {
  }
}
