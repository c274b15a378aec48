/**
 * The signed-in shell (components/app-main.tsx): a tab bar, a stack-free view state, and
 * the handlers that keep the local copies of the user's wishlist and profile in step with
 * the database. Each handler returns the requests it sends and the next state; the
 * responses it awaits are parameters.
 */
module AppMain {
  import opened Wrappers
  import opened Sequences
  import opened Sorting
  import opened Calendar
  import opened IsoDate
  import opened Entities
  import opened Store
  import opened Birthdays

  datatype Tab = Home | Me | Friends

  /** The seven screens; the first three are the tab roots. */
  datatype ViewState =
    | HomeRoot
    | ProfileRoot
    | FriendsRoot
    | FriendProfile(friend: Profile)
    | FriendWishlist(friend: Profile, items: seq<WishlistItem>)
    | MyWishlist
    | ChatWith(friend: Profile)
  {
    predicate IsTabRoot() {
      HomeRoot? || ProfileRoot? || FriendsRoot?
    }
  }

  /** `{ type: tab }`: the root screen of a tab. */
  function TabRoot(tab: Tab): (v: ViewState)
    ensures v.IsTabRoot()
    ensures v.HomeRoot? <==> tab == Home
    ensures v.ProfileRoot? <==> tab == Me
    ensures v.FriendsRoot? <==> tab == Friends
  {
    match tab
    case Home => HomeRoot
    case Me => ProfileRoot
    case Friends => FriendsRoot
  }

  datatype State = State(
    userId: Id,
    activeTab: Tab,
    view: ViewState,
    myWishlist: seq<WishlistItem>,
    profile: Option<Profile>,
    showEditModal: bool)

  /** A handler's outcome: the requests it sent, in order, and the state it leaves. */
  datatype Handled = Handled(calls: seq<Call>, state: State)

  /** The state the component mounts with. */
  function Initial(userId: Id, profile: Option<Profile>, items: seq<WishlistItem>): (s: State)
    ensures s.activeTab == Home && s.view == TabRoot(Home)
    ensures s.myWishlist == items && s.profile == profile && !s.showEditModal
  {
    State(userId, Home, HomeRoot, items, profile, false)
  }

  /** A tab root is always the root of the active tab. */
  predicate RootsAgree(s: State) {
    s.view.IsTabRoot() ==> s.view == TabRoot(s.activeTab)
  }

  // ---------------------------------------------------------------- navigation

  function TabChange(s: State, tab: Tab): (s': State)
    ensures s'.activeTab == tab && s'.view == TabRoot(tab)
    ensures s' == s.(activeTab := tab, view := TabRoot(tab))
    ensures RootsAgree(s')
  {
    s.(activeTab := tab, view := TabRoot(tab))
  }

  function SelectFriend(s: State, friend: Profile): (s': State)
    ensures s'.view.FriendProfile? && s'.view.friend == friend
    ensures s'.activeTab == s.activeTab
    ensures s' == s.(view := s'.view)
  {
    s.(view := FriendProfile(friend))
  }

  /** Opens a friend's wishlist with whatever the item query returned, or nothing when it returned no data. */
  function ViewFriendWishlist(s: State, friend: Profile, fetched: Option<seq<WishlistItem>>): (h: Handled)
    ensures h.calls == [SelectItemsOf(friend.id)]
    ensures h.state.view.FriendWishlist? && h.state.view.friend == friend
    ensures h.state.view.items == (if fetched.Some? then fetched.value else [])
    ensures h.state == s.(view := h.state.view)
  {
    Handled([SelectItemsOf(friend.id)], s.(view := FriendWishlist(friend, fetched.GetOr([]))))
  }

  function ViewOwnWishlist(s: State): (s': State)
    ensures s'.view.MyWishlist? && s' == s.(view := s'.view)
  {
    s.(view := MyWishlist)
  }

  /** The back arrow of the friend profile and of the own wishlist. */
  function Back(s: State): (s': State)
    ensures s'.view.IsTabRoot() && RootsAgree(s')
    ensures s' == s.(view := s'.view)
  {
    s.(view := TabRoot(s.activeTab))
  }

  /** The back arrow of a friend's wishlist and of a chat. */
  function BackToFriendProfile(s: State, friend: Profile): (s': State)
    ensures s'.view.FriendProfile? && s'.view.friend == friend
    ensures s' == s.(view := s'.view)
  {
    s.(view := FriendProfile(friend))
  }

  function SendMessage(s: State, friend: Profile): (s': State)
    ensures s'.view.ChatWith? && s'.view.friend == friend
    ensures s' == s.(view := s'.view)
  {
    s.(view := ChatWith(friend))
  }

  // ---------------------------------------------------------------- purchase toggle

  /** The update the toggle sends: clear the purchase, or claim it for the user. */
  function TogglePatch(userId: Id, itemId: Id, currentlyPurchased: bool): (p: PurchasePatch)
    ensures p.itemId == itemId
    ensures p.purchased == !currentlyPurchased
    ensures p.purchasedBy.None? <==> !p.purchased
    ensures p.purchased ==> p.purchasedBy == Some(userId)
  {
    if currentlyPurchased then PurchasePatch(itemId, false, None)
    else PurchasePatch(itemId, true, Some(userId))
  }

  /**
   * `handleTogglePurchased`: only on a friend's wishlist; sends the update, re-reads the
   * friend's items and shows them in place of the old list.
   */
  function TogglePurchased(s: State, itemId: Id, currentlyPurchased: bool, reread: Option<seq<WishlistItem>>): (h: Handled)
    ensures !s.view.FriendWishlist? ==> h == Handled([], s)
    ensures s.view.FriendWishlist? ==>
      && h.calls == [UpdatePurchase(TogglePatch(s.userId, itemId, currentlyPurchased)), SelectItemsOf(s.view.friend.id)]
      && h.state.view == FriendWishlist(s.view.friend, if reread.Some? then reread.value else [])
      && h.state == s.(view := h.state.view)
  {
    if !s.view.FriendWishlist? then Handled([], s)
    else
      var patch := TogglePatch(s.userId, itemId, currentlyPurchased);
      Handled([UpdatePurchase(patch), SelectItemsOf(s.view.friend.id)],
              s.(view := FriendWishlist(s.view.friend, reread.GetOr([]))))
  }

  function ItemHasId(id: Id): WishlistItem -> bool {
    (i: WishlistItem) => i.id == id
  }

  /** The toggle button of the friend's wishlist: looks the item up in the shown list and passes its flag. */
  function ToggleFromView(s: State, itemId: Id, reread: Option<seq<WishlistItem>>): (h: Handled)
    requires s.view.FriendWishlist?
    ensures FindFirst(s.view.items, ItemHasId(itemId)).None? ==> h == Handled([], s)
    ensures FindFirst(s.view.items, ItemHasId(itemId)).Some? ==>
      h == TogglePurchased(s, itemId, FindFirst(s.view.items, ItemHasId(itemId)).value.purchased, reread)
  {
    match FindFirst(s.view.items, ItemHasId(itemId))
    case None => Handled([], s)
    case Some(item) => TogglePurchased(s, itemId, item.purchased, reread)
  }

  // ---------------------------------------------------------------- own wishlist

  /** `url || null`. */
  function NullIfEmpty(url: string): (r: Option<string>)
    ensures r.None? <==> url == ""
    ensures r.Some? ==> r.value == url
  {
    if url == "" then None else Some(url)
  }

  /** The record `handleAddItem` inserts: owned by the user, not purchased. */
  function NewItemFor(userId: Id, title: string, url: string, price: real): (n: NewItem)
    ensures n.userId == userId && n.title == title && n.price == price && !n.purchased
    ensures n.url == NullIfEmpty(url)
  {
    NewItem(userId, title, NullIfEmpty(url), price, false)
  }

  /** `handleAddItem`: appends the returned row, when there is one. */
  function AddItem(s: State, title: string, url: string, price: real, inserted: Option<WishlistItem>): (h: Handled)
    ensures h.calls == [InsertItem(NewItemFor(s.userId, title, url, price))]
    ensures inserted.Some? ==> h.state.myWishlist == s.myWishlist + [inserted.value]
    ensures inserted.None? ==> h.state.myWishlist == s.myWishlist
    ensures h.state == s.(myWishlist := h.state.myWishlist)
  {
    var list := if inserted.Some? then s.myWishlist + [inserted.value] else s.myWishlist;
    Handled([InsertItem(NewItemFor(s.userId, title, url, price))], s.(myWishlist := list))
  }

  /** `handleDeleteItem`: sends the delete and drops every local entry with that id. */
  function DeleteItem(s: State, itemId: Id): (h: Handled)
    ensures h.calls == [DeleteItemById(itemId)]
    ensures forall i :: i in h.state.myWishlist <==> i in s.myWishlist && i.id != itemId
    ensures forall i :: multiset(h.state.myWishlist)[i] == if i.id != itemId then multiset(s.myWishlist)[i] else 0
    ensures IsSubsequence(h.state.myWishlist, s.myWishlist)
    ensures h.state == s.(myWishlist := h.state.myWishlist)
  {
    Handled([DeleteItemById(itemId)], s.(myWishlist := Filter(s.myWishlist, ItemIdIsNot(itemId))))
  }

  lemma DeleteMissingIsNoOp(s: State, itemId: Id)
    requires forall i :: i in s.myWishlist ==> i.id != itemId
    ensures DeleteItem(s, itemId).state == s
  {
    FilterKeepsAll(s.myWishlist, ItemIdIsNot(itemId));
  }

  lemma DeleteIdempotent(s: State, itemId: Id)
    ensures DeleteItem(DeleteItem(s, itemId).state, itemId).state == DeleteItem(s, itemId).state
  {
    FilterIdempotent(s.myWishlist, ItemIdIsNot(itemId));
  }

  // ---------------------------------------------------------------- profile

  /** What the edit modal hands to `onSave`; `avatarUrl` is absent when no new picture was stored. */
  datatype ProfileUpdates = ProfileUpdates(name: string, birthday: string, role: string, avatarUrl: Option<string>)

  /** The columns sent: the avatar only when it is a non-empty string. */
  function PatchFor(u: ProfileUpdates): (p: ProfilePatch)
    ensures p.name == u.name && p.birthday == u.birthday && p.role == u.role
    ensures p.avatarUrl.Some? <==> Truthy(u.avatarUrl)
    ensures p.avatarUrl.Some? ==> p.avatarUrl == u.avatarUrl
  {
    ProfilePatch(u.name, u.birthday, u.role, if Truthy(u.avatarUrl) then u.avatarUrl else None)
  }

  /** The local merge: new name, birthday and role; the new avatar if non-empty, else the old one. */
  function MergeProfile(prev: Profile, u: ProfileUpdates): (r: Profile)
    ensures r.id == prev.id
    ensures r.name == u.name && r.birthday == u.birthday && r.role == Some(u.role)
    ensures Truthy(u.avatarUrl) ==> r.avatarUrl == u.avatarUrl
    ensures !Truthy(u.avatarUrl) ==> r.avatarUrl == prev.avatarUrl
  {
    prev.(name := u.name, birthday := u.birthday, role := Some(u.role),
          avatarUrl := if Truthy(u.avatarUrl) then u.avatarUrl else prev.avatarUrl)
  }

  function SaveProfile(s: State, u: ProfileUpdates): (h: Handled)
    ensures h.calls == [UpdateProfile(s.userId, PatchFor(u))]
    ensures s.profile.None? ==> h.state.profile.None?
    ensures s.profile.Some? ==> h.state.profile == Some(MergeProfile(s.profile.value, u))
    ensures h.state == s.(profile := h.state.profile)
  {
    var merged := match s.profile case None => None case Some(p) => Some(MergeProfile(p, u));
    Handled([UpdateProfile(s.userId, PatchFor(u))], s.(profile := merged))
  }

  function OpenEditModal(s: State): (s': State)
    ensures s'.showEditModal && s' == s.(showEditModal := true)
  {
    s.(showEditModal := true)
  }

  function CloseEditModal(s: State): (s': State)
    ensures !s'.showEditModal && s' == s.(showEditModal := false)
  {
    s.(showEditModal := false)
  }

  // ---------------------------------------------------------------- agreement with the database

  /** Both toggle updates keep every row's purchaser recorded exactly when it is purchased. */
  lemma ToggleKeepsRowsConsistent(t: Tables, userId: Id, itemId: Id, currentlyPurchased: bool)
    requires forall k :: 0 <= k < |t.items| ==> PurchaseConsistent(t.items[k])
    ensures forall k :: 0 <= k < |t.items| ==>
      PurchaseConsistent(ApplyPurchase(t, TogglePatch(userId, itemId, currentlyPurchased)).items[k])
  {
  }

  /**
   * When the re-read is the database's answer after the update, every shown copy of the
   * toggled item carries the new flag and purchaser, and the purchaser's name when the
   * user has exactly one profile row.
   */
  lemma ToggleReadBackShowsWrite(s: State, t: Tables, itemId: Id, currentlyPurchased: bool)
    requires s.view.FriendWishlist?
    ensures var t' := ApplyPurchase(t, TogglePatch(s.userId, itemId, currentlyPurchased));
      var h := TogglePurchased(s, itemId, currentlyPurchased, Some(ItemsOf(t', s.view.friend.id)));
      var shown := h.state.view.items;
      forall j :: 0 <= j < |shown| && shown[j].id == itemId ==>
        && shown[j].purchased == !currentlyPurchased
        && shown[j].purchasedBy == (if currentlyPurchased then None else Some(s.userId))
        && (!currentlyPurchased && ProfileById(t, s.userId).Some? ==>
              shown[j].purchaserName == Some(ProfileById(t, s.userId).value.name))
  {
    var t' := ApplyPurchase(t, TogglePatch(s.userId, itemId, currentlyPurchased));
    var shown := ItemsOf(t', s.view.friend.id);
    forall j | 0 <= j < |shown| && shown[j].id == itemId
      ensures shown[j].purchased == !currentlyPurchased
      ensures shown[j].purchasedBy == (if currentlyPurchased then None else Some(s.userId))
      ensures !currentlyPurchased && ProfileById(t, s.userId).Some? ==>
        shown[j].purchaserName == Some(ProfileById(t, s.userId).value.name)
    {
      ItemsOfSound(t', s.view.friend.id, j);
    }
  }

  /** Joining against the same profiles gives the same rows. */
  lemma JoinDependsOnProfiles(t: Tables, u: Tables, rows: seq<WishlistItem>)
    requires t.profiles == u.profiles
    ensures Map(rows, WithJoin(t)) == Map(rows, WithJoin(u))
  {
    assert forall j :: 0 <= j < |rows| ==> Map(rows, WithJoin(t))[j] == Map(rows, WithJoin(u))[j];
  }

  /** A local list that matched the owner's rows still matches them after an add the database confirmed. */
  lemma AddKeepsCacheCoherent(s: State, t: Tables, title: string, url: string, price: real, newId: Id)
    requires s.myWishlist == ItemsOf(t, s.userId)
    ensures var n := NewItemFor(s.userId, title, url, price);
      AddItem(s, title, url, price, Some(InsertedRow(newId, n))).state.myWishlist == ItemsOf(ApplyInsert(t, newId, n), s.userId)
  {
    var n := NewItemFor(s.userId, title, url, price);
    var row := InsertedRow(newId, n);
    var t' := ApplyInsert(t, newId, n);
    var own := OwnedBy(s.userId);
    FilterAppend(t.items, [row], own);
    assert Filter([row], own) == [row];
    MapAppend(Filter(t.items, own), [row], WithJoin(t'));
    JoinDependsOnProfiles(t, t', Filter(t.items, own));
    assert Map([row], WithJoin(t')) == [row];
  }

  /** A local list that matched the owner's rows still matches them after a delete. */
  lemma DeleteKeepsCacheCoherent(s: State, t: Tables, itemId: Id)
    requires s.myWishlist == ItemsOf(t, s.userId)
    ensures DeleteItem(s, itemId).state.myWishlist == ItemsOf(ApplyDelete(t, itemId), s.userId)
  {
    var t' := ApplyDelete(t, itemId);
    var own := OwnedBy(s.userId);
    var keep := ItemIdIsNot(itemId);
    FilterMapCommute(Filter(t.items, own), WithJoin(t), keep, keep);
    FilterFilterCommute(t.items, own, keep);
    JoinDependsOnProfiles(t, t', Filter(t'.items, own));
  }

  /** The merged local profile is the row the database holds after the update. */
  lemma SaveProfileCoherent(s: State, t: Tables, u: ProfileUpdates)
    requires s.profile.Some? && ProfileById(t, s.userId) == s.profile
    ensures SaveProfile(s, u).state.profile == ProfileById(ApplyProfilePatch(t, s.userId, PatchFor(u)), s.userId)
  {
    var hasId := ProfileHasId(s.userId);
    var patch := PatchWhere(s.userId, PatchFor(u));
    FilterMapCommute(t.profiles, patch, hasId, hasId);
    var mine := Filter(t.profiles, hasId);
    assert |mine| == 1 && mine[0] == s.profile.value;
    assert Map(mine, patch) == [PatchProfile(s.profile.value, PatchFor(u))];
  }

  // ---------------------------------------------------------------- the event loop

  /** What the user can do, each with the responses its requests receive. */
  datatype Event =
    | ChangeTab(tab: Tab)
    | PickFriend(friend: Profile)
    | OpenFriendWishlist(friend: Profile, fetched: Option<seq<WishlistItem>>)
    | OpenOwnWishlist
    | GoBack
    | GoBackToFriend(friend: Profile)
    | OpenChat(friend: Profile)
    | Toggle(itemId: Id, reread: Option<seq<WishlistItem>>)
    | Add(title: string, url: string, price: real, inserted: Option<WishlistItem>)
    | Remove(itemId: Id)
    | Save(updates: ProfileUpdates)
    | OpenEdit
    | CloseEdit

  function Step(s: State, e: Event): (h: Handled)
    ensures !e.ChangeTab? ==> h.state.activeTab == s.activeTab
    ensures e.ChangeTab? ==> h.state.activeTab == e.tab
  {
    match e
    case ChangeTab(tab) => Handled([], TabChange(s, tab))
    case PickFriend(f) => Handled([], SelectFriend(s, f))
    case OpenFriendWishlist(f, fetched) => ViewFriendWishlist(s, f, fetched)
    case OpenOwnWishlist => Handled([], ViewOwnWishlist(s))
    case GoBack => Handled([], Back(s))
    case GoBackToFriend(f) => Handled([], BackToFriendProfile(s, f))
    case OpenChat(f) => Handled([], SendMessage(s, f))
    case Toggle(itemId, reread) => if s.view.FriendWishlist? then ToggleFromView(s, itemId, reread) else Handled([], s)
    case Add(title, url, price, inserted) => AddItem(s, title, url, price, inserted)
    case Remove(itemId) => DeleteItem(s, itemId)
    case Save(u) => SaveProfile(s, u)
    case OpenEdit => Handled([], OpenEditModal(s))
    case CloseEdit => Handled([], CloseEditModal(s))
  }

  /** The events in order; the requests of all of them, in order. */
  function Run(s: State, es: seq<Event>): (h: Handled)
    decreases |es|
  {
    if |es| == 0 then Handled([], s)
    else
      var first := Step(s, es[0]);
      var rest := Run(first.state, es[1..]);
      Handled(first.calls + rest.calls, rest.state)
  }

  /** The tab of the last tab change among `es`, or `tab` when there is none. */
  function LastTab(es: seq<Event>, tab: Tab): Tab
    decreases |es|
  {
    if |es| == 0 then tab else LastTab(es[1..], if es[0].ChangeTab? then es[0].tab else tab)
  }

  lemma StepKeepsRootsAgree(s: State, e: Event)
    requires RootsAgree(s)
    ensures RootsAgree(Step(s, e).state)
  {
  }

  /** Every reachable state shows a tab root only for the active tab. */
  lemma {:induction false} RunKeepsRootsAgree(s: State, es: seq<Event>)
    requires RootsAgree(s)
    ensures RootsAgree(Run(s, es).state)
    decreases |es|
  {
    if |es| > 0 {
      StepKeepsRootsAgree(s, es[0]);
      RunKeepsRootsAgree(Step(s, es[0]).state, es[1..]);
    }
  }

  /** Only a tab change moves the active tab. */
  lemma {:induction false} RunActiveTab(s: State, es: seq<Event>)
    ensures Run(s, es).state.activeTab == LastTab(es, s.activeTab)
    decreases |es|
  {
    if |es| > 0 {
      RunActiveTab(Step(s, es[0]).state, es[1..]);
    }
  }

  /** Whatever happened since, the back arrow returns to the root of the tab last chosen. */
  lemma BackLandsOnLastTab(s: State, es: seq<Event>)
    ensures Back(Run(s, es).state).view == TabRoot(LastTab(es, s.activeTab))
  {
    RunActiveTab(s, es);
  }

  // ---------------------------------------------------------------- what is drawn

  datatype Screen =
    | ChatScreen(friend: Profile)
    | FriendProfileScreen(friend: Profile)
    | FriendWishlistScreen(friend: Profile, items: seq<WishlistItem>)
    | OwnWishlistScreen
    | Nothing
    | TabScreen(tab: Tab, editModal: bool)

  /** The render's `if` chain, in its order. */
  function Render(s: State): (r: Screen)
    ensures s.view.ChatWith? ==> r == ChatScreen(s.view.friend)
    ensures s.view.FriendProfile? ==> r == FriendProfileScreen(s.view.friend)
    ensures s.view.FriendWishlist? ==> r == FriendWishlistScreen(s.view.friend, s.view.items)
    ensures r.Nothing? <==> s.profile.None? && (s.view.MyWishlist? || s.view.IsTabRoot())
    ensures r.TabScreen? ==> s.view.IsTabRoot() && r.tab == s.activeTab && r.editModal == s.showEditModal
    ensures r.OwnWishlistScreen? <==> s.view.MyWishlist? && s.profile.Some?
  {
    match s.view
    case ChatWith(f) => ChatScreen(f)
    case FriendProfile(f) => FriendProfileScreen(f)
    case FriendWishlist(f, items) => FriendWishlistScreen(f, items)
    case MyWishlist => if s.profile.Some? then OwnWishlistScreen else Nothing
    case _ => if s.profile.None? then Nothing else TabScreen(s.activeTab, s.showEditModal)
  }

  /** In a reachable state the tab content drawn is the tab whose root the view is. */
  lemma RenderedTabIsView(s: State)
    requires RootsAgree(s)
    requires Render(s).TabScreen?
    ensures TabRoot(Render(s).tab) == s.view
  {
  }

  /** The shell mounts on the home tab's root: nothing until the profile is known, then the home tab without the edit modal. */
  lemma InitialShowsHome(userId: Id, profile: Option<Profile>, items: seq<WishlistItem>)
    ensures RootsAgree(Initial(userId, profile, items))
    ensures profile.Some? ==> Render(Initial(userId, profile, items)) == TabScreen(Home, false)
    ensures profile.None? ==> Render(Initial(userId, profile, items)) == Nothing
  {
  }

  /**
   * On a tab root with a profile, opening the edit modal draws it over the tab and closing it
   * removes it again; elsewhere the flag changes nothing that is drawn.
   */
  lemma EditModalShownOverTab(s: State)
    ensures s.view.IsTabRoot() && s.profile.Some? ==> Render(OpenEditModal(s)) == TabScreen(s.activeTab, true)
    ensures s.view.IsTabRoot() && s.profile.Some? ==> Render(CloseEditModal(s)) == TabScreen(s.activeTab, false)
    ensures !(s.view.IsTabRoot() && s.profile.Some?) ==> Render(OpenEditModal(s)) == Render(s) == Render(CloseEditModal(s))
    ensures RootsAgree(s) ==> RootsAgree(OpenEditModal(s)) && RootsAgree(CloseEditModal(s))
  {
  }

  /** Closing the modal undoes opening it. */
  lemma CloseUndoesOpen(s: State)
    requires !s.showEditModal
    ensures CloseEditModal(OpenEditModal(s)) == s
  {
  }

  // ---------------------------------------------------------------- people shown

  /** A wishlist row as the cards show it: `url || ""`, and the purchaser's name. */
  function DisplayItemOf(i: WishlistItem): (d: DisplayItem)
    ensures d.id == i.id && d.title == i.title && d.price == i.price && d.purchased == i.purchased
    ensures d.url == (if i.url.Some? then i.url.value else "")
    ensures d.purchasedBy == i.purchaserName
  {
    DisplayItem(i.id, i.title, i.price, i.url.GetOr(""), i.purchased, i.purchaserName)
  }

  /**
   * The `user`/`friends` mapping: the profile with its birthday parsed, its age, and the
   * avatar or a placeholder. `None` when the birthday text is not a date: the source then
   * carries an Invalid Date and a NaN age.
   */
  function PersonOf(p: Profile, items: seq<WishlistItem>, placeholder: string, now: int): (r: Option<Person>)
    ensures r.Some? <==> ParseIsoDate(p.birthday).Some?
    ensures r.Some? ==>
      && r.value.id == p.id && r.value.name == p.name && r.value.role == p.role
      && r.value.birthday == ParseIsoDate(p.birthday).value
      && r.value.age == Age(ParseIsoDate(p.birthday).value, now)
      && r.value.avatar == (if Truthy(p.avatarUrl) then p.avatarUrl.value else placeholder)
      && |r.value.wishlist| == |items|
      && forall j :: 0 <= j < |items| ==> r.value.wishlist[j] == DisplayItemOf(items[j])
  {
    match ParseIsoDate(p.birthday)
    case None => None
    case Some(b) =>
      var avatar := if Truthy(p.avatarUrl) then p.avatarUrl.value else placeholder;
      Some(Person(p.id, p.name, avatar, b, Age(b, now), p.role, Map(items, DisplayItemOf)))
  }

  /** The birthday a person carries is the stored date: written back as text it is the column's value. */
  lemma PersonBirthdayIsStoredDate(p: Profile, items: seq<WishlistItem>, placeholder: string, now: int)
    requires PersonOf(p, items, placeholder, now).Some?
    ensures ValidTime(PersonOf(p, items, placeholder, now).value.birthday)
    ensures IsoDatePart(PersonOf(p, items, placeholder, now).value.birthday) == p.birthday
  {
    ParseThenFormat(p.birthday);
  }

  /** The countdown of a profile, from its birthday column; 0 for a date that does not parse. */
  function ProfileKey(now: int): Profile -> int {
    (p: Profile) => match ParseIsoDate(p.birthday) case None => 0 case Some(b) => DaysUntilBirthday(b, now)
  }

  predicate AllBirthdaysParse(ps: seq<Profile>) {
    forall i :: 0 <= i < |ps| ==> ParseIsoDate(ps[i].birthday).Some?
  }

  /**
   * `sortByUpcomingBirthday` over the fetched profiles: the same profiles, stably ordered
   * by countdown. When every birthday parses the comparator is consistent and the order is
   * nearest birthday first.
   */
  function SortProfilesByUpcoming(ps: seq<Profile>, now: int): (r: seq<Profile>)
    ensures multiset(r) == multiset(ps)
    ensures StablePermutation(r, ps, ProfileKey(now))
    ensures AllBirthdaysParse(ps) ==> AllBirthdaysParse(r)
    ensures AllBirthdaysParse(ps) ==> forall i, j :: 0 <= i < j < |r| ==>
      DaysUntilBirthday(ParseIsoDate(r[i].birthday).value, now) <= DaysUntilBirthday(ParseIsoDate(r[j].birthday).value, now)
  {
    var r := SortByKey(ps, ProfileKey(now));
    assert AllBirthdaysParse(ps) ==> AllBirthdaysParse(r) by {
      if AllBirthdaysParse(ps) { ParsingSurvivesPermutation(ps, r); }
    }
    assert AllBirthdaysParse(ps) ==> forall i, j :: 0 <= i < j < |r| ==>
      DaysUntilBirthday(ParseIsoDate(r[i].birthday).value, now) <= DaysUntilBirthday(ParseIsoDate(r[j].birthday).value, now) by {
      if AllBirthdaysParse(ps) { SortedKeysAreCountdowns(r, now); }
    }
    r
  }

  lemma ParsingSurvivesPermutation(ps: seq<Profile>, r: seq<Profile>)
    requires AllBirthdaysParse(ps) && multiset(r) == multiset(ps)
    ensures AllBirthdaysParse(r)
  {
    forall i | 0 <= i < |r| ensures ParseIsoDate(r[i].birthday).Some? {
      assert r[i] in multiset(ps);
      var k :| 0 <= k < |ps| && ps[k] == r[i];
    }
  }

  /** Where every birthday parses, the sort key is the countdown. */
  lemma SortedKeysAreCountdowns(r: seq<Profile>, now: int)
    requires AllBirthdaysParse(r) && SortedBy(r, ProfileKey(now))
    ensures forall i, j :: 0 <= i < j < |r| ==>
      DaysUntilBirthday(ParseIsoDate(r[i].birthday).value, now) <= DaysUntilBirthday(ParseIsoDate(r[j].birthday).value, now)
  {
    forall i, j | 0 <= i < j < |r|
      ensures DaysUntilBirthday(ParseIsoDate(r[i].birthday).value, now) <= DaysUntilBirthday(ParseIsoDate(r[j].birthday).value, now)
    {
      assert ProfileKey(now)(r[i]) <= ProfileKey(now)(r[j]);
    }
  }

  /** The list's tap handler: finds the tapped person's profile among the sorted ones and opens it. */
  function SelectFriendById(s: State, sorted: seq<Profile>, id: Id): (s': State)
    ensures FindFirst(sorted, ProfileHasId(id)).None? ==> s' == s
    ensures FindFirst(sorted, ProfileHasId(id)).Some? ==>
      s' == SelectFriend(s, FindFirst(sorted, ProfileHasId(id)).value) && s'.view.friend.id == id
  {
    match FindFirst(sorted, ProfileHasId(id))
    case None => s
    case Some(p) => SelectFriend(s, p)
  }
}
