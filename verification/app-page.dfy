/**
 * The signed-in entry page (app/app/page.tsx): send a visitor without a session to the
 * login page; otherwise make sure the user has a profile row, then load the user's
 * profile, everyone else's profiles and the user's wishlist for the shell.
 */
module AppPage {
  import opened Wrappers
  import opened Sequences
  import opened Text
  import opened IsoDate
  import opened Entities
  import opened Store

  /** The signed-in user as the auth service reports it, with the sign-up metadata. */
  datatype AuthUser = AuthUser(id: Id, email: Option<string>, metaName: Option<string>, metaBirthday: Option<string>)

  /** Requests the page sends after `getUser`. */
  datatype PageCall =
    | SelectProfile(id: Id)
    | InsertProfile(profile: Profile)
    | SelectOtherProfiles(id: Id)
    | SelectWishlist(owner: Id)

  datatype PageResult =
    | RedirectToLogin
    | Shell(calls: seq<PageCall>, userId: Id, currentProfile: Option<Profile>, allProfiles: seq<Profile>, wishlistItems: seq<WishlistItem>)

  const DefaultBirthday: string := "2000-01-01"
  const FallbackName: string := "User"

  /** `meta.name || email?.split("@")[0] || "User"`. */
  function NewProfileName(u: AuthUser): (name: string)
    ensures name != ""
    ensures Truthy(u.metaName) ==> name == u.metaName.value
    ensures !Truthy(u.metaName) && u.email.Some? && SplitFirst(u.email.value, '@') != "" ==>
      name == SplitFirst(u.email.value, '@')
    ensures !Truthy(u.metaName) && (u.email.None? || SplitFirst(u.email.value, '@') == "") ==> name == FallbackName
  {
    if Truthy(u.metaName) then u.metaName.value
    else if u.email.Some? && SplitFirst(u.email.value, '@') != "" then SplitFirst(u.email.value, '@')
    else FallbackName
  }

  /** An address that starts with '@' has an empty local part, which falls through to "User". */
  lemma EmptyLocalPartFallsBack(u: AuthUser, domain: string)
    requires !Truthy(u.metaName) && u.email == Some("@" + domain)
    ensures NewProfileName(u) == FallbackName
  {
  }

  /** The local part of the address is used when there is no name. */
  lemma LocalPartNamesProfile(u: AuthUser, local: string, domain: string)
    requires !Truthy(u.metaName) && local != "" && '@' !in local && u.email == Some(local + "@" + domain)
    ensures NewProfileName(u) == local
  {
    SplitFirstAt(local, '@', domain);
  }

  /** The row inserted for a user without one: name and birthday with fallbacks, no picture, empty role. */
  function NewProfile(u: AuthUser): (p: Profile)
    ensures p.id == u.id && p.name == NewProfileName(u)
    ensures p.birthday == (if Truthy(u.metaBirthday) then u.metaBirthday.value else DefaultBirthday)
    ensures p.avatarUrl.None? && p.role == Some("")
  {
    var birthday := if Truthy(u.metaBirthday) then u.metaBirthday.value else DefaultBirthday;
    Profile(u.id, NewProfileName(u), None, birthday, Some(""))
  }

  /** The fallback birthday is a real date, so a profile created without one has a parseable birthday. */
  lemma DefaultBirthdayParses()
    ensures ParseIsoDate(DefaultBirthday).Some?
  {
    assert DefaultBirthday[0..4] == "2000" && DefaultBirthday[5..7] == "01" && DefaultBirthday[8..10] == "01";
    assert "2000"[..3] == "200" && "200"[..2] == "20" && "20"[..1] == "2" && "2"[..0] == "";
    assert DigitsValue("2000") == 2000;
    assert "01"[..1] == "0" && "0"[..0] == "";
    assert DigitsValue("01") == 1;
  }

  /**
   * The page, given the answers it awaits: `authFailed`/`user` from `getUser`, `existing` from
   * the first profile lookup, `current` from the second, `others` and `items` from the list
   * queries (`None` when a query returned no data).
   */
  function Bootstrap(authFailed: bool, user: Option<AuthUser>, existing: Option<Profile>, current: Option<Profile>,
                     others: Option<seq<Profile>>, items: Option<seq<WishlistItem>>): (r: PageResult)
    ensures r.RedirectToLogin? <==> authFailed || user.None?
    ensures r.Shell? ==> r.userId == user.value.id && r.currentProfile == current
    ensures r.Shell? ==> r.allProfiles == (if others.Some? then others.value else [])
    ensures r.Shell? ==> r.wishlistItems == (if items.Some? then items.value else [])
    ensures r.Shell? ==> (InsertProfile(NewProfile(user.value)) in r.calls <==> existing.None?)
    ensures r.Shell? ==> |r.calls| >= 4
    ensures r.Shell? ==>
      (r.calls[|r.calls| - 3..] == [SelectProfile(user.value.id), SelectOtherProfiles(user.value.id), SelectWishlist(user.value.id)])
  {
    if authFailed || user.None? then RedirectToLogin
    else
      var u := user.value;
      var create := if existing.None? then [InsertProfile(NewProfile(u))] else [];
      var calls := [SelectProfile(u.id)] + create + [SelectProfile(u.id), SelectOtherProfiles(u.id), SelectWishlist(u.id)];
      Shell(calls, u.id, current, others.GetOr([]), items.GetOr([]))
  }

  function IdIsNot(id: Id): Profile -> bool {
    (p: Profile) => p.id != id
  }

  /** `select("*").neq("id", id)`: everyone else's profiles, in storage order. */
  function OtherProfiles(t: Tables, id: Id): (r: seq<Profile>)
    ensures forall p :: p in r <==> p in t.profiles && p.id != id
    ensures forall p :: multiset(r)[p] == if p.id != id then multiset(t.profiles)[p] else 0
    ensures IsSubsequence(r, t.profiles)
  {
    Filter(t.profiles, IdIsNot(id))
  }

  /** `insert(profile)` on `profiles`. */
  function ApplyInsertProfile(t: Tables, p: Profile): (t': Tables)
    ensures t'.profiles == t.profiles + [p] && t'.items == t.items
  {
    t.(profiles := t.profiles + [p])
  }

  /**
   * With the database's answers, a first visit creates exactly one row for the user and the
   * second lookup finds it; the friends list is everyone but the user.
   */
  lemma FirstVisitCreatesProfile(t: Tables, u: AuthUser)
    requires forall k :: 0 <= k < |t.profiles| ==> t.profiles[k].id != u.id
    ensures ProfileById(t, u.id).None?
    ensures var t' := ApplyInsertProfile(t, NewProfile(u));
      && ProfileById(t', u.id) == Some(NewProfile(u))
      && OtherProfiles(t', u.id) == OtherProfiles(t, u.id)
  {
    var t' := ApplyInsertProfile(t, NewProfile(u));
    FilterKeepsNone(t.profiles, ProfileHasId(u.id));
    FilterAppend(t.profiles, [NewProfile(u)], ProfileHasId(u.id));
    assert Filter([NewProfile(u)], ProfileHasId(u.id)) == [NewProfile(u)];
    FilterAppend(t.profiles, [NewProfile(u)], IdIsNot(u.id));
    assert Filter([NewProfile(u)], IdIsNot(u.id)) == [];
  }

  /** A returning user is not inserted again: the shell gets the stored row. */
  lemma ReturningUserNotRecreated(t: Tables, u: AuthUser, others: Option<seq<Profile>>, items: Option<seq<WishlistItem>>)
    requires ProfileById(t, u.id).Some?
    ensures var r := Bootstrap(false, Some(u), ProfileById(t, u.id), ProfileById(t, u.id), others, items);
      && r.Shell? && r.currentProfile == ProfileById(t, u.id)
      && forall c :: c in r.calls ==> !c.InsertProfile?
  {
  }
}
