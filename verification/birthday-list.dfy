/**
 * The home tab's list (components/birthday-list.tsx): a name search, an "upcoming" window
 * of 90 days, nearest birthday first, and a "Today!" badge in place of the day count.
 */
module BirthdayList {
  import opened Sequences
  import opened Sorting
  import opened Calendar
  import opened Text
  import opened Birthdays

  datatype ListFilter = Upcoming | All

  /** The largest countdown the "upcoming" filter keeps. */
  const UpcomingWindow: int := 90

  /** `f.name.toLowerCase().includes(search.toLowerCase())`. */
  function NameMatches(search: string): Person -> bool {
    (f: Person) => Contains(ToLower(f.name), ToLower(search))
  }

  function WithinWindow(days: Person -> int): Person -> bool {
    (f: Person) => days(f) <= UpcomingWindow
  }

  /** The name filter, applied only when there is a search. */
  function Searched(friends: seq<Person>, search: string): (r: seq<Person>)
    ensures forall f :: f in r <==> f in friends && (search == "" || Contains(ToLower(f.name), ToLower(search)))
    ensures IsSubsequence(r, friends)
    ensures forall f :: multiset(r)[f] == if search == "" || Contains(ToLower(f.name), ToLower(search)) then multiset(friends)[f] else 0
  {
    if search != "" then Filter(friends, NameMatches(search))
    else
      assert IsSubsequence(friends, friends) by { FilterKeepsAll(friends, (f: Person) => true); }
      friends
  }

  /** The window filter, applied only under "upcoming". */
  function Windowed(xs: seq<Person>, filter: ListFilter, days: Person -> int): (r: seq<Person>)
    ensures forall f :: f in r <==> f in xs && (filter.All? || days(f) <= UpcomingWindow)
    ensures IsSubsequence(r, xs)
    ensures forall f :: multiset(r)[f] == if filter.All? || days(f) <= UpcomingWindow then multiset(xs)[f] else 0
  {
    if filter.Upcoming? then Filter(xs, WithinWindow(days))
    else
      assert IsSubsequence(xs, xs) by { FilterKeepsAll(xs, (f: Person) => true); }
      xs
  }

  /**
   * The `filteredFriends` pipeline on a copy of the list: the name filter when there is a
   * search, the window filter under "upcoming", then a stable sort by `days`.
   */
  function Pipeline(friends: seq<Person>, search: string, filter: ListFilter, days: Person -> int): (r: seq<Person>)
    ensures forall f :: f in r <==>
      (f in friends && (search == "" || Contains(ToLower(f.name), ToLower(search))) && (filter.All? || days(f) <= UpcomingWindow))
    ensures SortedBy(r, days)
    ensures StablePermutation(r, Windowed(Searched(friends, search), filter, days), days)
  {
    var kept := Windowed(Searched(friends, search), filter, days);
    var r := SortByKey(kept, days);
    assert forall f :: f in r <==> f in kept by {
      forall f ensures f in r <==> f in kept { assert f in multiset(r) <==> f in multiset(kept); }
    }
    r
  }

  /** The list as written: the countdown is `getDaysUntilBirthday` against the current instant. */
  function FilteredFriends(friends: seq<Person>, search: string, filter: ListFilter, now: int): (r: seq<Person>)
    ensures SortedBy(r, UpcomingKey(now))
  {
    Pipeline(friends, search, filter, UpcomingKey(now))
  }
  /** Who is listed: the friends whose name matches the search and, under "upcoming", whose countdown is at most 90. */
  lemma FilteredFriendsMembers(friends: seq<Person>, search: string, filter: ListFilter, now: int, f: Person)
    ensures f in FilteredFriends(friends, search, filter, now) <==>
      (f in friends && (search == "" || Contains(ToLower(f.name), ToLower(search)))
       && (filter.All? || DaysUntilBirthday(f.birthday, now) <= UpcomingWindow))
  {
    assert UpcomingKey(now)(f) == DaysUntilBirthday(f.birthday, now);
  }


  /** A friend is listed at most as often as given: the pipeline sorts a filtered copy. */
  lemma FilteredFriendsNoDuplicates(friends: seq<Person>, search: string, filter: ListFilter, now: int, f: Person)
    ensures multiset(FilteredFriends(friends, search, filter, now))[f] <= multiset(friends)[f]
  {
    var named := Searched(friends, search);
    var kept := Windowed(named, filter, UpcomingKey(now));
    assert multiset(FilteredFriends(friends, search, filter, now)) == multiset(kept);
  }

  /** The two filters are one filter by "matches the search and lies in the window". */
  lemma FiltersAreOneFilter(friends: seq<Person>, search: string, filter: ListFilter, days: Person -> int)
    ensures Windowed(Searched(friends, search), filter, days) == Filter(friends, Shown(search, filter, days))
  {
    var keep := Shown(search, filter, days);
    if search != "" && filter.Upcoming? {
      FilterThenFilter(friends, NameMatches(search), WithinWindow(days), keep);
    } else if search != "" {
      FilterCongruent(friends, NameMatches(search), keep);
    } else if filter.Upcoming? {
      FilterCongruent(friends, WithinWindow(days), keep);
    } else {
      FilterKeepsAll(friends, keep);
    }
  }

  /** Whether a friend survives both filters: an empty search matches everyone, "all" keeps everyone. */
  function Shown(search: string, filter: ListFilter, days: Person -> int): Person -> bool {
    (f: Person) => (search == "" || NameMatches(search)(f)) && (filter.All? || days(f) <= UpcomingWindow)
  }

  /** "No birthdays found" shows exactly when no friend passes both filters. */
  lemma NoBirthdaysIffNoneShown(friends: seq<Person>, search: string, filter: ListFilter, now: int)
    ensures |FilteredFriends(friends, search, filter, now)| == 0
        <==> forall i :: 0 <= i < |friends| ==> !Shown(search, filter, UpcomingKey(now))(friends[i])
  {
    var r := FilteredFriends(friends, search, filter, now);
    if |r| == 0 {
      forall i | 0 <= i < |friends| ensures !Shown(search, filter, UpcomingKey(now))(friends[i]) {
        assert friends[i] in friends;
      }
    } else {
      assert r[0] in r;
    }
  }

  /** The badge or the count at the right of a row. */
  datatype RowLabel = Today | DaysAway(days: int)

  function Label(f: Person, now: int): (l: RowLabel)
    ensures l.Today? <==> IsBirthdayToday(f.birthday, now)
    ensures l.DaysAway? ==> l.days == DaysUntilBirthday(f.birthday, now)
  {
    if IsBirthdayToday(f.birthday, now) then Today else DaysAway(DaysUntilBirthday(f.birthday, now))
  }

  /**
   * As written, a friend whose birthday is today, checked after midnight, has a countdown of
   * 365 or 366 and drops out of the default "upcoming" list, though the row would say "Today!".
   */
  lemma TodayDroppedFromUpcoming(f: Person, now: int)
    requires ClockOutsideTwoDigitWindow(now)
    requires IsBirthdayToday(f.birthday, now) && TimeWithinDay(now) > 0
    ensures Label(f, now) == Today
    ensures FilteredFriends([f], "", Upcoming, now) == []
  {
    BirthdayTodayRollsOver(f.birthday, now);
    var r := FilteredFriends([f], "", Upcoming, now);
    FilteredFriendsMembers([f], "", Upcoming, now, f);
    assert f !in r;
    assert forall g :: g in r ==> g == f;
  }

  function FromTodayKey(now: int): Person -> int {
    (f: Person) => DaysUntilBirthdayFromToday(f.birthday, now)
  }

  /** The list with the corrected countdown, which reads 0 all through the birthday. */
  function FilteredFriendsFromToday(friends: seq<Person>, search: string, filter: ListFilter, now: int): (r: seq<Person>)
    ensures SortedBy(r, FromTodayKey(now))
  {
    Pipeline(friends, search, filter, FromTodayKey(now))
  }

  /** Who is listed: the friends whose name matches the search and, under "upcoming", whose countdown is at most 90. */
  lemma FilteredFriendsFromTodayMembers(friends: seq<Person>, search: string, filter: ListFilter, now: int, f: Person)
    ensures f in FilteredFriendsFromToday(friends, search, filter, now) <==>
      (f in friends && (search == "" || Contains(ToLower(f.name), ToLower(search)))
       && (filter.All? || DaysUntilBirthdayFromToday(f.birthday, now) <= UpcomingWindow))
  {
    assert FromTodayKey(now)(f) == DaysUntilBirthdayFromToday(f.birthday, now);
  }

  /** With the corrected countdown, a birthday today is kept under "upcoming" and listed first. */
  lemma TodayKeptWhenCountingFromToday(friends: seq<Person>, search: string, now: int, k: nat)
    requires ClockOutsideTwoDigitWindow(now)
    requires k < |friends| && IsBirthdayToday(friends[k].birthday, now)
    requires search == "" || NameMatches(search)(friends[k])
    ensures friends[k] in FilteredFriendsFromToday(friends, search, Upcoming, now)
    ensures DaysUntilBirthdayFromToday(FilteredFriendsFromToday(friends, search, Upcoming, now)[0].birthday, now) == 0
  {
    var f := friends[k];
    DaysUntilBirthdayFromTodayCorrect(f.birthday, now);
    var r := FilteredFriendsFromToday(friends, search, Upcoming, now);
    FilteredFriendsFromTodayMembers(friends, search, Upcoming, now, f);
    HeadKeyLeast(r, FromTodayKey(now), f);
    DaysUntilBirthdayFromTodayNonNegative(r[0].birthday, now);
  }
}
