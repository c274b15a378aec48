# Birthday reminder app — a Dafny model of its client core

The app is a small Next.js client on a hosted Postgres/auth/storage backend. Friends sign in,
keep a profile with a birthday, see whose birthday is coming, keep wishlists, mark a friend's
wishes as bought and chat one to one. This project models the client-side logic of that app:

- the birthday arithmetic of `lib/data.ts` and `getAge`: the countdown in days and hours,
  "is it today", the sort by upcoming birthday, and the age;
- the `Date` semantics that arithmetic rests on. These are the calendar functions of ECMA-262
  5.1 section 15.9.1 on integer milliseconds. They cover `new Date(y, m, d)` with its two-digit
  year rule, the getters, the `YYYY-MM-DD` parse of a birthday column and
  `toISOString().split("T")[0]`;
- the signed-in shell `components/app-main.tsx`: the tab bar and view state, and the handlers
  for toggling a purchase, adding and deleting an item and saving the profile. It also covers
  the render dispatch and the mapping of profiles to display people;
- the home list `components/birthday-list.tsx`: the search, the 90-day "upcoming" window, the
  sort and the "Today!" badge;
- the wishlist screen `components/wishlist-view.tsx`: the add form, the purchase tally and the
  actions on each card;
- the chat `components/chat-view.tsx`: find or create the conversation, load its messages,
  append deliveries, send trimmed text;
- the profile editor `components/profile-edit-modal.tsx`: the cropper flow, the delete
  confirmation and the save pipeline with its upload key;
- the entry page `app/app/page.tsx`: the redirect, the first-visit profile insert and the
  queries that feed the shell.

Every handler is a pure function. It returns the requests it sends to the backend, in order,
together with the next state. The answers it awaits are parameters. Module `Store` gives
what each request does to the tables or reads from them. The coherence lemmas show that the
handlers' local copies agree with the tables when the answers are the ones the backend gives.
The clock (`new Date()`, `Date.now()`) is a parameter too. A sort by upcoming birthday reads one clock value for the whole sort, whereas the source's comparators call `new Date()` on every comparison, so a sort that runs across midnight could mix two days' keys there.

Modules, one per file: `Wrappers`, `Sequences` (filter, map, find), `Sorting` (stable sort
by key), `Calendar`, `Text` (trim, lower case, includes, split), `IsoDate`, `Birthdays`,
`Entities`, `Store`, `AppMain`, `BirthdayList`, `WishlistView`, `ChatView`, `ProfileEdit`
and `AppPage`.

## Model

| member | source | states |
|---|---|---|
| Calendar.YearFromDay | lib/data.ts:189-190 | the year `getFullYear` reports is the one whose span of days contains the day |
| Calendar.YearFromDayUnique | lib/data.ts:189-190 | no other year's span contains that day, so the year of a day is well defined |
| Calendar.YearFromDayMonotone | lib/data.ts:189-190 | a later day never lies in an earlier year |
| Calendar.MonthFromDay | lib/data.ts:192 | the 0-based month `getMonth` reports is the month whose days within the year contain the day |
| Calendar.MonthFromDayUnique | lib/data.ts:192 | exactly one month contains a given day of the year |
| Calendar.DateFromDay | lib/data.ts:192 | the day of the month `getDate` reports is a real date of that year and month |
| Calendar.DayComponentsRoundTrip | lib/data.ts:192 | splitting a day into year, month and date and rebuilding it with `MakeDay` gives back the day |
| Calendar.MakeDayComponents | lib/data.ts:192 | the getters read back the year, month and date of a real calendar date that `new Date(y, m, d)` was given |
| Calendar.MakeDayNextYear | lib/data.ts:194-196 | the same month and date in consecutive years are 365 or 366 days apart |
| Calendar.OccurrenceWithinYear | lib/data.ts:192-196 | seen from a day of year y, the occurrence this year is at most 365 days ahead, and next year's at most 366 (365 when this year's is strictly past) |
| Calendar.FullYear | lib/data.ts:192 | `new Date(y, m, d)` reads a year in 0..99 as 1900+y and leaves any other year as it is |
| Calendar.NewDate | lib/data.ts:192 | `new Date(y, m, d)` is the midnight of `MakeDay` applied to the full year |
| Text.Trim | components/chat-view.tsx:116 | `trim` gives an empty result exactly when the text is all whitespace, and a non-empty result neither starts nor ends with whitespace |
| Text.TrimRemovesOnlyOuterWhitespace | components/chat-view.tsx:121 | the trimmed text is a contiguous piece of the original, with only whitespace before and after it |
| Text.TrimIdempotent | components/chat-view.tsx:116-121 | trimming the already trimmed text that is sent changes nothing |
| Text.ToLower | components/birthday-list.tsx:24 | `toLowerCase` keeps the length and maps every character on its own |
| Text.OccurrenceIsContained | components/birthday-list.tsx:24 | `includes` finds the search text wherever it occurs contiguously |
| Text.ContainedHasOccurrence | components/birthday-list.tsx:24 | `includes` is true only when the search text occurs contiguously somewhere |
| Text.ContainsIffOccurs | components/birthday-list.tsx:24 | `includes` is true exactly when the search text occurs contiguously at some position |
| Text.SplitFirst | app/app/page.tsx:22 | `split("@")[0]` is the longest prefix free of `@`, and it stops at the first `@` |
| Text.SplitFirstAt | app/app/page.tsx:22 | the local part of `local@domain` comes back as `local` |
| IsoDate.DigitsRoundTrip | components/profile-edit-modal.tsx:38-40 | a zero-padded field of w digits reads back as the number it was written from |
| IsoDate.NatTextRoundTrip | components/profile-edit-modal.tsx:81 | `String(n)` reads back as n |
| IsoDate.NatTextInjective | components/profile-edit-modal.tsx:81 | different numbers have different decimal texts |
| IsoDate.YearText | components/profile-edit-modal.tsx:38-40 | `toISOString` writes 4 digits for years 0..9999 and a sign with six digits otherwise |
| IsoDate.ParseIsoDate | components/app-main.tsx:206 | `new Date("YYYY-MM-DD")` is a UTC midnight when the text names a real date |
| IsoDate.DateTextParses | app/app/page.tsx:23 | the text written for a date with a four-digit year parses back to the same midnight |
| IsoDate.IsoSplitIsDatePart | components/profile-edit-modal.tsx:38-40 | `toISOString().split("T")[0]` is exactly the calendar-date part of the ISO string |
| IsoDate.IsoDatePartOfDate | components/profile-edit-modal.tsx:38-40 | the date part of a four-digit-year date's midnight spells that date |
| IsoDate.ParseThenFormat | components/profile-edit-modal.tsx:38-40 | a stored birthday that parses is written back by the editor as the same text |
| IsoDate.FormatThenParse | components/profile-edit-modal.tsx:38-40 | the editor's date text for a four-digit-year Date parses back to that day's midnight |
| Birthdays.CeilDays | lib/data.ts:198-199 | `Math.ceil(diff / 86400000)` is the least whole number of days that covers the difference |
| Birthdays.JsRemDay | lib/data.ts:214-215 | JavaScript's `%` by a day keeps the dividend's sign and differs from it by whole days |
| Birthdays.OccurrenceIn | lib/data.ts:192 | the birthday's occurrence in a year is a midnight on the birthday's month and date of that (full) year, never before the year starts |
| Birthdays.NextYearOccurrenceAhead | lib/data.ts:194-196 | next year's occurrence lies on a later day than today |
| Birthdays.NextYearAhead | lib/data.ts:194-196 | next year's occurrence is a later instant than now, so the rolled-over target is never in the past |
| Birthdays.NextBirthday | lib/data.ts:192-196 | the target of the countdown is a midnight that is not before the current instant |
| Birthdays.DaysUntilBirthday | lib/data.ts:188-202 | the countdown is never negative and is the number of calendar days from today to the target midnight |
| Birthdays.DaysUntilBirthdayRange | lib/data.ts:188-202 | the countdown is at most 366 days |
| Birthdays.DaysUntilLaterThisYear | lib/data.ts:192-199 | when this year's occurrence is still ahead, the countdown is its distance in days from today |
| Birthdays.HoursUntilBirthday | lib/data.ts:204-218 | the hour count is in 0..23 and is the whole hours left in the countdown's last partial day |
| Birthdays.IsBirthdayTodayIgnoresTimeOfDay | lib/data.ts:232-235 | `isBirthdayToday` depends only on the calendar days of the birthday and of now |
| Birthdays.IsBirthdayTodayIffOccurrenceIsToday | lib/data.ts:232-235 | `isBirthdayToday` holds exactly when this year's occurrence falls on today, whenever the birthday's date exists this year |
| Birthdays.BirthdayTodayRollsOver | lib/data.ts:194-196 | on the birthday itself, after midnight, the countdown reads 365 or 366, not 0 |
| Birthdays.LeapDayBirthdayFallsOnMarchFirst | lib/data.ts:192 | a February 29 birthday is counted down to March 1 in a common year |
| Birthdays.DaysUntilBirthdayFromTodayNonNegative | lib/data.ts:188-202 | the corrected countdown, which compares the occurrence with today's date, is never negative |
| Birthdays.DaysUntilBirthdayFromTodayCorrect | lib/data.ts:194 | the corrected countdown reads 0 all through the birthday and never exceeds 365 |
| Birthdays.ZeroCountdownIffBirthdayToday | lib/data.ts:188-202 | when the birthday's date exists this year, the corrected countdown is 0 exactly when `isBirthdayToday` holds, and the countdown as written is 0 only on the birthday |
| Birthdays.FromTodayByOccurrences | lib/data.ts:192-196 | the corrected countdown is the distance from today to this year's occurrence, or to next year's when this year's is an earlier day |
| Birthdays.SortByUpcomingBirthday | lib/data.ts:228-230 | the sorted copy has the same people, nearest birthday first, and equal countdowns keep their original order |
| Birthdays.Age | components/app-main.tsx:49-58 | the age is the number of anniversaries of the birth date that today has reached: the a-th is reached and the (a+1)-th is not |
| Birthdays.DayOrderIsDateOrder | components/app-main.tsx:52-55 | a later day has later or equal calendar fields, compared year, then month, then date |
| Birthdays.AgeNonNegative | components/app-main.tsx:49-58 | anyone born no later than now has an age of at least 0 |
| Sequences.Filter | components/birthday-list.tsx:23-29 | `filter` keeps exactly the elements that pass, each as often as in the input, in their original order |
| Sequences.FilterKeepsAll | components/birthday-list.tsx:21-29 | a filter returns the list unchanged exactly when every element passes |
| Sequences.FilterThenFilter | components/birthday-list.tsx:23-29 | the search filter followed by the window filter is one filter by both conditions |
| Sequences.Map | components/app-main.tsx:209-216 | `map` keeps the length and applies the function at every position |
| Sequences.FindFirst | components/app-main.tsx:295 | `find` returns the first element that passes, or nothing exactly when none passes |
| Sorting.SortByKey | lib/data.ts:228-230 | the stable sort returns keys in ascending order, with every group of equal keys in its original order |
| Store.ItemsOf | components/app-main.tsx:99-102 | the item query returns no more rows than the table has, each with its purchaser joined in |
| Store.ItemsOfComplete | components/app-main.tsx:99-102 | every row of the owner is returned |
| Store.ItemsOfSound | components/app-main.tsx:132-135 | every returned item is one of the owner's rows |
| Store.InsertedRow | components/app-main.tsx:141-151 | the stored row carries the inserted fields and the new id, and has no purchaser |
| Store.ApplyInsert | components/app-main.tsx:141-151 | an insert adds the row after the existing ones and leaves the profiles alone |
| Store.ApplyPurchase | components/app-main.tsx:126-130 | the purchase update rewrites the rows with that id and no other row |
| Store.ApplyDelete | components/app-main.tsx:159 | the delete removes exactly the rows with that id: every other row keeps all its copies, in order |
| Store.ApplyProfilePatch | components/app-main.tsx:164-173 | the profile update rewrites only the user's row, and the avatar column only when it is sent |
| AppMain.TabRoot | components/app-main.tsx:89-92 | each tab has its own root screen, and the three are distinct |
| AppMain.Initial | components/app-main.tsx:79-83 | the shell starts on the home tab with the server's wishlist and profile, with the editor closed |
| AppMain.TabChange | components/app-main.tsx:89-92 | a tab change moves both the active tab and the view to that tab, and leaves a state whose root agrees with the tab |
| AppMain.SelectFriend | components/app-main.tsx:94-96 | selecting a friend opens that friend's profile and changes nothing else |
| AppMain.SelectFriendById | components/app-main.tsx:344-347 | a tap opens the first profile with the tapped id, and does nothing when no profile has it |
| AppMain.ViewFriendWishlist | components/app-main.tsx:98-105 | one item query, then the friend's wishlist with the answer, or an empty list when no data came back |
| AppMain.ViewOwnWishlist | components/app-main.tsx:107-109 | opens the own wishlist and changes nothing else |
| AppMain.Back | components/app-main.tsx:111-113 | back returns to the root of the active tab |
| AppMain.BackToFriendProfile | components/app-main.tsx:115-117 | back from a friend's wishlist or chat returns to that friend's profile |
| AppMain.SendMessage | components/app-main.tsx:119-121 | opens the chat with that friend |
| AppMain.TogglePatch | components/app-main.tsx:126-130 | the toggle flips the purchased flag, and records the user as purchaser exactly when the item becomes purchased |
| AppMain.TogglePurchased | components/app-main.tsx:123-138 | off a friend's wishlist nothing happens; on it, one update and one re-read are sent, and the re-read replaces the shown items |
| AppMain.ToggleFromView | components/app-main.tsx:294-297 | the toggle passes the shown item's own flag, and does nothing for an id not in the shown list |
| AppMain.ToggleKeepsRowsConsistent | components/app-main.tsx:126-130 | after either update every row has a purchaser exactly when it is purchased |
| AppMain.ToggleReadBackShowsWrite | components/app-main.tsx:123-138 | when the re-read is the database's answer, the toggled item shows the new flag, the new purchaser and the purchaser's name |
| AppMain.NullIfEmpty | components/app-main.tsx:146 | `url \|\| null` is absent exactly for the empty text |
| AppMain.NewItemFor | components/app-main.tsx:143-149 | the inserted record belongs to the user and is not purchased |
| AppMain.AddItem | components/app-main.tsx:140-156 | one insert is sent; the returned row is appended to the local list, which is unchanged when none came back |
| AppMain.AddKeepsCacheCoherent | components/app-main.tsx:140-156 | a local list equal to the user's rows is still equal to them after an insert the database confirmed |
| AppMain.DeleteItem | components/app-main.tsx:158-161 | one delete is sent, and the local list keeps every copy of each entry with another id, in order, and none with that id |
| AppMain.DeleteKeepsCacheCoherent | components/app-main.tsx:158-161 | a local list equal to the user's rows is still equal to them after the delete |
| AppMain.DeleteMissingIsNoOp | components/app-main.tsx:160 | deleting an id that no local entry has leaves the state as it was |
| AppMain.DeleteIdempotent | components/app-main.tsx:160 | deleting the same id twice leaves what deleting it once does |
| AppMain.PatchFor | components/app-main.tsx:164-171 | name, birthday and role are always sent; the avatar only when it is a non-empty text |
| AppMain.MergeProfile | components/app-main.tsx:175-185 | the local profile takes the new fields, and keeps its old avatar unless a non-empty one came |
| AppMain.SaveProfile | components/app-main.tsx:163-186 | one profile update is sent, and there is still no local profile when there was none before |
| AppMain.SaveProfileCoherent | components/app-main.tsx:163-186 | the merged local profile is the row the database holds after the update |
| AppMain.OpenEditModal | components/app-main.tsx:356 | the edit button shows the editor |
| AppMain.CloseEditModal | components/app-main.tsx:376 | closing hides the editor |
| AppMain.InitialShowsHome | components/app-main.tsx:79-83 | the mounted shell's view is the root of its active tab; it draws the home tab without the editor once the profile is known, and nothing without one |
| AppMain.EditModalShownOverTab | components/app-main.tsx:351-357 | on a tab with a profile, the edit button draws the editor over that tab and closing removes it; on any other screen the flag changes nothing drawn |
| AppMain.CloseUndoesOpen | components/app-main.tsx:373-378 | closing the editor just opened returns to the state before it |
| AppMain.Step | components/app-main.tsx:89-186 | only a tab change moves the active tab |
| AppMain.StepKeepsRootsAgree | components/app-main.tsx:89-121 | no handler leaves a tab root on screen that is not the active tab's |
| AppMain.RunKeepsRootsAgree | components/app-main.tsx:89-121 | the same holds after any sequence of events |
| AppMain.RunActiveTab | components/app-main.tsx:79-92 | after any sequence of events, the active tab is the one last chosen, or the starting one |
| AppMain.BackLandsOnLastTab | components/app-main.tsx:111-113 | whatever happened since, back returns to the root of the tab last chosen |
| AppMain.Render | components/app-main.tsx:230-383 | the screens are tried in the source's order: chat, friend profile, friend wishlist, own wishlist, nothing without a profile, then the tab content |
| AppMain.RenderedTabIsView | components/app-main.tsx:341-368 | in a reachable state the tab content drawn is that of the root on screen |
| AppMain.DisplayItemOf | components/app-main.tsx:209-216 | the display item copies the row, shows a missing url as empty text, and shows the purchaser's name |
| AppMain.PersonOf | components/app-main.tsx:201-228 | a profile becomes a display person exactly when its birthday parses; the birthday is the parsed date and the age is computed from it |
| AppMain.PersonBirthdayIsStoredDate | components/app-main.tsx:206 | the parsed birthday, written back as date text, is the stored column |
| AppMain.SortProfilesByUpcoming | components/app-main.tsx:74-76 | the same profiles in a stable order, nearest birthday first whenever every birthday parses |
| BirthdayList.Searched | components/birthday-list.tsx:23-25 | the search keeps, in order and with every copy, the friends whose lower-cased name contains the lower-cased search, and everyone when the search is empty |
| BirthdayList.Windowed | components/birthday-list.tsx:27-29 | "upcoming" keeps, in order and with every copy, the friends whose countdown is at most 90, and "all" keeps everyone |
| BirthdayList.Pipeline | components/birthday-list.tsx:20-32 | the list is sorted by countdown, is a stable reordering of the filtered friends, and holds exactly the friends that pass both filters |
| BirthdayList.FilteredFriends | components/birthday-list.tsx:20-32 | the list is nearest birthday first |
| BirthdayList.FilteredFriendsMembers | components/birthday-list.tsx:20-32 | a friend is listed exactly when the name matches and, under "upcoming", the countdown is at most 90 |
| BirthdayList.FilteredFriendsNoDuplicates | components/birthday-list.tsx:21 | nobody is listed more often than given |
| BirthdayList.FiltersAreOneFilter | components/birthday-list.tsx:23-29 | the two filters together are one filter by "matches and in the window" |
| BirthdayList.NoBirthdaysIffNoneShown | components/birthday-list.tsx:111-119 | "No birthdays found" shows exactly when no friend passes both filters |
| BirthdayList.Label | components/birthday-list.tsx:70-104 | a row shows "Today!" exactly when `isBirthdayToday` holds, and the countdown otherwise |
| BirthdayList.TodayDroppedFromUpcoming | components/birthday-list.tsx:27-28 | a friend whose birthday is today, seen after midnight, would be badged "Today!" but is not in the default list |
| BirthdayList.FilteredFriendsFromToday | components/birthday-list.tsx:31 | the corrected list is sorted by the corrected countdown |
| BirthdayList.FilteredFriendsFromTodayMembers | components/birthday-list.tsx:20-32 | with the corrected countdown, a friend is listed exactly when the name matches and, under "upcoming", the countdown is at most 90 |
| BirthdayList.TodayKeptWhenCountingFromToday | components/birthday-list.tsx:27-31 | with the corrected countdown, a matching friend whose birthday is today is listed, and the list starts with a countdown of 0 |
| WishlistView.OpenForm | components/wishlist-view.tsx:32 | opening the add form keeps the draft |
| WishlistView.CancelForm | components/wishlist-view.tsx:133 | cancel hides the form and keeps the draft |
| WishlistView.CancelKeepsDraft | components/wishlist-view.tsx:133 | cancelling and reopening shows the same draft |
| WishlistView.HandleAddItem | components/wishlist-view.tsx:34-42 | an item is passed on exactly when there is a title and a handler: the title, the url and the parsed price or 0, and then the form is cleared; otherwise nothing changes |
| WishlistView.AddEnabledIffFires | components/wishlist-view.tsx:140 | on the own wishlist the Add button is enabled exactly when pressing it adds an item |
| WishlistView.BlankTitleIsAdded | components/wishlist-view.tsx:35 | a title of blanks is not trimmed and is added as typed |
| WishlistView.PurchasedCount | components/wishlist-view.tsx:45 | the tally is the number of positions holding a purchased item; it is all the items exactly when all are purchased, and 0 exactly when none is |
| WishlistView.PurchasedCountComplement | components/wishlist-view.tsx:45-46 | purchased plus not purchased is the total |
| WishlistView.Card | components/wishlist-view.tsx:193-229 | friends get the toggle and the "by" line; the owner gets the surprise badge on bought items and delete on the others |
| WishlistView.OwnCardHidesPurchaser | components/wishlist-view.tsx:212-229 | the owner's card is the same whoever bought the item |
| WishlistView.DeleteOnlyOwnUnpurchased | components/wishlist-view.tsx:220 | a card offers delete only on the owner's unpurchased items |
| ChatView.LookupConversation | components/chat-view.tsx:41-47 | `.single()` finds a conversation exactly when one stored row is between the two people, and then it is that row's id |
| ChatView.DuplicatePairNotFound | components/chat-view.tsx:41-47 | two stored conversations between the same pair make the lookup find none |
| ChatView.LookupSymmetric | components/chat-view.tsx:44-46 | either participant finds the same conversation |
| ChatView.ApplyCreateConversation | components/chat-view.tsx:53-60 | creating stores the pair after the existing conversations and touches no other table |
| ChatView.InitConversation | components/chat-view.tsx:38-67 | keeps the one found; otherwise sends one create with the user first and keeps the new id when it came back; loading ends either way |
| ChatView.SecondOpeningFindsFirst | components/chat-view.tsx:41-64 | after a first opening created the conversation, an opening from either side finds it and creates nothing |
| ChatView.MessagesOf | components/chat-view.tsx:77-81 | the load returns exactly that conversation's messages, oldest first |
| ChatView.LoadMessages | components/chat-view.tsx:73-84 | nothing is loaded without a conversation; the list is replaced only when data came back |
| ChatView.ReceiveMessage | components/chat-view.tsx:99-101 | a delivery goes last, and nothing before it changes |
| ChatView.ReceiveAllAppends | components/chat-view.tsx:99-101 | the list grows only at the end, by exactly the deliveries, in the order they came |
| ChatView.HandleSend | components/chat-view.tsx:115-127 | nothing is sent for blank text or without a conversation; otherwise the trimmed text is inserted as the user's, and the box is cleared unless the insert failed |
| ChatView.DisabledSendSendsNothing | components/chat-view.tsx:188-194 | text that is all whitespace disables the send button, and Enter with such text sends nothing |
| ChatView.ApplyInsertMessage | components/chat-view.tsx:118-122 | an insert stores the message last, with the id and time the database assigns |
| ChatView.SentMessageComesBackAsOwn | components/chat-view.tsx:99-126 | a sent message comes back as the user's own last message, with the box cleared |
| ChatView.PaneOf | components/chat-view.tsx:147-177 | loading first, then the start prompt for an empty chat, else one bubble per message, on the right exactly when the user sent it |
| ProfileEdit.Open | components/profile-edit-modal.tsx:37-47 | the editor starts with the person's fields and the birthday as date text, with nothing open or pending |
| ProfileEdit.FileSelected | components/profile-edit-modal.tsx:51-61 | a chosen file opens the cropper on it, and no file changes nothing |
| ProfileEdit.CropComplete | components/profile-edit-modal.tsx:63-68 | the crop is kept and previewed, and the cropper closes |
| ProfileEdit.CropCancel | components/profile-edit-modal.tsx:70-73 | the cropper closes and an earlier crop is kept |
| ProfileEdit.AskDelete | components/profile-edit-modal.tsx:291 | shows the delete confirmation |
| ProfileEdit.CancelDelete | components/profile-edit-modal.tsx:150 | hides the delete confirmation |
| ProfileEdit.FileSelectedOpensCropper | components/profile-edit-modal.tsx:51-61 | a chosen file is drawn in the cropper at once, and no file leaves the screen as it was |
| ProfileEdit.DeleteConfirmFlow | components/profile-edit-modal.tsx:111-150 | out of the cropper, asking to delete draws the confirmation, cancelling draws the form, and cancelling a fresh confirmation restores the editor |
| ProfileEdit.Render | components/profile-edit-modal.tsx:111-121 | the cropper shows when open with an image, then the confirmation, then the form, whose save is disabled while saving |
| ProfileEdit.CropperAlwaysCloses | components/profile-edit-modal.tsx:63-73 | after a crop, finished or abandoned, the cropper is gone |
| ProfileEdit.UploadKey | components/profile-edit-modal.tsx:81 | the key is the profile id, a dash, the clock's digits and `.jpg` |
| ProfileEdit.UploadKeysDiffer | components/profile-edit-modal.tsx:81 | uploads at different milliseconds use different keys |
| ProfileEdit.HandleSave | components/profile-edit-modal.tsx:75-109 | uploads only a crop; a failed upload alerts and sends no avatar; the fields are always passed on; the editor closes exactly when saving did not throw; saving ends either way |
| ProfileEdit.FailedUploadKeepsAvatar | components/profile-edit-modal.tsx:90-101 | after a failed upload the shell keeps the picture the profile had |
| ProfileEdit.UneditedSaveKeepsBirthday | components/profile-edit-modal.tsx:38-40 | saving without edits writes back the birthday text the profile was stored with |
| AppPage.NewProfileName | app/app/page.tsx:22 | the name of a new profile is never empty: the sign-up name, else the address's local part, else "User" |
| AppPage.EmptyLocalPartFallsBack | app/app/page.tsx:22 | an address that starts with `@` falls through to "User" |
| AppPage.LocalPartNamesProfile | app/app/page.tsx:22 | without a sign-up name, the local part of the address names the profile |
| AppPage.NewProfile | app/app/page.tsx:21-32 | the inserted row has the user's id, the fallback name and birthday, no picture and an empty role |
| AppPage.DefaultBirthdayParses | app/app/page.tsx:23 | the fallback birthday is a real date |
| AppPage.Bootstrap | app/app/page.tsx:5-54 | without a session, the redirect; otherwise the insert is sent exactly when no profile was found, and the shell gets the answers, or empty lists for missing data |
| AppPage.OtherProfiles | app/app/page.tsx:38 | the friends query returns, in order and with every copy, everyone but the user |
| AppPage.ApplyInsertProfile | app/app/page.tsx:25-31 | the insert adds the profile after the existing ones |
| AppPage.FirstVisitCreatesProfile | app/app/page.tsx:18-38 | on a first visit the user has no row, the insert creates one the second lookup finds, and the friends list leaves the user out |
| AppPage.ReturningUserNotRecreated | app/app/page.tsx:18-35 | a returning user is not inserted again, and the shell gets the stored row |

## Left out

- Store.ItemsOf: selects without `.order(...)` (the item queries and the friends query) are taken to return rows in insertion order; the backend promises no order, so the coherence lemmas' sequence equalities rest on that reading.
- Rendering, styling, animations, icons and the presentational components (navigation, headers, avatar rings, countdown cards, the grid and timeline views). These draw the modelled state and decide nothing.
- Locale formatting (`toLocaleDateString`, `toLocaleTimeString`). It depends on the host's locale data.
- Time zones. Local time is taken to be UTC, with no daylight saving, so `new Date(y, m, d)` and the getters use the UTC calendar.
- Floating point. Time values are integers. `Math.ceil(diff / 86400000)` is exact because both operands are integers far below 2^53. `Number.parseFloat` is a parameter (`None` for NaN).
- TimeClip. `new Date(y, m, d)` beyond ±8.64e15 ms is an invalid date (NaN) in JavaScript; `Calendar.NewDate` returns the unclipped number there. Birthdays and clocks that far out are not modelled.
- I/O, the async ordering of handlers, React's batching of state updates and a handler's stale view of the state. Each handler runs to completion on the state it was given.
- The auth calls (`getUser`, `signOut`), the `redirect` and `router.push`, and `deleteAccount`/`logout` in components/app-main.tsx:188-199. These end the session and leave nothing on the client to model.
- The realtime channel: subscribing, tearing down, and the server-side `conversation_id` filter. Deliveries are an input, and each one is assumed to belong to the open conversation.
- `FileReader`, the image cropper, object URLs, storage uploads, the service worker and notifications. Their results are parameters (`dataUrl`, `blob`, `uploadFailed`, `publicUrl`).
- The mock data of lib/data.ts and `formatBirthday`/`formatBirthdayFull`. These are presentation only.
- Store.ProfileById: like `.single()`, returns no data when two rows match. The model does not exclude rows with duplicate ids, because the database's key constraint is not part of it.
- Calendar.MakeDay: takes months 0..11 only. `new Date(y, m, d)` is only ever called with a month from `getMonth`. The month carry of section 15.9.1.12 is not modelled; the day carry is.
- IsoDate.ParseIsoDate: accepts only the date-only form with a four-digit year. Birthday columns are Postgres `date` values in that form. Extended years, time parts and the fallback formats each engine defines for itself are not modelled.
- Text.ToLower: maps only ASCII letters. Full Unicode case mapping is not modelled.
- Birthdays.DaysUntilBirthdayRange: needs a clock in year 100 or later, or before year -1. For a clock year in -1..99, `new Date(y, …)` reads the year as 19xx, and the countdown can be a century long.
- AppMain.SortProfilesByUpcoming: uses key 0 for a birthday that does not parse. The source computes NaN there, which makes the comparator inconsistent, and ECMA-262 then leaves the order implementation-defined. The ordering promise is therefore stated only for lists whose every birthday parses.
- AppMain.PersonOf: returns `None` for a birthday that does not parse. The source builds an Invalid Date and a NaN age; no later step relies on either.
- ProfileEdit.Open: requires a valid time value. `toISOString` throws a RangeError on an Invalid Date.
- ProfileEdit.UploadKey: takes the clock as a natural number of milliseconds. Clocks before 1970 are left out.
- ChatView.MessagesOf: the database's order among messages with equal `created_at` is not defined. The model fixes one stable order and promises only the time order.
- BirthdayList.FilteredFriends: states the order by the countdown key it sorts on. Membership is stated separately, by FilteredFriendsMembers.
- Birthdays.SortByUpcomingBirthday: states the order by the countdown key it sorts on. It does not restate the order through the calendar fields.
- Where the code and its documented behaviour differ, the code is followed. Back from a friend's wishlist goes to that friend's profile, not to the tab root. On the birthday itself, after midnight, the countdown reads 365 or 366, not 0 (see Findings).

## Findings

| source | as written | input that shows it | evidently intended | confidence | as-written member | corrected member |
|---|---|---|---|---|---|---|
| lib/data.ts:194 | `if (nextBirthday < today)` (repeated at components/app-main.tsx:66) compares this year's occurrence, a midnight, with the current instant. On the birthday itself any time after 00:00 counts as past, so the countdown rolls over to next year. | birthday March 15, now 2026-03-15T10:00:00Z: the countdown is 365, and the friend is dropped from the default "upcoming" list although the row would read "Today!" (BirthdayList.TodayDroppedFromUpcoming; the corrected list keeps the friend first, BirthdayList.TodayKeptWhenCountingFromToday) | compare calendar days, so the countdown is 0 all through the birthday and the friend stays first in "upcoming" | high (not executed) | Birthdays.BirthdayTodayRollsOver | Birthdays.DaysUntilBirthdayFromTodayCorrect |
