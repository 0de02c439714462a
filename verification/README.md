# User administration console — core logic in Dafny

This project models the small pieces of sequential logic inside a browser
console for managing user records (a Next.js/React application). Four parts
are modelled, and properties about each are proved:

* **The user table** (`UsersTable`, `src/app/users/components/user-table.tsx`).
  It covers the search over the in-memory user list, pagination with six rows
  per page, and the "showing a to b of n" label. It also covers the
  pagination controls, the search-box page reset, deleting the selected user
  and saving an edited user.
* **The session store** (`Session`, `src/lib/auth-context.tsx`).
  It covers login by case-insensitive e-mail lookup with the
  `admin@sistema.com` fallback, and logout. It also covers the restore from
  the single storage slot at start-up, including recovery from a corrupt
  entry, and the loading flag.
* **The authentication gate** (`Gate`, `src/components/dashboard/index.tsx`).
  It covers the prefix test for routes that need no session, the redirect
  to `/login`, and the ordered choice of what to render: spinner, bare page,
  nothing, or the full dashboard.
* **The create-user form schema** (`CreateUserForm`, `src/app/create-user/page.tsx`).
  It covers the rules for each of the six fields. For each field it reports
  the first rule that fails. The form is valid when no field reports
  anything.

Shared building blocks:

* `Seqs` models JavaScript's `filter` and `slice`, with their
  subsequence, membership and count facts.
* `Text` models ASCII `toLowerCase`, `includes` and `startsWith`. It proves
  that the recursive `includes` agrees with the positional definition.
* `UserRecords` holds the record type and id uniqueness.
* `Wrappers` holds `Option`.

Everything is a pure function over immutable datatypes. State changes are
functions from the old state to the new one.

Inputs the code takes from outside the model are parameters:

* The seed user list (`mockUsers`, defined in `src/lib/mock-user`, which is
  not part of this model) is a `seq<UserRecord>` argument.
* The storage slot is an `Option<Stored>` field. `Saved(u)` is text the
  store wrote itself, which parses back to `u`. `Corrupt(raw)` is text that
  does not parse.
* The current path is a string argument.
* Router navigation is the `redirectToLogin` output flag.

Behaviours of the code the model reproduces:

* The search matches name, NIT, e-mail and **profile**. It does not match
  the phone. The NIT is matched case-sensitively.
* The search is the table's only query. The page size is fixed at 6.
* The page count is `ceil(n / 6)`. It is **0** when nothing matches.
* The current page is **not** clamped after a delete. Deleting the only
  user on the last page leaves the current page past the page count. The
  visible page is then empty, and with one page left the pagination controls
  disappear (`UsersTable.DeleteDoesNotClampPage`). "Next" also stays enabled
  past the last page (`UsersTable.NextEnabledPastLastPage`).
* The profile and status values the form accepts are `administrador`,
  `requirente` and `coordinador`, and `activo` and `inactivo`.

## Model

| member | source | states |
|---|---|---|
| `Seqs.JsSlice` | src/app/users/components/user-table.tsx:103-106 | `slice` with negative offsets and clamping: the result has at most the input's length, is empty when the start is at or past the end, and its k-th element is the input's element at the resolved start plus k |
| `Seqs.Filter` | src/app/users/components/user-table.tsx:93-99 | `filter` never grows the list and everything it returns satisfies the predicate; membership, order and counts are in the three lemmas below |
| `Seqs.FilterMembership` | src/app/users/components/user-table.tsx:93-99 | an element is in a filtered list iff it is in the list and satisfies the filter's predicate |
| `Seqs.FilterIsSubsequence` | src/app/users/components/user-table.tsx:93-99 | a filter never reorders: its result is a subsequence of its input |
| `Seqs.FilterCount` | src/app/users/components/user-table.tsx:93-99 | a filter keeps every kept element as many times as it occurs and drops every other occurrence |
| `Seqs.FilterKeepsAll` | src/app/users/components/user-table.tsx:93-99 | a filter whose predicate holds for every element returns its input unchanged |
| `Seqs.FilterAppend` | src/app/create-user/page.tsx:31 | filtering a concatenation is the concatenation of the filtered parts |
| `Text.Lower` | src/app/users/components/user-table.tsx:92 | lower-casing keeps the length and maps each upper-case ASCII letter to its lower-case letter, leaving every other character alone |
| `Text.LowerIdempotent` | src/app/users/components/user-table.tsx:92 | lower-casing an already lower-cased string changes nothing |
| `Text.ContainsIffOccurs` | src/app/users/components/user-table.tsx:95-98 | `includes` holds iff the needle occurs at some position of the haystack (both directions) |
| `Text.ContainsEmpty` | src/app/users/components/user-table.tsx:95-98 | the empty needle is found in every string |
| `Text.StartsWithIffAppend` | src/components/dashboard/index.tsx:17 | a string starts with a prefix iff it is that prefix followed by some suffix |
| `UsersTable.Matches` | src/app/users/components/user-table.tsx:94-98 | the per-user search test over name, NIT, e-mail and profile; the empty search matches every user |
| `UsersTable.FilterUsers` | src/app/users/components/user-table.tsx:90-100 | an empty search returns the list unchanged; the result is no longer than the list and every user in it matches the search |
| `UsersTable.FilterUsersMembership` | src/app/users/components/user-table.tsx:91-99 | a user is shown iff it is in the list and its lower-cased name, e-mail or profile contains the lower-cased search, or its NIT contains the raw search |
| `UsersTable.FilterUsersPreservesOrder` | src/app/users/components/user-table.tsx:91-99 | the filtered list is an order-preserving subsequence of the users, keeping each matching user's multiplicity |
| `UsersTable.MatchesIffOccurs` | src/app/users/components/user-table.tsx:94-98 | the match test holds iff the (lower-cased) search occurs at some position of one of the four searched fields |
| `UsersTable.PhoneNotSearched` | src/app/users/components/user-table.tsx:94-98 | changing a user's phone never changes whether the search keeps that user |
| `UsersTable.SearchCaseSensitivity` | src/app/users/components/user-table.tsx:92-98 | the name is matched case-insensitively and the NIT case-sensitively: "AB" finds the name "ab" but not the NIT "ab" |
| `UsersTable.TotalPages` | src/app/users/components/user-table.tsx:102 | the page count is the least number of six-row pages holding all filtered rows, and is 0 exactly when there are none |
| `UsersTable.PaginatedUsers` | src/app/users/components/user-table.tsx:103-106 | from page 1 on, the visible page has at most 6 rows, is empty when its first index is past the filtered rows, and otherwise is the rows from `(p-1)*6` up to `min(p*6, n)` |
| `UsersTable.ShownRangeAgrees` | src/app/users/components/user-table.tsx:273-275 | the label's first and last row numbers describe the visible page exactly: its size and each of its rows |
| `UsersTable.RowOnItsPage` | src/app/users/components/user-table.tsx:102-106 | every filtered row lies on an existing page, page `row/6+1`, at position `row%6` |
| `UsersTable.SevenUsersSecondPage` | src/app/users/components/user-table.tsx:102-106 | seven users make two pages, and the second holds only the seventh user |
| `UsersTable.Initial` | src/app/users/components/user-table.tsx:82-88 | the table starts on page 1 with no selection and shows the whole list |
| `UsersTable.ChangeSearch` | src/app/users/components/user-table.tsx:148-151 | typing a search sets the search text and always returns to page 1, leaving the users and the selection alone |
| `UsersTable.SelectRow` | src/app/users/components/user-table.tsx:219-249 | a row button selects exactly the clicked row, the filtered user at index `(p-1)*6 + row`, without changing list, search or page |
| `UsersTable.PagerVisible` | src/app/users/components/user-table.tsx:270 | the pagination controls are shown iff more than six users pass the search |
| `UsersTable.ControlEnabled` | src/app/users/components/user-table.tsx:282-324 | a control is only usable while the controls are shown, and an enabled numbered button always leads to a non-empty page |
| `UsersTable.Navigate` | src/app/users/components/user-table.tsx:270-328 | the first/previous/numbered/next/last controls move to 1, p-1, k, p+1 and the page count when enabled, and do nothing when disabled or hidden; only the page changes |
| `UsersTable.NavigateStaysInRange` | src/app/users/components/user-table.tsx:282-324 | starting inside `1..totalPages`, every control keeps the current page inside it |
| `UsersTable.NavigateKeepsPageAtLeastOne` | src/app/users/components/user-table.tsx:282-293 | no control takes the current page below 1 |
| `UsersTable.NextEnabledPastLastPage` | src/app/users/components/user-table.tsx:313-314 | past the last page "next" is still enabled, moves further away and shows an empty page |
| `UsersTable.RemoveById` | src/app/users/components/user-table.tsx:110 | the delete filter leaves no record with the deleted id and never grows the list |
| `UsersTable.RemoveByIdExact` | src/app/users/components/user-table.tsx:110 | the delete removes exactly the records with the deleted id and keeps every other record with its order and multiplicity |
| `UsersTable.RemoveByIdLength` | src/app/users/components/user-table.tsx:110 | with unique ids, deleting a present id shortens the list by one and deleting an absent id changes nothing in length |
| `UsersTable.RemoveByIdKeepsUniqueIds` | src/app/users/components/user-table.tsx:110 | deleting keeps ids unique |
| `UsersTable.DeleteSelected` | src/app/users/components/user-table.tsx:108-114 | with a selection, the users lose every record with the selected id and the selection is cleared; without one, nothing changes; search and current page are never touched |
| `UsersTable.DeleteDoesNotClampPage` | src/app/users/components/user-table.tsx:102-114 | deleting the only user of page 2 of 7 leaves the table on page 2 of 1, with an empty page and no pagination controls |
| `UsersTable.ReplaceById` | src/app/users/components/user-table.tsx:379-381 | the edit save keeps the list's length and the id at every position |
| `UsersTable.ReplaceByIdEffect` | src/app/users/components/user-table.tsx:380 | each position whose id is the edited id holds the edited record afterwards, and every other position is unchanged |
| `UsersTable.ReplaceByIdKeepsUniqueIds` | src/app/users/components/user-table.tsx:380 | saving an edit keeps ids unique |
| `UsersTable.ReplaceByIdIdempotent` | src/app/users/components/user-table.tsx:380 | saving the same edit twice is saving it once |
| `UsersTable.ReplaceByIdAbsent` | src/app/users/components/user-table.tsx:380 | saving a record whose id is not in the list leaves the list unchanged |
| `UsersTable.SaveEdit` | src/app/users/components/user-table.tsx:378-383 | saving replaces the records carrying the edited id by the edited record, keeps every other record at its position and the list's length, and leaves search, page and selection alone |
| `Session.Mount` | src/lib/auth-context.tsx:16-17 | the provider starts with no user and loading, over whatever the slot holds |
| `Session.Restore` | src/lib/auth-context.tsx:19-30 | a saved user becomes the session user; a non-empty corrupt entry is removed and the user is left alone; an empty entry is skipped and kept; loading always ends |
| `Session.RestoreIdempotent` | src/lib/auth-context.tsx:19-30 | running the restore a second time changes nothing |
| `Session.RestoreAfterMount` | src/lib/auth-context.tsx:16-30 | after start-up someone is signed in iff the slot held a saved user, that user is the one stored, and no non-empty corrupt text remains |
| `Session.EmailMatches` | src/lib/auth-context.tsx:37 | two e-mails match iff they have the same length and agree character by character after lower-casing |
| `Session.FindByEmail` | src/lib/auth-context.tsx:36-38 | the lookup returns the index of the first record whose e-mail equals the given one case-insensitively, or reports that none does |
| `Session.Authenticate` | src/lib/auth-context.tsx:36-46 | the record chosen for sign-in is always one of the known users |
| `Session.Login` | src/lib/auth-context.tsx:32-55 | login succeeds iff some record's e-mail matches case-insensitively or the e-mail is exactly `admin@sistema.com` and the list is non-empty; on success user and slot hold the same record; on failure nothing changes; loading is untouched |
| `Session.LoginPicksFirstMatch` | src/lib/auth-context.tsx:36-49 | with a case-insensitive match, the signed-in user is the first matching record in list order |
| `Session.SentinelFallback` | src/lib/auth-context.tsx:44-46 | when no record matches `admin@sistema.com`, logging in with it signs in the first known user |
| `Session.SentinelIsCaseSensitive` | src/lib/auth-context.tsx:44 | the fallback compares exactly: "ADMIN@sistema.com" fails where "admin@sistema.com" succeeds |
| `Session.Logout` | src/lib/auth-context.tsx:57-60 | logout leaves nobody signed in and the slot empty from any state, without touching loading |
| `Session.LogoutIdempotent` | src/lib/auth-context.tsx:57-60 | logging out twice is logging out once |
| `Session.LoginSurvivesReload` | src/lib/auth-context.tsx:19-51 | after a successful login, a reload restores the same user from the slot |
| `Session.LogoutSurvivesReload` | src/lib/auth-context.tsx:19-60 | after a logout, a reload signs nobody in |
| `Gate.AnyPrefix` | src/components/dashboard/index.tsx:17 | `some(startsWith)` holds iff the path starts with one of the listed routes |
| `Gate.IsExcluded` | src/components/dashboard/index.tsx:16-17 | a path is excluded iff it starts with `/login` or `/password-reset` |
| `Gate.ExcludedExamples` | src/components/dashboard/index.tsx:16-17 | prefix matching excludes `/login-x` and `/password-reset/confirm` but not `/users`, `/` or `/Login` |
| `Gate.Decide` | src/components/dashboard/index.tsx:19-44 | a redirect is requested iff not loading, no user and not excluded; loading shows the spinner; an excluded route shows the bare page; no user shows nothing; the dashboard shows iff not loading, not excluded and signed in |
| `Gate.RedirectExcludesDashboard` | src/components/dashboard/index.tsx:19-44 | a redirect never comes with the dashboard, and always comes with an empty screen |
| `Gate.MountShowsSpinner` | src/components/dashboard/index.tsx:25-31 | before the restore, every route shows the spinner and none redirects |
| `Gate.RestoreWithoutUser` | src/components/dashboard/index.tsx:19-40 | after a restore that finds no saved user, protected routes redirect and show nothing while excluded routes render bare |
| `Gate.LoginOpensDashboard` | src/components/dashboard/index.tsx:38-44 | after a successful login, every protected route shows the dashboard without redirect |
| `Gate.LogoutRedirects` | src/components/dashboard/index.tsx:19-40 | after a logout, every protected route redirects and shows nothing |
| `CreateUserForm.NitPattern` | src/app/create-user/page.tsx:30 | the NIT pattern accepts only 8 to 12 digits, so an accepted NIT is non-empty and dash-free |
| `CreateUserForm.PhonePattern` | src/app/create-user/page.tsx:40 | the phone pattern accepts an optional leading plus then 8 to 15 digits, white-space, dash or parenthesis characters, so an accepted phone is 8 to 16 characters long |
| `CreateUserForm.ValidForm` | src/app/create-user/page.tsx:21-49 | the acceptance predicate with one conjunct per field; an accepted form has every required field filled in |
| `CreateUserForm.StripNit` | src/app/create-user/page.tsx:31 | the NIT transform removes every dash and white-space character and nothing longer comes out |
| `CreateUserForm.StripNitRemovesOnlySeparators` | src/app/create-user/page.tsx:31 | the transform keeps the order of what remains, drops every dash and white-space character and keeps every other character with its multiplicity |
| `CreateUserForm.NitNonDigitRejected` | src/app/create-user/page.tsx:27-31 | a NIT containing any character that is neither a digit nor a separator is badly formatted |
| `CreateUserForm.Errors` | src/app/create-user/page.tsx:21-49 | the error object has an entry for a field iff that field breaks a rule, holding the first rule it breaks |
| `CreateUserForm.FieldViolationIffRuleFails` | src/app/create-user/page.tsx:21-49 | each field reports nothing iff its rule holds: name 2..100 characters, NIT 8..12 digits after stripping, e-mail 1..100 characters, phone pattern, profile and status among the listed values |
| `CreateUserForm.ValidIffNoErrors` | src/app/create-user/page.tsx:21-49 | the form is valid iff the error object is empty |
| `CreateUserForm.NitSeparatorsIgnored` | src/app/create-user/page.tsx:27-31 | inserting a dash or white space anywhere in the NIT changes neither the stripped value nor the verdict |
| `CreateUserForm.NitDigitsUnchanged` | src/app/create-user/page.tsx:27-31 | a NIT of digits only is checked as typed: required when empty, valid at 8 to 12 digits, badly formatted otherwise |
| `CreateUserForm.NitExamples` | src/app/create-user/page.tsx:27-31 | "1234-5678" is a valid NIT and "1234-567" is badly formatted |
| `CreateUserForm.PhoneExamples` | src/app/create-user/page.tsx:37-40 | the phone pattern accepts "+502 5555-1234" and "(502)55551234" and rejects a doubled plus and too few characters |

## Left out

- Rendering, CSS classes, the status and profile badges, and the dialogs' open and close flags are presentation.
- The view-details dialog and the edit form's field-by-field editing are left out. The save is modelled on whatever record the form hands back.
- Date formatting (`formatDate`, `toLocaleDateString`) is left out because it depends on the locale. Creation dates are opaque strings.
- The 800 ms delay and the promise plumbing of `login` are left out. Login is one atomic step. The password is never read by the source, so it is not an input.
- `localStorage` and `JSON.stringify`/`JSON.parse` are replaced by the abstract slot. Text that parses to something other than a user object (such as `null`) is not modelled.
- Router navigation is an output flag. The flag reflects the effect's condition, not when the effect runs.
- `useAuth` throwing outside its provider is left out, because it is a wiring error and not a state of the session.
- Lower-casing is ASCII only. `toLowerCase` also folds non-ASCII letters, which the model leaves unchanged.
- String lengths are counted in Unicode scalar values. JavaScript counts UTF-16 code units, so characters outside the Basic Multilingual Plane count once here and twice in the source.
- `Math.ceil` over floating point is modelled as exact integer ceiling. The two agree for any list a browser can hold.
- The form's error messages, toasts, the submit handler and the commented-out create request are not modelled, and neither is the resolver wiring. Only the kind of the first broken rule of each field is modelled.
- CreateUserForm.Errors: does not model the e-mail format rule (`.email()`), whose pattern is not visible in the source, so e-mails that only break that rule are accepted, and an e-mail that is both malformed and over 100 characters is reported as `TooLong` where the source reports the format error first.
- CreateUserForm.ValidIffNoErrors: like `Errors`, its validity omits the e-mail format rule.
- CreateUserForm.ValidForm: like `Errors`, its e-mail conjunct is only the length bound.
- CreateUserForm.FieldViolationIffRuleFails: like `Errors`, the e-mail conjunct is only the length bound.
- The seed data (`src/lib/mock-user`) is not part of this model. It is a parameter, and user ids are modelled as integers.
