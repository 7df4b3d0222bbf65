# HR employee manager: record store, filters, validators and session gate

This project models the logic core of a small browser HR tool. The tool keeps
employee records in the browser's `localStorage` and gates its pages behind a
mock login. The model covers five parts:

- **Record store** (`src/utils/storage.js`). `getEmployees`, `saveEmployee` and
  `deleteEmployee` each read, change and write back the whole list in the
  `employee_data` key. `saveEmployee` is an upsert keyed by `id`.
- **List view** (`src/pages/EmployeeList.jsx`). The filter state, the row
  predicate (case-insensitive name search plus exact gender and status selects)
  and the confirm-delete-reload handler.
- **Two form variants**. The add/edit modal (`src/components/EmployeeModal.jsx`)
  requires an image. The add/edit page (`src/pages/EmployeeForm.jsx`) does not.
  Each has its own per-field error bookkeeping.
- **Dashboard counts** (`src/pages/Dashboard.jsx`).
- **Session gate**: login (`src/pages/Login.jsx`), the `ProtectedRoute` check
  and route table (`src/App.jsx`) and logout (`src/components/Layout.jsx`). All
  three act on the `isAuthenticated` key.

Modules follow the source files: `Storage`, `EmployeeList`, `EmployeeModal`,
`EmployeeForm`, `Dashboard`, `Login`, `App` and `Layout`. Shared pieces sit
underneath them:

- `Browser.LocalStorage` is a class holding both storage keys:
  `employeeData: Option<EmployeeBlob>` and `isAuthenticated: Option<string>`.
- `Records` holds the employee record, the form fields and the required-field test.
- `Seqs` holds `filter` and the subsequence and count facts about it.
- `Text` holds `toLowerCase`, `includes`, `trim` and the decimal `toString` of the clock.

State that the source changes step by step is modelled as classes with
`modifies` clauses. Those classes are the pages' React state and the storage
object. Each handler method is specified by a pure function, such as
`Storage.Upserted`, `EmployeeModal.AfterChange` or `EmployeeList.FilteredData`.
The lemmas are proved about those functions.

A record's `id` is an `Option<string>`. `None` stands for an absent key, since a
new form has no `id`. JavaScript treats both `undefined` and `''` as falsy, and
`Records.IsTruthyId` captures that. `Date.now()` is the parameter `clock`, and
the new id is its decimal string.

Three behaviours of the code a reader might not expect:

- `getEmployees` does not survive a corrupt blob. `JSON.parse` is not guarded,
  so only an absent key or `''` skips `JSON.parse` and reads as the empty list.
- `saveEmployee` keeps a truthy id that matches no entry. It does not check the
  generated id for collisions. The distinctness lemmas therefore take a fresh
  clock value as a hypothesis.
- The route table has no catch-all. An unknown location matches nothing and is
  not redirected to `/`. Literal path segments match in any letter case,
  because no route sets `caseSensitive`. Trailing slashes are ignored, as
  react-router's path patterns always allow them.

## Model

| member | source | states |
|---|---|---|
| `Storage.Decode` | src/utils/storage.js:3-6 | an absent key or `''` reads as the empty list; a stored list reads as itself |
| `Storage.GetEmployees` | src/utils/storage.js:3-6 | returns the decoded content of `employee_data`, `[]` when the key is absent or `''` |
| `Storage.FindIndex` | src/utils/storage.js:10 | `findIndex`: the first position whose id equals the key, or -1 when no entry has it |
| `Storage.GeneratedId` | src/utils/storage.js:15 | the clock-derived id is always truthy |
| `Text.DecimalStringInjective` | src/utils/storage.js:15 | distinct clock readings give distinct ids (decimal digits read back to the number) |
| `Text.DecimalString` | src/utils/storage.js:15 | `Date.now().toString()`: at least one character, all decimal digits, no leading zero |
| `Storage.Stamped` | src/utils/storage.js:12-15 | a falsy id is replaced by the generated id only when appending; a truthy unmatched id or a matched id is kept |
| `Storage.Upserted` | src/utils/storage.js:8-17 | on a match, the first matching entry is replaced in place and length and every other entry are unchanged; otherwise the stamped record is appended after the unchanged list |
| `Storage.UpsertedContainsStamped` | src/utils/storage.js:15-18 | after a save the list contains the saved record under its (possibly new) id |
| `Storage.UpsertedKeepsDistinct` | src/utils/storage.js:10-16 | pairwise distinct ids stay distinct after a save when the generated id is not already present |
| `Storage.UpsertedFindsStamped` | src/utils/storage.js:10-18 | with distinct ids, looking up the saved id after a save finds exactly the saved record |
| `Storage.Removed` | src/utils/storage.js:21-22 | no remaining entry has the id, and every entry with another id remains |
| `Storage.RemovedMultiset` | src/utils/storage.js:22 | every copy of an entry with another id survives, and no copy of one with the id |
| `Storage.RemovedAbsent` | src/utils/storage.js:22-23 | deleting an id that no entry holds leaves the list unchanged |
| `Storage.RemovedIdempotent` | src/utils/storage.js:22-23 | deleting twice equals deleting once |
| `Storage.RemovedKeepsOrder` | src/utils/storage.js:22 | the remaining entries keep their original relative order (a subsequence) |
| `Storage.RemovedKeepsDistinct` | src/utils/storage.js:22 | deleting preserves pairwise distinct ids |
| `Storage.AddEditDeleteLeavesEmpty` | src/utils/storage.js:8-23 | from an empty store, adding a record, editing its status under its new id, then deleting that id leaves the list empty |
| `Storage.SaveEmployee` | src/utils/storage.js:8-19 | writes back the upserted list, returns the stored record, and leaves the session key alone |
| `Storage.DeleteEmployee` | src/utils/storage.js:21-23 | writes back the filtered list and leaves the session key alone |
| `Seqs.FilterIsSubsequence` | src/pages/EmployeeList.jsx:25 | `filter` yields a subsequence of its input, in the input's order |
| `Seqs.FilterMultiset` | src/pages/EmployeeList.jsx:25 | `filter` keeps every copy of an element that satisfies the predicate and no copy of one that does not |
| `Seqs.CountPermutation` | src/pages/Dashboard.jsx:24-25 | a filter count depends only on the multiset of records |
| `Text.ToLower` | src/pages/EmployeeList.jsx:27 | `toLowerCase()`: same length, each ASCII capital mapped to its lower-case letter and every other character kept |
| `Text.Contains` | src/pages/EmployeeList.jsx:27 | `includes()`: every string includes `''`, and no string includes a longer one |
| `Text.Trim` | src/components/EmployeeModal.jsx:68-69 | `trim()` yields `''` exactly when every character is white space |
| `Records.Missing` | src/components/EmployeeModal.jsx:68-74 | an empty field is always missing; fullName and email count as missing exactly when they are all white space |
| `Records.Set` | src/components/EmployeeModal.jsx:44 | `{ ...prev, [name]: value }` changes the named field only and keeps the id |
| `EmployeeList.Matches` | src/pages/EmployeeList.jsx:26-30 | with no criterion set every record matches; a search text longer than the name never matches |
| `EmployeeList.SearchIgnoresCase` | src/pages/EmployeeList.jsx:27 | lower-casing the search text changes no record's match |
| `EmployeeList.FilteredData` | src/pages/EmployeeList.jsx:25-31 | a record is shown iff the lower-cased name includes the lower-cased search and each set select equals the record's field |
| `EmployeeList.FilteredMultiset` | src/pages/EmployeeList.jsx:25-31 | every copy of a matching record is shown, and no copy of a non-matching one |
| `EmployeeList.FilteredIsSubsequence` | src/pages/EmployeeList.jsx:25 | the shown rows are a subsequence of the loaded list, in the same order |
| `EmployeeList.InitialFilterShowsAll` | src/pages/EmployeeList.jsx:25-31 | with the initial filter state (all three `''`) every loaded record is shown |
| `EmployeeList.FilteredIdempotent` | src/pages/EmployeeList.jsx:25-31 | filtering the shown rows again changes nothing |
| `EmployeeList.StricterFilterShowsFewer` | src/pages/EmployeeList.jsx:25-31 | a filter at least as strict in every criterion shows a subsequence of what the weaker one shows |
| `EmployeeList.SearchReadsNameOnly` | src/pages/EmployeeList.jsx:27 | records equal in name, gender and status match alike, whatever their email or other fields |
| `EmployeeList.AliceAndBob` | src/pages/EmployeeList.jsx:25-31 | searching "a" shows only Alice; selecting gender Male shows only Bob |
| `EmployeeList.EmployeeListPage.constructor` | src/pages/EmployeeList.jsx:7-8 | the page starts with no records and the initial filter state |
| `EmployeeList.EmployeeListPage.Shown` | src/pages/EmployeeList.jsx:25-31 | the rows shown are exactly the loaded records that match the filter, with every copy of each, in loaded order (a subsequence) |
| `EmployeeList.EmployeeListPage.LoadData` | src/pages/EmployeeList.jsx:14 | the list becomes what the store holds; the filter is unchanged |
| `EmployeeList.EmployeeListPage.HandleDelete` | src/pages/EmployeeList.jsx:16-21 | when confirmed, the id is deleted from the store and the list reloaded; otherwise store and list are untouched |
| `EmployeeList.EmployeeListPage.SetSearch` | src/pages/EmployeeList.jsx:46 | only the search criterion changes |
| `EmployeeList.EmployeeListPage.SetGender` | src/pages/EmployeeList.jsx:47 | only the gender criterion changes |
| `EmployeeList.EmployeeListPage.SetStatus` | src/pages/EmployeeList.jsx:50 | only the status criterion changes |
| `EmployeeModal.ValidateAt` | src/components/EmployeeModal.jsx:66-74 | each field, the image included, has an entry exactly when it is missing, with its fixed message |
| `EmployeeModal.Label` | src/components/EmployeeModal.jsx:6-14 | for every field, "<label> is required" is exactly the message the validator stores |
| `EmployeeModal.Validate` | src/components/EmployeeModal.jsx:66-74 | every entry of the error map holds its field's fixed message (its keys are stated by `ValidateFlagsMissing`) |
| `EmployeeModal.ValidateFlagsMissing` | src/components/EmployeeModal.jsx:66-75 | the error map's keys are exactly the missing fields; an empty image is flagged; a present dob is never flagged (no date-range check) |
| `EmployeeModal.ValidIffNothingMissing` | src/components/EmployeeModal.jsx:75-76 | validation passes iff no field, the image included, is missing |
| `EmployeeModal.AfterChange` | src/components/EmployeeModal.jsx:45-48 | a shown error is cleared to `''` even for an empty value; otherwise an empty value sets "<label> is required"; other entries unchanged |
| `EmployeeModal.AfterImageChange` | src/components/EmployeeModal.jsx:58-60 | the image error is cleared only if one was shown |
| `EmployeeModal.EmployeeModalState.constructor` | src/components/EmployeeModal.jsx:17-21 | blank form, no errors, no preview |
| `EmployeeModal.EmployeeModalState.OnOpen` | src/components/EmployeeModal.jsx:24-36 | on open, edit mode copies the record (id included) and add mode resets all fields; errors reset in both |
| `EmployeeModal.EmployeeModalState.HandleChange` | src/components/EmployeeModal.jsx:42-49 | the named field always takes the new value; errors follow `AfterChange` |
| `EmployeeModal.EmployeeModalState.HandleImageChange` | src/components/EmployeeModal.jsx:51-64 | a read file sets image and preview; errors follow `AfterImageChange` |
| `EmployeeModal.EmployeeModalState.ValidateForm` | src/components/EmployeeModal.jsx:66-77 | stores the error map and returns true iff nothing is missing |
| `EmployeeModal.EmployeeModalState.HandleSubmit` | src/components/EmployeeModal.jsx:79-86 | saves (then `onSave`, `onClose`) only when valid; on failure the store is unchanged |
| `EmployeeForm.ValidateAt` | src/pages/EmployeeForm.jsx:69-76 | each field other than the image has an entry exactly when it is missing; the image never does |
| `EmployeeForm.Label` | src/pages/EmployeeForm.jsx:6-13 | no image label; "<label> is required" equals the validator's message for every field except dob, where 'Date Of Birth' differs from 'Date of Birth' |
| `EmployeeForm.Validate` | src/pages/EmployeeForm.jsx:69-79 | every entry of the error map holds its field's fixed message (its keys are stated by `ValidateFlagsMissing`) |
| `EmployeeForm.ValidateFlagsMissing` | src/pages/EmployeeForm.jsx:69-81 | the error map's keys are exactly the missing fields among the six; `image` is never required |
| `EmployeeForm.ValidIffNothingMissing` | src/pages/EmployeeForm.jsx:81-82 | validation passes iff none of the six fields is missing |
| `EmployeeForm.ValidateIsModalWithoutImage` | src/pages/EmployeeForm.jsx:69-83 | the page's error map is the modal's with the image entry removed |
| `EmployeeForm.AfterChange` | src/pages/EmployeeForm.jsx:42-47 | an empty value always sets "<label> is required"; a non-empty value clears a shown error and otherwise changes nothing |
| `EmployeeForm.AfterImageChange` | src/pages/EmployeeForm.jsx:57 | an `image: ''` entry is always written; other entries unchanged |
| `EmployeeForm.ImageUploadShowsBanner` | src/pages/EmployeeForm.jsx:156 | after an image upload the banner shows, even when there were no errors |
| `EmployeeForm.ChangeRulesDiffer` | src/pages/EmployeeForm.jsx:42-47 | on an emptied field that shows an error, the modal clears the message while the page sets it again |
| `EmployeeForm.EditRecord` | src/pages/EmployeeForm.jsx:28-33 | with a route id, the first stored record with that id; none when no id or no match |
| `EmployeeForm.EditAfterSaveLoadsSaved` | src/pages/EmployeeForm.jsx:29 | with distinct ids, editing a just-saved record loads exactly that record |
| `EmployeeForm.EmployeeFormPage.constructor` | src/pages/EmployeeForm.jsx:16-25 | blank form, no errors, no preview, the route id recorded |
| `EmployeeForm.EmployeeFormPage.LoadForEdit` | src/pages/EmployeeForm.jsx:27-35 | the form is populated from the found record; if none matches the form stays as it was |
| `EmployeeForm.EmployeeFormPage.HandleChange` | src/pages/EmployeeForm.jsx:37-48 | the named field always takes the new value; errors follow `AfterChange` |
| `EmployeeForm.EmployeeFormPage.HandleImageChange` | src/pages/EmployeeForm.jsx:50-61 | a read file sets image and preview; errors follow `AfterImageChange` |
| `EmployeeForm.EmployeeFormPage.ValidateForm` | src/pages/EmployeeForm.jsx:69-83 | stores the error map and returns true iff none of the six fields is missing |
| `EmployeeForm.EmployeeFormPage.HandleSubmit` | src/pages/EmployeeForm.jsx:85-91 | saves and navigates to /employees only when valid; otherwise the store is unchanged |
| `EmployeeForm.EmployeeFormPage.Banner` | src/pages/EmployeeForm.jsx:156 | the banner shows iff the error map has any key, including keys mapped to `''` |
| `Dashboard.StatsBeforeLoad` | src/pages/Dashboard.jsx:18 | all three counts start at 0 |
| `Dashboard.ComputeStats` | src/pages/Dashboard.jsx:21-26 | total is the list's length, neither status count exceeds it, and an empty list gives the initial counts |
| `Dashboard.StatsBounds` | src/pages/Dashboard.jsx:23-25 | total is the record count; active + inactive ≤ total, with equality iff every status is 'Active' or 'Inactive' |
| `Dashboard.StatsPermutationInvariant` | src/pages/Dashboard.jsx:21-25 | the counts do not change when the stored list is permuted |
| `Dashboard.StatsAfterAppend` | src/pages/Dashboard.jsx:23-25 | one more record raises total by one and the count of its exact status by one |
| `Login.NearMissesRefused` | src/pages/Login.jsx:15 | the comparison is exact: a stored email or password that differs in case or by a space is refused; the admin pair is accepted |
| `Login.CredentialsAccepted` | src/pages/Login.jsx:15 | accepted exactly when the email is 'admin@admin.com' and the password 'admin' |
| `Login.SessionGateScenario` | src/pages/Login.jsx:16 | /employees redirects to /login with no flag and renders once 'true' is stored |
| `Login.LoginPage.constructor` | src/pages/Login.jsx:5-7 | both inputs and the error start empty |
| `Login.LoginPage.SetEmail` | src/pages/Login.jsx:33 | editing the email clears the error |
| `Login.LoginPage.SetPassword` | src/pages/Login.jsx:44 | editing the password clears the error |
| `Login.LoginPage.HandleLogin` | src/pages/Login.jsx:10-21 | on the exact pair, the flag 'true' is stored and navigation goes to '/'; otherwise the flag is untouched and the hint is shown |
| `App.IsAuthenticated` | src/App.jsx:10 | an absent key never authenticates, and a present one only when it holds exactly 'true' |
| `App.ProtectedRoute` | src/App.jsx:9-12 | renders its children iff the stored flag is exactly 'true'; otherwise redirects to /login |
| `App.RouteTable` | src/App.jsx:17-29 | exactly five routes, and a route is gated exactly when its page is not the login page |
| `App.MatchPattern` | src/App.jsx:18-27 | a pattern matches iff it has as many segments as the path and each literal equals its segment up to letter case and each `:id` segment is non-empty; on a match the value is the path segment at the first `:id` position, and none for an all-literal pattern |
| `App.ResolveIn` | src/App.jsx:17-29 | nothing renders exactly when no route matches, and the only redirect is to /login for a session that is not authenticated |
| `App.Normalize` | src/App.jsx:17-29 | drops trailing empty segments only: the result is a prefix of the path, does not end in an empty segment, and what is dropped is all empty |
| `App.Resolve` | src/App.jsx:17-29 | no catch-all: nothing renders exactly when no declared pattern matches the path without its trailing slashes; a redirect only goes to /login and only when not authenticated |
| `App.LoginAlwaysReachable` | src/App.jsx:18 | /login renders whatever the flag holds |
| `App.GatedRoutes` | src/App.jsx:19-28 | '/', 'employees', 'employees/add' and 'employees/edit/:id' render iff authenticated; add and edit render the same form and only edit supplies an id |
| `App.TrailingSlashIgnored` | src/App.jsx:17-29 | a trailing slash never changes what a location shows |
| `App.UpperCaseListPath` | src/App.jsx:25 | `/Employees` is the list route, gated like `/employees` |
| `App.UpperCaseLoginPath` | src/App.jsx:18 | `/LOGIN` renders the login page whatever the flag holds |
| `App.OnlyLoginUngated` | src/App.jsx:17-29 | without an authenticated session no page other than login renders |
| `App.UnknownPathNotRedirected` | src/App.jsx:17-29 | an unknown location is not redirected anywhere |
| `Layout.Logout` | src/components/Layout.jsx:6-9 | removes the flag so the gate denies, leaves `employee_data` unchanged, is a no-op on storage when already logged out, and goes to /login |
| `Layout.LoggedOutIsGated` | src/components/Layout.jsx:7-8 | after logout only the login page renders, and the /login destination does |

## Left out

- Rendering: JSX markup, `getInputClass`, icons, layout chrome and the confirmation modal component carry no logic here.
- JSON serialisation and `localStorage` itself: the `employee_data` key holds the list directly (or `''`), and a corrupt blob, on which `JSON.parse` throws, is not modelled.
- The clock: `Date.now()` is the `clock` parameter. Uniqueness of generated ids is not guaranteed by the source, so lemmas that need it take it as a hypothesis.
- `new Date().toISOString()` and the dob `min`/`max` bounds: these exist only as HTML input attributes, not in either validator.
- `FileReader`/`readAsDataURL`: the image handlers take the finished data URL as an `Option<string>` (`None` when no file was chosen). The image is an opaque string.
- `window.confirm` is the `confirmed` parameter of `HandleDelete`, and `window.print` is left out. Router navigation is the returned target path. React's asynchronous state batching is not modelled: each handler is one sequential step over the current state.
- `Storage.SaveEmployee`: the source assigns the new id into the caller's object. The model returns the stored record instead, and the two form handlers assign it back to their form state.
- `EmployeeModal.EmployeeModalState.HandleSubmit`: the parent's `onSave` and `onClose` callbacks are reported as the returned flag, not run.
- `EmployeeForm.EmployeeFormPage.HandleChange`: requires a field other than the image, because no input with a `name` of `image` is wired to it and the page's label map has no image entry.
- `toLowerCase` is ASCII-only case folding. `trim` uses the ECMAScript white-space and line-terminator set.
- `INDIAN_STATES` (from `src/utils/constants`, which is not part of this model): neither validator consults it.
- The external seed/import fetch: network I/O that does not appear in these files.
- Router mechanics: a location is given as its path segments, and react-router's ranking is replaced by first match over five patterns that do not overlap. The `Layout` shell and its `Outlet` nesting are not modelled.
- App.MatchPattern: percent-encoded characters in a location are not decoded before matching, as react-router does; segments are compared as given. Letter case is folded for ASCII only, which agrees with react-router's case-insensitive match for these all-ASCII patterns.
- HTML input behaviour: the login and form email inputs are `type="email"`. The browser strips surrounding white space from their value before `onChange` stores it, and constraint validation blocks submitting a malformed address, so `handleLogin` or `handleSubmit` never runs for it. The model takes the stored value as given and lets every submit through.
- Records.Employee: a record always has all eight keys. A stored record that lacks a key, on which `toLowerCase()` or `trim()` throws, and extra keys that `{ ...prev }` and `saveEmployee` carry along are not modelled.
