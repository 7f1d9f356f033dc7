# ys-immoFront core rules in Dafny

This project models the decision logic of the ys-immoFront real-estate web
client. It covers the form widgets (tag multi-select, searchable
single-select, currency input, file upload), the session manager that keeps
encrypted tokens in browser storage, the route guards and the HTTP
interceptor, the account-activation page, the toast queue, the minimum-files
validator and the multipart body of a new listing. Each piece is a pure
function over an immutable state record. Browser storage is a
`map<string, string>`. The cipher, the user (de)serialiser, the token payload
decoder and `JSON.stringify` are function-valued parameters. The clock is a
`now` argument. Server answers are inputs, and navigations and server calls
are outputs.

Modules, one per source component:

- `Wrappers`, `Seqs`, `Text`, `Decimal`: shared helpers. They cover `null`,
  `Array.prototype.filter`, JavaScript whitespace, `toLowerCase`, `trim`,
  `includes`, `split`, and base-ten text of numbers.
- `LabelFilter`: the label search rule the two select widgets share.
- `MultiSelect`, `SearchSelect`, `CurrencyInput`, `FileUpload`, `Toasts`,
  `MinFiles`: the shared components and the validator.
- `Session`: `AuthService` over an abstract storage map.
- `Guards`: `authGuard`, `roleGuard`, `guestGuard` and `authInterceptor`.
- `VerifyEmail`: the activation page.
- `Listing`: the `FormData` built by `AnnonceService.addAnnonce`.

Source behaviour worth knowing, which the model keeps as written:

- A token whose `exp` equals the current second is still valid, because the
  test is `exp < now` (`src/app/core/services/auth-service.ts:174`).
- A token payload whose `exp` is missing or not numeric never expires: the
  comparison with NaN is false (`src/app/core/services/auth-service.ts:171-174`).
- A successful registration authenticates the user just as a login does
  (`src/app/core/services/auth-service.ts:42`).
- The start-up check clears an expired session's storage but does not reset
  the user it loaded from storage (`src/app/core/services/auth-service.ts:155-158`).
- `authGuard` denies on an empty role list, since `[]` is truthy and no role
  matches (`src/app/core/guards/auth-guard.ts:23-25`). `roleGuard` allows on
  one (`src/app/core/guards/role.guard.ts:14-17`).
- The interceptor's exemption tests whether the URL contains `/auth/login` or
  `/auth/register` (`src/app/core/interceptors/auth.interceptor.ts:10`). The
  bare service paths `/users/login` and `/register` contain neither. Whether a
  full request URL does depends on the configured base URL, which is not part
  of this model.

## Model

| member | source | states |
|---|---|---|
| LabelFilter.NormalizeEmptyIffBlank | src/app/shared/components/multi-select/multi-select.ts:133-137 | the lower-cased, trimmed query is empty exactly when the typed query is blank, so a blank query shows every option |
| MultiSelect.FilteredOptions | src/app/shared/components/multi-select/multi-select.ts:133-143 | a blank query keeps all options; otherwise the kept options are exactly those whose lower-cased label contains the trimmed lower-cased query |
| MultiSelect.FilteredKeepsOrder | src/app/shared/components/multi-select/multi-select.ts:133-143 | the search splits over a concatenation of option lists, and one option is kept exactly when the query is blank or its label matches, so the result is the matching options in option order with every copy |
| MultiSelect.SelectedOptions | src/app/shared/components/multi-select/multi-select.ts:150-153 | the options whose value is selected, and only those |
| MultiSelect.SelectedKeepsOrder | src/app/shared/components/multi-select/multi-select.ts:150-153 | the selected options split over a concatenation of option lists, and one option is kept exactly when its value is selected, so they come in option order, not selection order |
| MultiSelect.AvailableOptions | src/app/shared/components/multi-select/multi-select.ts:160-163 | the filtered options whose value is not selected; no selected value appears in it |
| MultiSelect.AvailableKeepsOrder | src/app/shared/components/multi-select/multi-select.ts:160-163 | the offered options split over a concatenation of option lists, and one option is offered exactly when it passes the search and is not selected, so they come in option order |
| MultiSelect.BadgeColor | src/app/shared/components/multi-select/multi-select.ts:382-384 | an option's own non-empty colour wins, otherwise the widget default |
| MultiSelect.WriteValue | src/app/shared/components/multi-select/multi-select.ts:210-216 | an array becomes the selection, anything else an empty selection; nothing else changes |
| MultiSelect.SetDisabledState | src/app/shared/components/multi-select/multi-select.ts:235-237 | only the disabled flag changes |
| MultiSelect.OpenDropdown | src/app/shared/components/multi-select/multi-select.ts:268-275 | ignored while disabled; otherwise open, with an empty query and no highlight |
| MultiSelect.CloseDropdown | src/app/shared/components/multi-select/multi-select.ts:282-288 | closed, empty query, no highlight, then touched and closed are reported |
| MultiSelect.ToggleDropdown | src/app/shared/components/multi-select/multi-select.ts:248-287 | ignored while disabled; an open widget closes with query and highlight reset, reporting touched then closed; a closed one opens with query and highlight reset, reporting opened; nothing else changes |
| MultiSelect.ToggleTwice | src/app/shared/components/multi-select/multi-select.ts:248-287 | toggling an enabled, closed widget twice gives it back with only the search and highlight reset, after reporting opened, touched and closed in that order |
| MultiSelect.ClickOutside | src/app/shared/components/multi-select/multi-select.ts:493-500 | a click outside an open widget closes it; any other click does nothing |
| MultiSelect.OnSearchInput | src/app/shared/components/multi-select/multi-select.ts:362-366 | the query becomes the typed text and the highlight is dropped |
| MultiSelect.UpdateSelection | src/app/shared/components/multi-select/multi-select.ts:478-482 | the selection is replaced and reported to the form and the listeners |
| MultiSelect.SelectOption | src/app/shared/components/multi-select/multi-select.ts:296-317 | refused for a disabled option, at a positive limit, or for a value already selected; otherwise exactly that value is appended |
| MultiSelect.RemoveOption | src/app/shared/components/multi-select/multi-select.ts:325-339 | ignored while disabled; otherwise the value disappears and every other value keeps its count |
| MultiSelect.RemoveKeepsOrder | src/app/shared/components/multi-select/multi-select.ts:325-339 | removal distributes over concatenation, so the kept values stay in order |
| MultiSelect.ClearAll | src/app/shared/components/multi-select/multi-select.ts:346-355 | ignored while disabled; otherwise the selection becomes empty |
| MultiSelect.NavigateDown | src/app/shared/components/multi-select/multi-select.ts:432-441 | moves one down and wraps from the last available option to the first; the highlight stays in range |
| MultiSelect.NavigateUp | src/app/shared/components/multi-select/multi-select.ts:446-455 | moves one up and wraps from the first (or none) to the last; the highlight stays in range |
| MultiSelect.SelectHighlighted | src/app/shared/components/multi-select/multi-select.ts:460-467 | acts only for a highlight inside the available options, selecting that option |
| MultiSelect.OnKeyDown | src/app/shared/components/multi-select/multi-select.ts:395-427 | ignored while disabled; ArrowDown and ArrowUp move the highlight, Enter selects the highlighted option, Escape closes; Backspace on an empty query removes the last selected option in option order and otherwise does nothing; other keys do nothing |
| MultiSelect.SelectPreservesInv | src/app/shared/components/multi-select/multi-select.ts:170-173 | selecting never creates a duplicate and never passes a positive limit |
| MultiSelect.RemovePreservesInv | src/app/shared/components/multi-select/multi-select.ts:325-339 | removing keeps the selection duplicate-free and within the limit |
| MultiSelect.KeyPreservesInv | src/app/shared/components/multi-select/multi-select.ts:395-427 | every key keeps the selection duplicate-free and within the limit |
| MultiSelect.EnterSelectsHighlighted | src/app/shared/components/multi-select/multi-select.ts:460-467 | Enter on a selectable highlighted option appends its value |
| MultiSelect.MaxReachedBlocks | src/app/shared/components/multi-select/multi-select.ts:170-173 | once the limit is reached selecting changes nothing; before it a fresh option is added; a limit of 0 is never reached; under the invariant a positive limit is reached exactly when the selection is full |
| MultiSelect.ZeroMeansUnlimited | src/app/shared/components/multi-select/multi-select.ts:170-173 | a limit of 0 never blocks a selection |
| MultiSelect.BackspaceFollowsOptionOrder | src/app/shared/components/multi-select/multi-select.ts:419-425 | with two options selected in reverse order, Backspace removes the later option in the list, not the one added last |
| SearchSelect.FilteredOptions | src/app/shared/components/search-select/search-select.ts:38-46 | a blank term keeps all options; otherwise the kept options are exactly those whose lower-cased label contains the trimmed lower-cased term |
| SearchSelect.FilteredKeepsOrder | src/app/shared/components/search-select/search-select.ts:38-46 | the search splits over a concatenation of option lists, and one option is kept exactly when the term is blank or its label matches, so the result keeps option order and every copy |
| SearchSelect.FindIndex | src/app/shared/components/search-select/search-select.ts:52 | the index of the first option holding the value, or none when no option holds it |
| SearchSelect.SelectedLabel | src/app/shared/components/search-select/search-select.ts:49-54 | empty with no selection or no matching option; otherwise the label of the first option with that value |
| SearchSelect.WriteValue | src/app/shared/components/search-select/search-select.ts:82-84 | a missing value stores the empty string; nothing else changes |
| SearchSelect.ToggleDropdown | src/app/shared/components/search-select/search-select.ts:99-106 | flips the dropdown and clears the search whenever it ends up closed |
| SearchSelect.CloseDropdown | src/app/shared/components/search-select/search-select.ts:108-114 | a no-op when already closed; otherwise closes, clears the search and reports touched |
| SearchSelect.ClickOrTouchOutside | src/app/shared/components/search-select/search-select.ts:59-77 | a click or touch outside closes the dropdown, one inside does nothing |
| SearchSelect.OnSearchInput | src/app/shared/components/search-select/search-select.ts:124-127 | only the search term changes |
| SearchSelect.SelectOption | src/app/shared/components/search-select/search-select.ts:116-122 | stores and emits the value, then closes the dropdown and clears the search |
| SearchSelect.SelectThenLabel | src/app/shared/components/search-select/search-select.ts:49-54 | after choosing an option, the shown label is that option's label |
| SearchSelect.CloseIdempotent | src/app/shared/components/search-select/search-select.ts:108-114 | closing twice is closing once, and the second close reports nothing |
| CurrencyInput.FormatNat | src/app/shared/components/currency-input/currency-input.ts:40-42 | one space before every three-digit group from the right, no space at either end, and deleting the spaces gives the decimal digits |
| CurrencyInput.FormatInt | src/app/shared/components/currency-input/currency-input.ts:40-42 | dropping the spaces gives the integer's own text; a minus sign leads exactly for a negative number; every other character is a digit or a space, spaces sit every four places from the right, never at either end nor right after the sign |
| CurrencyInput.FormatIntReadsBack | src/app/shared/components/currency-input/currency-input.ts:40-48 | parsing the grouped text of an integer gives its magnitude, since the parser drops the minus sign |
| CurrencyInput.Unformat | src/app/shared/components/currency-input/currency-input.ts:45-48 | a text of digits reads as their base-ten value; a text without digits reads as 0 |
| CurrencyInput.UnformatSkips | src/app/shared/components/currency-input/currency-input.ts:46 | a character that is not a digit is ignored wherever it stands |
| CurrencyInput.UnformatReadsDigits | src/app/shared/components/currency-input/currency-input.ts:45-48 | a text reads as its digits alone, in order: the base-ten value of those digits, or 0 when there are none |
| CurrencyInput.UnformatFormat | src/app/shared/components/currency-input/currency-input.ts:40-48 | reading a formatted natural gives it back |
| CurrencyInput.UnformatPlain | src/app/shared/components/currency-input/currency-input.ts:45-48 | reading the plain digits of a natural gives it back |
| CurrencyInput.Clamp | src/app/shared/components/currency-input/currency-input.ts:58-64 | the result is at least the minimum, at most the maximum when the bounds are consistent, and an in-range value is unchanged |
| CurrencyInput.ClampIdempotent | src/app/shared/components/currency-input/currency-input.ts:58-64 | with consistent bounds, clamping twice equals clamping once |
| CurrencyInput.OnInput | src/app/shared/components/currency-input/currency-input.ts:50-82 | emits the clamped value; the text shown reads back as that value and is its plain digits while focused and its grouped form otherwise |
| CurrencyInput.OnFocus | src/app/shared/components/currency-input/currency-input.ts:84-88 | a positive value shows as its plain decimal text, which reads back to it; otherwise the box is empty |
| CurrencyInput.OnBlur | src/app/shared/components/currency-input/currency-input.ts:90-98 | leaves focus, reports the control as touched, and shows grouped digits reading back to a positive value; otherwise the box is empty |
| CurrencyInput.WriteValue | src/app/shared/components/currency-input/currency-input.ts:102-105 | a missing value or 0 gives value 0 and an empty box; a positive value is kept and shown as its grouped text, which reads back to it; a negative value is kept with an empty box |
| CurrencyInput.DisplayConsistentAfterEvents | src/app/shared/components/currency-input/currency-input.ts:84-105 | after focus, blur or a write, the box is empty or reads back as the value |
| FileUpload.AcceptedList | src/app/shared/components/file-upload/file-upload.ts:200-202 | one entry per comma-separated piece, trimmed and lower-cased |
| FileUpload.Extension | src/app/shared/components/file-upload/file-upload.ts:204-205 | a dot followed by the text after the name's last dot, with no further dot |
| FileUpload.MimeGroup | src/app/shared/components/file-upload/file-upload.ts:206-215 | the part of the MIME type before its first slash, followed by `/*` |
| FileUpload.DefaultAcceptedList | src/app/shared/components/file-upload/file-upload.ts:20 | the default setting reads as image wildcard, pdf, doc and docx |
| FileUpload.PlainAcceptedList | src/app/shared/components/file-upload/file-upload.ts:200-202 | joining clean lower-case pieces with commas and reading them back gives the pieces |
| FileUpload.ExtensionIsSuffix | src/app/shared/components/file-upload/file-upload.ts:204-205 | the extension is a suffix of the lower-cased name, and is preceded by a dot when the name has one |
| FileUpload.TypeCheckIgnoresCase | src/app/shared/components/file-upload/file-upload.ts:199-219 | files whose names and MIME types differ only in case get the same type verdict |
| FileUpload.GroupWildcardAdmits | src/app/shared/components/file-upload/file-upload.ts:199-219 | a `group/*` entry admits every MIME type of that group |
| FileUpload.SliceFront | src/app/shared/components/file-upload/file-upload.ts:82 | `slice(0, end)`, where a negative end counts from the back |
| FileUpload.Considered | src/app/shared/components/file-upload/file-upload.ts:78-84 | only the first free-slot-count files are considered when more are offered |
| FileUpload.ErrorIsLastRejection | src/app/shared/components/file-upload/file-upload.ts:89-99 | the last rejected file in the batch decides the error message |
| FileUpload.NoRejectionKeepsStart | src/app/shared/components/file-upload/file-upload.ts:75-84 | a batch without rejection keeps the message set at its start (none, or too many files) |
| FileUpload.HandleFiles | src/app/shared/components/file-upload/file-upload.ts:74-135 | admitted files are appended in order after the existing ones, with fresh ids and marked uploading; the error is that of the last rejection; the selection is reported and the widget flagged as uploading only when something was admitted; ids stay unique and the count stays within the limit |
| FileUpload.Examine | src/app/shared/components/file-upload/file-upload.ts:92-101 | one loop step: an admissible file is kept and the message untouched; any other file is dropped and leaves the size message when too large, else the type message |
| FileUpload.AppendAdmitted | src/app/shared/components/file-upload/file-upload.ts:124-126 | appending the admitted batch adds only admissible files, keeps ids unique and keeps the count within `maxFiles` when it was before |
| FileUpload.InitialHasDefaultLimits | src/app/shared/components/file-upload/file-upload.ts:20-22 | a new uploader has the default type list and size limit |
| FileUpload.DefaultAdmitsImages | src/app/shared/components/file-upload/file-upload.ts:20-21 | with the defaults, every image within 5 MB is admitted |
| FileUpload.DefaultAdmitsDocuments | src/app/shared/components/file-upload/file-upload.ts:20-21 | with the defaults, every pdf, doc or docx within 5 MB is admitted |
| FileUpload.DefaultRefusesOthers | src/app/shared/components/file-upload/file-upload.ts:98-100 | with the defaults, a file of another group and extension is refused as a type not allowed |
| FileUpload.ExtensionIgnoresCase | src/app/shared/components/file-upload/file-upload.ts:204-205 | the extension does not depend on the name's case |
| FileUpload.AddKeepsUnique | src/app/shared/components/file-upload/file-upload.ts:102-125 | appending entries numbered from the next id keeps ids unique |
| FileUpload.OverLimitStillExamines | src/app/shared/components/file-upload/file-upload.ts:78-84 | when more files are present than allowed, the negative slice end still lets files through |
| FileUpload.AdmissionWithinLimit | src/app/shared/components/file-upload/file-upload.ts:78-84 | a batch never admits more files than there are free slots |
| FileUpload.SizeBoundary | src/app/shared/components/file-upload/file-upload.ts:92-95 | a file of exactly the maximum size is admitted, one byte more is rejected as too large |
| FileUpload.RemoveFile | src/app/shared/components/file-upload/file-upload.ts:158-161 | the entries kept are exactly those with another id; the removed file is reported |
| FileUpload.RemoveKeepsUnique | src/app/shared/components/file-upload/file-upload.ts:158-161 | removal keeps ids unique and never grows the list |
| FileUpload.CanAddMoreMeansRoom | src/app/shared/components/file-upload/file-upload.ts:36 | `canAddMore` holds exactly when a slot is free; with no slot free a batch is not examined, with one free its first file is |
| FileUpload.RemovalFreesSlot | src/app/shared/components/file-upload/file-upload.ts:35 | `hasFiles` is false after clearing and after removing the only entry; removing an entry frees exactly one slot |
| FileUpload.RemoveCutsOne | src/app/shared/components/file-upload/file-upload.ts:158-161 | with unique ids, removing an entry cuts exactly it out and keeps the rest in order |
| FileUpload.ClearAll | src/app/shared/components/file-upload/file-upload.ts:163-166 | no files and no error remain; the limits are unchanged |
| FileUpload.FileIcon | src/app/shared/components/file-upload/file-upload.ts:168-178 | an image MIME type wins over the extension; then pdf, word, excel, archive, generic |
| FileUpload.IconColorAgree | src/app/shared/components/file-upload/file-upload.ts:168-189 | each icon goes with its colour and each colour with its icons |
| Toasts.Show | src/app/shared/components/toast/toast.service.ts:17-26 | appends exactly one toast and keeps the rest; a positive duration schedules its removal, any other keeps it |
| Toasts.ShowSuccess | src/app/shared/components/toast/toast.service.ts:28-30 | appends one success toast with the given duration or 3000 ms and keeps the rest; an omitted duration schedules removal after 3000 ms, a positive one after that time, any other never |
| Toasts.ShowError | src/app/shared/components/toast/toast.service.ts:32-34 | appends one error toast with the given duration or 3000 ms and keeps the rest; an omitted duration schedules removal after 3000 ms, a positive one after that time, any other never |
| Toasts.ShowWarning | src/app/shared/components/toast/toast.service.ts:36-38 | appends one warning toast with the given duration or 3000 ms and keeps the rest; an omitted duration schedules removal after 3000 ms, a positive one after that time, any other never |
| Toasts.ShowInfo | src/app/shared/components/toast/toast.service.ts:40-42 | appends one info toast with the given duration or 3000 ms and keeps the rest; an omitted duration schedules removal after 3000 ms, a positive one after that time, any other never |
| Toasts.Remove | src/app/shared/components/toast/toast.service.ts:44-46 | no toast with that id remains, every other toast keeps its count, and an unknown id changes nothing |
| Toasts.RemoveKeepsOrder | src/app/shared/components/toast/toast.service.ts:44-46 | removal distributes over concatenation, so the kept toasts stay in order |
| Toasts.ShowThenRemove | src/app/shared/components/toast/toast.service.ts:17-26 | the scheduled removal of a toast with a fresh id restores the queue |
| MinFiles.Validate | src/app/shared/validators/min-files.validator.ts:3-15 | no value passes; a list at least as long as the minimum passes; a shorter one fails with the minimum and the actual length |
| MinFiles.MessageNamesMin | src/app/shared/validators/min-files.validator.ts:10 | the message contains the minimum in decimal |
| MinFiles.EmptyListFails | src/app/shared/validators/min-files.validator.ts:5 | an empty list fails a positive minimum |
| Session.Entry | src/app/core/services/auth-service.ts:123-124 | a stored entry counts only when present and non-empty |
| Session.ClearStorage | src/app/core/services/auth-service.ts:253-258 | the three session keys are gone and every other key is kept |
| Session.GetToken | src/app/core/services/auth-service.ts:121-133 | no token gives none; a token that does not decrypt gives none and wipes the three keys; a token that decrypts to non-empty text is returned, and to empty text gives none; storage is kept unless the decryption fails |
| Session.IsTokenExpired | src/app/core/services/auth-service.ts:165-180 | expired without a readable token or payload; otherwise expired exactly when `exp` is before now |
| Session.IsLoggedIn | src/app/core/services/auth-service.ts:114-116 | false without a stored token; otherwise the negation of expiry |
| Session.LoggedInMeans | src/app/core/services/auth-service.ts:114-116 | logged in exactly when a token is stored, decrypts, decodes and is not past its expiry |
| Session.ExpiryIsStrict | src/app/core/services/auth-service.ts:174 | a token expiring at the current second is still valid |
| Session.UndecryptableToken | src/app/core/services/auth-service.ts:127-131 | an undecryptable token reads as absent, counts as expired and wipes the session keys |
| Session.StoreField | src/app/core/services/auth-service.ts:95-101 | a truthy field that encrypts is stored under its key; otherwise the slot is as before; no other key changes |
| Session.StoreEncrypted | src/app/core/services/auth-service.ts:185-194 | stores the encrypted text under the key, or leaves storage alone when encryption fails |
| Session.Logout | src/app/core/services/auth-service.ts:82-89 | the three keys are gone, no current user, not authenticated, navigation to the sign-in page |
| Session.LogoutForgets | src/app/core/services/auth-service.ts:82-89 | after logout there is no token and the visitor is not logged in |
| Session.HandleAuthSuccess | src/app/core/services/auth-service.ts:94-109 | authenticated afterwards; a truthy token or refresh token that encrypts is stored encrypted under its key, a present user is stored serialised and becomes current; a missing or falsy field leaves its slot exactly as it was; other keys are untouched |
| Session.Authenticate | src/app/core/services/auth-service.ts:35-77 | a successful login or registration answer is handled; any other answer changes nothing |
| Session.LoginThenRead | src/app/core/services/auth-service.ts:94-133 | after a successful login the stored token, refresh token and user read back as the ones given and the user is current |
| Session.AuthenticatedWithoutToken | src/app/core/services/auth-service.ts:94-109 | a success answer without a token still marks the session authenticated while no token is stored |
| Session.GetUserFromStorage | src/app/core/services/auth-service.ts:222-233 | no entry gives no user; otherwise the decoded user |
| Session.GetRefreshToken | src/app/core/services/auth-service.ts:238-248 | no entry gives none; otherwise the decrypted refresh token |
| Session.CheckAuthStatus | src/app/core/services/auth-service.ts:145-160 | authenticated exactly when a token reads back, a stored user reads back and the token is unexpired, and then that user is current; otherwise the keys are wiped and the flag is false |
| Session.Start | src/app/core/services/auth-service.ts:23-30 | after start-up the session is authenticated exactly when the stored token decrypts and is unexpired and the stored user reads back, and then it has a current user and a live token |
| Session.StartRestoresSession | src/app/core/services/auth-service.ts:151-154 | a stored, decryptable, unexpired token with a readable stored user starts authenticated with that user and storage untouched |
| Session.HasTokenIsRawEntry | src/app/core/services/auth-service.ts:309-312 | `hasToken` is the truthiness of the raw entry: it holds whenever a token reads back and also for an entry that does not decrypt |
| Session.StartKeepsStaleUser | src/app/core/services/auth-service.ts:145-160 | an expired session starts unauthenticated but keeps the user loaded from storage |
| Session.RefreshToken | src/app/core/services/auth-service.ts:263-284 | no refresh token fails without change; a successful answer with a token that encrypts replaces only the access token; any other answer changes nothing; a request error logs out |
| Session.RefreshThenRead | src/app/core/services/auth-service.ts:263-284 | after a successful refresh the stored token reads back as the new one |
| Guards.AuthGuard | src/app/core/guards/auth-guard.ts:8-59 | allows exactly a live token with, when the route lists roles, a matching role; otherwise sends to the sign-in page with the return URL, or to the unauthorized page |
| Guards.RoleGuard | src/app/core/guards/role.guard.ts:8-43 | no roles allow at once; no user goes to the sign-in page; otherwise allowed exactly when the role matches ignoring case |
| Guards.GuestGuard | src/app/core/guards/guest.guard.ts:9-24 | allows exactly the visitors who are not logged in, and redirects to the dashboard exactly when it denies |
| Guards.AuthAndGuestComplementary | src/app/core/guards/guest.guard.ts:15 | on a route without roles exactly one of the auth guard and the guest guard admits |
| Guards.EmptyRolesDisagree | src/app/core/guards/auth-guard.ts:22-24 | an empty role list denies in the auth guard and allows in the role guard |
| Guards.EmptyRoleDisagrees | src/app/core/guards/auth-guard.ts:51-53 | an empty-string role fails the auth guard's check but passes the role guard when listed |
| Guards.RoleCheckIgnoresCase | src/app/core/guards/role.guard.ts:27-30 | roles equal up to case are accepted alike |
| Guards.RoleGuardIgnoresTokens | src/app/core/guards/role.guard.ts:8-43 | the role guard's answer depends only on the current user and the roles |
| Guards.Intercept | src/app/core/interceptors/auth.interceptor.ts:5-25 | exempt requests and requests without a token pass unchanged; others get a bearer header and nothing else changes |
| Guards.SessionPathsNotExempt | src/app/core/interceptors/auth.interceptor.ts:10 | the bare service paths `/users/login` and `/register` are not exempt |
| Guards.ExemptRequestStillWipes | src/app/core/interceptors/auth.interceptor.ts:7-12 | an exempt request still reads the token, so an undecryptable one wipes the session |
| VerifyEmail.Init | src/app/features/portail/verify-email/verify-email.ts:45-52 | a missing token is an error with no server call; otherwise the token is sent for verification |
| VerifyEmail.HandleSuccess | src/app/features/portail/verify-email/verify-email.ts:74-85 | success, with the server message and the returned email or empty |
| VerifyEmail.HandleErrorResponse | src/app/features/portail/verify-email/verify-email.ts:95-124 | an expired token is the only way to the expired view, which pre-fills both addresses; every other code is an error with its own message |
| VerifyEmail.HandleError | src/app/features/portail/verify-email/verify-email.ts:126-130 | status error with the given message, nothing else changes |
| VerifyEmail.OnVerifyResult | src/app/features/portail/verify-email/verify-email.ts:58-72 | a successful answer is handled as `handleSuccess` does, with its message and email; an unsuccessful one leaves the page loading; an error with details is classified as `handleErrorResponse` does; one without details leaves the page as it was |
| VerifyEmail.EmailShapeMatchesPattern | src/app/features/portail/verify-email/verify-email.ts:150-152 | the character scan accepts exactly the texts of the form part, `@`, part, dot, part with no whitespace or `@` in the parts |
| VerifyEmail.ValidateEmail | src/app/features/portail/verify-email/verify-email.ts:142-157 | an empty address clears the error; otherwise the error is set exactly when the pattern fails |
| VerifyEmail.Resend | src/app/features/portail/verify-email/verify-email.ts:164-171 | nothing happens with an empty address, a resend in flight or an address error; otherwise a resend starts |
| VerifyEmail.OnResendResult | src/app/features/portail/verify-email/verify-email.ts:173-188 | either outcome clears the in-flight flag |
| VerifyEmail.ResendNotStuck | src/app/features/portail/verify-email/verify-email.ts:164-188 | a started resend always ends with the flag cleared |
| VerifyEmail.MalformedAddressBlocksResend | src/app/features/portail/verify-email/verify-email.ts:142-172 | a validated malformed address never triggers a resend |
| VerifyEmail.Retry | src/app/features/portail/verify-email/verify-email.ts:194-200 | only a present token restarts verification, back to loading |
| VerifyEmail.GoToLogin | src/app/features/portail/verify-email/verify-email.ts:87-93 | the activated flag is passed exactly when the status is success |
| VerifyEmail.MissingTokenIsFinal | src/app/features/portail/verify-email/verify-email.ts:45-52 | without a token no verification call is ever made, even on retry |
| VerifyEmail.ActivatedOnlyAfterSuccess | src/app/features/portail/verify-email/verify-email.ts:58-93 | the activated flag reaches the sign-in page only after a successful answer or an already-successful page |
| Listing.Build | src/app/core/services/annonce-service.ts:22-48 | twelve named text fields in order, then one file part per media |
| Listing.BuildThenDecode | src/app/core/services/annonce-service.ts:22-48 | with a faithful JSON encoder, reading the body back gives the listing, with missing lists read as empty |
| Listing.BuildInjective | src/app/core/services/annonce-service.ts:22-48 | different listings (up to missing lists) give different bodies |
| Listing.ScalarsFirst | src/app/core/services/annonce-service.ts:23-27 | title, description, statut, type and surface read back under their names |
| Listing.MissingEquipmentIsEmptyList | src/app/core/services/annonce-service.ts:35-36 | a missing equipment list is sent as the JSON of the empty list |
| Listing.MediasInOrder | src/app/core/services/annonce-service.ts:38-48 | the files under `medias` are the listing's medias in order, and the body has 12 entries plus one per file |
| Listing.MediasRoundTrip | src/app/core/services/annonce-service.ts:40-45 | each file part carries its file under its own name and reads back as it |

## Left out

- HTTP, the router and RxJS: server answers are inputs, navigations and calls are outputs, and each observable chain becomes one step per outcome.
- CryptoJS encryption, JSON (de)serialisation of the user, `atob` token decoding and `Date.now()`: passed in as functions and a `now` argument, since they are library code.
- `JSON.stringify` in the listing body: an encoder parameter with a decoder, since only its round trip matters.
- Listing.BuildThenDecode: promised only for listings whose JSON parts repeat no key within an object (`WellFormed`), because parsing keeps only the last of repeated keys and such a value cannot round-trip.
- Listing.BuildInjective: stated for well-formed listings only, for the same reason.
- Guards.SessionPathsNotExempt: covers the bare paths only; the full request URL has the environment's base URL in front, which is configuration and is not modelled.
- FormData's string conversion of the five text fields: the model takes them as text already.
- The timed part of `simulateUpload` (progress steps, the success status, clearing `isUploading`, `uploadComplete`), FileReader previews, `uploadProgress` and `formatBytes` in the file upload: timers, randomness and floating point. The part that runs before `handleFiles` returns is modelled.
- File drag and drop handlers: they only pass the file list to the admission step, which is modelled.
- Cursor restoration in the currency input: timer and DOM code.
- CurrencyInput.Unformat: reads any number of digits as an exact natural; `parseInt` loses precision past 2^53.
- Text.ToLower: lower-cases ASCII and Latin-1 letters only, not the full Unicode case table.
- Header-name case in the interceptor: header names are compared exactly.
- `debugEncryptedData`, `goToHome`, the redirect timers and `ngOnDestroy`: logging, timers and cleanup with no decision in them.
- `selectionCountText`, `isSelected` and `trackByValue` in the multi-select: display text and a membership test covered by `SelectedOptions`.
- The district table, the layouts, the pages that only call these services, the SweetAlert, TinyMCE and flatpickr wrappers, the spinners and the route table: static data and presentation.
