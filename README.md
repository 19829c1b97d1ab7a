# Legal module: policy-acceptance reconciliation

The Legal module of the Zikula platform makes users accept up to five site policies. The five slots are terms of use, privacy policy, minimum age, cancellation right and trade conditions. Each slot is switched on or off by a module variable; the age slot is on when the minimum age is not 0. A user's acceptance of a slot is a timestamp stored in one user attribute per slot, and it counts when that attribute is present and not empty in PHP's sense.

This project models three decision procedures over those slots:

- **The login veto** (`UsersUiListener.acceptPolicies`). A login is blocked when the terms-of-use, privacy or age slot is active and not accepted. Administrators (uid up to `USER_ID_ADMIN`) are exempt. Trade conditions and the cancellation right are hard-wired to "accepted", so they never block. A blocked login stops the event, gets the accept-policies route as its `returnUrl` and leaves the uid in the session.
- **The acceptance form** (`UserController.acceptPoliciesAction`). It applies the request-method, login-state and uid guards. A slot raises a field error when it is active, was not accepted before and is not checked now. Timestamps are written only when there is no error at all, and the five per-slot results are combined into `processed`. The session stash of the login flow is read once and removed before anything can fail, and it is put back only when the form is shown again within a login.
- **The profile-edit handler** (`UsersUiListener.editFormHandler`). A single consent flag drives all five slots: each slot gets the shared timestamp when consent is given and the slot is active, and loses its attribute otherwise. This is the only path that revokes an acceptance.

It also models the smaller decisions:

- rendering a legal document (placeholder, custom-URL redirect or inline template);
- the index and main redirects;
- the early exits of the profile-view and edit-form hooks.

Files:

- `php.dfy`: the PHP values involved and PHP's `isset`, `empty`, truthiness, `is_array`, `is_numeric`, indexing and loose `!= 0`.
- `policies.dfy`: slots, per-slot flag sets, attribute names and the commit of timestamps.
- `sessions.dfy`: the session.
- `user_controller.dfy`: the controller.
- `users_ui_listener.dfy`: the listener.
- `reconciliation.dfy`: lemmas that relate the procedures to one another.

State the source changes in place is modelled as classes:

- `UserStore.users`: the attribute store behind `UserUtil::setVar`.
- `UserEntity.attributes`: a user's attributes.
- `Session.entries`: the session.
- `LoginVetoEvent`: the veto event.

The methods that change this state say exactly what their new state is. Each one is tied to a pure function (`Commit`, `EditAll`, `LoginBlocked`), and the lemmas about those functions give the promised properties.

External collaborators appear as parameters:

- the `AcceptPoliciesHelper` answers (active, accepted and viewable flags);
- the current time as an ISO 8601 string;
- permission checks;
- the generated route URLs;
- the login state and uid of the current user.

Behaviour of note:

- The profile edit deletes the attribute of every slot it does not set. That includes inactive slots and also applies with consent given; it is not limited to active slots.
- The acceptance form writes a timestamp only for slots that are active and checked.
- The administrator exemption of the veto is `uid <= USER_ID_ADMIN` in the listener itself. A separate exemption inside the helper is not modelled, because the helper is not part of this model.

`Constant.php` of the Legal module and the Users module's constants are not part of this model. The attribute names, module-variable names and the session key in `policies.dfy` and `users_ui_listener.dfy` stand in for those constants. The proofs rely only on the names being distinct. `USER_ID_ADMIN` is taken as 2.

## Model

| member | source | states |
|---|---|---|
| `UserController.CollectFieldErrors` | Controller/UserController.php:293-308 | a slot has a field error iff it is active, was not accepted before and is not checked now |
| `UserController.AddFieldError` | Controller/UserController.php:294-296 | one slot's check adds exactly that slot's error when its condition holds and keeps the errors found so far |
| `UserController.Submitted` | Controller/UserController.php:282-287 | a slot counts as checked iff its POST field is present and not empty in PHP's sense (a missing field reads as false) |
| `UserController.Param` | Controller/UserController.php:281 | a request parameter is its string when present and an empty value (false) when missing |
| `UserController.Writes` | Controller/UserController.php:312-333 | the written slots are exactly the active slots that are checked now |
| `UserController.CommitSlot` | Controller/UserController.php:312-316 | one slot writes the timestamp iff active and checked, and its processed value is the write's result or "inactive or accepted before" |
| `UserController.CommitAcceptances` | Controller/UserController.php:309-337 | the five writes leave the user's attributes equal to the commit of the written slots with one shared timestamp, change no other user, and `processed` is the conjunction of the five slot results |
| `UserController.ProcessedIffWritesSucceed` | Controller/UserController.php:312-337 | with no field errors, `processed` holds iff the writes succeed or there is nothing to write |
| `UserController.AllProcessed` | Controller/UserController.php:337 | the conjunction of the five slot variables equals "every slot is processed" |
| `UserController.WrittenInSourceOrder` | Controller/UserController.php:312-336 | the slot-by-slot order of the writes covers exactly the written set |
| `UserController.Reconcile` | Controller/UserController.php:291-338 | any field error means nothing is written and `processed` is false; otherwise exactly the active checked slots are written with the same timestamp; `processed` iff no errors and the writes succeed |
| `UserController.UserStore.SetVar` | Controller/UserController.php:313 | a write reaches an existing user, changes only that one attribute, and reports success |
| `UserController.LoginArguments` | Controller/UserController.php:341-349 | the resumed login carries the stashed authentication method, info and remember-me flag; every other saved Users-module argument is kept unchanged, and no other key appears |
| `UserController.ValidUid` | Controller/UserController.php:288 | the posted uid passes iff it is numeric and not empty (the `isset` test adds nothing); a posted string passes iff it is a numeric string other than "0", so "00" passes; null, booleans and arrays never pass |
| `UserController.IsLoginStash` | Controller/UserController.php:275 | a POST is a login POST iff the session stash is truthy (`isset` and `!empty` together are truthiness) |
| `UserController.WellFormedStash` | Controller/UserController.php:366-371 | the login stash passes iff it is an array whose `user_obj`, `authentication_info` and `authentication_method` entries are present and are arrays |
| `UserController.Submit` | Controller/UserController.php:273-357 | a non-login anonymous POST is denied and a logged-in login POST fails; past those guards an invalid uid fails; a submission that passes the guards, has a valid uid and no field error, and whose writes reach an existing user (or has nothing to write) resumes the login with the stashed credentials or redirects home; otherwise the form comes back with exactly the submission's field errors; the new store is exactly the old one with the active checked slots committed for the posted uid, with one timestamp, when the submission completes and the uid exists, and the old store otherwise |
| `UserController.ShowForm` | Controller/UserController.php:364-402 | the form is shown iff a login has a well-formed stash and the selected uid is truthy, otherwise the request fails; the stash goes back into the session exactly when the form is shown within a login |
| `UserController.AcceptPoliciesAction` | Controller/UserController.php:259-403 | the stash is read once and restored only when the form is shown within a login; other methods are denied; a non-login anonymous POST is denied and a logged-in login POST fails; past those guards an invalid uid fails and never writes; a POST completes (resumed login with the stashed credentials, or home) iff it passes the guards, has a valid uid and no field error, and its writes succeed; the new store is exactly the commit of the active checked slots for the posted uid when it completes and the uid exists, and the old store otherwise; a POST past the guards with a valid uid that does not show the form completes or fails; the form's `login` flag is the stash on POST and the `login` query flag on GET; its uid is the stashed `user_obj` uid within a login and the current user's otherwise, and is truthy; GET and non-completing POSTs past the guards show the form exactly when the login stash is well-formed and that uid is truthy, and fail otherwise; the form carries the submission's field errors, and none on GET |
| `UserController.RenderDocument` | Controller/UserController.php:102-128 | permission check first; inactive gives the placeholder; active with a non-empty custom URL redirects to exactly that URL; otherwise the inline template in the current language, or English when the localized text is missing |
| `UserController.InactiveDocumentIgnoresUrl` | Controller/UserController.php:108-109 | an inactive document shows the placeholder whatever its custom URL |
| `UserController.WrapInResponse` | Controller/UserController.php:141-143 | `new Response($doc)` never redirects: a permission failure stays a failure, and a redirect answer becomes a 200 page whose body is the redirect's text for the same URL |
| `UserController.DocumentAction` | Controller/UserController.php:139-240 | as written: a page is denied iff permission is missing; it shows the placeholder iff permitted and its own active flag is missing or falsy; it never redirects, and its body is the redirect's text iff permitted, its flag is set and truthy and its own custom URL is set and non-empty, for exactly that URL; otherwise it shows its own template |
| `UserController.IntendedDocumentAction` | Controller/UserController.php:79-83 | as documented: denied iff permission is missing; redirects iff permitted, the active flag is set and truthy and the custom URL is set and non-empty, and then to exactly that URL; otherwise the placeholder or the document's own template, never the redirect's text |
| `UserController.CustomUrlPageIsNotRedirect` | Controller/UserController.php:120-124 | with terms of use active and a custom URL, `renderDocument` answers with a redirect, the page as written sends a 200 page carrying its text, and the intended page redirects to that URL |
| `UserController.IndexAction` | Controller/UserController.php:69-77 | redirects to the custom terms URL iff it is set and non-empty, otherwise to the generated route |
| `UserController.MainAction` | Controller/UserController.php:50-58 | the legacy entry point redirects exactly where the index route does |
| `UsersUiListener.ActiveFromModuleVars` | Listener/UsersUiListener.php:192-196 | a slot is active iff its flag is set and truthy; the age slot iff the minimum age is set and loosely different from 0; a missing variable means inactive |
| `UsersUiListener.AttributeIsEmpty` | Listener/UsersUiListener.php:208-216 | for a slot's attribute, the listener's emptiness test is exactly "not accepted" as the controller's recorded acceptances read it; a missing attribute is empty |
| `UsersUiListener.Consent` | Listener/UsersUiListener.php:282 | consent is given iff the form data is an array whose `acceptedpolicies_policies` entry is present and truthy |
| `Php.LooseNotZero` | Listener/UsersUiListener.php:194 | null is 0 and an integer differs from 0 iff it is not 0; a string of decimal digits differs from 0 iff one of its digits is not '0'; a non-numeric string equals 0 |
| `UsersUiListener.LoginBlocked` | Listener/UsersUiListener.php:190-225 | blocked iff the user exists, has uid above the admin id, and some slot among terms of use, privacy and age is active with its attribute missing or empty |
| `UsersUiListener.NoActivePolicyNeverBlocks` | Listener/UsersUiListener.php:198-200 | with all five slots inactive no login is blocked |
| `UsersUiListener.AdministratorNeverBlocked` | Listener/UsersUiListener.php:203-206 | a missing user or a uid up to the admin id is never blocked |
| `UsersUiListener.TradeAndCancellationNeverBlock` | Listener/UsersUiListener.php:220-221 | the trade-conditions and cancellation-right configuration and attributes never change the veto |
| `UsersUiListener.AcceptPolicies` | Listener/UsersUiListener.php:190-232 | when blocked, propagation stops, `returnUrl` is the accept-policies route and the session holds the user's uid; otherwise event and session are unchanged |
| `UsersUiListener.EditAllEffect` | Listener/UsersUiListener.php:281-287 | after visiting some slots, each visited slot's attribute is the timestamp iff consent and active and is absent otherwise; every other attribute is unchanged |
| `UsersUiListener.EveryPolicyChecked` | Listener/UsersUiListener.php:271-277 | the handler's list of slots covers all five |
| `UsersUiListener.EditFormHandler` | Listener/UsersUiListener.php:266-290 | without form data nothing changes; with it every slot's attribute is set to the shared timestamp iff consent and active and deleted otherwise, and no other attribute changes |
| `UsersUiListener.UiView` | Listener/UsersUiListener.php:155-177 | nothing is shown iff the user is missing or empty, no policy is active or none is viewable; otherwise the active, viewable and accepted flags |
| `UsersUiListener.AmendForm` | Listener/UsersUiListener.php:237-261 | nothing is added iff no policy is active; otherwise the form for the edited user, whose uid and user name each read as null exactly when empty and are otherwise the form data's, with the edit-permission verdict passed to the form and the helper's active and accepted flags |
| `Policies.PolicySet.Count` | Listener/UsersUiListener.php:158 | `array_sum` of the flags is 0 iff no flag is set and 5 iff all are |
| `Policies.Recorded` | Listener/UsersUiListener.php:208-219 | a slot counts as accepted iff its attribute is present and not empty |
| `Policies.AttributeNameInjective` | Listener/UsersUiListener.php:271-277 | the five slots are stored under five distinct attributes |
| `Policies.CommitEffect` | Controller/UserController.php:310-336 | a commit stores the timestamp under every written slot and changes no other attribute; with a non-empty timestamp it records the written slots and keeps every earlier acceptance (the submission never revokes) |
| `Php.Index` | Controller/UserController.php:366-375 | an index read is set only when the value is an array holding the key, and is then that entry |
| `Reconciliation.SubmissionClearsVeto` | Controller/UserController.php:294-337 | when the helper's active flags are the listener's reading of the module variables and its accepted flags are the user's recorded attributes: a submission without field errors leaves no slot that blocks the next login |
| `Reconciliation.BlockedLoginNeedsConsent` | Listener/UsersUiListener.php:217-228 | when the helper reports the listener's reading of the module variables and the user's recorded attributes: a blocked login always gets a field error from a POST that checks nothing |
| `Reconciliation.ProfileEditAcceptances` | Listener/UsersUiListener.php:281-287 | after a profile edit a slot is accepted iff consent is given and the slot is active |
| `Reconciliation.ProfileEditConsentClearsVeto` | Listener/UsersUiListener.php:282-283 | when the helper's active flags are the listener's reading of the module variables: a profile edit with consent lifts the veto |
| `Reconciliation.ProfileEditRevocationBlocks` | Listener/UsersUiListener.php:284-286 | when the helper's active flags are the listener's reading of the module variables: a profile edit without consent revokes every acceptance, and then an ordinary user is blocked iff terms of use, privacy or age is active |
| `Reconciliation.SubmissionIdempotent` | Controller/UserController.php:310-336 | committing the same slots twice with the same timestamp gives the same attributes as once |
| `Reconciliation.ProfileEditIdempotent` | Listener/UsersUiListener.php:278-287 | repeating a profile edit with the same form and timestamp gives the same attributes as one edit |
| `Reconciliation.TermsOnlyScenario` | Listener/UsersUiListener.php:192-231 | with only terms of use active, a fresh ordinary user is blocked and the administrator is not |

## Findings

| source | as written | input that shows it | evidently intended | confidence | as-written member | corrected member |
|---|---|---|---|---|---|---|
| Controller/UserController.php:139-240 | each document page returns `new Response($doc)`, and on the custom-URL path `$doc` is a `RedirectResponse` that is turned into its text | terms of use active, `termsOfUseUrl` = "https://example.org/tos", permission granted: the page is a 200 whose body is the redirect's text | a redirect to the custom URL, as the `renderDocument` documentation says (lines 79-83) | medium, not executed | `UserController.DocumentAction` (with `UserController.CustomUrlPageIsNotRedirect`) | `UserController.IntendedDocumentAction` |

## Left out

- `AcceptPoliciesHelper` (`getActivePolicies`, `getAcceptedPolicies`, `getViewablePolicies`) is not part of this model. Its answers are parameters of the operations that call it.
- CSRF token check (Controller/UserController.php:274): a framework call that may throw. It is not modelled.
- Field-error message texts and their translations, and the flash-bag message of a vetoed login: text only, with no decision in it.
- Template rendering. The acceptance form's template variables other than `login`, `policiesUid` and `fieldErrors` are not modelled. On GET they are the helper's answers for the form's uid. On POST, `acceptedPolicies` is the submitted checkbox values and `originalAcceptedPolicies` is the helper's answer for the posted uid, which may differ from the form's uid.
- Document pages: the text of a redirect that `new Response(...)` embeds (status line, headers, refresh markup) is represented only by its URL, as `RedirectText`.
- The Users module's login call (`ModUtil::func('Users', 'user', 'login', …)`) and the homepage URL are foreign. They appear as the responses `ResumeLogin` (with its arguments) and `RedirectHome`.
- Router URL generation, `SessionUtil::requireSession` and Doctrine's `flush` are framework I/O. Routes are string parameters; the other two are not modelled.
- `privacyAction` (Controller/UserController.php:173-176) redirects to a generated route unconditionally and makes no decision.
- Session namespaces are folded into the session keys.
- The clock: the timestamp is an opaque string parameter. The lemmas that need it assume it is not empty, which holds for every ISO 8601 timestamp.
- `LegalModuleInstaller.php`: configuration glue. It writes default module variables and makes no decision.
- `Php.IsNumeric`: accepts only optionally signed decimal integers. PHP's `is_numeric` also accepts leading whitespace, fractions and exponents. So a crafted POST whose uid is, for example, " 42" or "4.2" fails in the model (and leaves the store unchanged), while the source goes on to reconciliation and `setVar` with it. The clause of `UserController.AcceptPoliciesAction` and `UserController.Submit` that an invalid uid fails without writing is therefore the model's, not the source's, for such strings.
- `Php.LooseNotZero`: loose `!= 0` as PHP 7 evaluates it, but only optionally signed decimal integer strings are read as numbers; every other string equals 0. PHP 7 also reads fractions ("1.5"), leading whitespace (" 18"), exponents ("1e1") and leading-numeric strings ("12abc") as numbers, so a minimum age written like that makes the age slot active in the source and inactive in the model.
- `UserController.Request`: POST and query parameters are strings. Array-valued fields (`acceptedpolicies_uid[]=…`) are not modelled. In the source such a checkbox field is truthy, and such a uid fails `is_numeric`; the first is like any non-empty string in the model, and the second like any other invalid uid.
- `UserController.UserStore.SetVar`: `UserUtil::setVar` is modelled as writing and returning true exactly when the uid names an existing user. Its other failure cases are not modelled.
- `UserController.LoginArguments`: a saved Users-module login entry that is not an array is treated as an empty array.
