/**
 * The user-facing controller of the Legal module: the acceptance form that a
 * vetoed login is redirected to (guards, per-slot field errors, the
 * all-or-nothing write of acceptance timestamps, the `processed` flag and the
 * read-once session stash), the legal-document pages and the index/main
 * redirects.
 */
module UserController {
  import opened Php
  import opened Policies
  import opened Sessions

  /** Session entry in which the login flow stashes the pending login. */
  const StashKey := "Legal_Controller_User_acceptPolicies"
  /** Session entry holding the Users module's own login arguments. */
  const LoginArgsKey := "Users_Controller_User_login"
  const UidField := "acceptedpolicies_uid"

  datatype HttpMethod = Get | Post | OtherMethod(name: string)

  /** The parts of an HTTP request the action reads: its method, POST body and query string. */
  datatype Request = Request(verb: HttpMethod, post: map<string, string>, query: map<string, string>)

  /** `UserUtil::isLoggedIn()` and `UserUtil::getVar('uid')` for the current user. */
  datatype Identity = Identity(loggedIn: bool, uid: Value)

  /** The request's outcome: an exception, a redirect, or the rendered acceptance form. */
  datatype Response =
    | AccessDenied
    | Failure
    | ResumeLogin(loginArgs: Value)
    | RedirectHome
    | AcceptForm(login: bool, policiesUid: Value, fieldErrors: set<Slot>)

  /** `$bag->get($key, false)` on the POST body or the query string. */
  function Param(bag: map<string, string>, key: string): (v: Value)
    ensures key in bag ==> v == Str(bag[key])
    ensures key !in bag ==> Empty(v)
  {
    if key in bag then Str(bag[key]) else Bool(false)
  }

  /** The POST field carrying each slot's checkbox. */
  function FieldName(s: Slot): string {
    match s
    case TermsOfUse => "acceptedpolicies_termsofuse"
    case PrivacyPolicy => "acceptedpolicies_privacypolicy"
    case AgePolicy => "acceptedpolicies_agepolicy"
    case CancellationRightPolicy => "acceptedpolicies_cancellationrightpolicy"
    case TradeConditions => "acceptedpolicies_tradeconditions"
  }

  /** The boxes the submitter checked: a missing field reads as false. */
  function Submitted(post: map<string, string>): (r: PolicySet)
    ensures forall s :: r.Get(s) <==> FieldName(s) in post && !IsEmpty(post[FieldName(s)])
  {
    PolicySet(
      Truthy(Param(post, FieldName(TermsOfUse))), Truthy(Param(post, FieldName(PrivacyPolicy))),
      Truthy(Param(post, FieldName(AgePolicy))), Truthy(Param(post, FieldName(CancellationRightPolicy))),
      Truthy(Param(post, FieldName(TradeConditions))))
  }

  /**
   * The posted uid passes the action's check: set, not empty and numeric. The
   * `isset` test adds nothing, and a posted string passes iff it is a numeric
   * string other than "0" (so "00" passes).
   */
  function ValidUid(v: Value): (r: bool)
    ensures r <==> IsNumeric(v) && !Empty(v)
    ensures v.Str? ==> (r <==> IsNumericString(v.s) && v.s != "0")
    ensures v.Null? || v.Bool? || v.Arr? ==> !r
  {
    IsSet(v) && !Empty(v) && IsNumeric(v)
  }

  /**
   * A POST belongs to the login flow when the session carried a non-empty
   * stash: `isset` and `!empty` together are PHP truthiness.
   */
  function IsLoginStash(stash: Value): (r: bool)
    ensures r <==> Truthy(stash)
    ensures r ==> !stash.Null?
  {
    IsSet(stash) && !Empty(stash)
  }

  /**
   * The stash a login flow must carry: `user_obj`, `authentication_info` and
   * `authentication_method`, each an array. Only an array stash can pass.
   */
  function WellFormedStash(stash: Value): (r: bool)
    ensures r <==> (stash.Arr?
                    && "user_obj" in stash.entries && stash.entries["user_obj"].Arr?
                    && "authentication_info" in stash.entries && stash.entries["authentication_info"].Arr?
                    && "authentication_method" in stash.entries && stash.entries["authentication_method"].Arr?)
  {
    IsSet(Index(stash, "user_obj")) && IsArray(Index(stash, "user_obj"))
    && IsSet(Index(stash, "authentication_info")) && IsArray(Index(stash, "authentication_info"))
    && IsSet(Index(stash, "authentication_method")) && IsArray(Index(stash, "authentication_method"))
  }

  /**
   * Whether the request is part of the login flow: on POST a stash was in
   * the session, on GET the `login` query flag is truthy.
   */
  function IsLoginRequest(request: Request, stash: Value): bool {
    if request.verb == Post then IsLoginStash(stash) else Truthy(Param(request.query, "login"))
  }

  /** The uid the form is shown for: the stashed user's within a login, otherwise the current user's. */
  function FormUid(isLogin: bool, stash: Value, identity: Identity): Value {
    if isLogin then Index(Index(stash, "user_obj"), "uid") else identity.uid
  }

  /** The stash the session held when the request came in. */
  function StashOf(entries: map<string, Value>): Value {
    Lookup(entries, StashKey, Null)
  }

  /** Slots whose acceptance the submission writes: active and checked now. */
  function Writes(active: PolicySet, submitted: PolicySet): (w: set<Slot>)
    ensures forall s :: s in w <==> active.Get(s) && submitted.Get(s)
  {
    AllSlotsComplete();
    set s | s in AllSlots && active.Get(s) && submitted.Get(s)
  }

  /**
   * A slot's `*Processed` value: the result of its write when it is written,
   * otherwise whether it needs nothing (inactive or accepted before).
   */
  predicate SlotProcessed(s: Slot, active: PolicySet, original: PolicySet, submitted: PolicySet, writeOk: bool) {
    if active.Get(s) && submitted.Get(s) then writeOk else !active.Get(s) || original.Get(s)
  }

  /**
   * The users' attribute store behind `UserUtil::setVar`, keyed by uid. A
   * write reaches an existing user and reports whether it did.
   */
  class UserStore {
    var users: map<int, map<string, string>>

    constructor (users: map<int, map<string, string>>)
      ensures this.users == users
    {
      this.users := users;
    }

    method SetVar(name: string, value: string, uid: int) returns (ok: bool)
      modifies this
      ensures ok == (uid in old(users))
      ensures users == if ok then old(users)[uid := old(users)[uid][name := value]] else old(users)
    {
      ok := uid in users;
      if ok {
        users := users[uid := users[uid][name := value]];
      }
    }
  }

  /**
   * The field errors of a submission, built slot by slot: a slot is in error
   * when it is active, was not accepted before and was not checked now.
   */
  method CollectFieldErrors(active: PolicySet, original: PolicySet, submitted: PolicySet)
    returns (fieldErrors: set<Slot>)
    ensures forall s :: s in fieldErrors <==> active.Get(s) && !original.Get(s) && !submitted.Get(s)
  {
    fieldErrors := {};
    ghost var checked: set<Slot> := {};
    fieldErrors := AddFieldError(fieldErrors, checked, TermsOfUse, active, original, submitted);
    checked := checked + {TermsOfUse};
    fieldErrors := AddFieldError(fieldErrors, checked, PrivacyPolicy, active, original, submitted);
    checked := checked + {PrivacyPolicy};
    fieldErrors := AddFieldError(fieldErrors, checked, AgePolicy, active, original, submitted);
    checked := checked + {AgePolicy};
    fieldErrors := AddFieldError(fieldErrors, checked, CancellationRightPolicy, active, original, submitted);
    checked := checked + {CancellationRightPolicy};
    fieldErrors := AddFieldError(fieldErrors, checked, TradeConditions, active, original, submitted);
    checked := checked + {TradeConditions};
    AllSlotsComplete();
  }

  /** One slot's check: record its error when it is active, not accepted before and not checked now. */
  method AddFieldError(fieldErrors: set<Slot>, ghost checked: set<Slot>, s: Slot,
                       active: PolicySet, original: PolicySet, submitted: PolicySet) returns (r: set<Slot>)
    requires s !in checked
    requires forall t :: t in fieldErrors <==> t in checked && active.Get(t) && !original.Get(t) && !submitted.Get(t)
    ensures forall t :: t in r <==> t in checked + {s} && active.Get(t) && !original.Get(t) && !submitted.Get(t)
  {
    r := fieldErrors;
    if active.Get(s) && !original.Get(s) && !submitted.Get(s) {
      r := r + {s};
    }
  }

  /**
   * The store holds `before` with the timestamp `now` written to the
   * acceptance attributes of the slots in `written` for the user `uid`.
   */
  ghost predicate CommittedSoFar(users: map<int, map<string, string>>, before: map<int, map<string, string>>,
                                 uid: int, written: set<Slot>, now: string) {
    if uid in before then users == before[uid := Commit(before[uid], written, now)] else users == before
  }

  /** One slot of the commit: write the timestamp if active and checked, else report whether it needs nothing. */
  method CommitSlot(store: UserStore, uid: int, s: Slot, active: PolicySet, original: PolicySet,
                    submitted: PolicySet, now: string, ghost before: map<int, map<string, string>>,
                    ghost written: set<Slot>) returns (processed: bool)
    requires CommittedSoFar(store.users, before, uid, written, now)
    modifies store
    ensures processed == SlotProcessed(s, active, original, submitted, uid in before)
    ensures CommittedSoFar(store.users, before, uid, written + Writes(active, submitted) * {s}, now)
  {
    if active.Get(s) && submitted.Get(s) {
      processed := store.SetVar(AttributeName(s), now, uid);
      if uid in before {
        CommitExtend(before[uid], written, s, now);
      }
      assert Writes(active, submitted) * {s} == {s};
    } else {
      processed := !active.Get(s) || original.Get(s);
      assert Writes(active, submitted) * {s} == {};
      // Nothing is written, so the committed set stays as it was.
      assert written + {} == written;
    }
  }

  /** Writing one more slot's timestamp extends the committed set by that slot. */
  lemma CommitExtend(attributes: map<string, string>, written: set<Slot>, s: Slot, now: string)
    ensures Commit(attributes, written, now)[AttributeName(s) := now] == Commit(attributes, written + {s}, now)
  {
    assert AttributeNames(written + {s}) == AttributeNames(written) + {AttributeName(s)};
  }

  /**
   * The writes of a submission without field errors, in the source's slot
   * order, all with the same timestamp; `processed` is the conjunction of the
   * five slots' results.
   */
  method CommitAcceptances(store: UserStore, uid: int, active: PolicySet, original: PolicySet,
                           submitted: PolicySet, now: string) returns (processed: bool)
    modifies store
    ensures processed == forall s :: SlotProcessed(s, active, original, submitted, uid in old(store.users))
    ensures uid !in old(store.users) ==> store.users == old(store.users)
    ensures uid in old(store.users) ==>
      store.users == old(store.users)[uid := Commit(old(store.users)[uid], Writes(active, submitted), now)]
  {
    ghost var before := store.users;
    ghost var w := Writes(active, submitted);
    if uid in before {
      CommitNothing(before[uid], now);
    }
    ghost var written: set<Slot> := {};
    var termsOfUseProcessed := CommitSlot(store, uid, TermsOfUse, active, original, submitted, now, before, written);
    written := written + w * {TermsOfUse};
    var privacyPolicyProcessed := CommitSlot(store, uid, PrivacyPolicy, active, original, submitted, now, before, written);
    written := written + w * {PrivacyPolicy};
    var agePolicyProcessed := CommitSlot(store, uid, AgePolicy, active, original, submitted, now, before, written);
    written := written + w * {AgePolicy};
    var cancellationRightPolicyProcessed :=
      CommitSlot(store, uid, CancellationRightPolicy, active, original, submitted, now, before, written);
    written := written + w * {CancellationRightPolicy};
    var tradeConditionsProcessed := CommitSlot(store, uid, TradeConditions, active, original, submitted, now, before, written);
    written := written + w * {TradeConditions};
    processed := termsOfUseProcessed && privacyPolicyProcessed && agePolicyProcessed
      && cancellationRightPolicyProcessed && tradeConditionsProcessed;
    WrittenInSourceOrder(w);
    AllProcessed(active, original, submitted, uid in before, termsOfUseProcessed, privacyPolicyProcessed,
                 agePolicyProcessed, cancellationRightPolicyProcessed, tradeConditionsProcessed);
  }

  /**
   * Going through the slots in the source's order, starting from nothing
   * written, covers every slot that is written.
   */
  lemma WrittenInSourceOrder(w: set<Slot>)
    ensures {} + w * {TermsOfUse} + w * {PrivacyPolicy} + w * {AgePolicy}
            + w * {CancellationRightPolicy} + w * {TradeConditions} == w
  {
    var covered := {} + w * {TermsOfUse} + w * {PrivacyPolicy} + w * {AgePolicy}
                   + w * {CancellationRightPolicy} + w * {TradeConditions};
    forall s ensures s in covered <==> s in w {
      match s
      case TermsOfUse =>
      case PrivacyPolicy =>
      case AgePolicy =>
      case CancellationRightPolicy =>
      case TradeConditions =>
    }
  }

  /** `processed` is the conjunction of the five per-slot results. */
  lemma AllProcessed(active: PolicySet, original: PolicySet, submitted: PolicySet, writeOk: bool,
                     termsOfUse: bool, privacyPolicy: bool, agePolicy: bool, cancellationRightPolicy: bool,
                     tradeConditions: bool)
    requires termsOfUse == SlotProcessed(TermsOfUse, active, original, submitted, writeOk)
    requires privacyPolicy == SlotProcessed(PrivacyPolicy, active, original, submitted, writeOk)
    requires agePolicy == SlotProcessed(AgePolicy, active, original, submitted, writeOk)
    requires cancellationRightPolicy == SlotProcessed(CancellationRightPolicy, active, original, submitted, writeOk)
    requires tradeConditions == SlotProcessed(TradeConditions, active, original, submitted, writeOk)
    ensures (termsOfUse && privacyPolicy && agePolicy && cancellationRightPolicy && tradeConditions)
        == forall s :: SlotProcessed(s, active, original, submitted, writeOk)
  {
    AllSlotsComplete();
  }

  /**
   * Without field errors every slot that is not written is inactive or was
   * accepted before, so `processed` holds exactly when the writes succeed or
   * there are none.
   */
  lemma ProcessedIffWritesSucceed(active: PolicySet, original: PolicySet, submitted: PolicySet, writeOk: bool)
    requires forall s :: !(active.Get(s) && !original.Get(s) && !submitted.Get(s))
    ensures (forall s :: SlotProcessed(s, active, original, submitted, writeOk))
        <==> writeOk || Writes(active, submitted) == {}
  {
    if !writeOk && Writes(active, submitted) != {} {
      var s :| s in Writes(active, submitted);
      assert !SlotProcessed(s, active, original, submitted, writeOk);
    }
  }

  /**
   * The reconciliation of a POSTed submission (after its guards): field
   * errors first, then the writes only when there are none.
   */
  method Reconcile(store: UserStore, uid: int, active: PolicySet, original: PolicySet,
                   submitted: PolicySet, now: string) returns (fieldErrors: set<Slot>, processed: bool)
    modifies store
    ensures forall s :: s in fieldErrors <==> active.Get(s) && !original.Get(s) && !submitted.Get(s)
    ensures fieldErrors != {} ==> !processed && store.users == old(store.users)
    ensures fieldErrors == {} && uid in old(store.users) ==>
      store.users == old(store.users)[uid := Commit(old(store.users)[uid], Writes(active, submitted), now)]
    ensures fieldErrors == {} && uid !in old(store.users) ==> store.users == old(store.users)
    ensures processed <==> fieldErrors == {} && (uid in old(store.users) || Writes(active, submitted) == {})
  {
    fieldErrors := CollectFieldErrors(active, original, submitted);
    processed := false;
    if fieldErrors == {} {
      processed := CommitAcceptances(store, uid, active, original, submitted, now);
      ProcessedIffWritesSucceed(active, original, submitted, uid in old(store.users));
    }
  }

  /**
   * A POST that completes: it passes the login-state guards, names a valid
   * uid, leaves no field error, and its writes reach an existing user or
   * there is nothing to write.
   */
  predicate SubmissionSucceeds(request: Request, stash: Value, identity: Identity, active: PolicySet,
                               original: PolicySet, users: map<int, map<string, string>>) {
    && request.verb == Post
    && IsLoginStash(stash) != identity.loggedIn
    && ValidUid(Param(request.post, UidField))
    && (forall s :: !(active.Get(s) && !original.Get(s) && !Submitted(request.post).Get(s)))
    && (IntValue(Param(request.post, UidField)) in users || Writes(active, Submitted(request.post)) == {})
  }

  /**
   * The store after the action: a completing submission commits the active
   * checked slots for the posted uid with the timestamp `now` (nothing
   * happens for a uid the store does not know); any other request leaves it
   * as it was.
   */
  function StoreAfter(request: Request, stash: Value, identity: Identity, active: PolicySet, original: PolicySet,
                      users: map<int, map<string, string>>, now: string): map<int, map<string, string>> {
    if SubmissionSucceeds(request, stash, identity, active, original, users)
       && IntValue(Param(request.post, UidField)) in users
    then
      var uid := IntValue(Param(request.post, UidField));
      users[uid := Commit(users[uid], Writes(active, Submitted(request.post)), now)]
    else users
  }

  /** The Users module's login arguments saved in the session, or an empty array when there are none. */
  function SavedLoginArguments(entries: map<string, Value>): Value {
    Lookup(entries, LoginArgsKey, Arr(map[]))
  }

  /**
   * The Users module's login arguments with the stashed authentication method,
   * authentication info and remember-me flag put back in.
   */
  function LoginArguments(saved: Value, stash: Value): (r: Value)
    ensures r.Arr? && "authentication_method" in r.entries && "authentication_info" in r.entries && "rememberme" in r.entries
    ensures r.entries["authentication_method"] == Index(stash, "authentication_method")
    ensures r.entries["authentication_info"] == Index(stash, "authentication_info")
    ensures r.entries["rememberme"] == Index(stash, "rememberme")
    ensures forall k :: (k in r.entries && k != "authentication_method" && k != "authentication_info" && k != "rememberme"
                         ==> saved.Arr? && k in saved.entries && r.entries[k] == saved.entries[k])
    ensures saved.Arr? ==>
      forall k :: (k in saved.entries && k != "authentication_method" && k != "authentication_info" && k != "rememberme")
                  ==> k in r.entries && r.entries[k] == saved.entries[k]
  {
    var base := if saved.Arr? then saved.entries else map[];
    Arr(base["authentication_method" := Index(stash, "authentication_method")]
             ["authentication_info" := Index(stash, "authentication_info")]
             ["rememberme" := Index(stash, "rememberme")])
  }

  /**
   * `acceptPoliciesAction`. `active` and `original` are what the helper's
   * getActivePolicies() and getAcceptedPolicies() report for the posted uid,
   * and `now` is the ISO 8601 timestamp of the request.
   */
  method AcceptPoliciesAction(request: Request, session: Session, store: UserStore, identity: Identity,
                              active: PolicySet, original: PolicySet, now: string) returns (response: Response)
    modifies session, store
    // The stash is read once and removed before anything can fail; it is put back only when the form is redisplayed within a login.
    ensures session.entries == if response.AcceptForm? && response.login then old(session.entries)
                               else old(session.entries) - {StashKey}
    ensures response.AcceptForm? && response.login ==> WellFormedStash(StashOf(old(session.entries)))
    // Method guards.
    ensures request.verb.OtherMethod? ==> response == AccessDenied
    ensures request.verb == Post && !IsLoginStash(StashOf(old(session.entries))) && !identity.loggedIn
      ==> response == AccessDenied
    ensures request.verb == Post && IsLoginStash(StashOf(old(session.entries))) && identity.loggedIn
      ==> response == Failure
    ensures request.verb == Post && !ValidUid(Param(request.post, UidField)) ==>
      (response.AccessDenied? || response.Failure?) && store.users == old(store.users)
    ensures (request.verb == Post && IsLoginStash(StashOf(old(session.entries))) != identity.loggedIn
             && !ValidUid(Param(request.post, UidField))) ==> response == Failure
    // The store changes only through a successful submission, which commits every active checked slot.
    ensures store.users != old(store.users) ==> response.ResumeLogin? || response.RedirectHome?
    // A submission succeeds exactly when it passes the guards, has no field error and its writes succeed;
    // it then resumes the login (with the stashed credentials) or goes home.
    ensures response.ResumeLogin? || response.RedirectHome? <==>
      SubmissionSucceeds(request, StashOf(old(session.entries)), identity, active, original, old(store.users))
    ensures SubmissionSucceeds(request, StashOf(old(session.entries)), identity, active, original, old(store.users)) ==>
      response == if IsLoginStash(StashOf(old(session.entries)))
                  then ResumeLogin(LoginArguments(SavedLoginArguments(old(session.entries)), StashOf(old(session.entries))))
                  else RedirectHome
    ensures store.users == StoreAfter(request, StashOf(old(session.entries)), identity, active, original, old(store.users), now)
    // The form is shown for the request's login state and for the uid that state selects.
    ensures response.AcceptForm? ==> response.login == IsLoginRequest(request, StashOf(old(session.entries)))
    ensures response.AcceptForm? ==> response.policiesUid == FormUid(response.login, StashOf(old(session.entries)), identity)
    // A GET, and a POST past its guards that does not complete, end in the form or, when the login
    // stash is malformed or the uid is not truthy, in a failure.
    ensures request.verb == Get ==> response.AcceptForm? || response == Failure
    ensures request.verb == Get && Truthy(Param(request.query, "login")) && !WellFormedStash(StashOf(old(session.entries)))
      ==> response == Failure
    ensures (request.verb == Get || (request.verb == Post && IsLoginStash(StashOf(old(session.entries))) != identity.loggedIn
                                     && ValidUid(Param(request.post, UidField))
                                     && !SubmissionSucceeds(request, StashOf(old(session.entries)), identity, active, original,
                                                            old(store.users))))
      && (IsLoginRequest(request, StashOf(old(session.entries))) ==> WellFormedStash(StashOf(old(session.entries))))
      && Truthy(FormUid(IsLoginRequest(request, StashOf(old(session.entries))), StashOf(old(session.entries)), identity))
      ==> response.AcceptForm?
    ensures request.verb == Post && IsLoginStash(StashOf(old(session.entries))) != identity.loggedIn
      && ValidUid(Param(request.post, UidField)) && !response.AcceptForm?
      ==> response.ResumeLogin? || response.RedirectHome? || response == Failure
    // The redisplayed form carries the submission's field errors, and none on GET.
    ensures response.AcceptForm? && request.verb == Post ==>
      forall s :: s in response.fieldErrors <==> active.Get(s) && !original.Get(s) && !Submitted(request.post).Get(s)
    ensures response.AcceptForm? && request.verb == Get ==> response.fieldErrors == {}
    ensures response.AcceptForm? ==> Truthy(response.policiesUid)
  {
    var sessionVars := session.Get(StashKey, Null);
    session.Remove(StashKey);
    var isLogin: bool;
    var fieldErrors: set<Slot>;
    if request.verb == Post {
      var outcome := Submit(request, session, store, sessionVars, identity, active, original, now);
      if outcome.Done? {
        return outcome.response;
      }
      isLogin := IsLoginStash(sessionVars);
      fieldErrors := outcome.fieldErrors;
    } else if request.verb == Get {
      isLogin := Truthy(Param(request.query, "login"));
      fieldErrors := {};
    } else {
      return AccessDenied;
    }
    response := ShowForm(session, sessionVars, isLogin, identity, fieldErrors);
  }

  /** The POST branch ends the request, or hands the form back to be shown again with these field errors. */
  datatype Submission = Done(response: Response) | Redisplay(fieldErrors: set<Slot>)

  /**
   * The POST branch of `acceptPoliciesAction` once the stash has been taken
   * out of the session: the login-state guards, the uid check, the
   * reconciliation, and the resumed login or the home redirect when it completes.
   */
  method Submit(request: Request, session: Session, store: UserStore, stash: Value, identity: Identity,
                active: PolicySet, original: PolicySet, now: string) returns (outcome: Submission)
    requires request.verb == Post
    modifies store
    ensures !IsLoginStash(stash) && !identity.loggedIn ==> outcome == Done(AccessDenied)
    ensures IsLoginStash(stash) && identity.loggedIn ==> outcome == Done(Failure)
    ensures IsLoginStash(stash) != identity.loggedIn && !ValidUid(Param(request.post, UidField)) ==> outcome == Done(Failure)
    ensures SubmissionSucceeds(request, stash, identity, active, original, old(store.users)) ==>
      outcome == Done(if IsLoginStash(stash) then ResumeLogin(LoginArguments(SavedLoginArguments(session.entries), stash))
                      else RedirectHome)
    ensures outcome.Redisplay? <==>
      && IsLoginStash(stash) != identity.loggedIn
      && ValidUid(Param(request.post, UidField))
      && !SubmissionSucceeds(request, stash, identity, active, original, old(store.users))
    ensures outcome.Redisplay? ==>
      forall s :: s in outcome.fieldErrors <==> active.Get(s) && !original.Get(s) && !Submitted(request.post).Get(s)
    ensures store.users == StoreAfter(request, stash, identity, active, original, old(store.users), now)
  {
    var isLogin := IsLoginStash(stash);
    if !isLogin && !identity.loggedIn {
      return Done(AccessDenied);
    } else if isLogin && identity.loggedIn {
      return Done(Failure);
    }
    var postedUid := Param(request.post, UidField);
    var submitted := Submitted(request.post);
    if !ValidUid(postedUid) {
      return Done(Failure);
    }
    var fieldErrors, processed := Reconcile(store, IntValue(postedUid), active, original, submitted, now);
    if processed {
      if isLogin {
        var loginArgs := session.Get(LoginArgsKey, Arr(map[]));
        return Done(ResumeLogin(LoginArguments(loginArgs, stash)));
      } else {
        return Done(RedirectHome);
      }
    }
    outcome := Redisplay(fieldErrors);
  }

  /**
   * The end of the action on GET and on a POST that did not complete: a login
   * needs a well-formed stash, the uid it selects must be truthy, and the
   * stash is put back in the session before the form is shown within a login.
   */
  method ShowForm(session: Session, stash: Value, isLogin: bool, identity: Identity, fieldErrors: set<Slot>)
    returns (response: Response)
    modifies session
    ensures response == Failure || response == AcceptForm(isLogin, FormUid(isLogin, stash, identity), fieldErrors)
    ensures response.AcceptForm? <==> (isLogin ==> WellFormedStash(stash)) && Truthy(FormUid(isLogin, stash, identity))
    ensures session.entries == if response.AcceptForm? && isLogin then old(session.entries)[StashKey := stash]
                               else old(session.entries)
  {
    if isLogin && !WellFormedStash(stash) {
      return Failure;
    }
    var policiesUid := FormUid(isLogin, stash, identity);
    if !Truthy(policiesUid) || Empty(policiesUid) {
      return Failure;
    }
    if isLogin {
      session.Set(StashKey, stash);
    }
    response := AcceptForm(isLogin, policiesUid, fieldErrors);
  }

  /** What a legal-document page answers. */
  datatype DocumentResponse =
    | Denied
    | NotActive
    | Redirect(url: Value)
    | Inline(template: string, languageCode: string)

  /**
   * `renderDocument`. `permitted` is the permission check's verdict,
   * `activeFlag` and `customUrl` the document's module variables, and
   * `localizedTextExists` whether the text template exists in `languageCode`.
   */
  function RenderDocument(documentName: string, permitted: bool, activeFlag: Value, customUrl: Value,
                          languageCode: string, localizedTextExists: bool): (r: DocumentResponse)
    ensures r.Denied? <==> !permitted
    ensures r.NotActive? <==> permitted && !Truthy(activeFlag)
    ensures r.Redirect? <==> permitted && Truthy(activeFlag) && !Empty(customUrl)
    ensures r.Redirect? ==> r.url == customUrl
    ensures r.Inline? ==> r.template == "User/" + documentName + ".tpl"
    ensures r.Inline? ==> r.languageCode == if localizedTextExists then languageCode else "en"
  {
    if !permitted then Denied
    else if !Truthy(activeFlag) then NotActive
    else if Empty(customUrl) then
      var code := if localizedTextExists then languageCode else "en";
      Inline("User/" + documentName + ".tpl", code)
    else Redirect(customUrl)
  }

  /** An inactive document shows the placeholder whatever its custom URL is. */
  lemma InactiveDocumentIgnoresUrl(documentName: string, activeFlag: Value, url1: Value, url2: Value,
                                   languageCode: string, localizedTextExists: bool)
    requires !Truthy(activeFlag)
    ensures RenderDocument(documentName, true, activeFlag, url1, languageCode, localizedTextExists)
         == RenderDocument(documentName, true, activeFlag, url2, languageCode, localizedTextExists)
         == NotActive
  {
  }

  /** The six legal-document pages. */
  datatype Document = LegalNotice | TermsOfUseDocument | PrivacyPolicyDocument | AccessibilityStatement
                    | CancellationRightPolicyDocument | TradeConditionsDocument

  function DocumentName(d: Document): string {
    match d
    case LegalNotice => "legalnotice"
    case TermsOfUseDocument => "termsofuse"
    case PrivacyPolicyDocument => "privacypolicy"
    case AccessibilityStatement => "accessibilitystatement"
    case CancellationRightPolicyDocument => "cancellationrightpolicy"
    case TradeConditionsDocument => "tradeconditions"
  }

  function ActiveFlagVar(d: Document): string {
    match d
    case LegalNotice => LegalNoticeActiveVar
    case TermsOfUseDocument => TermsActiveVar
    case PrivacyPolicyDocument => PrivacyActiveVar
    case AccessibilityStatement => AccessibilityActiveVar
    case CancellationRightPolicyDocument => CancellationRightPolicyActiveVar
    case TradeConditionsDocument => TradeConditionsActiveVar
  }

  function CustomUrlVar(d: Document): string {
    match d
    case LegalNotice => LegalNoticeUrlVar
    case TermsOfUseDocument => TermsUrlVar
    case PrivacyPolicyDocument => PrivacyUrlVar
    case AccessibilityStatement => AccessibilityUrlVar
    case CancellationRightPolicyDocument => CancellationRightPolicyUrlVar
    case TradeConditionsDocument => TradeConditionsUrlVar
  }

  /** The body of a document page. */
  datatype PageBody =
    | PlaceholderBody
    | DocumentBody(template: string, languageCode: string)
    | RedirectText(location: Value)

  /**
   * What a document page sends: the permission failure, a 200 page with a
   * body, or a redirect to a location.
   */
  datatype PageResponse = Forbidden | Ok(body: PageBody) | Found(location: Value)

  /**
   * `new Response($doc)`: the rendered text becomes the page body. A
   * `RedirectResponse` handed in as `$doc` is turned into its text, so the
   * page is a 200 whose body is the redirect's status line, headers and
   * refresh markup, not a redirect.
   */
  function WrapInResponse(doc: DocumentResponse): (p: PageResponse)
    ensures !p.Found?
    ensures p.Forbidden? <==> doc.Denied?
    ensures doc.Redirect? ==> p == Ok(RedirectText(doc.url))
  {
    match doc
    case Denied => Forbidden
    case NotActive => Ok(PlaceholderBody)
    case Inline(template, languageCode) => Ok(DocumentBody(template, languageCode))
    case Redirect(url) => Ok(RedirectText(url))
  }

  /** The document's `renderDocument` answer from its own module variables. */
  function RenderFromVars(d: Document, permitted: bool, vars: map<string, Value>,
                          languageCode: string, localizedTextExists: bool): DocumentResponse {
    RenderDocument(DocumentName(d), permitted, Lookup(vars, ActiveFlagVar(d), Null),
                   Lookup(vars, CustomUrlVar(d), Str("")), languageCode, localizedTextExists)
  }

  /** The document's custom URL is in force: permitted, active flag set and truthy, URL set and not empty. */
  predicate CustomUrlInForce(d: Document, permitted: bool, vars: map<string, Value>) {
    permitted && ActiveFlagVar(d) in vars && Truthy(vars[ActiveFlagVar(d)])
    && CustomUrlVar(d) in vars && !Empty(vars[CustomUrlVar(d)])
  }

  /**
   * `legalNoticeAction`, `termsofuseAction` and their siblings as written:
   * the document's `renderDocument` answer wrapped in `new Response(...)`.
   * The page never redirects; with a custom URL in force it is a 200 page
   * carrying the redirect's text.
   */
  function DocumentAction(d: Document, permitted: bool, vars: map<string, Value>,
                          languageCode: string, localizedTextExists: bool): (r: PageResponse)
    ensures r.Forbidden? <==> !permitted
    ensures !r.Found?
    ensures r.Ok? && r.body.RedirectText? <==> CustomUrlInForce(d, permitted, vars)
    ensures r.Ok? && r.body.RedirectText? ==> r.body.location == vars[CustomUrlVar(d)]
    ensures r == Ok(PlaceholderBody) <==> permitted && (ActiveFlagVar(d) !in vars || !Truthy(vars[ActiveFlagVar(d)]))
    ensures r.Ok? && r.body.DocumentBody? ==> r.body.template == "User/" + DocumentName(d) + ".tpl"
  {
    WrapInResponse(RenderFromVars(d, permitted, vars, languageCode, localizedTextExists))
  }

  /**
   * The document pages as their documentation describes them: the custom
   * URL redirects, and every other answer is the rendered page.
   */
  function IntendedDocumentAction(d: Document, permitted: bool, vars: map<string, Value>,
                                  languageCode: string, localizedTextExists: bool): (r: PageResponse)
    ensures r.Forbidden? <==> !permitted
    ensures r.Found? <==> CustomUrlInForce(d, permitted, vars)
    ensures r.Found? ==> r.location == vars[CustomUrlVar(d)]
    ensures r.Ok? ==> !r.body.RedirectText?
    ensures r == Ok(PlaceholderBody) <==> permitted && (ActiveFlagVar(d) !in vars || !Truthy(vars[ActiveFlagVar(d)]))
    ensures r.Ok? && r.body.DocumentBody? ==> r.body.template == "User/" + DocumentName(d) + ".tpl"
  {
    var doc := RenderFromVars(d, permitted, vars, languageCode, localizedTextExists);
    if doc.Redirect? then Found(doc.url) else WrapInResponse(doc)
  }

  /**
   * A custom terms-of-use URL makes `renderDocument` answer with a redirect,
   * yet the page as written sends a 200 page carrying the redirect's text,
   * where the intended page redirects.
   */
  lemma CustomUrlPageIsNotRedirect()
    ensures var vars := map[TermsActiveVar := Bool(true), TermsUrlVar := Str("https://example.org/tos")];
      && RenderFromVars(TermsOfUseDocument, true, vars, "de", true) == Redirect(Str("https://example.org/tos"))
      && DocumentAction(TermsOfUseDocument, true, vars, "de", true) == Ok(RedirectText(Str("https://example.org/tos")))
      && IntendedDocumentAction(TermsOfUseDocument, true, vars, "de", true) == Found(Str("https://example.org/tos"))
  {
    var vars := map[TermsActiveVar := Bool(true), TermsUrlVar := Str("https://example.org/tos")];
    assert CustomUrlInForce(TermsOfUseDocument, true, vars);
  }

  /**
   * `indexAction`: redirect to the custom terms-of-use URL when one is set,
   * otherwise to the generated terms-of-use route.
   */
  function IndexAction(vars: map<string, Value>, termsRoute: string): (url: Value)
    ensures TermsUrlVar !in vars || Empty(vars[TermsUrlVar]) ==> url == Str(termsRoute)
    ensures TermsUrlVar in vars && !Empty(vars[TermsUrlVar]) ==> url == vars[TermsUrlVar]
  {
    var url := Lookup(vars, TermsUrlVar, Str(""));
    if Empty(url) then Str(termsRoute) else url
  }

  /** `mainAction`, the legacy entry point: it redirects exactly where the index route does. */
  function MainAction(vars: map<string, Value>, termsRoute: string): (url: Value)
    ensures url == IndexAction(vars, termsRoute)
  {
    var url := Lookup(vars, TermsUrlVar, Str(""));
    if Empty(url) then Str(termsRoute) else url
  }
}
