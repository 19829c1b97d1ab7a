/**
 * The Legal module's listener on the Users module's events: the login veto,
 * the profile-edit handler that sets or revokes acceptances, and the two UI
 * hooks that show the policies on a profile and add them to its edit form.
 */
module UsersUiListener {
  import opened Php
  import opened Policies
  import opened Sessions

  /** UsersConstant::USER_ID_ADMIN: this uid and every lower one are exempt from the veto. */
  const UserIdAdmin := 2
  /** LegalConstant::FORCE_POLICY_ACCEPTANCE_SESSION_UID_KEY */
  const ForceAcceptanceUidKey := "Legal_forcePolicyAcceptanceUid"
  /** The event argument a vetoed login is redirected to. */
  const ReturnUrlArgument := "returnUrl"
  /** The edit form's single consent checkbox. */
  const ConsentField := "acceptedpolicies_policies"

  /** A user entity whose attributes the handlers read and change in place. */
  class UserEntity {
    const uid: int
    var attributes: map<string, string>

    constructor (uid: int, attributes: map<string, string>)
      ensures this.uid == uid && this.attributes == attributes
    {
      this.uid := uid;
      this.attributes := attributes;
    }

    method SetAttribute(name: string, value: string)
      modifies this
      ensures attributes == old(attributes)[name := value]
    {
      attributes := attributes[name := value];
    }

    method DelAttribute(name: string)
      modifies this
      ensures attributes == old(attributes) - {name}
    {
      attributes := attributes - {name};
    }
  }

  /** The login-veto event: its subject, whether propagation was stopped, and its arguments. */
  class LoginVetoEvent {
    const subject: UserEntity?
    var propagationStopped: bool
    var arguments: map<string, string>

    constructor (subject: UserEntity?, arguments: map<string, string>)
      ensures this.subject == subject && !propagationStopped && this.arguments == arguments
    {
      this.subject := subject;
      propagationStopped := false;
      this.arguments := arguments;
    }
  }

  /** The user as the veto reads it: uid and attributes. */
  datatype UserView = UserView(uid: int, attributes: map<string, string>)

  function ViewOf(user: UserEntity?): Option<UserView>
    reads user
  {
    if user == null then None else Some(UserView(user.uid, user.attributes))
  }

  /** The module variable that switches each slot on (for the age policy, the minimum age). */
  function ActiveVar(s: Slot): string {
    match s
    case TermsOfUse => TermsActiveVar
    case PrivacyPolicy => PrivacyActiveVar
    case AgePolicy => MinimumAgeVar
    case CancellationRightPolicy => CancellationRightPolicyActiveVar
    case TradeConditions => TradeConditionsActiveVar
  }

  /**
   * The slots the veto reads as active: a flag counts when it is set and
   * truthy, and the age policy when the minimum age is set and not 0.
   */
  function ActiveFromModuleVars(vars: map<string, Value>): (r: PolicySet)
    ensures r.agePolicy <==> MinimumAgeVar in vars && LooseNotZero(vars[MinimumAgeVar])
    ensures forall s :: s != AgePolicy ==> (r.Get(s) <==> ActiveVar(s) in vars && Truthy(vars[ActiveVar(s)]))
  {
    var termsOfUseActive := Lookup(vars, TermsActiveVar, Bool(false));
    var privacyPolicyActive := Lookup(vars, PrivacyActiveVar, Bool(false));
    var agePolicyActive := if MinimumAgeVar in vars then Bool(LooseNotZero(vars[MinimumAgeVar])) else Int(0);
    var cancellationRightPolicyActive := Lookup(vars, CancellationRightPolicyActiveVar, Bool(false));
    var tradeConditionsActive := Lookup(vars, TradeConditionsActiveVar, Bool(false));
    PolicySet(Truthy(termsOfUseActive), Truthy(privacyPolicyActive), Truthy(agePolicyActive),
              Truthy(cancellationRightPolicyActive), Truthy(tradeConditionsActive))
  }

  /** The slots whose absence of acceptance can block a login. */
  const VetoSlots: set<Slot> := {TermsOfUse, PrivacyPolicy, AgePolicy}

  /** The listener's `$attributeIsEmpty`: the attribute is missing or empty in PHP's sense. */
  function AttributeIsEmpty(attributes: map<string, string>, name: string): (r: bool)
    ensures forall s :: name == AttributeName(s) ==> (r <==> !Recorded(attributes).Get(s))
    ensures name !in attributes ==> r
  {
    if name in attributes then IsEmpty(attributes[name]) else true
  }

  /**
   * The veto decision of `acceptPolicies`: whether the login of `user` is
   * blocked. Trade conditions and the cancellation right are read as accepted
   * whatever the user's attributes say.
   */
  function LoginBlocked(vars: map<string, Value>, user: Option<UserView>): (blocked: bool)
    ensures blocked <==>
      && user.Some? && user.value.uid > UserIdAdmin
      && exists s :: s in VetoSlots && ActiveFromModuleVars(vars).Get(s) && !HasAcceptance(user.value.attributes, s)
  {
    var active := ActiveFromModuleVars(vars);
    if !active.termsOfUse && !active.privacyPolicy && !active.agePolicy && !active.tradeConditions
       && !active.cancellationRightPolicy then
      false
    else if user.None? || user.value.uid <= UserIdAdmin then
      false
    else
      var attributes := user.value.attributes;
      var termsOfUseAccepted := if active.termsOfUse then !AttributeIsEmpty(attributes, AttributeName(TermsOfUse)) else true;
      var privacyPolicyAccepted := if active.privacyPolicy then !AttributeIsEmpty(attributes, AttributeName(PrivacyPolicy)) else true;
      var agePolicyAccepted := if active.agePolicy then !AttributeIsEmpty(attributes, AttributeName(AgePolicy)) else true;
      var tradeConditionsAccepted := true;
      var cancellationRightPolicyAccepted := true;
      assert active.Get(TermsOfUse) == active.termsOfUse && active.Get(PrivacyPolicy) == active.privacyPolicy;
      assert active.Get(AgePolicy) == active.agePolicy;
      !(termsOfUseAccepted && privacyPolicyAccepted && agePolicyAccepted && tradeConditionsAccepted
        && cancellationRightPolicyAccepted)
  }

  /** With every slot switched off nobody is blocked, whatever the user. */
  lemma NoActivePolicyNeverBlocks(vars: map<string, Value>, user: Option<UserView>)
    requires forall s :: !ActiveFromModuleVars(vars).Get(s)
    ensures !LoginBlocked(vars, user)
  {
  }

  /** A missing user, the administrator and the uids below it are never blocked. */
  lemma AdministratorNeverBlocked(vars: map<string, Value>, user: Option<UserView>)
    requires user.None? || user.value.uid <= UserIdAdmin
    ensures !LoginBlocked(vars, user)
  {
  }

  /**
   * The trade-conditions and cancellation-right slots never change the veto:
   * two configurations and two attribute sets that agree on the terms of use,
   * privacy and age slots get the same decision.
   */
  lemma TradeAndCancellationNeverBlock(vars1: map<string, Value>, vars2: map<string, Value>, uid: int,
                                       attributes1: map<string, string>, attributes2: map<string, string>)
    requires forall s :: s in VetoSlots ==> ActiveFromModuleVars(vars1).Get(s) == ActiveFromModuleVars(vars2).Get(s)
    requires forall s :: s in VetoSlots ==> HasAcceptance(attributes1, s) == HasAcceptance(attributes2, s)
    ensures LoginBlocked(vars1, Some(UserView(uid, attributes1))) == LoginBlocked(vars2, Some(UserView(uid, attributes2)))
  {
  }

  /**
   * `acceptPolicies`, the login-veto handler: when the login is blocked, stop
   * the event, send the user to the acceptance route and remember the uid in
   * the session; otherwise change nothing.
   */
  method AcceptPolicies(event: LoginVetoEvent, session: Session, vars: map<string, Value>, acceptRoute: string)
    modifies event, session
    ensures var blocked := LoginBlocked(vars, ViewOf(event.subject));
      && (blocked ==>
          && event.subject != null
          && event.propagationStopped
          && event.arguments == old(event.arguments)[ReturnUrlArgument := acceptRoute]
          && session.entries == old(session.entries)[ForceAcceptanceUidKey := Int(event.subject.uid)])
      && (!blocked ==>
          && event.propagationStopped == old(event.propagationStopped)
          && event.arguments == old(event.arguments)
          && session.entries == old(session.entries))
  {
    var blocked := LoginBlocked(vars, ViewOf(event.subject));
    if !blocked {
      return;
    }
    event.propagationStopped := true;
    event.arguments := event.arguments[ReturnUrlArgument := acceptRoute];
    session.Set(ForceAcceptanceUidKey, Int(event.subject.uid));
  }

  /** The slots the edit handler visits, in its order. */
  const PoliciesToCheck: seq<Slot> := [TermsOfUse, PrivacyPolicy, AgePolicy, TradeConditions, CancellationRightPolicy]

  /** The consent flag of the edit form's data. */
  function Consent(formData: Value): (r: bool)
    ensures r <==> formData.Arr? && ConsentField in formData.entries && Truthy(formData.entries[ConsentField])
  {
    Truthy(Index(formData, ConsentField))
  }

  /** One slot of the edit handler: set the timestamp, or delete the attribute. */
  function EditStep(attributes: map<string, string>, s: Slot, consent: bool, active: PolicySet, now: string)
    : map<string, string>
  {
    if consent && active.Get(s) then attributes[AttributeName(s) := now] else attributes - {AttributeName(s)}
  }

  /** The attributes after the edit handler has visited the slots `ps` in order. */
  function EditAll(attributes: map<string, string>, ps: seq<Slot>, consent: bool, active: PolicySet, now: string)
    : map<string, string>
    decreases |ps|
  {
    if ps == [] then attributes
    else EditStep(EditAll(attributes, ps[..|ps| - 1], consent, active, now), ps[|ps| - 1], consent, active, now)
  }

  function SlotNames(ps: seq<Slot>): set<string> {
    set s | s in ps :: AttributeName(s)
  }

  /**
   * After visiting `ps`, each visited slot's attribute holds `now` when consent
   * is given and the slot is active and is absent otherwise; every other
   * attribute is as it was.
   */
  lemma {:induction false} EditAllEffect(attributes: map<string, string>, ps: seq<Slot>, consent: bool,
                                         active: PolicySet, now: string)
    ensures var r := EditAll(attributes, ps, consent, active, now);
      && (forall s :: s in ps ==> (AttributeName(s) in r <==> consent && active.Get(s)))
      && (forall s :: s in ps && AttributeName(s) in r ==> r[AttributeName(s)] == now)
      && (forall k :: k !in SlotNames(ps) ==> (k in r <==> k in attributes))
      && (forall k :: k !in SlotNames(ps) && k in r ==> r[k] == attributes[k])
    decreases |ps|
  {
    if ps != [] {
      var init, last := ps[..|ps| - 1], ps[|ps| - 1];
      EditAllEffect(attributes, init, consent, active, now);
      assert ps == init + [last];
      forall s | s in init && s != last ensures AttributeName(s) != AttributeName(last) {
        AttributeNameInjective(s, last);
      }
      forall k | k !in SlotNames(ps) ensures k !in SlotNames(init) && k != AttributeName(last) {
        assert last in ps;
      }
    }
  }

  /**
   * `editFormHandler`: when the form carries the Legal block, every one of the
   * five slots gets the shared timestamp if consent is given and the slot is
   * active, and loses its attribute otherwise; without the block nothing
   * changes.
   */
  method EditFormHandler(user: UserEntity, formData: Value, active: PolicySet, now: string)
    modifies user
    ensures !IsSet(formData) ==> user.attributes == old(user.attributes)
    ensures IsSet(formData) ==>
      user.attributes == EditAll(old(user.attributes), PoliciesToCheck, Consent(formData), active, now)
    ensures IsSet(formData) ==> forall s ::
      && (AttributeName(s) in user.attributes <==> Consent(formData) && active.Get(s))
      && (AttributeName(s) in user.attributes ==> user.attributes[AttributeName(s)] == now)
    ensures forall k :: k !in AttributeNames(AllSlots) ==>
      (k in user.attributes <==> k in old(user.attributes))
      && (k in user.attributes ==> user.attributes[k] == old(user.attributes)[k])
  {
    if IsSet(formData) {
      var consent := Consent(formData);
      for i := 0 to |PoliciesToCheck|
        invariant user.attributes == EditAll(old(user.attributes), PoliciesToCheck[..i], consent, active, now)
      {
        var s := PoliciesToCheck[i];
        assert PoliciesToCheck[..i + 1][..i] == PoliciesToCheck[..i];
        if consent && active.Get(s) {
          user.SetAttribute(AttributeName(s), now);
        } else {
          user.DelAttribute(AttributeName(s));
        }
      }
      assert PoliciesToCheck[..|PoliciesToCheck|] == PoliciesToCheck;
      EditAllEffect(old(user.attributes), PoliciesToCheck, consent, active, now);
      EveryPolicyChecked();
    }
  }

  /** The edit handler visits every slot. */
  lemma EveryPolicyChecked()
    ensures forall s :: s in PoliciesToCheck
    ensures SlotNames(PoliciesToCheck) == AttributeNames(AllSlots)
  {
    AllSlotsComplete();
    forall s ensures s in PoliciesToCheck {
      match s
      case TermsOfUse =>
      case PrivacyPolicy =>
      case AgePolicy =>
      case CancellationRightPolicy =>
      case TradeConditions =>
    }
  }

  /** What the profile view shows: the helper's active, viewable and accepted flags. */
  datatype ViewFragment = ViewFragment(active: PolicySet, viewable: PolicySet, accepted: PolicySet)

  /**
   * `uiView`: nothing for a missing or empty user, when no policy is active or
   * when the viewer may see none; otherwise the policies fragment.
   */
  function UiView(active: PolicySet, subject: Value, accepted: PolicySet, viewable: PolicySet): (r: Option<ViewFragment>)
    ensures r.None? <==> !IsSet(subject) || Empty(subject) || (forall s :: !active.Get(s)) || (forall s :: !viewable.Get(s))
    ensures r.Some? ==> r.value == ViewFragment(active, viewable, accepted)
  {
    if !IsSet(subject) || Empty(subject) || active.Count() < 1 then None
    else if viewable.Count() < 1 then None
    else Some(ViewFragment(active, viewable, accepted))
  }

  /** What `amendForm` adds to the edit form. */
  datatype FormAmendment = FormAmendment(uid: Value, uname: Value, userEditAccess: bool, active: PolicySet,
                                         accepted: PolicySet)

  /**
   * `amendForm`: nothing when no policy is active; otherwise the policy form
   * for the edited user, whose uid and user name read as null when empty.
   */
  function AmendForm(active: PolicySet, formData: Value, userEditAccess: bool, accepted: PolicySet)
    : (r: Option<FormAmendment>)
    ensures r.None? <==> forall s :: !active.Get(s)
    ensures r.Some? ==> Empty(Index(formData, "uid")) == (r.value.uid == Null)
    ensures r.Some? && r.value.uid != Null ==> r.value.uid == Index(formData, "uid")
    ensures r.Some? ==> Empty(Index(formData, "uname")) == (r.value.uname == Null)
    ensures r.Some? && r.value.uname != Null ==> r.value.uname == Index(formData, "uname")
    ensures r.Some? ==> r.value.userEditAccess == userEditAccess
    ensures r.Some? ==> r.value.active == active && r.value.accepted == accepted
  {
    if active.Count() < 1 then None
    else
      var uid := if !Empty(Index(formData, "uid")) then Index(formData, "uid") else Null;
      var uname := if !Empty(Index(formData, "uname")) then Index(formData, "uname") else Null;
      Some(FormAmendment(uid, uname, userEditAccess, active, accepted))
  }
}
