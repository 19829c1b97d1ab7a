/**
 * How the three decision procedures fit together on one user's attributes:
 * a successful acceptance submission lifts the login veto, the profile edit
 * either lifts it or revokes every acceptance, and both writes are
 * idempotent.
 */
module Reconciliation {
  import opened Php
  import opened Policies
  import opened UserController
  import opened UsersUiListener

  /**
   * A submission without field errors, judged against the acceptances the
   * user's attributes record and the slots the module variables switch on,
   * leaves no slot that blocks the login.
   */
  lemma {:induction false} SubmissionClearsVeto(vars: map<string, Value>, uid: int, attributes: map<string, string>,
                                                submitted: PolicySet, now: string)
    requires !IsEmpty(now)
    requires forall s :: !(ActiveFromModuleVars(vars).Get(s) && !Recorded(attributes).Get(s) && !submitted.Get(s))
    ensures !LoginBlocked(vars, Some(UserView(uid,
               Commit(attributes, Writes(ActiveFromModuleVars(vars), submitted), now))))
  {
    var active := ActiveFromModuleVars(vars);
    var w := Writes(active, submitted);
    CommitEffect(attributes, w, now);
    var after := Commit(attributes, w, now);
    forall s | active.Get(s) ensures HasAcceptance(after, s) {
      assert Recorded(attributes).Get(s) || submitted.Get(s);
    }
  }

  /**
   * Conversely, a login the veto blocks cannot be completed by a POST that
   * checks no box: the slot that blocked it raises a field error.
   */
  lemma BlockedLoginNeedsConsent(vars: map<string, Value>, uid: int, attributes: map<string, string>)
    requires LoginBlocked(vars, Some(UserView(uid, attributes)))
    ensures exists s :: s in VetoSlots && ActiveFromModuleVars(vars).Get(s) && !Recorded(attributes).Get(s)
                        && !Submitted(map[]).Get(s)
  {
    var s :| s in VetoSlots && ActiveFromModuleVars(vars).Get(s) && !HasAcceptance(attributes, s);
    assert !Recorded(attributes).Get(s) && !Submitted(map[]).Get(s);
  }

  /** The profile edit's effect on the recorded acceptances: exactly the active slots, and only with consent. */
  lemma ProfileEditAcceptances(attributes: map<string, string>, consent: bool, active: PolicySet, now: string)
    requires !IsEmpty(now)
    ensures forall s :: HasAcceptance(EditAll(attributes, PoliciesToCheck, consent, active, now), s)
                        <==> consent && active.Get(s)
  {
    EditAllEffect(attributes, PoliciesToCheck, consent, active, now);
    EveryPolicyChecked();
  }

  /** A profile edit with consent lifts the veto. */
  lemma ProfileEditConsentClearsVeto(vars: map<string, Value>, uid: int, attributes: map<string, string>, now: string)
    requires !IsEmpty(now)
    ensures !LoginBlocked(vars, Some(UserView(uid,
               EditAll(attributes, PoliciesToCheck, true, ActiveFromModuleVars(vars), now))))
  {
    ProfileEditAcceptances(attributes, true, ActiveFromModuleVars(vars), now);
  }

  /**
   * A profile edit without consent revokes every acceptance, so the next login
   * of an ordinary user is blocked exactly when terms of use, privacy or age
   * is active.
   */
  lemma ProfileEditRevocationBlocks(vars: map<string, Value>, uid: int, attributes: map<string, string>,
                                    active: PolicySet, now: string)
    ensures forall s :: !HasAcceptance(EditAll(attributes, PoliciesToCheck, false, active, now), s)
    ensures LoginBlocked(vars, Some(UserView(uid, EditAll(attributes, PoliciesToCheck, false, active, now))))
            <==> uid > UserIdAdmin && exists s :: s in VetoSlots && ActiveFromModuleVars(vars).Get(s)
  {
    EditAllEffect(attributes, PoliciesToCheck, false, active, now);
    EveryPolicyChecked();
  }

  /** Submitting the same acceptances twice with the same timestamp stores what once does. */
  lemma SubmissionIdempotent(attributes: map<string, string>, written: set<Slot>, now: string)
    ensures Commit(Commit(attributes, written, now), written, now) == Commit(attributes, written, now)
  {
    var once := Commit(attributes, written, now);
    CommitEffect(attributes, written, now);
    CommitEffect(once, written, now);
    var twice := Commit(once, written, now);
    forall k | k in AttributeNames(written) ensures k in twice && k in once && twice[k] == once[k] {
      var s :| s in written && k == AttributeName(s);
    }
  }

  /** Repeating a profile edit with the same form and timestamp stores what one edit does. */
  lemma ProfileEditIdempotent(attributes: map<string, string>, consent: bool, active: PolicySet, now: string)
    ensures EditAll(EditAll(attributes, PoliciesToCheck, consent, active, now), PoliciesToCheck, consent, active, now)
         == EditAll(attributes, PoliciesToCheck, consent, active, now)
  {
    var once := EditAll(attributes, PoliciesToCheck, consent, active, now);
    var twice := EditAll(once, PoliciesToCheck, consent, active, now);
    EditAllEffect(attributes, PoliciesToCheck, consent, active, now);
    EditAllEffect(once, PoliciesToCheck, consent, active, now);
    forall k | k in SlotNames(PoliciesToCheck)
      ensures (k in twice <==> k in once) && (k in twice ==> twice[k] == once[k])
    {
      var s :| s in PoliciesToCheck && k == AttributeName(s);
    }
  }

  /**
   * Terms of use switched on, everything else off: a fresh ordinary user is
   * blocked, and the administrator is not.
   */
  lemma TermsOnlyScenario()
    ensures var vars := map[TermsActiveVar := Bool(true), MinimumAgeVar := Int(0)];
      && LoginBlocked(vars, Some(UserView(42, map[])))
      && !LoginBlocked(vars, Some(UserView(1, map[])))
  {
    var vars := map[TermsActiveVar := Bool(true), MinimumAgeVar := Int(0)];
    assert ActiveFromModuleVars(vars).Get(TermsOfUse);
    assert TermsOfUse in VetoSlots && !HasAcceptance(map[], TermsOfUse);
  }
}
