/**
 * The five policy slots the Legal module enforces, the per-slot flag sets its
 * helper and its request handlers pass around, and the user attributes in
 * which an acceptance is recorded.
 */
module Policies {
  import opened Php

  datatype Option<T> = None | Some(value: T)

  /** The five acceptance slots. */
  datatype Slot = TermsOfUse | PrivacyPolicy | AgePolicy | CancellationRightPolicy | TradeConditions

  const AllSlots: set<Slot> := {TermsOfUse, PrivacyPolicy, AgePolicy, CancellationRightPolicy, TradeConditions}

  /** Every slot is one of the five. */
  lemma AllSlotsComplete()
    ensures forall s: Slot :: s in AllSlots
  {
    forall s: Slot ensures s in AllSlots {
      match s
      case TermsOfUse =>
      case PrivacyPolicy =>
      case AgePolicy =>
      case CancellationRightPolicy =>
      case TradeConditions =>
    }
  }

  /**
   * One flag per slot, as the arrays keyed 'termsOfUse', 'privacyPolicy',
   * 'agePolicy', 'cancellationRightPolicy' and 'tradeConditions' hold them.
   */
  datatype PolicySet = PolicySet(
    termsOfUse: bool,
    privacyPolicy: bool,
    agePolicy: bool,
    cancellationRightPolicy: bool,
    tradeConditions: bool)
  {
    function Get(s: Slot): bool {
      match s
      case TermsOfUse => termsOfUse
      case PrivacyPolicy => privacyPolicy
      case AgePolicy => agePolicy
      case CancellationRightPolicy => cancellationRightPolicy
      case TradeConditions => tradeConditions
    }

    /** `array_sum($flags)`: the number of slots whose flag is set. */
    function Count(): (n: nat)
      ensures n <= 5
      ensures n == 0 <==> forall s :: !Get(s)
      ensures n == 5 <==> forall s :: Get(s)
    {
      assert Get(TermsOfUse) == termsOfUse && Get(PrivacyPolicy) == privacyPolicy && Get(AgePolicy) == agePolicy;
      assert Get(CancellationRightPolicy) == cancellationRightPolicy && Get(TradeConditions) == tradeConditions;
      (if termsOfUse then 1 else 0) + (if privacyPolicy then 1 else 0) + (if agePolicy then 1 else 0)
      + (if cancellationRightPolicy then 1 else 0) + (if tradeConditions then 1 else 0)
    }
  }

  /*
   * Module variable names (LegalConstant::MODVAR_*). Only their being distinct
   * matters to the model.
   */
  const TermsActiveVar := "termsOfUseActive"
  const PrivacyActiveVar := "privacyPolicyActive"
  const MinimumAgeVar := "minimumAge"
  const CancellationRightPolicyActiveVar := "cancellationRightPolicyActive"
  const TradeConditionsActiveVar := "tradeConditionsActive"
  const LegalNoticeActiveVar := "legalNoticeActive"
  const AccessibilityActiveVar := "accessibilityStatementActive"
  const TermsUrlVar := "termsOfUseUrl"
  const PrivacyUrlVar := "privacyPolicyUrl"
  const CancellationRightPolicyUrlVar := "cancellationRightPolicyUrl"
  const TradeConditionsUrlVar := "tradeConditionsUrl"
  const LegalNoticeUrlVar := "legalNoticeUrl"
  const AccessibilityUrlVar := "accessibilityStatementUrl"

  /**
   * The user attribute recording each slot's acceptance
   * (LegalConstant::ATTRIBUTE_TERMSOFUSE_ACCEPTED and its siblings).
   */
  function AttributeName(s: Slot): string {
    match s
    case TermsOfUse => "_Legal_termsOfUseAccepted"
    case PrivacyPolicy => "_Legal_privacyPolicyAccepted"
    case AgePolicy => "_Legal_agePolicyConfirmed"
    case CancellationRightPolicy => "_Legal_cancellationRightPolicyAccepted"
    case TradeConditions => "_Legal_tradeConditionsAccepted"
  }

  /** Distinct slots are recorded under distinct attributes. */
  lemma AttributeNameInjective(s: Slot, t: Slot)
    ensures AttributeName(s) == AttributeName(t) ==> s == t
  {
    if s != t {
      // The names already differ in one of their first few characters.
      assert AttributeName(s)[7] != AttributeName(t)[7] || AttributeName(s)[8] != AttributeName(t)[8];
    }
  }

  function AttributeNames(slots: set<Slot>): set<string> {
    set s | s in slots :: AttributeName(s)
  }

  /**
   * A slot's acceptance as the user's attributes record it: its attribute is
   * present and not empty in PHP's sense.
   */
  predicate HasAcceptance(attributes: map<string, string>, s: Slot) {
    AttributeName(s) in attributes && !IsEmpty(attributes[AttributeName(s)])
  }

  /** The acceptance flags a user's attributes record, slot by slot. */
  function Recorded(attributes: map<string, string>): (r: PolicySet)
    ensures forall s :: r.Get(s) == HasAcceptance(attributes, s)
  {
    PolicySet(
      HasAcceptance(attributes, TermsOfUse), HasAcceptance(attributes, PrivacyPolicy),
      HasAcceptance(attributes, AgePolicy), HasAcceptance(attributes, CancellationRightPolicy),
      HasAcceptance(attributes, TradeConditions))
  }

  /**
   * The attributes after the timestamp `now` has been written to the
   * acceptance attribute of every slot in `written`.
   */
  function Commit(attributes: map<string, string>, written: set<Slot>, now: string): map<string, string> {
    var names := AttributeNames(written);
    map k | k in attributes.Keys + names :: if k in names then now else attributes[k]
  }

  /**
   * A commit stores `now` under every written slot's attribute and changes no
   * other attribute; with a non-empty timestamp it records acceptance of the
   * written slots and keeps every acceptance already recorded.
   */
  lemma CommitEffect(attributes: map<string, string>, written: set<Slot>, now: string)
    ensures var r := Commit(attributes, written, now);
      && (forall s :: s in written ==> AttributeName(s) in r && r[AttributeName(s)] == now)
      && (forall k :: k !in AttributeNames(written) ==> (k in r <==> k in attributes))
      && (forall k :: k in r && k !in AttributeNames(written) ==> r[k] == attributes[k])
      && (!IsEmpty(now) ==> forall s :: HasAcceptance(r, s) <==> s in written || HasAcceptance(attributes, s))
  {
    var r := Commit(attributes, written, now);
    forall s | s !in written
      ensures AttributeName(s) !in AttributeNames(written)
    {
      forall t | t in written ensures AttributeName(t) != AttributeName(s) {
        AttributeNameInjective(s, t);
      }
    }
  }

  /** Committing no slot leaves the attributes as they were. */
  lemma CommitNothing(attributes: map<string, string>, now: string)
    ensures Commit(attributes, {}, now) == attributes
  {
    assert AttributeNames({}) == {};
  }
}
