/**
 * The rule half of the approval settings dialog: the form values, the
 * validation the form applies to the percentage field, the request body
 * it posts for the rule and for each approver, and the list of users it
 * offers as approvers.
 */
module RuleSettings {
  import opened Approvers

  // ---------------------------------------------------------------------------
  // Rule types and the fields they need
  // ---------------------------------------------------------------------------

  const PercentageRule: string := "percentage"
  const SpecificRule: string := "specific"
  const HybridRule: string := "hybrid"

  /** Rule types whose payload carries a percentage (and whose form shows the field). */
  predicate NeedsPercentage(ruleType: string) {
    ruleType == PercentageRule || ruleType == HybridRule
  }

  /** Rule types whose payload carries a specific approver (and whose form shows the field). */
  predicate NeedsSpecificApprover(ruleType: string) {
    ruleType == SpecificRule || ruleType == HybridRule
  }

  /** The values the settings form holds; `None` stands for a null field. */
  datatype FormData = FormData(
    ruleType: string,
    percentage: Option<int>,
    specificApproverId: Option<int>,
    isManagerApprover: bool)

  /** The values the form starts with and returns to on reset. */
  const DefaultForm: FormData := FormData(PercentageRule, Some(50), None, true)

  /** A rule as the server returns it; `isManagerApproverFlag` is the stored 0/1 column. */
  datatype StoredRule = StoredRule(
    ruleType: string,
    percentage: Option<int>,
    specificApproverId: Option<int>,
    isManagerApproverFlag: int)

  /** The form values a loaded rule puts into the form: the flag reads as true only when it is 1. */
  function FormFromRule(rule: StoredRule): FormData
  {
    FormData(rule.ruleType, rule.percentage, rule.specificApproverId, rule.isManagerApproverFlag == 1)
  }

  /** Reopening the dialog on a stored rule whose percentage is acceptable and
      saving without edits posts that rule again: same type, same manager flag,
      and the same type-dependent fields. */
  lemma LoadedRuleResaves(rule: StoredRule, user: int, companyId: Option<int>)
    requires NeedsPercentage(rule.ruleType) ==> rule.percentage.Some? && 1 <= rule.percentage.value <= 100
    ensures var plan := PlanSubmission(Some(user), companyId, FormFromRule(rule));
      && plan.PostRule?
      && plan.rule.userId == user && plan.rule.companyId == companyId
      && plan.rule.ruleType == rule.ruleType
      && plan.rule.isManagerApprover == (rule.isManagerApproverFlag == 1)
      && (NeedsPercentage(rule.ruleType) ==> plan.rule.percentage == rule.percentage)
      && (NeedsSpecificApprover(rule.ruleType) ==> plan.rule.specificApproverId == rule.specificApproverId)
  {
  }

  /** A stored percentage or hybrid rule whose percentage is null or out of
      range cannot be saved again unedited: the form reports the error. */
  lemma LoadedRuleRejected(rule: StoredRule, user: Option<int>, companyId: Option<int>)
    requires NeedsPercentage(rule.ruleType)
    requires rule.percentage.None? || rule.percentage.value < 1 || rule.percentage.value > 100
    ensures var plan := PlanSubmission(user, companyId, FormFromRule(rule));
      && plan.Invalid?
      && (rule.percentage.None? ==> plan.message == PercentageRequired)
      && (rule.percentage.Some? && rule.percentage.value < 1 ==> plan.message == PercentageTooSmall)
      && (rule.percentage.Some? && rule.percentage.value > 100 ==> plan.message == PercentageTooLarge)
  {
  }

  // ---------------------------------------------------------------------------
  // Validation of the percentage field
  // ---------------------------------------------------------------------------

  const PercentageRequired: string := "Percentage is required"
  const PercentageTooSmall: string := "Minimum 1%"
  const PercentageTooLarge: string := "Maximum 100%"

  /** The message the percentage field reports, if any. The field and its
      rules exist only while the rule type needs a percentage; the rules are
      checked in the order required, minimum, maximum. */
  function PercentageError(data: FormData): (e: Option<string>)
    ensures e.None? <==>
      (NeedsPercentage(data.ruleType) ==>
        data.percentage.Some? && 1 <= data.percentage.value <= 100)
    ensures e.Some? ==> e.value in {PercentageRequired, PercentageTooSmall, PercentageTooLarge}
  {
    if !NeedsPercentage(data.ruleType) then None
    else match data.percentage
      case None => Some(PercentageRequired)
      case Some(p) =>
        if p < 1 then Some(PercentageTooSmall)
        else if p > 100 then Some(PercentageTooLarge)
        else None
  }

  /** Each message is reported exactly for its own kind of bad value. */
  lemma PercentageErrorMessages(data: FormData)
    ensures PercentageError(data) == Some(PercentageRequired) <==>
      NeedsPercentage(data.ruleType) && data.percentage.None?
    ensures PercentageError(data) == Some(PercentageTooSmall) <==>
      NeedsPercentage(data.ruleType) && data.percentage.Some? && data.percentage.value < 1
    ensures PercentageError(data) == Some(PercentageTooLarge) <==>
      NeedsPercentage(data.ruleType) && data.percentage.Some? && data.percentage.value > 100
  {
  }

  /** The default form passes validation. */
  lemma DefaultFormIsValid()
    ensures PercentageError(DefaultForm).None?
  {
  }

  // ---------------------------------------------------------------------------
  // Request bodies
  // ---------------------------------------------------------------------------

  /** The body posted to create the rule. */
  datatype RulePayload = RulePayload(
    userId: int,
    companyId: Option<int>,
    ruleType: string,
    percentage: Option<int>,
    specificApproverId: Option<int>,
    isManagerApprover: bool)

  /** The rule body: the type-dependent fields are nulled when the type does not use them. */
  function BuildRulePayload(userId: int, companyId: Option<int>, data: FormData): (r: RulePayload)
    ensures r.percentage.Some? ==> NeedsPercentage(data.ruleType)
    ensures r.specificApproverId.Some? ==> NeedsSpecificApprover(data.ruleType)
    ensures NeedsPercentage(data.ruleType) ==> r.percentage == data.percentage
    ensures NeedsSpecificApprover(data.ruleType) ==> r.specificApproverId == data.specificApproverId
    ensures r.userId == userId && r.companyId == companyId
    ensures r.ruleType == data.ruleType && r.isManagerApprover == data.isManagerApprover
  {
    RulePayload(
      userId,
      companyId,
      data.ruleType,
      if NeedsPercentage(data.ruleType) then data.percentage else None,
      if NeedsSpecificApprover(data.ruleType) then data.specificApproverId else None,
      data.isManagerApprover)
  }

  /** What pressing "Save Settings" leads to before any request is answered. */
  datatype SubmitPlan =
    | Invalid(message: string)   // the form reports an error and nothing is posted
    | NoUser                     // no user is being edited; nothing is posted
    | PostRule(rule: RulePayload)

  /** Form validation runs first; only a valid form reaches the submit handler,
      which does nothing without a user and otherwise posts the rule. */
  function PlanSubmission(user: Option<int>, companyId: Option<int>, data: FormData): (r: SubmitPlan)
    ensures r.Invalid? <==> PercentageError(data).Some?
    ensures r.PostRule? <==> PercentageError(data).None? && user.Some?
    ensures r.PostRule? ==> r.rule == BuildRulePayload(user.value, companyId, data)
  {
    match PercentageError(data)
    case Some(msg) => Invalid(msg)
    case None => if user.None? then NoUser else PostRule(BuildRulePayload(user.value, companyId, data))
  }

  /** A posted rule carries a percentage exactly when its type needs one, and
      then the percentage lies in 1..100. */
  lemma PostedPercentage(user: Option<int>, companyId: Option<int>, data: FormData)
    requires PlanSubmission(user, companyId, data).PostRule?
    ensures var rule := PlanSubmission(user, companyId, data).rule;
      && (rule.percentage.Some? <==> NeedsPercentage(data.ruleType))
      && (rule.percentage.Some? ==> 1 <= rule.percentage.value <= 100)
  {
  }

  /** The body posted once per approver after the rule is created. */
  datatype ApproverPost = ApproverPost(approvalRuleId: int, userId: int, sequence: int)

  /** One body per approver, in chain order, keeping each approver's step. */
  function ApproverPosts(ruleId: int, approvers: seq<Approver>): (r: seq<ApproverPost>)
    ensures |r| == |approvers|
    ensures forall i :: 0 <= i < |r| ==>
      r[i] == ApproverPost(ruleId, approvers[i].userId, approvers[i].sequence)
  {
    if approvers == [] then []
    else [ApproverPost(ruleId, approvers[0].userId, approvers[0].sequence)] + ApproverPosts(ruleId, approvers[1..])
  }

  /** Posting a well-formed chain sends steps 1..n for distinct users, all under one rule. */
  lemma PostsOfWellFormedChain(ruleId: int, approvers: seq<Approver>)
    requires WellFormed(approvers)
    ensures var posts := ApproverPosts(ruleId, approvers);
      && (forall i :: 0 <= i < |posts| ==> posts[i].sequence == i + 1 && posts[i].approvalRuleId == ruleId)
      && (forall i, j :: 0 <= i < j < |posts| ==> posts[i].userId != posts[j].userId)
  {
  }

  // ---------------------------------------------------------------------------
  // Who may be chosen as an approver
  // ---------------------------------------------------------------------------

  predicate IsEligible(u: User) {
    u.role == "manager" || u.role == "admin"
  }

  /** The users the approver menus offer; being a `Filter`, they keep the
      order of `allUsers` (`FilterIndexIncreasing`). */
  function EligibleApprovers(allUsers: seq<User>): (r: seq<User>)
    ensures forall u :: u in r <==> u in allUsers && IsEligible(u)
  {
    FilterMembers(allUsers, IsEligible);
    Filter(allUsers, IsEligible)
  }

  /** No two users share an id. */
  predicate UniqueUserIds(users: seq<User>) {
    forall i, j :: 0 <= i < j < |users| ==> users[i].id != users[j].id
  }

  /** Adding a non-zero id picked from the menu never reports "nothing selected"
      or an unknown user. (An id of 0 is rejected as "nothing selected".) */
  lemma AddFromMenuAccepted(approvers: seq<Approver>, allUsers: seq<User>, picked: User)
    requires picked in EligibleApprovers(allUsers) && picked.id != 0
    ensures var r := AddApprover(approvers, allUsers, Some(picked.id));
      r.outcome != NothingSelected && r.outcome != UnknownUser
  {
  }

  /** When user ids are unique, a successful add of a menu pick appends that
      manager or admin at step `old length + 1`. */
  lemma AddFromMenuEligible(approvers: seq<Approver>, allUsers: seq<User>, picked: User)
    requires picked in EligibleApprovers(allUsers)
    requires UniqueUserIds(allUsers)
    ensures var r := AddApprover(approvers, allUsers, Some(picked.id));
      r.outcome == Added ==>
        r.approvers[|approvers|] == Approver(picked.id, picked.name, |approvers| + 1)
  {
  }
}
