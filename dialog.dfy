/**
 * The approval settings dialog as an object: its component state (the
 * approver chain, the current menu selection and the form values) and the
 * handlers that replace that state.
 */
module Dialog {
  import opened Approvers
  import opened RuleSettings

  class ApprovalSettingsDialog {
    /** The users the dialog was opened with (a property, never changed by the
        dialog). The page may pass a refetched list to a later opening; since
        the state after `Close` equals a fresh object's, each opening is
        modelled by a new object built on that opening's list. */
    const allUsers: seq<User>
    /** The approver chain being edited. */
    var approvers: seq<Approver>
    /** The id chosen in the "Select Approver" menu, `None` for null. */
    var selectedApproverId: Option<int>
    /** The values held by the settings form. */
    var form: FormData

    /** The invariant the handlers keep: the chain is well formed. */
    ghost predicate Valid()
      reads this
    {
      WellFormed(approvers)
    }

    /** The dialog opens with an empty chain, no selection and the default form. */
    constructor (allUsers: seq<User>)
      ensures Valid()
      ensures this.allUsers == allUsers
      ensures approvers == [] && selectedApproverId == None && form == DefaultForm
    {
      this.allUsers := allUsers;
      approvers := [];
      selectedApproverId := None;
      form := DefaultForm;
    }

    /** The approver menu's change handler stores the chosen id. */
    method Select(id: int)
      requires Valid()
      modifies this
      ensures Valid()
      ensures selectedApproverId == Some(id)
      ensures approvers == old(approvers) && form == old(form)
    {
      selectedApproverId := Some(id);
    }

    /** The "Add" button: append the selected user unless a guard rejects the attempt. */
    method Add() returns (outcome: AddOutcome, warning: Option<string>)
      requires Valid()
      modifies this
      ensures Valid()
      ensures var r := AddApprover(old(approvers), allUsers, old(selectedApproverId));
        && outcome == r.outcome
        && approvers == r.approvers
        && selectedApproverId == r.selection
      ensures warning == AddWarning(outcome)
      ensures form == old(form)
    {
      AddPreservesWellFormed(approvers, allUsers, selectedApproverId);
      warning := None;
      if !IsSelected(selectedApproverId) {
        return NothingSelected, warning;
      }
      var id := selectedApproverId.value;
      var found := FindUser(allUsers, id);
      if found.None? {
        return UnknownUser, warning;
      }
      if HasApprover(approvers, id) {
        return AlreadyAdded, Some(DuplicateWarning);
      }
      approvers := approvers + [Approver(id, found.value.name, |approvers| + 1)];
      selectedApproverId := None;
      outcome := Added;
    }

    /** The delete icon of an entry: drop that user and renumber the rest. */
    method Remove(userId: int)
      requires Valid()
      modifies this
      ensures Valid()
      ensures approvers == RemoveApprover(old(approvers), userId)
      ensures selectedApproverId == old(selectedApproverId) && form == old(form)
    {
      RemovePreservesWellFormed(approvers, userId);
      approvers := RemoveApprover(approvers, userId);
    }

    /** An edit of the rule form (rule type, percentage, specific approver or
        the manager-first checkbox) replaces the form values and nothing else. */
    method SetForm(data: FormData)
      requires Valid()
      modifies this
      ensures Valid()
      ensures form == data
      ensures approvers == old(approvers) && selectedApproverId == old(selectedApproverId)
    {
      form := data;
    }

    /** A completed fetch of the stored settings: a found rule fills the form,
        and a non-empty stored chain replaces the current one as it is. A rule
        whose approver request failed arrives with an empty chain. */
    method Load(rule: Option<StoredRule>, fetched: seq<Approver>)
      requires Valid()
      requires WellFormed(fetched)
      modifies this
      ensures Valid()
      ensures form == if rule.Some? then FormFromRule(rule.value) else old(form)
      ensures approvers == if rule.Some? && |fetched| > 0 then fetched else old(approvers)
      ensures selectedApproverId == old(selectedApproverId)
    {
      if rule.Some? {
        form := FormFromRule(rule.value);
        if |fetched| > 0 {
          approvers := fetched;
        }
      }
    }

    /** Closing resets the form, the chain and the selection; a save that the
        server accepts ends the same way. */
    method Close()
      modifies this
      ensures Valid()
      ensures approvers == [] && selectedApproverId == None && form == DefaultForm
    {
      form := DefaultForm;
      approvers := [];
      selectedApproverId := None;
    }

    /** "Save Settings": what is posted for the rule, given the edited user and company. */
    method Submit(user: Option<int>, companyId: Option<int>) returns (plan: SubmitPlan)
      ensures plan.Invalid? <==> PercentageError(form).Some?
      ensures plan.PostRule? <==> PercentageError(form).None? && user.Some?
      ensures plan.PostRule? ==>
        && plan.rule == BuildRulePayload(user.value, companyId, form)
        && (plan.rule.percentage.Some? <==> NeedsPercentage(form.ruleType))
        && (plan.rule.percentage.Some? ==> 1 <= plan.rule.percentage.value <= 100)
        && (plan.rule.specificApproverId.Some? ==> NeedsSpecificApprover(form.ruleType))
    {
      plan := PlanSubmission(user, companyId, form);
      if plan.PostRule? {
        PostedPercentage(user, companyId, form);
      }
    }

    /** The approver bodies posted once the rule has been created under `ruleId`. */
    method ApproverRequests(ruleId: int) returns (posts: seq<ApproverPost>)
      requires Valid()
      ensures |posts| == |approvers|
      ensures forall i :: 0 <= i < |posts| ==>
        posts[i] == ApproverPost(ruleId, approvers[i].userId, i + 1)
      ensures forall i, j :: 0 <= i < j < |posts| ==> posts[i].userId != posts[j].userId
    {
      posts := ApproverPosts(ruleId, approvers);
    }
  }
}
