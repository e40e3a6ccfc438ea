# Approval settings dialog: approver chain editor

This project models the approval settings dialog of an expense-management
web client. An administrator uses the dialog to configure, for one employee,
how that employee's expenses are approved. The dialog holds two things:

- an ordered **approver chain**: a list of `{userId, name, sequence}` entries
  that the "Add" button extends and the delete icons shrink;
- a **rule form** with a rule type (`percentage`, `specific` or `hybrid`),
  a percentage, a specific approver and a "manager approves first" flag.

On "Save Settings" the dialog posts the rule and then one request per
approver. The model has three modules:

- `Approvers` (`approvers.dfy`) holds the chain as a `seq<Approver>`.
  It defines the invariant `WellFormed`: user ids are pairwise distinct and
  entry `i` has sequence `i + 1`. It also holds the add and remove
  transformations as pure functions, with the lemmas about them. The
  generic `Filter` and its lemmas model `Array.prototype.filter`;
  `FirstUserIndex`/`FindUser` model `Array.prototype.find`.
- `RuleSettings` (`rule_settings.dfy`) holds the form values, the
  percentage validation, the rule and approver request bodies, and the
  filter that picks the managers and admins offered as approvers.
- `Dialog` (`dialog.dfy`) holds the class `ApprovalSettingsDialog`. Its
  fields are the component state (`approvers`, `selectedApproverId`,
  `form`) and its methods are the event handlers, including `SetForm`
  for edits of the form fields. Each method keeps
  `Valid()` (the chain is well formed) and states its new state through
  the functions above.

Behaviour worth knowing:

- The "nothing selected" guard is JavaScript's falsy test, so a selected
  id of `0` is treated like no selection (`IsSelected`).
- The selected user is looked up in all users, not only the eligible ones.
  Only the menu restricts the choice to managers and admins; `AddFromMenuAccepted`
  and `AddFromMenuEligible` state what follows when the id comes from the menu.
- Percentage validation applies only while the field is shown, that is
  for the `percentage` and `hybrid` rule types. The checks run in the order
  required, minimum 1, maximum 100.
- A stored chain loaded from the server is taken as it is, so `Load`
  requires it to be well formed.

The code does not check the specific approver at all: a `specific` or
`hybrid` rule may be posted with a null `specificApproverId`. A stricter
design would require it and check that it names a manager or admin. The
model follows the code.

## Model

| member | source | states |
|---|---|---|
| `Approvers.FilterMembers` | client/src/components/UserManagement/ApprovalSettingsDialog.tsx:153 | filtering keeps exactly the elements that satisfy the predicate |
| `Approvers.FilterIndexIncreasing` | client/src/components/UserManagement/ApprovalSettingsDialog.tsx:153 | filtering keeps relative order: later kept elements come from strictly later original positions |
| `Approvers.FilterIndexOnto` | client/src/components/UserManagement/ApprovalSettingsDialog.tsx:153 | every element that passes the predicate is one of the kept elements |
| `Approvers.FilterAll` | client/src/components/UserManagement/ApprovalSettingsDialog.tsx:153 | filtering a list whose elements all pass returns it unchanged |
| `Approvers.FirstUserIndex` | client/src/components/UserManagement/ApprovalSettingsDialog.tsx:130 | the index of the first user with the id, or the length when there is none; no earlier user has that id |
| `Approvers.FindUser` | client/src/components/UserManagement/ApprovalSettingsDialog.tsx:130 | the lookup fails exactly when no user has the id; on success the user found is the first one in the list with that id |
| `Approvers.EmptyIsWellFormed` | client/src/components/UserManagement/ApprovalSettingsDialog.tsx:63 | the initial empty chain satisfies the chain invariant |
| `Approvers.AddApprover` | client/src/components/UserManagement/ApprovalSettingsDialog.tsx:126-149 | a rejected attempt leaves the chain and the selection unchanged; a successful one appends exactly one entry, keeps every earlier entry and clears the selection |
| `Approvers.AddOutcomeCases` | client/src/components/UserManagement/ApprovalSettingsDialog.tsx:128-138 | the attempt is rejected as "nothing selected" exactly for null or 0, as unknown exactly when no user has the id, as a duplicate exactly when the id is already in the chain, and succeeds otherwise |
| `Approvers.AddedEntry` | client/src/components/UserManagement/ApprovalSettingsDialog.tsx:140-147 | when every guard passes the add succeeds, appends the selected id with the first matching user's name at sequence old length + 1, and clears the selection |
| `Approvers.DuplicateWarned` | client/src/components/UserManagement/ApprovalSettingsDialog.tsx:128-137 | the "Approver already added" warning appears exactly when the selection is non-null and non-zero, names a known user, and that user is already in the chain; no other attempt shows it; the text is `DuplicateWarning`, computed from the outcome by `AddWarning` |
| `Approvers.AddPreservesWellFormed` | client/src/components/UserManagement/ApprovalSettingsDialog.tsx:133-147 | adding keeps user ids distinct and sequences dense and 1-based |
| `Approvers.Resequence` | client/src/components/UserManagement/ApprovalSettingsDialog.tsx:155 | renumbering keeps length, ids and names and makes entry i have sequence i + 1 |
| `Approvers.ResequenceDense` | client/src/components/UserManagement/ApprovalSettingsDialog.tsx:155 | renumbering an already dense chain changes nothing |
| `Approvers.RemoveApprover` | client/src/components/UserManagement/ApprovalSettingsDialog.tsx:151-157 | the result is dense and 1-based, and a user is in it exactly when it was in the input and is not the removed user |
| `Approvers.RemoveKeepsOrder` | client/src/components/UserManagement/ApprovalSettingsDialog.tsx:153-155 | entry i of the result is a surviving original entry renumbered to i + 1; survivors keep their relative order and every entry of another user survives |
| `Approvers.FilterKeepsDistinct` | client/src/components/UserManagement/ApprovalSettingsDialog.tsx:153 | filtering a chain with distinct ids gives a chain with distinct ids |
| `Approvers.RemovePreservesWellFormed` | client/src/components/UserManagement/ApprovalSettingsDialog.tsx:151-157 | removing keeps the chain invariant |
| `Approvers.RemoveAbsent` | client/src/components/UserManagement/ApprovalSettingsDialog.tsx:151-157 | removing a user who is not in a well-formed chain returns an equal chain |
| `Approvers.RemoveIdempotent` | client/src/components/UserManagement/ApprovalSettingsDialog.tsx:151-157 | removing the same user twice equals removing them once |
| `Approvers.RemoveThenAdd` | client/src/components/UserManagement/ApprovalSettingsDialog.tsx:126-157 | removing a known user and adding them back succeeds and puts them last, at step n, in a well-formed chain |
| `RuleSettings.LoadedRuleResaves` | client/src/components/UserManagement/ApprovalSettingsDialog.tsx:96-100 | the form values `FormFromRule` puts in at lines 97-100 carry the stored rule through a save: reopening the dialog on a stored rule with an acceptable percentage and saving unedited posts that rule again: same type, manager flag (true exactly when the stored flag is 1) and type-dependent fields |
| `RuleSettings.LoadedRuleRejected` | client/src/components/UserManagement/ApprovalSettingsDialog.tsx:96-100 | a stored percentage or hybrid rule whose percentage is null, below 1 or above 100 cannot be saved unedited; the form reports the matching message |
| `RuleSettings.PercentageError` | client/src/components/UserManagement/ApprovalSettingsDialog.tsx:331-339 | the form reports no percentage error exactly when the rule type does not need a percentage, or the percentage is present and lies in 1..100 |
| `RuleSettings.PercentageErrorMessages` | client/src/components/UserManagement/ApprovalSettingsDialog.tsx:335-339 | "Percentage is required", "Minimum 1%" and "Maximum 100%" are each reported exactly for a missing, a too small and a too large percentage |
| `RuleSettings.DefaultFormIsValid` | client/src/components/UserManagement/ApprovalSettingsDialog.tsx:75-80 | the default form values (percentage rule at 50%) pass validation |
| `RuleSettings.BuildRulePayload` | client/src/components/UserManagement/ApprovalSettingsDialog.tsx:166-173 | the percentage is non-null only for percentage or hybrid rules and the specific approver only for specific or hybrid rules; when kept, both are the form's values; the other fields are copied |
| `RuleSettings.PlanSubmission` | client/src/components/UserManagement/ApprovalSettingsDialog.tsx:159-173 | nothing is posted when validation fails or no user is being edited; otherwise the rule body is posted |
| `RuleSettings.PostedPercentage` | client/src/components/UserManagement/ApprovalSettingsDialog.tsx:166-173 | a posted rule carries a percentage exactly when its type needs one, and that percentage lies in 1..100 |
| `RuleSettings.ApproverPosts` | client/src/components/UserManagement/ApprovalSettingsDialog.tsx:178-189 | one approver body per chain entry, in chain order, with the rule id, the user id and the entry's sequence |
| `RuleSettings.PostsOfWellFormedChain` | client/src/components/UserManagement/ApprovalSettingsDialog.tsx:178-189 | a well-formed chain posts steps 1..n for pairwise distinct users under one rule |
| `RuleSettings.EligibleApprovers` | client/src/components/UserManagement/ApprovalSettingsDialog.tsx:210-212 | the offered approvers are exactly the users whose role is manager or admin |
| `RuleSettings.AddFromMenuAccepted` | client/src/components/UserManagement/ApprovalSettingsDialog.tsx:263-282 | adding a non-zero id picked from the menu is never rejected as unselected or unknown (an id of 0 is excluded: the falsy guard at line 128 rejects it) |
| `RuleSettings.AddFromMenuEligible` | client/src/components/UserManagement/ApprovalSettingsDialog.tsx:263-282 | with unique user ids, a successful add of a menu pick appends that user, a manager or admin, at step n + 1 |
| `Dialog.ApprovalSettingsDialog.constructor` | client/src/components/UserManagement/ApprovalSettingsDialog.tsx:63-81 | the dialog starts with an empty (well-formed) chain, no selection and the default form |
| `Dialog.ApprovalSettingsDialog.Select` | client/src/components/UserManagement/ApprovalSettingsDialog.tsx:265 | choosing in the menu sets the selection and changes nothing else |
| `Dialog.ApprovalSettingsDialog.Add` | client/src/components/UserManagement/ApprovalSettingsDialog.tsx:126-149 | the new chain, selection and outcome are those of `AddApprover` on the old state, the duplicate warning is returned exactly for a duplicate; the invariant is kept |
| `Dialog.ApprovalSettingsDialog.Remove` | client/src/components/UserManagement/ApprovalSettingsDialog.tsx:151-157 | the new chain is `RemoveApprover` of the old one; the invariant is kept and nothing else changes |
| `Dialog.ApprovalSettingsDialog.SetForm` | client/src/components/UserManagement/ApprovalSettingsDialog.tsx:239-376 | an edit of a form field replaces the form values and leaves the chain and the selection unchanged |
| `Dialog.ApprovalSettingsDialog.Load` | client/src/components/UserManagement/ApprovalSettingsDialog.tsx:96-114 | a found rule fills the form, and a non-empty well-formed stored chain replaces the current one |
| `Dialog.ApprovalSettingsDialog.Close` | client/src/components/UserManagement/ApprovalSettingsDialog.tsx:202-208 | closing resets the form, empties the chain and clears the selection |
| `Dialog.ApprovalSettingsDialog.Submit` | client/src/components/UserManagement/ApprovalSettingsDialog.tsx:159-173 | saving posts a rule only from a valid form and with a user; the posted percentage is present exactly when the type needs it and lies in 1..100 |
| `Dialog.ApprovalSettingsDialog.ApproverRequests` | client/src/components/UserManagement/ApprovalSettingsDialog.tsx:177-189 | the approver bodies follow the chain, entry i at step i + 1, with no user twice |

## Left out

- The approval engine (percentage, specific and hybrid evaluation, and the expense status machine). No source file implements it: `server/src/routes/api.ts` returns an empty expense list and `server/src/db/database.ts` creates only an `expenses` table.
- Reopening with a new user list: the page refetches its users after a user is added (`client/src/pages/UserManagementPage.tsx:99-101`) and passes them to the still-mounted dialog. The model's `allUsers` is fixed per object. Because the state after `Close` equals a new object's, a later opening is a new `ApprovalSettingsDialog` built on the refetched list.
- Network I/O: the `api.get` fetches (lines 93-104) and the `api.post` calls with their `Promise.all` (lines 166-189). `Load` stands for a completed fetch. If the rule request fails, nothing changes, which is `Load(None, [])`. If the rule arrives but the approver request fails, the form already holds the rule and only the chain is unchanged, which is `Load(Some(rule), [])`. `Submit` returns the rule body that would be posted. `ApproverRequests` takes the rule id from the server's reply as a parameter. Save errors surface only as a snackbar.
- The loading flag, the rendering and the success and error snackbars. The duplicate warning is the `warning` result of `Add`.
- Save completion: a save that the server accepts calls the close handler (line 192). The model has no method for it; a successful save is `Submit`, then the posts, then `Close`.
- `companyId` is read from the auth store, and the store slice in `client/src/store/slices/authSlice.ts` declares no such field. It is an opaque `Option<int>` parameter here.
- Field values as strings: the percentage input yields text and the approver menus yield numbers. The model takes integers or null. Fractional and non-numeric input is not modelled.
- The other files of the repository: server plumbing, the e-mail helper, authentication forms, pages and other dialogs. They are UI, I/O or randomness and are not part of this model.
- Validation of a hidden percentage field: it is modelled as absent, because the form library does not validate unmounted fields. The model does not capture what the library would do otherwise.
