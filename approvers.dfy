/**
 * The approver chain that the approval settings dialog edits: an ordered
 * list of approvers, each with a 1-based step number, and the two list
 * transformations behind its "Add" and "Delete" buttons.
 */
module Approvers {

  datatype Option<T> = None | Some(value: T)

  /** A user as the dialog receives it in its `allUsers` property. */
  datatype User = User(id: int, name: string, role: string)

  /** One step of the chain: who approves, shown under which name, at which step. */
  datatype Approver = Approver(userId: int, name: string, sequence: int)

  // ---------------------------------------------------------------------------
  // Generic sequence helpers (Array.prototype.filter and find)
  // ---------------------------------------------------------------------------

  /** The elements of `s` that satisfy `p`, in their original order. */
  function Filter<T(!new)>(s: seq<T>, p: T -> bool): (r: seq<T>)
    ensures |r| <= |s|
  {
    if s == [] then [] else (if p(s[0]) then [s[0]] else []) + Filter(s[1..], p)
  }

  /** Filter keeps exactly the elements that satisfy `p`. */
  lemma {:induction false} FilterMembers<T(!new)>(s: seq<T>, p: T -> bool)
    ensures forall x :: x in Filter(s, p) <==> x in s && p(x)
  {
    if s != [] {
      FilterMembers(s[1..], p);
      assert s == [s[0]] + s[1..];
    }
  }

  /** The position in `s` of the `i`-th element that `Filter(s, p)` keeps. */
  function FilterIndex<T(!new)>(s: seq<T>, p: T -> bool, i: nat): (k: nat)
    requires i < |Filter(s, p)|
    ensures k < |s| && s[k] == Filter(s, p)[i] && p(s[k])
  {
    if p(s[0]) then (if i == 0 then 0 else 1 + FilterIndex(s[1..], p, i - 1))
    else 1 + FilterIndex(s[1..], p, i)
  }

  /** Filter keeps relative order: later kept elements come from later positions. */
  lemma {:induction false} FilterIndexIncreasing<T(!new)>(s: seq<T>, p: T -> bool, i: nat, j: nat)
    requires i < j < |Filter(s, p)|
    ensures FilterIndex(s, p, i) < FilterIndex(s, p, j)
  {
    assert s != [];
    var tail := s[1..];
    var rest := Filter(tail, p);
    if p(s[0]) {
      assert FilterIndex(s, p, j) == 1 + FilterIndex(tail, p, j - 1);
      if i > 0 {
        assert FilterIndex(s, p, i) == 1 + FilterIndex(tail, p, i - 1);
        FilterIndexIncreasing(tail, p, i - 1, j - 1);
      }
    } else {
      assert FilterIndex(s, p, i) == 1 + FilterIndex(tail, p, i);
      assert FilterIndex(s, p, j) == 1 + FilterIndex(tail, p, j);
      FilterIndexIncreasing(tail, p, i, j);
    }
  }

  /** Filter skips exactly the rejected elements: every element of `s` that `p`
      accepts is some kept element. */
  lemma {:induction false} FilterIndexOnto<T(!new)>(s: seq<T>, p: T -> bool, k: nat)
    requires k < |s| && p(s[k])
    ensures exists i :: 0 <= i < |Filter(s, p)| && FilterIndex(s, p, i) == k
  {
    if k == 0 {
      assert FilterIndex(s, p, 0) == 0;
    } else {
      FilterIndexOnto(s[1..], p, k - 1);
      var i :| 0 <= i < |Filter(s[1..], p)| && FilterIndex(s[1..], p, i) == k - 1;
      if p(s[0]) {
        assert FilterIndex(s, p, i + 1) == k;
      } else {
        assert FilterIndex(s, p, i) == k;
      }
    }
  }

  /** Filtering a sequence all of whose elements pass returns it unchanged. */
  lemma {:induction false} FilterAll<T(!new)>(s: seq<T>, p: T -> bool)
    requires forall x :: x in s ==> p(x)
    ensures Filter(s, p) == s
  {
    if s != [] {
      assert s[0] in s;
      assert forall x :: x in s[1..] ==> x in s;
      FilterAll(s[1..], p);
      assert s == [s[0]] + s[1..];
    }
  }

  /** Index of the first user with the given id, or |users| when there is none. */
  function FirstUserIndex(users: seq<User>, id: int): (k: nat)
    ensures k <= |users|
    ensures forall j :: 0 <= j < k ==> users[j].id != id
    ensures k < |users| ==> users[k].id == id
  {
    if users == [] then 0
    else if users[0].id == id then 0
    else 1 + FirstUserIndex(users[1..], id)
  }

  /** `allUsers.find(u => u.id === id)`: the first user with that id, if any. */
  function FindUser(users: seq<User>, id: int): (r: Option<User>)
    ensures r.None? <==> forall u :: u in users ==> u.id != id
    ensures r.Some? ==> r.value in users && r.value.id == id
    ensures r.Some? ==>
      exists k :: 0 <= k < |users| && r.value == users[k] && forall j :: 0 <= j < k ==> users[j].id != id
  {
    var k := FirstUserIndex(users, id);
    if k < |users| then Some(users[k]) else None
  }

  // ---------------------------------------------------------------------------
  // The chain invariant
  // ---------------------------------------------------------------------------

  /** `approvers.find(a => a.userId === id)` finds something. */
  predicate HasApprover(s: seq<Approver>, id: int) {
    exists i :: 0 <= i < |s| && s[i].userId == id
  }

  /** No user appears twice in the chain. */
  predicate DistinctIds(s: seq<Approver>) {
    forall i, j :: 0 <= i < j < |s| ==> s[i].userId != s[j].userId
  }

  /** Steps are numbered 1, 2, ..., n in list order. */
  predicate Dense(s: seq<Approver>) {
    forall i :: 0 <= i < |s| ==> s[i].sequence == i + 1
  }

  /** The invariant the editor keeps for the chain. */
  predicate WellFormed(s: seq<Approver>) {
    DistinctIds(s) && Dense(s)
  }

  /** The dialog opens with an empty chain, and the empty chain is well formed. */
  lemma EmptyIsWellFormed()
    ensures WellFormed([])
  {
  }

  // ---------------------------------------------------------------------------
  // Adding an approver
  // ---------------------------------------------------------------------------

  /** `if (!selectedApproverId) return;` treats null and 0 alike as "nothing selected". */
  predicate IsSelected(selection: Option<int>) {
    selection.Some? && selection.value != 0
  }

  /** Why an add attempt ended; `AlreadyAdded` is the one that shows a warning. */
  datatype AddOutcome = NothingSelected | UnknownUser | AlreadyAdded | Added

  /** The chain and the selection after an add attempt, and how it ended. */
  datatype AddResult = AddResult(outcome: AddOutcome, approvers: seq<Approver>, selection: Option<int>)

  /** The snackbar text shown when the selected user is already in the chain. */
  const DuplicateWarning: string := "Approver already added"

  /** The snackbar an add attempt shows: the duplicate warning, and nothing otherwise. */
  function AddWarning(outcome: AddOutcome): Option<string>
  {
    if outcome == AlreadyAdded then Some(DuplicateWarning) else None
  }

  /** The "Add" handler on values: guard clauses, then append and clear the selection. */
  function AddApprover(approvers: seq<Approver>, allUsers: seq<User>, selection: Option<int>): (r: AddResult)
    ensures r.outcome != Added ==> r.approvers == approvers && r.selection == selection
    ensures r.outcome == Added ==>
      && |r.approvers| == |approvers| + 1
      && r.approvers[..|approvers|] == approvers
      && r.selection == None
  {
    if !IsSelected(selection) then AddResult(NothingSelected, approvers, selection)
    else
      var id := selection.value;
      match FindUser(allUsers, id)
      case None => AddResult(UnknownUser, approvers, selection)
      case Some(u) =>
        if HasApprover(approvers, id) then AddResult(AlreadyAdded, approvers, selection)
        else AddResult(Added, approvers + [Approver(id, u.name, |approvers| + 1)], None)
  }

  /** Which guard fires, in the order the handler checks them. */
  lemma AddOutcomeCases(approvers: seq<Approver>, allUsers: seq<User>, selection: Option<int>)
    ensures var r := AddApprover(approvers, allUsers, selection);
      && (r.outcome == NothingSelected <==> !IsSelected(selection))
      && (r.outcome == UnknownUser <==>
            IsSelected(selection) && forall u :: u in allUsers ==> u.id != selection.value)
      && (r.outcome == AlreadyAdded <==>
            IsSelected(selection) && FindUser(allUsers, selection.value).Some?
            && HasApprover(approvers, selection.value))
      && (r.outcome == Added <==>
            IsSelected(selection) && FindUser(allUsers, selection.value).Some?
            && !HasApprover(approvers, selection.value))
  {
  }

  /** When every guard passes, the add succeeds, appends the selected user
      under the name of the first matching user as step `old length + 1`,
      and clears the selection. */
  lemma AddedEntry(approvers: seq<Approver>, allUsers: seq<User>, selection: Option<int>)
    requires IsSelected(selection) && FindUser(allUsers, selection.value).Some?
    requires !HasApprover(approvers, selection.value)
    ensures var k := FirstUserIndex(allUsers, selection.value);
      && k < |allUsers|
      && AddApprover(approvers, allUsers, selection)
         == AddResult(Added, approvers + [Approver(selection.value, allUsers[k].name, |approvers| + 1)], None)
  {
  }

  /** The duplicate warning appears exactly when a selected, known user is
      already in the chain; every other attempt shows nothing. */
  lemma DuplicateWarned(approvers: seq<Approver>, allUsers: seq<User>, selection: Option<int>)
    ensures AddWarning(AddApprover(approvers, allUsers, selection).outcome).Some? <==>
      IsSelected(selection) && FindUser(allUsers, selection.value).Some?
      && HasApprover(approvers, selection.value)
    ensures var w := AddWarning(AddApprover(approvers, allUsers, selection).outcome);
      w.Some? ==> w.value == DuplicateWarning
  {
  }

  /** Adding keeps the chain invariant, whichever way the attempt ends. */
  lemma AddPreservesWellFormed(approvers: seq<Approver>, allUsers: seq<User>, selection: Option<int>)
    requires WellFormed(approvers)
    ensures WellFormed(AddApprover(approvers, allUsers, selection).approvers)
  {
  }

  // ---------------------------------------------------------------------------
  // Removing an approver
  // ---------------------------------------------------------------------------

  /** The filter predicate of the "Delete" handler. */
  function Keeps(userId: int): Approver -> bool {
    (a: Approver) => a.userId != userId
  }

  /** `map((a, index) => ({...a, sequence: index + 1}))`. */
  function Resequence(s: seq<Approver>): (r: seq<Approver>)
    ensures |r| == |s| && Dense(r)
    ensures forall i :: 0 <= i < |s| ==> r[i].userId == s[i].userId && r[i].name == s[i].name
  {
    seq(|s|, i requires 0 <= i < |s| => s[i].(sequence := i + 1))
  }

  /** Renumbering an already dense chain changes nothing. */
  lemma ResequenceDense(s: seq<Approver>)
    requires Dense(s)
    ensures Resequence(s) == s
  {
  }

  /** The "Delete" handler on values: drop the user, then renumber 1..n. */
  function RemoveApprover(approvers: seq<Approver>, userId: int): (r: seq<Approver>)
    ensures |r| <= |approvers| && Dense(r)
    ensures forall id :: HasApprover(r, id) <==> HasApprover(approvers, id) && id != userId
  {
    var filtered := Filter(approvers, Keeps(userId));
    FilterMembers(approvers, Keeps(userId));
    var r := Resequence(filtered);
    assert forall id :: HasApprover(r, id) <==> HasApprover(filtered, id);
    assert forall id :: HasApprover(filtered, id) <==> HasApprover(approvers, id) && id != userId by {
      forall id
        ensures HasApprover(filtered, id) <==> HasApprover(approvers, id) && id != userId
      {
        if HasApprover(approvers, id) && id != userId {
          var k :| 0 <= k < |approvers| && approvers[k].userId == id;
          assert approvers[k] in filtered;
        }
        if HasApprover(filtered, id) {
          var k :| 0 <= k < |filtered| && filtered[k].userId == id;
          assert filtered[k] in approvers;
        }
      }
    }
    r
  }

  /** Entry `i` after removal is the `i`-th surviving entry, renumbered to `i + 1`;
      survivors come from strictly increasing original positions, and every entry
      of another user survives. */
  lemma RemoveKeepsOrder(approvers: seq<Approver>, userId: int)
    ensures var r := RemoveApprover(approvers, userId);
      var p := Keeps(userId);
      && |r| == |Filter(approvers, p)|
      && (forall i :: 0 <= i < |r| ==>
            r[i] == approvers[FilterIndex(approvers, p, i)].(sequence := i + 1)
            && approvers[FilterIndex(approvers, p, i)].userId != userId)
      && (forall i, j :: 0 <= i < j < |r| ==> FilterIndex(approvers, p, i) < FilterIndex(approvers, p, j))
      && (forall k :: 0 <= k < |approvers| && approvers[k].userId != userId ==>
            exists i :: 0 <= i < |r| && FilterIndex(approvers, p, i) == k)
  {
    var p := Keeps(userId);
    forall i, j | 0 <= i < j < |Filter(approvers, p)|
      ensures FilterIndex(approvers, p, i) < FilterIndex(approvers, p, j)
    {
      FilterIndexIncreasing(approvers, p, i, j);
    }
    forall k | 0 <= k < |approvers| && approvers[k].userId != userId
      ensures exists i :: 0 <= i < |Filter(approvers, p)| && FilterIndex(approvers, p, i) == k
    {
      FilterIndexOnto(approvers, p, k);
    }
  }

  /** A subsequence chosen by Filter of a duplicate-free chain is duplicate-free. */
  lemma {:induction false} FilterKeepsDistinct(s: seq<Approver>, p: Approver -> bool)
    requires DistinctIds(s)
    ensures DistinctIds(Filter(s, p))
  {
    if s != [] {
      var tail := s[1..];
      assert DistinctIds(tail) by {
        forall i, j | 0 <= i < j < |tail| ensures tail[i].userId != tail[j].userId {
          assert tail[i] == s[i + 1] && tail[j] == s[j + 1];
        }
      }
      FilterKeepsDistinct(tail, p);
      var rest := Filter(tail, p);
      FilterMembers(tail, p);
      forall a | a in rest ensures a.userId != s[0].userId {
        assert a in tail;
        var j :| 0 <= j < |tail| && tail[j] == a;
        assert s[j + 1] == a;
      }
      var r := Filter(s, p);
      forall i, j | 0 <= i < j < |r| ensures r[i].userId != r[j].userId {
        if p(s[0]) {
          if i == 0 {
            assert r[j] == rest[j - 1] && r[j] in rest;
          } else {
            assert r[i] == rest[i - 1] && r[j] == rest[j - 1];
          }
        } else {
          assert r == rest;
        }
      }
    }
  }

  /** Removing keeps the chain invariant. */
  lemma RemovePreservesWellFormed(approvers: seq<Approver>, userId: int)
    requires WellFormed(approvers)
    ensures WellFormed(RemoveApprover(approvers, userId))
  {
    var filtered := Filter(approvers, Keeps(userId));
    FilterKeepsDistinct(approvers, Keeps(userId));
    var r := Resequence(filtered);
    assert forall i :: 0 <= i < |r| ==> r[i].userId == filtered[i].userId;
  }

  /** Removing a user who is not in a well-formed chain changes nothing. */
  lemma RemoveAbsent(approvers: seq<Approver>, userId: int)
    requires WellFormed(approvers) && !HasApprover(approvers, userId)
    ensures RemoveApprover(approvers, userId) == approvers
  {
    forall a | a in approvers ensures Keeps(userId)(a) {
      var k :| 0 <= k < |approvers| && approvers[k] == a;
    }
    FilterAll(approvers, Keeps(userId));
    ResequenceDense(approvers);
  }

  /** Removing the same user twice is the same as removing it once. */
  lemma RemoveIdempotent(approvers: seq<Approver>, userId: int)
    ensures RemoveApprover(RemoveApprover(approvers, userId), userId) == RemoveApprover(approvers, userId)
  {
    var once := RemoveApprover(approvers, userId);
    forall a | a in once ensures Keeps(userId)(a) {
      var k :| 0 <= k < |once| && once[k] == a;
      assert HasApprover(once, a.userId);
    }
    FilterAll(once, Keeps(userId));
    ResequenceDense(once);
  }

  /** Removing a user and adding them back puts them at the end of the chain. */
  lemma RemoveThenAdd(approvers: seq<Approver>, allUsers: seq<User>, userId: int)
    requires WellFormed(approvers) && userId != 0
    requires FindUser(allUsers, userId).Some?
    ensures var removed := RemoveApprover(approvers, userId);
      var r := AddApprover(removed, allUsers, Some(userId));
      && r.outcome == Added
      && WellFormed(r.approvers)
      && r.approvers[|r.approvers| - 1].userId == userId
      && r.approvers[|r.approvers| - 1].sequence == |r.approvers|
  {
    RemovePreservesWellFormed(approvers, userId);
    AddPreservesWellFormed(RemoveApprover(approvers, userId), allUsers, Some(userId));
  }
}
