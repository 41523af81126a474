/**
 * The approval pass of organization.py: every row whose status field,
 * lower-cased, is "false" is shown to the approver, and a "y" answer (in any
 * case) sets that field to "true". The approver's answers are given as a
 * sequence of decisions, consumed one per pending row, in row order.
 */
module Organization {
  import opened Text
  import Validator

  /** Every row has a status column (organization.py reads row[3] without a guard). */
  predicate HasStatus(rows: seq<seq<string>>)
  {
    forall i :: 0 <= i < |rows| ==> |rows[i]| >= 4
  }

  /** row[3].lower() == "false"; the field is not trimmed here. */
  predicate IsPending(row: seq<string>)
    requires |row| >= 4
  {
    EqualsIgnoringCase(row[3], "false")
  }

  /** status.lower() == "y" */
  predicate Approves(decision: string)
  {
    EqualsIgnoringCase(decision, "y")
  }

  /** The number of pending rows, which is the number of decisions a pass consumes. */
  function PendingCount(rows: seq<seq<string>>): nat
    requires HasStatus(rows)
  {
    if rows == [] then 0
    else PendingCount(rows[..|rows| - 1]) + (if IsPending(rows[|rows| - 1]) then 1 else 0)
  }

  /** A pending row after the approver's decision about it. */
  function Decide(row: seq<string>, decision: string): seq<string>
    requires |row| >= 4
  {
    if Approves(decision) then row[3 := "true"] else row
  }

  /** The rows after the pass: pending row number k (from 0) receives decisions[k]. */
  function ApprovalPass(rows: seq<seq<string>>, decisions: seq<string>): (result: seq<seq<string>>)
    requires HasStatus(rows) && PendingCount(rows) <= |decisions|
    ensures |result| == |rows|
  {
    if rows == [] then []
    else
      var prefix, last := rows[..|rows| - 1], rows[|rows| - 1];
      ApprovalPass(prefix, decisions)
      + [if IsPending(last) then Decide(last, decisions[PendingCount(prefix)]) else last]
  }

  lemma {:induction false} PendingCountMonotone(rows: seq<seq<string>>, i: nat)
    requires HasStatus(rows) && i <= |rows|
    ensures PendingCount(rows[..i]) <= PendingCount(rows)
    ensures i < |rows| && IsPending(rows[i]) ==> PendingCount(rows[..i]) < PendingCount(rows)
  {
    if i < |rows| {
      var prefix := rows[..|rows| - 1];
      assert rows[..i] == prefix[..i];
      if i < |rows| - 1 {
        assert rows[i] == prefix[i];
      }
      PendingCountMonotone(prefix, i);
    } else {
      assert rows[..i] == rows;
    }
  }

  /**
   * The pass row by row: a pending row gets the decision whose index is the
   * number of pending rows before it; every other row is kept.
   */
  lemma {:induction false} ApprovalPassAt(rows: seq<seq<string>>, decisions: seq<string>, i: nat)
    requires HasStatus(rows) && PendingCount(rows) <= |decisions| && i < |rows|
    ensures PendingCount(rows[..i]) <= PendingCount(rows)
    ensures IsPending(rows[i]) ==> PendingCount(rows[..i]) < |decisions|
    ensures ApprovalPass(rows, decisions)[i] ==
      if IsPending(rows[i]) then Decide(rows[i], decisions[PendingCount(rows[..i])]) else rows[i]
  {
    PendingCountMonotone(rows, i);
    var prefix := rows[..|rows| - 1];
    if i < |rows| - 1 {
      assert rows[i] == prefix[i];
      assert rows[..i] == prefix[..i];
      PendingCountMonotone(prefix, |prefix|);
      ApprovalPassAt(prefix, decisions, i);
    } else {
      assert rows[..i] == prefix;
    }
  }

  /**
   * Only field 3 is ever written, and only with "true": every row keeps its
   * length and every other field.
   */
  lemma OnlyStatusWritten(rows: seq<seq<string>>, decisions: seq<string>, i: nat)
    requires HasStatus(rows) && PendingCount(rows) <= |decisions| && i < |rows|
    ensures |ApprovalPass(rows, decisions)[i]| == |rows[i]|
    ensures forall f :: 0 <= f < |rows[i]| && f != 3 ==> ApprovalPass(rows, decisions)[i][f] == rows[i][f]
    ensures ApprovalPass(rows, decisions)[i][3] == rows[i][3] || ApprovalPass(rows, decisions)[i][3] == "true"
  {
    ApprovalPassAt(rows, decisions, i);
  }

  /**
   * A row changes exactly when it is pending and the decision it receives is
   * "y"; then its status becomes "true".
   */
  lemma ChangedExactlyWhenApproved(rows: seq<seq<string>>, decisions: seq<string>, i: nat)
    requires HasStatus(rows) && PendingCount(rows) <= |decisions| && i < |rows|
    ensures IsPending(rows[i]) ==> PendingCount(rows[..i]) < |decisions|
    ensures ApprovalPass(rows, decisions)[i] != rows[i] <==>
      IsPending(rows[i]) && Approves(decisions[PendingCount(rows[..i])])
    ensures ApprovalPass(rows, decisions)[i] != rows[i] ==> ApprovalPass(rows, decisions)[i] == rows[i][3 := "true"]
  {
    ApprovalPassAt(rows, decisions, i);
    if IsPending(rows[i]) {
      assert rows[i][3] != "true";
    }
  }

  /** Distinct pending rows receive distinct decisions, earlier rows earlier decisions. */
  lemma {:induction false} DecisionsInOrder(rows: seq<seq<string>>, i: nat, j: nat)
    requires HasStatus(rows) && i < j <= |rows|
    requires IsPending(rows[i])
    ensures PendingCount(rows[..i]) < PendingCount(rows[..j])
  {
    var upto := rows[..j];
    assert upto[..i] == rows[..i] && upto[i] == rows[i];
    PendingCountMonotone(upto, i);
  }

  lemma {:induction false} PendingCountAppend(rows: seq<seq<string>>, row: seq<string>)
    requires HasStatus(rows) && |row| >= 4
    ensures HasStatus(rows + [row])
    ensures PendingCount(rows + [row]) == PendingCount(rows) + (if IsPending(row) then 1 else 0)
  {
    assert (rows + [row])[..|rows|] == rows;
  }

  /**
   * When every decision is "y", no row is left pending, so a second pass
   * consumes no decision and changes nothing.
   */
  lemma {:induction false} AllApprovedLeavesNonePending(rows: seq<seq<string>>, decisions: seq<string>)
    requires HasStatus(rows) && PendingCount(rows) <= |decisions|
    requires forall k :: 0 <= k < |decisions| ==> Approves(decisions[k])
    ensures HasStatus(ApprovalPass(rows, decisions))
    ensures PendingCount(ApprovalPass(rows, decisions)) == 0
  {
    if rows != [] {
      var prefix, last := rows[..|rows| - 1], rows[|rows| - 1];
      AllApprovedLeavesNonePending(prefix, decisions);
      var row := if IsPending(last) then Decide(last, decisions[PendingCount(prefix)]) else last;
      if IsPending(last) {
        assert row[3] == "true";
      }
      PendingCountAppend(ApprovalPass(prefix, decisions), row);
    }
  }

  /** A pass over rows with nothing pending consumes nothing and leaves them as they are. */
  lemma {:induction false} PassWithoutPendingIsIdentity(rows: seq<seq<string>>, decisions: seq<string>)
    requires HasStatus(rows) && PendingCount(rows) == 0
    ensures ApprovalPass(rows, decisions) == rows
  {
    if rows != [] {
      var prefix := rows[..|rows| - 1];
      PendingCountMonotone(rows, |prefix|);
      PassWithoutPendingIsIdentity(prefix, decisions);
    }
  }

  /**
   * The pending test reads the status field without stripping it: a status
   * " false" strips to "false", so the validator accepts it, yet the row is
   * never pending and the pass never approves it.
   */
  lemma PaddedFalseNeverPending(row: seq<string>, decisions: seq<string>)
    requires |row| >= 4 && row[3] == " false"
    ensures Trim(row[3]) == "false" && Validator.IsStatusLiteral(Trim(row[3]))
    ensures !IsPending(row)
    ensures ApprovalPass([row], decisions) == [row]
  {
    var status := row[3];
    assert LeadingSpaces(status) == 1 by {
      assert status[1..] == "false";
    }
    assert TrailingSpaces(status[1..]) == 0;
    assert !IsPending(row);
    assert [row][..0] == [];
  }

  /** The pass over one more row is the pass over the prefix followed by that row's outcome. */
  lemma ApprovalPassExtend(rows: seq<seq<string>>, decisions: seq<string>, i: nat)
    requires HasStatus(rows) && PendingCount(rows) <= |decisions| && i < |rows|
    ensures HasStatus(rows[..i]) && HasStatus(rows[..i + 1])
    ensures PendingCount(rows[..i + 1]) == PendingCount(rows[..i]) + (if IsPending(rows[i]) then 1 else 0)
    ensures PendingCount(rows[..i + 1]) <= |decisions|
    ensures ApprovalPass(rows[..i + 1], decisions) == ApprovalPass(rows[..i], decisions)
      + [if IsPending(rows[i]) then Decide(rows[i], decisions[PendingCount(rows[..i])]) else rows[i]]
  {
    PendingCountMonotone(rows, i + 1);
    assert rows[..i + 1][..i] == rows[..i];
  }

  /**
   * The prompt for one row: it is pending when its status, lower-cased, is
   * "false", and then the next decision approves it when it is "y" in any case.
   */
  method Review(row: seq<string>, decisions: seq<string>, consumed: nat) returns (pending: bool, approved: bool)
    requires |row| >= 4
    requires IsPending(row) ==> consumed < |decisions|
    ensures pending == IsPending(row)
    ensures approved <==> pending && Approves(decisions[consumed])
  {
    EqualsIgnoringCaseIsLower(row[3], "false");
    pending, approved := Lower(row[3]) == "false", false;
    if pending {
      var decision := decisions[consumed];
      EqualsIgnoringCaseIsLower(decision, "y");
      approved := Lower(decision) == "y";
    }
  }

  /**
   * Step 2 of organization.py on rows already read into memory: the array keeps
   * its length and order, each pending row consumes the next decision, and
   * approving writes "true" into field 3.
   */
  method ApprovePending(rows: array<seq<string>>, decisions: seq<string>) returns (consumed: nat)
    requires HasStatus(rows[..])
    requires PendingCount(rows[..]) <= |decisions|
    modifies rows
    ensures rows[..] == ApprovalPass(old(rows[..]), decisions)
    ensures consumed == PendingCount(old(rows[..]))
  {
    ghost var original := rows[..];
    consumed := 0;
    var i := 0;
    while i < rows.Length
      invariant 0 <= i <= rows.Length
      invariant forall j :: i <= j < rows.Length ==> rows[j] == original[j]
      invariant HasStatus(original[..i]) && PendingCount(original[..i]) <= |decisions|
      invariant rows[..i] == ApprovalPass(original[..i], decisions)
      invariant consumed == PendingCount(original[..i])
    {
      ApprovalPassExtend(original, decisions, i);
      ghost var done := rows[..i];
      var row := rows[i];
      var pending, approved := Review(row, decisions, consumed);
      if pending {
        consumed := consumed + 1;
        if approved {
          rows[i] := row[3 := "true"];
        }
      }
      assert rows[..i + 1] == done + [rows[i]] by {
        assert forall j :: 0 <= j < i ==> rows[j] == done[j];
      }
      i := i + 1;
    }
    assert original[..i] == original;
  }
}
