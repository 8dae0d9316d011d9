/** Sequences of state-changing calls, and what every such sequence preserves. */
module Workflow {
  import opened JsValues
  import opened Mongo
  import opened Documents
  import opened Accounts
  import opened Assets
  import opened Requests

  /** A call to one of the handlers that change the store (login and listing only read). */
  datatype Command =
    | CreateAssetCmd(form: AssetForm, now: Time)
    | ApproveCmd(id: Id, clock: ApproveClock)
    | RejectCmd(id: Id, hrEmail: JsValue)
    | RegisterHrCmd(hr: HrForm, now: Time)
    | RegisterEmployeeCmd(employee: EmployeeForm, now: Time)
    | RemoveEmployeeCmd(email: string)

  function Step(s: Store, c: Command): Store {
    match c
    case CreateAssetCmd(f, now) => CreateAsset(s, f, now).store
    case ApproveCmd(id, clock) => Approve(s, id, clock).store
    case RejectCmd(id, hrEmail) => Reject(s, id, hrEmail).store
    case RegisterHrCmd(f, now) => RegisterHr(s, f, now).store
    case RegisterEmployeeCmd(f, now) => RegisterEmployee(s, f, now).store
    case RemoveEmployeeCmd(email) => RemoveEmployee(s, email).store
  }

  /** The store after the calls have been handled one after another. */
  function Run(s: Store, cs: seq<Command>): Store
    decreases |cs|
  {
    if |cs| == 0 then s else Run(Step(s, cs[0]), cs[1..])
  }

  /** The number of assignment records that name asset `a`. */
  function CountFor(ea: seq<EmployeeAsset>, a: Id): nat {
    if |ea| == 0 then 0
    else CountFor(ea[..|ea| - 1], a) + (if ea[|ea| - 1].assetId == a then 1 else 0)
  }

  lemma {:induction false} CountAppend(xs: seq<EmployeeAsset>, ys: seq<EmployeeAsset>, a: Id)
    ensures CountFor(xs + ys, a) == CountFor(xs, a) + CountFor(ys, a)
    decreases |ys|
  {
    if |ys| == 0 {
      assert xs + ys == xs;
    } else {
      assert (xs + ys)[..|xs + ys| - 1] == xs + ys[..|ys| - 1];
      CountAppend(xs, ys[..|ys| - 1], a);
    }
  }

  lemma {:induction false} CountForAbsent(xs: seq<EmployeeAsset>, a: Id)
    requires forall j :: 0 <= j < |xs| ==> xs[j].assetId != a
    ensures CountFor(xs, a) == 0
    decreases |xs|
  {
    if |xs| > 0 {
      CountForAbsent(xs[..|xs| - 1], a);
    }
  }

  /** The number of approve calls in `cs` whose id names an existing request. */
  function Approvals(cs: seq<Command>, ids: set<Id>): nat {
    if |cs| == 0 then 0
    else Approvals(cs[1..], ids) + (if cs[0].ApproveCmd? && cs[0].id in ids then 1 else 0)
  }

  /** The one-call form of the ledger law: assignments are only appended, and every asset
      that existed before loses from each counter exactly the number of new records naming it. */
  ghost predicate LedgerStep(s: Store, t: Store) {
    && |s.employeeAssets| <= |t.employeeAssets|
    && t.employeeAssets[..|s.employeeAssets|] == s.employeeAssets
    && |s.assets| <= |t.assets|
    && forall a :: 0 <= a < |s.assets| ==>
         && t.assets[a].availableQuantity
              == s.assets[a].availableQuantity - CountFor(t.employeeAssets[|s.employeeAssets|..], a)
         && t.assets[a].productQuantity
              == s.assets[a].productQuantity - CountFor(t.employeeAssets[|s.employeeAssets|..], a)
  }

  lemma StepLedger(s: Store, c: Command)
    ensures LedgerStep(s, Step(s, c))
  {
  }

  /** Across any sequence of calls, assignment records are only ever appended, and each
      pre-existing asset's two counters have dropped by exactly the number of new assignment
      records naming it. */
  lemma {:induction false} LedgerConservation(s: Store, cs: seq<Command>)
    ensures LedgerStep(s, Run(s, cs))
    decreases |cs|
  {
    if |cs| == 0 {
      assert s.employeeAssets[|s.employeeAssets|..] == [];
    } else {
      var s1 := Step(s, cs[0]);
      var t := Run(s, cs);
      StepLedger(s, cs[0]);
      LedgerConservation(s1, cs[1..]);
      var n, n1 := |s.employeeAssets|, |s1.employeeAssets|;
      var x := t.employeeAssets;
      assert x[..n] == x[..n1][..n];
      assert x[n..] == x[n..n1] + x[n1..];
      assert x[n..n1] == s1.employeeAssets[n..];
      forall a | 0 <= a < |s.assets|
        ensures t.assets[a].availableQuantity == s.assets[a].availableQuantity - CountFor(x[n..], a)
        ensures t.assets[a].productQuantity == s.assets[a].productQuantity - CountFor(x[n..], a)
      {
        CountAppend(x[n..n1], x[n1..], a);
      }
    }
  }

  /** Requests are never created or deleted by these calls, and every approve call on an
      existing request appends exactly one assignment record: approvals are counted, not
      deduplicated. */
  lemma {:induction false} AssignmentsCountApprovals(s: Store, cs: seq<Command>)
    ensures Run(s, cs).requests.Keys == s.requests.Keys
    ensures |Run(s, cs).employeeAssets| == |s.employeeAssets| + Approvals(cs, s.requests.Keys)
    decreases |cs|
  {
    if |cs| > 0 {
      var s1 := Step(s, cs[0]);
      AssignmentsCountApprovals(s1, cs[1..]);
    }
  }

  /** Distinct account emails and distinct affiliation emails hold after any sequence of
      calls that starts from a store where they hold. */
  lemma {:induction false} RunPreservesValid(s: Store, cs: seq<Command>)
    requires Valid(s)
    ensures Valid(Run(s, cs))
    decreases |cs|
  {
    if |cs| > 0 {
      var c := cs[0];
      match c {
        case CreateAssetCmd(_, _) =>
        case ApproveCmd(id, clock) => ApprovePreservesValid(s, id, clock);
        case RejectCmd(_, _) =>
        case RegisterHrCmd(f, now) => RegisterHrPreservesValid(s, f, now);
        case RegisterEmployeeCmd(f, now) => RegisterEmployeePreservesValid(s, f, now);
        case RemoveEmployeeCmd(email) => RemovePreservesValid(s, email);
      }
      RunPreservesValid(Step(s, c), cs[1..]);
    }
  }

  /** Because approval decrements both counters, `productQuantity` and `availableQuantity`
      never drift apart: a store whose assets all have them equal keeps them equal. */
  lemma {:induction false} RunPreservesBalanced(s: Store, cs: seq<Command>)
    requires Balanced(s)
    ensures Balanced(Run(s, cs))
    decreases |cs|
  {
    if |cs| > 0 {
      var s1 := Step(s, cs[0]);
      assert Balanced(s1) by {
        if cs[0].CreateAssetCmd? {
          var o := CreateAsset(s, cs[0].form, cs[0].now);
          if o.reply.Ok? {
            forall a | 0 <= a < |s1.assets|
              ensures Issued(s1.assets[a]) == 0
            {
              if a < |s.assets| {
                assert s1.assets[a] == s.assets[a];
              }
            }
          }
        }
      }
      RunPreservesBalanced(s1, cs[1..]);
    }
  }

  /** The assignment names an asset that some request names. */
  ghost predicate NamesRequestedAsset(e: EmployeeAsset, requests: map<Id, Request>) {
    exists k :: k in requests && e.assetId == requests[k].assetId
  }

  /** One call keeps the request ids and the asset each request names, only appends
      assignments, and every assignment it appends names an asset some request names. */
  lemma StepKeepsRequestAssets(s: Store, c: Command)
    ensures Step(s, c).requests.Keys == s.requests.Keys
    ensures forall k :: k in s.requests ==> Step(s, c).requests[k].assetId == s.requests[k].assetId
    ensures |s.employeeAssets| <= |Step(s, c).employeeAssets|
    ensures Step(s, c).employeeAssets[..|s.employeeAssets|] == s.employeeAssets
    ensures forall j :: |s.employeeAssets| <= j < |Step(s, c).employeeAssets| ==>
      NamesRequestedAsset(Step(s, c).employeeAssets[j], s.requests)
  {
    StepLedger(s, c);
    if c.ApproveCmd? && c.id in s.requests {
      assert Step(s, c).employeeAssets[|s.employeeAssets|].assetId == s.requests[c.id].assetId;
    }
  }

  /** Over any sequence of calls the request ids and the asset each request names stay as
      they were, and every assignment written names an asset some request names. */
  lemma {:induction false} AssignmentsNameRequestedAssets(s: Store, cs: seq<Command>)
    ensures Run(s, cs).requests.Keys == s.requests.Keys
    ensures forall k :: k in s.requests ==> Run(s, cs).requests[k].assetId == s.requests[k].assetId
    ensures |s.employeeAssets| <= |Run(s, cs).employeeAssets|
    ensures Run(s, cs).employeeAssets[..|s.employeeAssets|] == s.employeeAssets
    ensures forall j :: |s.employeeAssets| <= j < |Run(s, cs).employeeAssets| ==>
      NamesRequestedAsset(Run(s, cs).employeeAssets[j], s.requests)
    decreases |cs|
  {
    LedgerConservation(s, cs);
    if |cs| > 0 {
      var s1 := Step(s, cs[0]);
      var t := Run(s1, cs[1..]);
      assert t == Run(s, cs);
      StepKeepsRequestAssets(s, cs[0]);
      AssignmentsNameRequestedAssets(s1, cs[1..]);
      LedgerConservation(s1, cs[1..]);
      forall j | |s.employeeAssets| <= j < |t.employeeAssets|
        ensures NamesRequestedAsset(t.employeeAssets[j], s.requests)
      {
        if j < |s1.employeeAssets| {
          assert t.employeeAssets[j] == t.employeeAssets[..|s1.employeeAssets|][j];
        } else {
          assert NamesRequestedAsset(t.employeeAssets[j], s1.requests);
          var k :| k in s1.requests && t.employeeAssets[j].assetId == s1.requests[k].assetId;
          assert t.employeeAssets[j].assetId == s.requests[k].assetId;
        }
      }
    }
  }

  /** If every request names an existing asset, this stays so, and no assignment written
      during any sequence of calls names an asset created during it. */
  lemma NewAssetsNeverAssigned(s: Store, cs: seq<Command>)
    requires RequestsReferenceAssets(s)
    ensures RequestsReferenceAssets(Run(s, cs))
    ensures |s.employeeAssets| <= |Run(s, cs).employeeAssets|
    ensures forall a :: |s.assets| <= a ==>
      CountFor(Run(s, cs).employeeAssets[|s.employeeAssets|..], a) == 0
  {
    var t := Run(s, cs);
    LedgerConservation(s, cs);
    AssignmentsNameRequestedAssets(s, cs);
    var added := t.employeeAssets[|s.employeeAssets|..];
    assert forall j :: 0 <= j < |added| ==> added[j] == t.employeeAssets[|s.employeeAssets| + j];
    forall a | |s.assets| <= a
      ensures CountFor(added, a) == 0
    {
      CountForAbsent(added, a);
    }
  }

  /** Handling `xs` and then `ys` is handling `xs + ys`. */
  lemma {:induction false} RunAppend(s: Store, xs: seq<Command>, ys: seq<Command>)
    ensures Run(s, xs + ys) == Run(Run(s, xs), ys)
    decreases |xs|
  {
    if |xs| > 0 {
      assert (xs + ys)[0] == xs[0];
      assert (xs + ys)[1..] == xs[1..] + ys;
      RunAppend(Step(s, xs[0]), xs[1..], ys);
    } else {
      assert xs + ys == ys;
    }
  }

  /** If every request names an existing asset, an asset inserted during `xs` keeps both
      counters through any later calls `ys`: no approval reaches it. */
  lemma NewAssetUntouched(s: Store, xs: seq<Command>, ys: seq<Command>, a: Id)
    requires RequestsReferenceAssets(s)
    requires |s.assets| <= a < |Run(s, xs).assets|
    ensures a < |Run(s, xs + ys).assets|
    ensures Run(s, xs + ys).assets[a].productQuantity == Run(s, xs).assets[a].productQuantity
    ensures Run(s, xs + ys).assets[a].availableQuantity == Run(s, xs).assets[a].availableQuantity
  {
    var m := Run(s, xs);
    var t := Run(s, xs + ys);
    RunAppend(s, xs, ys);
    LedgerConservation(s, xs);
    LedgerConservation(m, ys);
    AssignmentsNameRequestedAssets(s, xs + ys);
    var added := t.employeeAssets[|m.employeeAssets|..];
    forall j | 0 <= j < |added|
      ensures added[j].assetId != a
    {
      assert added[j] == t.employeeAssets[|m.employeeAssets| + j];
    }
    CountForAbsent(added, a);
  }
}
