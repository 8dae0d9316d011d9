/** `PATCH /requests/:id/approve` and `PATCH /requests/:id/reject`. */
module Requests {
  import opened JsValues
  import opened Mongo
  import opened Documents

  /** The three `new Date()` values an approval reads, one per write that stamps a time. */
  datatype ApproveClock = ApproveClock(approvalDate: Time, dateAssigned: Time, affiliationCreated: Time)

  /** The assignment record approval writes for a request. */
  function AssignmentFor(r: Request, now: Time): EmployeeAsset {
    EmployeeAsset(Stored(r.requesterEmail), Stored(r.requesterName), Stored(r.assetName), r.assetId, now)
  }

  /** The affiliation the upsert inserts when the requester has none. */
  function AffiliationFor(r: Request, now: Time): Affiliation {
    Affiliation(Stored(r.requesterEmail), Stored(r.companyName), now)
  }

  /** `PATCH /requests/:id/approve`. After finding the request it, in order: decrements both
      counters of the referenced asset, marks the request approved, records the assignment
      and upserts the requester's affiliation. Neither the request's status nor the asset's
      availability is consulted. */
  function Approve(s: Store, id: Id, clock: ApproveClock): (o: Outcome<()>)
    ensures id !in s.requests ==> o == Outcome(NotFound("Request not found"), s)
    ensures id in s.requests ==> o.reply == Ok(())
    ensures o.store.hrs == s.hrs && o.store.employees == s.employees
    // the asset ledger
    ensures |o.store.assets| == |s.assets|
    ensures forall a :: 0 <= a < |s.assets| ==> Issued(o.store.assets[a]) == Issued(s.assets[a])
    ensures forall a :: 0 <= a < |s.assets| && (id !in s.requests || a != s.requests[id].assetId) ==>
      o.store.assets[a] == s.assets[a]
    ensures id in s.requests && s.requests[id].assetId < |s.assets| ==>
      var a := s.requests[id].assetId;
      o.store.assets[a] == s.assets[a].(productQuantity := s.assets[a].productQuantity - 1,
                                         availableQuantity := s.assets[a].availableQuantity - 1)
    // the request
    ensures o.store.requests.Keys == s.requests.Keys
    ensures forall k :: k in s.requests && k != id ==> o.store.requests[k] == s.requests[k]
    ensures id in s.requests ==>
      var r, r' := s.requests[id], o.store.requests[id];
      && r'.status == Str("Approved")
      && r'.processedBy == Stored(r.hrEmail)
      && r'.approvalDate == Some(clock.approvalDate)
      && r'.(status := r.status, processedBy := r.processedBy, approvalDate := r.approvalDate) == r
    // the assignment record
    ensures id in s.requests ==>
      var r := s.requests[id];
      && |o.store.employeeAssets| == |s.employeeAssets| + 1
      && o.store.employeeAssets[..|s.employeeAssets|] == s.employeeAssets
      && o.store.employeeAssets[|s.employeeAssets|].employeeEmail == Stored(r.requesterEmail)
      && o.store.employeeAssets[|s.employeeAssets|].employeeName == Stored(r.requesterName)
      && o.store.employeeAssets[|s.employeeAssets|].assetName == Stored(r.assetName)
      && o.store.employeeAssets[|s.employeeAssets|].assetId == r.assetId
      && o.store.employeeAssets[|s.employeeAssets|].dateAssigned == clock.dateAssigned
    // the affiliation
    ensures id in s.requests ==>
      var r := s.requests[id];
      && (HasKey(s.affiliations, EmployeeEmailOf, Stored(r.requesterEmail)) ==>
            o.store.affiliations == s.affiliations)
      && (!HasKey(s.affiliations, EmployeeEmailOf, Stored(r.requesterEmail)) ==>
            && |o.store.affiliations| == |s.affiliations| + 1
            && o.store.affiliations[..|s.affiliations|] == s.affiliations
            && o.store.affiliations[|s.affiliations|].employeeEmail == Stored(r.requesterEmail)
            && o.store.affiliations[|s.affiliations|].companyName == Stored(r.companyName)
            && o.store.affiliations[|s.affiliations|].createdAt == clock.affiliationCreated)
  {
    if id !in s.requests then
      Outcome(NotFound("Request not found"), s)
    else
      var r := s.requests[id];
      var assets := IncQuantities(s.assets, r.assetId, -1, -1);
      var requests := s.requests[id := r.(status := Str("Approved"), approvalDate := Some(clock.approvalDate),
                                          processedBy := Stored(r.hrEmail))];
      var employeeAssets := s.employeeAssets + [AssignmentFor(r, clock.dateAssigned)];
      var affiliations := UpsertOnInsert(s.affiliations, EmployeeEmailOf, Stored(r.requesterEmail),
                                         AffiliationFor(r, clock.affiliationCreated));
      assert employeeAssets[..|s.employeeAssets|] == s.employeeAssets;
      Outcome(Ok(()), Store(s.hrs, s.employees, assets, requests, employeeAssets, affiliations))
  }

  /** `PATCH /requests/:id/reject`: an unconditional `$set` of status and processor. An id
      that matches no request is still answered with success. */
  function Reject(s: Store, id: Id, hrEmail: JsValue): (o: Outcome<()>)
    ensures o.reply == Ok(())
    ensures o.store == s.(requests := o.store.requests)
    ensures o.store.requests.Keys == s.requests.Keys
    ensures forall k :: k in s.requests && k != id ==> o.store.requests[k] == s.requests[k]
    ensures id in s.requests ==>
      var r, r' := s.requests[id], o.store.requests[id];
      && r'.status == Str("Rejected")
      && r'.processedBy == (if Truthy(hrEmail) then hrEmail else Str(""))
      && r'.(status := r.status, processedBy := r.processedBy) == r
  {
    if id in s.requests then
      var r := s.requests[id];
      Outcome(Ok(()), s.(requests := s.requests[id := r.(status := Str("Rejected"),
                                                          processedBy := OrElse(hrEmail, Str("")))]))
    else
      Outcome(Ok(()), s)
  }

  /** Approval is not idempotent: approving the same request twice records two assignments
      and takes two units off the asset, while the second affiliation upsert changes nothing. */
  lemma ApproveTwice(s: Store, id: Id, t1: ApproveClock, t2: ApproveClock)
    requires id in s.requests
    ensures var s1 := Approve(s, id, t1).store;
            var s2 := Approve(s1, id, t2).store;
            && Approve(s1, id, t2).reply == Ok(())
            && |s2.employeeAssets| == |s.employeeAssets| + 2
            && s2.employeeAssets[|s.employeeAssets|].assetId == s.requests[id].assetId
            && s2.employeeAssets[|s.employeeAssets| + 1].assetId == s.requests[id].assetId
            && s2.affiliations == s1.affiliations
            && s2 != s1
            && (s.requests[id].assetId < |s.assets| ==>
                  s2.assets[s.requests[id].assetId].availableQuantity
                    == s.assets[s.requests[id].assetId].availableQuantity - 2)
  {
  }

  /** Approval lets the available count go below zero: there is no availability check. */
  lemma ApproveWithoutStock(s: Store, id: Id, clock: ApproveClock)
    requires id in s.requests && s.requests[id].assetId < |s.assets|
    requires s.assets[s.requests[id].assetId].availableQuantity == 0
    ensures Approve(s, id, clock).reply == Ok(())
    ensures Approve(s, id, clock).store.assets[s.requests[id].assetId].availableQuantity == -1
  {
  }

  /** Rejecting twice is the same as rejecting once. */
  lemma RejectIdempotent(s: Store, id: Id, hrEmail: JsValue)
    ensures Reject(Reject(s, id, hrEmail).store, id, hrEmail) == Reject(s, id, hrEmail)
  {
  }

  /** Rejecting an approved request overwrites its status but undoes none of the approval's
      effects: the decremented counters, the assignment record and the affiliation stay. */
  lemma RejectAfterApprove(s: Store, id: Id, clock: ApproveClock, hrEmail: JsValue)
    requires id in s.requests
    ensures var s1 := Approve(s, id, clock).store;
            var s2 := Reject(s1, id, hrEmail).store;
            && s2.requests[id].status == Str("Rejected")
            && s2.assets == s1.assets
            && s2.employeeAssets == s1.employeeAssets
            && s2.affiliations == s1.affiliations
            && |s2.employeeAssets| == |s.employeeAssets| + 1
  {
  }

  /** The approval's affiliation step keeps affiliations keyed uniquely. */
  lemma ApprovePreservesValid(s: Store, id: Id, clock: ApproveClock)
    requires Valid(s)
    ensures Valid(Approve(s, id, clock).store)
  {
  }
}
