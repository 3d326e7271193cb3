/** The trigger lease and its MongoDB backend: pkg/triggers/lease.go and lease_backend.go. */
module Lease {
  import opened Collections

  /** defaultMaxLeaseDuration, one minute in nanoseconds. */
  const MAX_LEASE_DURATION: int := 60_000_000_000
  const DOCUMENT_TYPE := "lease"

  datatype Lease = Lease(identifier: string, clusterId: string, acquiredAt: int, renewedAt: int)

  function NewLease(id: string, clusterId: string, now: int): Lease {
    Lease(id, clusterId, now, now)
  }

  function NewLeaseMongoId(clusterId: string): string {
    DOCUMENT_TYPE + "-" + clusterId
  }

  predicate IsExpired(lease: Lease, now: int) {
    lease.renewedAt < now - MAX_LEASE_DURATION
  }

  predicate Names(lease: Lease, id: string, clusterId: string) {
    lease.identifier == id && lease.clusterId == clusterId
  }

  datatype LeaseStatus = LeaseStatus(acquired: bool, renewable: bool)

  function StatusOf(lease: Lease, id: string, clusterId: string, now: int): LeaseStatus {
    if IsExpired(lease, now) then LeaseStatus(false, true)
    else if Names(lease, id, clusterId) then LeaseStatus(true, false)
    else LeaseStatus(false, false)
  }

  /** What goes wrong with the database during one call. A write may be applied although its reply is lost. */
  datatype Fault = Healthy | ReadFails | WriteFails(applied: bool)

  datatype Acquisition = Acquisition(document: Option<Lease>, leased: bool)

  function Written(document: Option<Lease>, lease: Lease, fault: Fault): Acquisition {
    match fault
    case WriteFails(applied) => Acquisition(if applied then Some(lease) else document, false)
    case _ => Acquisition(Some(lease), true)
  }

  /** TryAcquire as one atomic step at one instant: the document afterwards and what the lease checker passes on. */
  function Acquire(document: Option<Lease>, id: string, clusterId: string, now: int, fault: Fault): Acquisition {
    if fault.ReadFails? then Acquisition(document, false)
    else if document.None? then Written(document, NewLease(id, clusterId, now), fault)
    else
      var lease := document.value;
      if IsExpired(lease, now) then
        Written(document, Lease(id, clusterId, if lease.identifier == id then lease.acquiredAt else now, now), fault)
      else Acquisition(document, Names(lease, id, clusterId))
  }

  /**
   * When the lease is granted, by what is stored: to anyone if there is none or it was not renewed for longer than a
   * lease duration, and otherwise to its holder alone. Only where it has to be written can the write fail.
   */
  lemma GrantedIff(document: Option<Lease>, id: string, clusterId: string, now: int, fault: Fault)
    ensures Acquire(document, id, clusterId, now, Healthy).leased <==>
      || document.None?
      || document.value.renewedAt < now - MAX_LEASE_DURATION
      || (document.value.identifier == id && document.value.clusterId == clusterId)
    ensures Acquire(document, id, clusterId, now, fault).leased <==>
      && fault != ReadFails
      && (if document.None? || document.value.renewedAt < now - MAX_LEASE_DURATION then fault == Healthy
          else document.value.identifier == id && document.value.clusterId == clusterId)
  {
  }

  /** What is stored then: a lease that is missing or ran out is written anew, any other stays. */
  lemma RenewedIff(document: Option<Lease>, id: string, clusterId: string, now: int, fault: Fault)
    ensures var after := Acquire(document, id, clusterId, now, fault).document;
      if fault in {ReadFails, WriteFails(false)} then after == document
      else if document.Some? && document.value.renewedAt >= now - MAX_LEASE_DURATION then after == document
      else
        && after.Some? && after.value.identifier == id && after.value.clusterId == clusterId
        && after.value.renewedAt == now
        && after.value.acquiredAt ==
             (if document.Some? && document.value.identifier == id then document.value.acquiredAt else now)
  {
  }

  function DocumentAt(documents: map<string, Lease>, key: string): Option<Lease> {
    if key in documents then Some(documents[key]) else None
  }

  /** The backend over its collection, whose documents have unique ids. None is returned for an error. */
  class MongoLeaseBackend {
    var documents: map<string, Lease>

    constructor ()
      ensures documents == map[]
    {
      documents := map[];
    }

    /** InsertOne refuses a second document with the same id. */
    method InsertLease(leaseMongoId: string, id: string, clusterId: string, now: int, fault: Fault)
      returns (inserted: Option<Lease>)
      modifies this
      ensures leaseMongoId in old(documents) ==> documents == old(documents) && inserted.None?
      ensures leaseMongoId !in old(documents) ==>
        inserted == (if fault.WriteFails? then None else Some(NewLease(id, clusterId, now)))
      ensures leaseMongoId !in old(documents) ==>
        documents == (if fault == WriteFails(false) then old(documents)
                      else old(documents)[leaseMongoId := NewLease(id, clusterId, now)])
    {
      if leaseMongoId in documents {
        return None;
      }
      var lease := NewLease(id, clusterId, now);
      if fault != WriteFails(false) {
        documents := documents[leaseMongoId := lease];
      }
      return if fault.WriteFails? then None else Some(lease);
    }

    method FindOrInsertCurrentLease(leaseMongoId: string, id: string, clusterId: string, now: int, fault: Fault)
      returns (lease: Option<Lease>)
      modifies this
      ensures fault.ReadFails? ==> lease.None? && documents == old(documents)
      ensures !fault.ReadFails? && leaseMongoId in old(documents) ==>
        lease == Some(old(documents)[leaseMongoId]) && documents == old(documents)
      ensures !fault.ReadFails? && leaseMongoId !in old(documents) ==>
        lease == (if fault.WriteFails? then None else Some(NewLease(id, clusterId, now)))
      ensures !fault.ReadFails? && leaseMongoId !in old(documents) ==>
        documents == (if fault == WriteFails(false) then old(documents)
                      else old(documents)[leaseMongoId := NewLease(id, clusterId, now)])
    {
      if fault.ReadFails? {
        return None;
      }
      if leaseMongoId !in documents {
        lease := InsertLease(leaseMongoId, id, clusterId, now, fault);
        return;
      }
      return Some(documents[leaseMongoId]);
    }

    /** FindOneAndUpdate with a filter on the id alone. */
    method TryUpdateLease(
        leaseMongoId: string, id: string, clusterId: string, acquiredAt: int, now: int, fault: Fault)
      returns (updated: Option<Lease>)
      modifies this
      ensures leaseMongoId !in old(documents) ==> updated.None? && documents == old(documents)
      ensures leaseMongoId in old(documents) ==>
        updated == (if fault.WriteFails? then None else Some(Lease(id, clusterId, acquiredAt, now)))
      ensures leaseMongoId in old(documents) ==>
        documents == (if fault == WriteFails(false) then old(documents)
                      else old(documents)[leaseMongoId := Lease(id, clusterId, acquiredAt, now)])
    {
      if leaseMongoId !in documents {
        return None;
      }
      var newLease := Lease(id, clusterId, acquiredAt, now);
      if fault != WriteFails(false) {
        documents := documents[leaseMongoId := newLease];
      }
      return if fault.WriteFails? then None else Some(newLease);
    }

    /**
     * A caller is told true only while the stored lease names it and is not expired, and it may take the lease from
     * another holder only when that lease is expired. Other clusters' documents stay as they are.
     */
    method TryAcquire(id: string, clusterId: string, now: int, fault: Fault) returns (leased: bool)
      modifies this
      ensures var key := NewLeaseMongoId(clusterId);
        Acquisition(DocumentAt(documents, key), leased) ==
          Acquire(DocumentAt(old(documents), key), id, clusterId, now, fault)
      ensures documents - {NewLeaseMongoId(clusterId)} == old(documents) - {NewLeaseMongoId(clusterId)}
      ensures leased ==>
        && NewLeaseMongoId(clusterId) in documents
        && StatusOf(documents[NewLeaseMongoId(clusterId)], id, clusterId, now).acquired
      ensures var document := DocumentAt(old(documents), NewLeaseMongoId(clusterId));
        fault.Healthy? ==>
          (leased <==>
            || document.None? || document.value.renewedAt < now - MAX_LEASE_DURATION
            || (document.value.identifier == id && document.value.clusterId == clusterId))
    {
      var leaseMongoId := NewLeaseMongoId(clusterId);
      var currentLease := FindOrInsertCurrentLease(leaseMongoId, id, clusterId, now, fault);
      if currentLease.None? {
        return false;
      }
      var status := StatusOf(currentLease.value, id, clusterId, now);
      if status.acquired {
        return true;
      }
      if !status.renewable {
        return false;
      }
      var acquiredAt := currentLease.value.acquiredAt;
      if currentLease.value.identifier != id {
        acquiredAt := now;
      }
      var newLease := TryUpdateLease(leaseMongoId, id, clusterId, acquiredAt, now, fault);
      if newLease.None? {
        return false;
      }
      leased := StatusOf(newLease.value, id, clusterId, now).acquired;
    }
  }

  /** Clusters do not share a document. */
  lemma MongoIdIsInjective(a: string, b: string)
    requires NewLeaseMongoId(a) == NewLeaseMongoId(b)
    ensures a == b
  {
    var n := |DOCUMENT_TYPE + "-"|;
    assert a == NewLeaseMongoId(a)[n..];
    assert b == NewLeaseMongoId(b)[n..];
  }
}
