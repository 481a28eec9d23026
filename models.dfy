/** The discount-code entity of the application project: the value that the
    store and the cache hold (CodeRecord) and the mutable entity object with
    its constructor defaults and `MarkAsDeleted`. */
module DiscountCodeModel {
  import opened Basics

  /** Default amount of a fresh code, in cents (10.0). */
  const DefaultAmount: int := 1000
  /** A fresh code expires this many days after construction. */
  const DefaultLifetimeDays: int := 30

  /** One row of the DiscountCodes table, as a value. The amount is in cents. */
  datatype CodeRecord = CodeRecord(
    code: string,
    discountAmount: int,
    expirationDate: int,
    isActive: bool,
    isUsed: bool,
    createdAt: int,
    updatedAt: Option<int>,
    deletedAt: Option<int>)
  {
    /** The derived, unmapped `IsDeleted` view. */
    predicate IsDeleted() {
      deletedAt.Some?
    }

    /** The documented entity invariant: a deleted code is inactive. */
    predicate DeletedImpliesInactive() {
      IsDeleted() ==> !isActive
    }

    /** The record after `MarkAsDeleted` at time `now`. */
    function MarkedDeleted(now: int): (r: CodeRecord)
      ensures r.IsDeleted() && !r.isActive && r.DeletedImpliesInactive()
      ensures r.deletedAt == Some(now)
      ensures r.code == code && r.isUsed == isUsed && r.expirationDate == expirationDate
      ensures r.createdAt == createdAt && r.updatedAt == updatedAt && r.discountAmount == discountAmount
    {
      this.(deletedAt := Some(now), isActive := false)
    }
  }

  /** The record a parameterless construction at time `now` produces. */
  function Initial(now: int): CodeRecord {
    CodeRecord("", DefaultAmount, now + DefaultLifetimeDays * SecondsPerDay, true, false, now, None, None)
  }

  /** A fresh record is live: active, unused, not deleted, never updated, and
      it expires thirty days after it was built, with amount 10.0. */
  lemma InitialIsLive(now: int)
    ensures var r := Initial(now);
      && r.isActive && !r.isUsed && !r.IsDeleted() && r.updatedAt == None
      && r.expirationDate == now + 30 * SecondsPerDay && r.discountAmount == 1000
      && r.createdAt == now && r.DeletedImpliesInactive()
  {
  }

  /** The entity object. Its fields are updated in place. */
  class DiscountCode {
    var code: string
    var discountAmount: int
    var expirationDate: int
    var isActive: bool
    var isUsed: bool
    var createdAt: int
    var updatedAt: Option<int>
    var deletedAt: Option<int>

    /** The current field values as a record. */
    function Snapshot(): CodeRecord
      reads this
    {
      CodeRecord(code, discountAmount, expirationDate, isActive, isUsed, createdAt, updatedAt, deletedAt)
    }

    /** The field initialisers, evaluated at time `now`. */
    constructor (now: int)
      ensures Snapshot() == Initial(now)
      ensures code == "" && isActive && !isUsed && !IsDeleted()
      ensures expirationDate == now + 30 * SecondsPerDay && discountAmount == DefaultAmount
      ensures createdAt == now && updatedAt == None && deletedAt == None
    {
      code := "";
      discountAmount := DefaultAmount;
      expirationDate := now + DefaultLifetimeDays * SecondsPerDay;
      isActive := true;
      isUsed := false;
      createdAt := now;
      updatedAt := None;
      deletedAt := None;
    }

    /** `IsDeleted` holds exactly when `DeletedAt` has a value. */
    function IsDeleted(): (d: bool)
      reads this
      ensures d <==> Snapshot().IsDeleted()
    {
      deletedAt.Some?
    }

    /** Soft delete: stamps `DeletedAt` and deactivates; nothing else changes. */
    method MarkAsDeleted(now: int)
      modifies this
      ensures deletedAt == Some(now) && !isActive && IsDeleted()
      ensures Snapshot() == old(Snapshot()).MarkedDeleted(now)
      ensures code == old(code) && isUsed == old(isUsed) && expirationDate == old(expirationDate)
      ensures createdAt == old(createdAt) && updatedAt == old(updatedAt)
      ensures discountAmount == old(discountAmount)
    {
      deletedAt := Some(now);
      isActive := false;
    }
  }
}
