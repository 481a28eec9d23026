/** The discount-code entity of the stub service project. It differs from the
    application's entity only in its defaults: the amount and the expiration
    date have no initialiser, so they start at zero and at `DateTime.MinValue`. */
module StubDiscountCodeModel {
  import opened Basics
  import DiscountCodeModel

  class DiscountCode {
    var code: string
    var discountAmount: int
    var expirationDate: int
    var isActive: bool
    var isUsed: bool
    var createdAt: int
    var updatedAt: Option<int>
    var deletedAt: Option<int>

    /** The current field values, in the shape of the application's record. */
    function Snapshot(): DiscountCodeModel.CodeRecord
      reads this
    {
      DiscountCodeModel.CodeRecord(code, discountAmount, expirationDate, isActive, isUsed, createdAt, updatedAt, deletedAt)
    }

    /** The field initialisers, evaluated at time `now`. */
    constructor (now: int)
      ensures code == "" && isActive && !isUsed && !IsDeleted()
      ensures discountAmount == 0 && expirationDate == MinTime
      ensures createdAt == now && updatedAt == None && deletedAt == None
    {
      code := "";
      discountAmount := 0;
      expirationDate := MinTime;
      isActive := true;
      isUsed := false;
      createdAt := now;
      updatedAt := None;
      deletedAt := None;
    }

    /** `IsDeleted` holds exactly when `DeletedAt` has a value. */
    function IsDeleted(): (d: bool)
      reads this
      ensures d <==> Snapshot().IsDeleted()
    {
      deletedAt.Some?
    }

    /** Soft delete: stamps `DeletedAt` and deactivates; nothing else changes. */
    method MarkAsDeleted(now: int)
      modifies this
      ensures deletedAt == Some(now) && !isActive && IsDeleted()
      ensures Snapshot() == old(Snapshot()).MarkedDeleted(now)
      ensures code == old(code) && isUsed == old(isUsed) && expirationDate == old(expirationDate)
      ensures createdAt == old(createdAt) && updatedAt == old(updatedAt)
      ensures discountAmount == old(discountAmount)
    {
      deletedAt := Some(now);
      isActive := false;
    }
  }
}
