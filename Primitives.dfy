/** Machine integers, optional values and the exceptions that escape the repositories. */
module Primitives {

  const Int32Min: int := -0x8000_0000
  const Int32Max: int := 0x7FFF_FFFF

  /** C#'s `int` (32-bit, two's complement). */
  type Int32 = x: int | -0x8000_0000 <= x <= 0x7FFF_FFFF

  /** The value an unchecked C# `int` operation yields when its exact result is `x`. */
  function Wrap32(x: int): (r: Int32)
    ensures Int32Min <= x <= Int32Max ==> r == x
    ensures (x - r) % 0x1_0000_0000 == 0
  {
    (x + 0x8000_0000) % 0x1_0000_0000 - 0x8000_0000
  }

  datatype Option<T> = None | Some(value: T)

  /** Exceptions that escape to callers. */
  datatype Fault =
    | IdentityInsertRejected   // SQL Server refuses an explicit value for an IDENTITY column
    | ConcurrencyConflict      // EF Core's DbUpdateConcurrencyException: an UPDATE matched no row
    | TemporaryKeyValue        // EF Core's InvalidOperationException: marking an entity with an unset generated key as Modified
    | NotNullViolation         // SQL Server refuses NULL in a NOT NULL column
    | OffsetFetchRejected      // SQL Server refuses a negative OFFSET or a FETCH of fewer than one row
    | NotImplemented           // NotImplementedException
    | SqlError                 // any SqlException from a connection or command

  /** The result of a call that either returns a value or throws. */
  datatype Outcome<T> = Returned(value: T) | Threw(fault: Fault)
}
