/** The `Technician` entity: one row of the Technicians table. */
module Technicians {
  import opened Primitives
  import opened Text

  /** A `DateTimeOffset`, kept opaque: only equality matters to the model. */
  datatype Timestamp = Timestamp(utcTicks: int)

  /** The value of `default(DateTimeOffset)`. */
  const DefaultTimestamp := Timestamp(0)

  /**
   * One technician. `id` is the store-generated key (0 until the store assigns one);
   * `active` is three-valued (null, false, true); `createdBy` and `name` may be null.
   */
  datatype Technician = Technician(
    id: int,
    active: Option<bool>,
    isDeleted: bool,
    created: Timestamp,
    createdBy: Option<string>,
    name: Option<string>,
    displayOrder: Int32)

  /** The longest name the validation attributes admit. */
  const NameMaxLength := 100

  /** `new Technician()`: what both repositories return for "not found". */
  function Default(): (t: Technician)
    ensures !IsValid(t)
  {
    Technician(0, None, false, DefaultTimestamp, None, None, 0)
  }

  /**
   * The validation attributes on the entity: `[Required]` rejects a null, empty or
   * white-space-only name, `[StringLength(100)]` a longer one.
   */
  predicate IsValid(t: Technician) {
    t.name.Some? && !IsBlank(t.name.value) && |t.name.value| <= NameMaxLength
  }

  /** A valid name has between 1 and 100 characters and at least one that is not white space. */
  lemma ValidNameBounds(t: Technician)
    requires IsValid(t)
    ensures 1 <= |t.name.value| <= NameMaxLength
    ensures exists i :: 0 <= i < |t.name.value| && !IsWhiteSpace(t.name.value[i])
  {
  }
}
