/** The minimum-files form validator (`min-files.validator.ts`). */
module MinFiles {
  import opened Wrappers
  import Decimal
  import Text

  /** The `minFiles` validation error. */
  datatype MinFilesError = MinFilesError(required: int, actual: nat, message: string)

  const MessagePrefix: string := "Vous devez uploader au moins "
  const MessageSuffix: string := " fichiers."

  function Message(min: int): string
  {
    MessagePrefix + Decimal.IntToString(min) + MessageSuffix
  }

  /** `minFilesValidator(min)` applied to a control value: a missing value
      passes; a list shorter than `min` fails, the empty list included, since
      an empty array is truthy. */
  function Validate<T>(min: int, value: Option<seq<T>>): (r: Option<MinFilesError>)
    ensures value.None? ==> r.None?
    ensures value.Some? && |value.value| >= min ==> r.None?
    ensures value.Some? && |value.value| < min ==>
              r.Some? && r.value.required == min && r.value.actual == |value.value|
    ensures r.Some? ==> r.value.message == Message(min)
  {
    match value
    case None => None
    case Some(files) =>
      if |files| < min then Some(MinFilesError(min, |files|, Message(min))) else None
  }

  /** The error message spells out the required count. */
  lemma MessageNamesMin(min: int)
    ensures Text.Contains(Message(min), Decimal.IntToString(min))
  {
    var m := Message(min);
    var d := Decimal.IntToString(min);
    assert m[|MessagePrefix|..|MessagePrefix| + |d|] == d;
    assert Text.OccursAt(m, d, |MessagePrefix|);
    Text.ContainsIffOccurs(m, d);
  }

  /** With a positive minimum, an empty list is an error. */
  lemma EmptyListFails<T>(min: int)
    requires min > 0
    ensures Validate<T>(min, Some([])) == Some(MinFilesError(min, 0, Message(min)))
  {
  }
}
