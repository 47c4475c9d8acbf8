/** The field-type acceptance table (airbase/validations.py). */
module Validations {
  import opened Values

  /** The field types the service defines. */
  const FieldTypes: seq<string> := [
    "singleLineText", "email", "url", "multilineText", "number", "percent",
    "currency", "singleSelect", "multipleSelects", "singleCollaborator",
    "multipleCollaborators", "multipleRecordLinks", "dateTime", "phoneNumber",
    "multipleAttachments", "checkbox", "formula", "rollup", "count",
    "multipleLookupValues", "autoNumber", "barcode"
  ]

  /** Field types that take a string. */
  const TextTypes: seq<string> := ["singleLineText", "email", "url", "multilineText", "singleSelect"]

  /** Field types that take a list or a tuple. */
  const MultipleTypes: seq<string> := ["multipleSelects", "multipleCollaborators", "multipleRecordLinks", "multipleAttachments"]

  /** is_value_acceptable: None is the failed assertion on an unknown field
      type; otherwise the function returns True or falls off its end (Python
      None). */
  function IsValueAcceptable(val: Value, fieldType: string): (r: Option<Value>)
    ensures r.None? <==> fieldType !in FieldTypes
    ensures r.Some? ==> r.value == VBool(true) || r.value == VNone
    ensures r == Some(VBool(true)) <==>
              (fieldType in FieldTypes && ((val.VStr? && fieldType in TextTypes) || ((val.VList? || val.VTuple?) && fieldType in MultipleTypes)))
  {
    if fieldType !in FieldTypes then None
    else if val.VStr? && fieldType in TextTypes then Some(VBool(true))
    else if val.VList? && fieldType in MultipleTypes then Some(VBool(true))
    else if val.VTuple? && fieldType in MultipleTypes then Some(VBool(true))
    else Some(VNone)
  }

  /** Every accepting type is a known type, so the accepted combinations are
      exactly the text ones and the multiple ones. */
  lemma AcceptingTypesAreKnown()
    ensures forall t :: t in TextTypes ==> t in FieldTypes
    ensures forall t :: t in MultipleTypes ==> t in FieldTypes
  {
  }

  /** No value is accepted for a number-like or computed type: the call gives
      None for each of them. */
  lemma NumberTypesAcceptNothing(val: Value, fieldType: string)
    requires fieldType in ["number", "percent", "currency", "checkbox", "dateTime", "autoNumber", "count", "formula", "rollup"]
    ensures IsValueAcceptable(val, fieldType) == Some(VNone)
  {
  }
}
