/** The conventional optional value. */
module Wrappers {
  datatype Option<+T> = None | Some(value: T)
}

/**
 * An Airtable record's field mapping, as the reconciliation loop reads it,
 * and the qualification rule applied to it.
 */
module Fields {

  /** A field value: Python's None, or a string. */
  datatype FieldValue = Null | Text(s: string)

  /** The `fields` dictionary of one record. */
  type FieldMap = map<string, FieldValue>

  /** `fields.get(key)`: None when the key is absent. */
  function Get(fields: FieldMap, key: string): FieldValue
  {
    if key in fields then fields[key] else Null
  }

  /** Python truthiness of a field value: a non-empty string. */
  predicate Truthy(v: FieldValue)
  {
    v.Text? && v.s != ""
  }

  /** `value or ""`. */
  function OrEmpty(v: FieldValue): string
  {
    if Truthy(v) then v.s else ""
  }

  /** The key holds a non-empty string (said without going through Get). */
  predicate Filled(fields: FieldMap, key: string)
  {
    key in fields && fields[key] != Null && |fields[key].s| > 0
  }

  /**
   * `is_qualified`: a lead qualifies when it has both an email and a company.
   * It is total: any field map, the empty one included, gets a verdict.
   */
  function IsQualified(fields: FieldMap): (q: bool)
    ensures q <==> Filled(fields, "Email") && Filled(fields, "Company")
    ensures fields == map[] ==> !q
  {
    Truthy(Get(fields, "Email")) && Truthy(Get(fields, "Company"))
  }
}
