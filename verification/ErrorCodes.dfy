/** Error codes: a code is the set of flags or-ed together, and no flag means success. */
module ErrorCodes {

  datatype Flag =
    | RESOURCE_ERROR
    | ADDRESS_INVALID
    | TYPE_ERROR
    | TIMESTAMP_ERROR
    | NO_DATA_AVAILABLE
    | TIMESTAMP_TOO_OLD
    | NO_INTERPOLATE
    | TIMESTAMP_IN_FUTURE

  type Code = set<Flag>

  const OK: Code := {}
}
