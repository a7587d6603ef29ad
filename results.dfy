/** Error values and the outcomes of the delegated GORM steps. */
module Results {

  /** Go's `error` result: None is a nil error. */
  datatype Option<+T> = None | Some(value: T)

  /** An error reported by GORM or the SQL driver. `RecordNotFound` is GORM's
      sentinel `gorm.ErrRecordNotFound`; every other failure (constraint
      violation, syntax, lost connection, closed pool, ...) is a `Fault`. */
  datatype DriverError = RecordNotFound | Fault(text: string)

  /** An error returned by a dbOperation method. */
  datatype Error =
    | Text(msg: string)          // created by the wrapper itself (errors.New, fmt.Errorf)
    | Driver(cause: DriverError) // a GORM error handed back as it came

  /** How one delegated GORM step ends. The model does not compute it: the
      caller of a model method supplies it, as the database would. */
  datatype Outcome = Ok | Fail(error: DriverError)

  const ValueNullMsg: string := "value not be null"
  const OutNullMsg: string := "out not be null"
  const NotPointerMsg: string := "value must be a pointer"
  const NilConnectionMsg: string := "database connection is nil"
  const NoSqlDbPrefix: string := "failed to get underlying sql.DB: "
  const RecordNotFoundText: string := "record not found"

  /** The text `%v` prints for a driver error. */
  function Message(e: DriverError): string
  {
    match e
    case RecordNotFound => RecordNotFoundText
    case Fault(t) => t
  }

  /** The `.Error` of a step, as a Go error value. */
  function ErrorOf(o: Outcome): (e: Option<Error>)
    ensures e.None? <==> o.Ok?
    ensures o.Fail? ==> e == Some(Driver(o.error))
  {
    match o
    case Ok => None
    case Fail(d) => Some(Driver(d))
  }
}
