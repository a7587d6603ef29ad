/** The argument gate every public operation passes first. */
module Validation {
  import opened Results

  /** Storage a Go pointer refers to: the record the caller reads input
      from or receives results in. */
  class Cell<T> {
    var value: T

    constructor (v: T)
      ensures value == v
    {
      value := v;
    }
  }

  /** A record argument of type `interface{}`, as far as reflection sees it:
      a nil interface, a value passed by copy, or a pointer to storage. */
  datatype Ref<T> = Nil | NonPointer | Pointer(cell: Cell<T>) {

    /** The objects an operation may write through this argument. */
    function Footprint(): set<object>
    {
      if Pointer? then {cell} else {}
    }
  }

  /** The two checks at the head of every operation: `value == nil`
      gives `nullMsg` (the wording differs between operations), a value
      whose kind is not a pointer gives "value must be a pointer". */
  function Validate<T>(ref: Ref<T>, nullMsg: string): (e: Option<Error>)
    ensures e.None? <==> ref.Pointer?
    ensures ref.Nil? ==> e == Some(Text(nullMsg))
    ensures ref.NonPointer? ==> e == Some(Text(NotPointerMsg))
  {
    match ref
    case Nil => Some(Text(nullMsg))
    case NonPointer => Some(Text(NotPointerMsg))
    case Pointer(_) => None
  }
}
