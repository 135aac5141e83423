/** The values the validator inspects and the outcomes it reports (structs.go).

    Go reflection classifies a value by its Kind; here that classification is an
    explicit sum type, one constructor per branch of the validator's switch. */
module Values {

  /** A Go value as reflection presents it to the validator.
      Integer bit widths are not kept: the validator only compares with zero.
      The two flags record whether the dynamic type is exactly the predeclared
      `string` or `int`, which matters when a list element is compared with the
      untyped constants "" and 0 through an `interface{}`. */
  datatype Value =
    | Struct(fields: seq<Field>)          // reflect.Struct
    | Str(text: string, isGoString: bool) // reflect.String
    | Int(n: int, isGoInt: bool)          // reflect.Int, Int8, Int16, Int32, Int64
    | Uint(u: nat)                        // reflect.Uint, Uint8, Uint16, Uint32, Uint64
    | List(items: seq<Value>)             // reflect.Slice, reflect.Array
    | Bool(flag: bool)                    // reflect.Bool
    | Other                               // any other kind: float, complex, uintptr, map,
                                          // pointer, func, chan, a nil interface

  /** One field of a struct: its declared name, its struct tag and its current value. */
  datatype Field = Field(name: string, tag: string, value: Value)

  /** Why the list check rejected a slice or array. */
  datatype ListErr =
    | ListEmpty     // the list has no element
    | ElemEmptyStr  // an element is the `string` ""
    | ElemZero      // an element is the `int` 0

  /** The error the validator returns, naming the offending field. */
  datatype CheckError =
    | StrEmpty(name: string, tag: string)
    | IntZero(name: string, tag: string)
    | UintZero(name: string, tag: string)
    | InList(name: string, tag: string, cause: ListErr)
    | NotHandled(name: string, tag: string)

  /** `errors.Is(err, ErrNotHandled)`: only the default branch wraps the sentinel. */
  predicate IsNotHandled(e: CheckError) {
    e.NotHandled?
  }

  /** A Go `error` result: nil, or one error. */
  datatype Check<+E> = Pass | Fail(error: E)
}
