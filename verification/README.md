# A verified model of the `checks` struct validator

The Go package `checks` (one file, `structs.go`) validates that no field of a
struct is left at its zero value. `StructureFields` walks a struct's fields in
declaration order and returns the error of the first field that fails.
`typesHandling` picks the rule for one field from the kind of its value:

- a nested struct is validated recursively;
- a string must not be `""`;
- a signed or unsigned integer must not be 0;
- a slice or array goes to `checkFieldsLists`;
- a bool is always accepted;
- any other kind is an error wrapping the sentinel `ErrNotHandled`.

`checkFieldsLists` rejects an empty list. Otherwise it rejects the first
element that equals `""` or `0` as an `interface{}`. That comparison only
matches an element whose dynamic type is exactly `string` or exactly `int`.

The model has three modules:

- `Values` (values.dfy): the data model. Reflection's kinds become the
  constructors of `Value`. A `Field` holds a name, a tag and a value. Go's `error`
  becomes `Check<CheckError>`, whose cases name the offending field.
  `IsNotHandled` stands for `errors.Is(err, ErrNotHandled)`.
- `Checks` (checks.dfy): the validator. `TypesHandling` is a function because the
  Go switch is pure. `StructureFields` and `CheckFieldsLists` are methods with
  `while` loops, because the Go code runs index loops with early returns. Each
  method is proved equal to a specification function: `FieldsCheck` and
  `ListCheck`. `TypesHandling` recurses through `FieldsCheck`, since a function
  cannot call a method.
- `Properties` (properties.dfy): lemmas about the model.
  - Fail-fast order: later fields are never examined.
  - Passing fields (bools, valid nested structs) can be added without changing
    the outcome.
  - Nested structs are transparent. Validation equals a flat scan of the
    depth-first leaf fields, so an error always names the innermost failing field.
  - The `ErrNotHandled` identity survives nesting.
  - The list check is shallow and type-blind.

A later revision of this validator adds a float case, an "ignore unsupported
types" option and more sentinel errors. `structs.go` has none of these, and
this model follows `structs.go`.

## Model

| member | source | states |
|---|---|---|
| `Checks.TypesHandling` | structs.go:36-61 | For a field that is not a struct: a string fails exactly when it is `""` (error StrEmpty). A signed integer fails exactly when it is 0 (IntZero); an unsigned one likewise (UintZero). A list fails exactly when the list check fails, and the list error is wrapped with the field's name and tag. A bool never fails. Any other kind always fails with an error for which `errors.Is(err, ErrNotHandled)` holds, and that is the only way to get such an error from a non-struct field. Every error from a non-struct field carries that field's name and tag. |
| `Checks.StructureFields` | structs.go:16-27 | The index loop over the fields, with early return, computes `FieldsCheck` of the struct's fields. The argument must be a struct. |
| `Checks.ScanItems` | structs.go:72-82 | The element scan passes exactly when no element is a `string` `""` or an `int` 0. When it fails, the error is the one of the lowest-index such element. |
| `Checks.ListCheck` | structs.go:67-83 | An empty list fails with ListEmpty. A non-empty list passes exactly when no element is a `string` `""` or an `int` 0. Otherwise it fails with the error of the lowest-index such element. |
| `Checks.CheckFieldsLists` | structs.go:67-83 | The emptiness test followed by the index loop with early returns computes `ListCheck`. |
| `Properties.FieldsCheckPasses` | structs.go:20-26 | A struct passes exactly when every one of its fields passes `TypesHandling`. |
| `Properties.FieldsCheckFirstFailure` | structs.go:20-24 | When a struct fails, there is a first failing field in declaration order (every earlier field passes), and the result is exactly that field's error. |
| `Properties.FirstFailureReported` | structs.go:20-24 | Whenever field k is the first failing field, the struct's result is exactly field k's error. |
| `Properties.FieldsCheckAppend` | structs.go:20-26 | Checking `a + b` gives `a`'s error if `a` fails, and `b`'s result otherwise. Fields after the first failure never affect the result. |
| `Properties.PassingFieldNeutral` | structs.go:20-26 | Inserting a field that passes its rule, at any position, leaves the struct's result unchanged. |
| `Properties.BoolFieldNeutral` | structs.go:56-57 | Inserting a bool field, true or false, at any position leaves the struct's result unchanged. |
| `Properties.ValidNestedNeutral` | structs.go:31-34 | Inserting a nested struct whose fields all pass leaves the outer result unchanged. |
| `Properties.FlattenFields` | structs.go:31-34 | Validating a struct gives the same result as validating the depth-first sequence of its non-struct leaf fields. |
| `Properties.FlattenField` | structs.go:29-34 | One field's result equals the flat scan of its own leaves. For a nested struct field, that is the nested struct's validation, and its error is returned unchanged rather than re-wrapped. For a non-struct field, it is the field alone. |
| `Properties.ErrorLocatesLeaf` | structs.go:31-61 | Every error comes from the first failing leaf field in depth-first declaration order. It carries that leaf's name and tag, never those of an enclosing struct field. |
| `Properties.NotHandledIffOtherLeaf` | structs.go:59-61 | `errors.Is(err, ErrNotHandled)` holds of the result exactly when the first failing leaf holds a value of an unhandled kind. |
| `Properties.ListElementsNotRecursed` | structs.go:72-80 | Suppose a non-empty list has no element whose dynamic type is exactly `string` or `int`. Then the list passes: other integer widths, named types, bools and nested structs in the list are never examined. |
| `Properties.FirstZeroElemReported` | structs.go:72-80 | Whenever element k is the lowest-index `""`/`0` element, the list check fails with exactly that element's error. |

## Left out

- Reflection itself (`reflect.ValueOf`, `Kind`, `NumField`, `Index`, `Type`) is not modelled. The `Value` datatype stands for what it reports.
- Go's type system is not modelled. The only part of a dynamic type the model keeps is whether a string or integer element has exactly the predeclared type `string` or `int`.
- Panics are left out: a non-struct argument to `StructureFields`, and `Interface()` on an unexported field. `StructureFields` instead requires a struct argument.
- An interface-typed field is modelled by the value it currently holds. A nil interface, a pointer, a map, a func, a chan, a float, a complex number and a `uintptr` are all `Other`.
- Error message text and `%w` wrapping chains are not modelled. Errors are structured constructors. The one identity kept is `ErrNotHandled`, as `IsNotHandled`. The list errors wrapped by the slice/array branch are fresh errors that never match the sentinel.
- Integer bit widths are not modelled. Values are unbounded, because the validator only compares them with zero.
- `CheckFieldsLists` takes the list's elements rather than a `reflect.Value` of slice or array kind.
- Cyclic values are not modelled. A Go struct value cannot contain itself: recursion through a pointer reaches the default branch. So the inductive `Value` type covers every input.
