/** What the validator of structs.go promises, stated over the model in
    module Checks: fail-fast order, transparency of nested structs, the
    survival of the ErrNotHandled sentinel and the shallowness of the list check. */
module Properties {
  import opened Values
  import opened Checks

  // ---------------------------------------------------------------------------
  // Declaration order and fail-fast
  // ---------------------------------------------------------------------------

  /** A struct passes exactly when every one of its fields passes. */
  lemma {:induction false} FieldsCheckPasses(fs: seq<Field>)
    decreases fs
    ensures FieldsCheck(fs).Pass? <==> forall k :: 0 <= k < |fs| ==> TypesHandling(fs[k]).Pass?
  {
    if fs != [] && TypesHandling(fs[0]).Pass? {
      var tail := fs[1..];
      assert FieldsCheck(fs) == FieldsCheck(tail);
      FieldsCheckPasses(tail);
      assert forall k :: 1 <= k < |fs| ==> fs[k] == tail[k - 1];
    }
  }

  /** A failing struct reports the error of its first failing field in
      declaration order. */
  lemma {:induction false} FieldsCheckFirstFailure(fs: seq<Field>)
    decreases fs
    ensures FieldsCheck(fs).Fail? ==>
              exists k :: FirstFailingAt(fs, k) && FieldsCheck(fs) == TypesHandling(fs[k])
  {
    if fs == [] {
    } else if TypesHandling(fs[0]).Fail? {
      assert FirstFailingAt(fs, 0);
    } else {
      var tail := fs[1..];
      assert FieldsCheck(fs) == FieldsCheck(tail);
      FieldsCheckFirstFailure(tail);
      if FieldsCheck(tail).Fail? {
        var k :| FirstFailingAt(tail, k) && FieldsCheck(tail) == TypesHandling(tail[k]);
        assert forall j :: 0 <= j <= k ==> fs[j + 1] == tail[j];
        assert FirstFailingAt(fs, k + 1);
      }
    }
  }

  /** The reported error is the one of the first failing field. */
  lemma {:induction false} FirstFailureReported(fs: seq<Field>, k: int)
    requires FirstFailingAt(fs, k)
    ensures FieldsCheck(fs) == TypesHandling(fs[k])
  {
    if k > 0 {
      assert TypesHandling(fs[0]).Pass?;
      var tail := fs[1..];
      assert forall j :: 0 <= j < k ==> tail[j] == fs[j + 1];
      assert FirstFailingAt(tail, k - 1);
      FirstFailureReported(tail, k - 1);
    }
  }

  /** Checking `a + b` checks `a` first and looks at `b` only when every field
      of `a` passed: the fields after the first failure are never examined. */
  lemma {:induction false} FieldsCheckAppend(a: seq<Field>, b: seq<Field>)
    ensures FieldsCheck(a + b) == if FieldsCheck(a).Pass? then FieldsCheck(b) else FieldsCheck(a)
  {
    if a == [] {
      assert a + b == b;
    } else {
      assert (a + b)[0] == a[0];
      assert (a + b)[1..] == a[1..] + b;
      FieldsCheckAppend(a[1..], b);
    }
  }

  /** A field that passes its rule can be added anywhere without changing the outcome. */
  lemma PassingFieldNeutral(a: seq<Field>, f: Field, c: seq<Field>)
    requires TypesHandling(f).Pass?
    ensures FieldsCheck(a + [f] + c) == FieldsCheck(a + c)
  {
    FieldsCheckAppend(a + [f], c);
    FieldsCheckAppend(a, [f]);
    FieldsCheckAppend(a, c);
    assert FieldsCheck([f]) == Pass;
  }

  /** A bool field never causes a failure, whether it holds true or false. */
  lemma BoolFieldNeutral(a: seq<Field>, name: string, tag: string, b: bool, c: seq<Field>)
    ensures FieldsCheck(a + [Field(name, tag, Bool(b))] + c) == FieldsCheck(a + c)
  {
    PassingFieldNeutral(a, Field(name, tag, Bool(b)), c);
  }

  /** A nested struct whose own fields all pass adds no error. */
  lemma ValidNestedNeutral(a: seq<Field>, name: string, tag: string, inner: seq<Field>, c: seq<Field>)
    requires FieldsCheck(inner).Pass?
    ensures FieldsCheck(a + [Field(name, tag, Struct(inner))] + c) == FieldsCheck(a + c)
  {
    PassingFieldNeutral(a, Field(name, tag, Struct(inner)), c);
  }

  // ---------------------------------------------------------------------------
  // Nested structs are transparent: validation is a flat scan of the leaves
  // ---------------------------------------------------------------------------

  /** The non-struct fields reachable from `fs`, depth first, in declaration order. */
  ghost function Leaves(fs: seq<Field>): (r: seq<Field>)
    decreases fs
    ensures forall k :: 0 <= k < |r| ==> !r[k].value.Struct?
  {
    if fs == [] then [] else LeavesOf(fs[0]) + Leaves(fs[1..])
  }

  /** The leaves of one field: its own leaves when it holds a struct, itself otherwise. */
  ghost function LeavesOf(f: Field): (r: seq<Field>)
    decreases f
    ensures forall k :: 0 <= k < |r| ==> !r[k].value.Struct?
  {
    if f.value.Struct? then Leaves(f.value.fields) else [f]
  }

  /** Validating a struct is the same as validating the flat sequence of its
      leaf fields: nested errors come back unchanged, naming the innermost field. */
  lemma {:induction false} FlattenFields(fs: seq<Field>)
    decreases fs
    ensures FieldsCheck(Leaves(fs)) == FieldsCheck(fs)
  {
    if fs != [] {
      FieldsCheckAppend(LeavesOf(fs[0]), Leaves(fs[1..]));
      FlattenField(fs[0]);
      FlattenFields(fs[1..]);
    }
  }

  /** One field's rule is the flat scan of its leaves. */
  lemma {:induction false} FlattenField(f: Field)
    decreases f
    ensures FieldsCheck(LeavesOf(f)) == TypesHandling(f)
  {
    if f.value.Struct? {
      FlattenFields(f.value.fields);
    } else {
      assert [f][1..] == [];
    }
  }

  /** Every error names a leaf field (never a struct-valued field wrapping it):
      the first leaf, in depth-first declaration order, that fails its rule. */
  lemma ErrorLocatesLeaf(fs: seq<Field>)
    requires FieldsCheck(fs).Fail?
    ensures exists k :: FirstFailingAt(Leaves(fs), k) &&
                        TypesHandling(Leaves(fs)[k]) == FieldsCheck(fs) &&
                        Leaves(fs)[k].name == FieldsCheck(fs).error.name &&
                        Leaves(fs)[k].tag == FieldsCheck(fs).error.tag
  {
    FlattenFields(fs);
    FieldsCheckFirstFailure(Leaves(fs));
  }

  /** `errors.Is(err, ErrNotHandled)` holds of the result exactly when the first
      failing leaf holds a value of an unhandled kind. */
  lemma NotHandledIffOtherLeaf(fs: seq<Field>)
    ensures (FieldsCheck(fs).Fail? && IsNotHandled(FieldsCheck(fs).error)) <==>
            exists k :: FirstFailingAt(Leaves(fs), k) && Leaves(fs)[k].value.Other?
  {
    FlattenFields(fs);
    FieldsCheckFirstFailure(Leaves(fs));
    var ls := Leaves(fs);
    if k :| FirstFailingAt(ls, k) && ls[k].value.Other? {
      FirstFailureReported(ls, k);
    }
  }

  // ---------------------------------------------------------------------------
  // The list check is shallow and type-blind
  // ---------------------------------------------------------------------------

  /** A non-empty list passes when no element is a `string` or an `int`
      with the exact predeclared type: other integer widths, named types, bools
      and structs inside a list are never examined. */
  lemma ListElementsNotRecursed(items: seq<Value>)
    requires |items| > 0
    requires forall k :: 0 <= k < |items| ==>
               !(items[k].Str? && items[k].isGoString) && !(items[k].Int? && items[k].isGoInt)
    ensures ListCheck(items) == Pass
  {
  }

  /** The list check reports the lowest-index failing element. */
  lemma FirstZeroElemReported(items: seq<Value>, k: int)
    requires FirstZeroAt(items, k)
    ensures ListCheck(items) == Fail(ElemError(items[k]))
  {
  }
}
