/** The validator of structs.go: the per-kind dispatch, the struct traversal
    and the list check. */
module Checks {
  import opened Values

  // ---------------------------------------------------------------------------
  // List elements (checkFieldsLists)
  // ---------------------------------------------------------------------------

  /** `elem == ""` on an `interface{}`: true only for the dynamic type `string`. */
  predicate IsGoEmptyString(v: Value) {
    v.Str? && v.isGoString && v.text == ""
  }

  /** `elem == 0` on an `interface{}`: the constant takes type `int`, so only an
      `int` holding 0 is equal to it. */
  predicate IsGoIntZero(v: Value) {
    v.Int? && v.isGoInt && v.n == 0
  }

  /** An element that makes the list check fail. */
  predicate ZeroElem(v: Value) {
    IsGoEmptyString(v) || IsGoIntZero(v)
  }

  /** The error reported for a failing element. */
  function ElemError(v: Value): ListErr
    requires ZeroElem(v)
  {
    if IsGoEmptyString(v) then ElemEmptyStr else ElemZero
  }

  /** k is the lowest index of a failing element. */
  ghost predicate FirstZeroAt(items: seq<Value>, k: int) {
    0 <= k < |items| && ZeroElem(items[k]) &&
    forall j :: 0 <= j < k ==> !ZeroElem(items[j])
  }

  /** The element scan, in index order, stopping at the first failing element. */
  function ScanItems(items: seq<Value>): (r: Check<ListErr>)
    ensures r.Pass? <==> forall k :: 0 <= k < |items| ==> !ZeroElem(items[k])
    ensures r.Fail? ==> exists k :: FirstZeroAt(items, k) && r.error == ElemError(items[k])
  {
    if items == [] then Pass
    else if IsGoEmptyString(items[0]) then
      assert FirstZeroAt(items, 0);
      Fail(ElemEmptyStr)
    else if IsGoIntZero(items[0]) then
      assert FirstZeroAt(items, 0);
      Fail(ElemZero)
    else
      var r := ScanItems(items[1..]);
      assert r.Fail? ==> exists k :: FirstZeroAt(items, k) && r.error == ElemError(items[k]) by {
        if r.Fail? {
          var k :| FirstZeroAt(items[1..], k) && r.error == ElemError(items[1..][k]);
          assert FirstZeroAt(items, k + 1);
        }
      }
      r
  }

  /** checkFieldsLists as a function: the specification of the loop below. */
  function ListCheck(items: seq<Value>): (r: Check<ListErr>)
    ensures r.Pass? <==> |items| > 0 && forall k :: 0 <= k < |items| ==> !ZeroElem(items[k])
    ensures |items| == 0 ==> r == Fail(ListEmpty)
    ensures |items| > 0 && r.Fail? ==>
              exists k :: FirstZeroAt(items, k) && r.error == ElemError(items[k])
  {
    if |items| == 0 then Fail(ListEmpty) else ScanItems(items)
  }

  /** checkFieldsLists: reject an empty list, then scan the elements in index
      order and return at the first `string` "" or `int` 0. */
  method CheckFieldsLists(items: seq<Value>) returns (r: Check<ListErr>)
    ensures r == ListCheck(items)
  {
    if |items| == 0 {
      return Fail(ListEmpty);
    }
    var i := 0;
    while i < |items|
      invariant 0 <= i <= |items|
      invariant forall j :: 0 <= j < i ==> !ZeroElem(items[j])
    {
      if IsGoEmptyString(items[i]) {
        return Fail(ElemEmptyStr);
      }
      if IsGoIntZero(items[i]) {
        return Fail(ElemZero);
      }
      i := i + 1;
    }
    return Pass;
  }

  // ---------------------------------------------------------------------------
  // Fields (typesHandling) and structs (StructureFields)
  // ---------------------------------------------------------------------------

  /** typesHandling: the rule for one field, chosen by the kind of its value. */
  function TypesHandling(f: Field): (r: Check<CheckError>)
    decreases f
    ensures f.value.Str? ==> (r.Fail? <==> f.value.text == "") && (r.Fail? ==> r.error.StrEmpty?)
    ensures f.value.Int? ==> (r.Fail? <==> f.value.n == 0) && (r.Fail? ==> r.error.IntZero?)
    ensures f.value.Uint? ==> (r.Fail? <==> f.value.u == 0) && (r.Fail? ==> r.error.UintZero?)
    ensures f.value.List? ==>
              (r.Fail? <==> ListCheck(f.value.items).Fail?) &&
              (r.Fail? ==> r.error == InList(f.name, f.tag, ListCheck(f.value.items).error))
    ensures f.value.Bool? ==> r == Pass
    ensures f.value.Other? ==> r.Fail? && IsNotHandled(r.error)
    ensures !f.value.Struct? && r.Fail? ==> r.error.name == f.name && r.error.tag == f.tag
    ensures !f.value.Struct? && r.Fail? && IsNotHandled(r.error) ==> f.value.Other?
  {
    match f.value
    case Struct(fs) => FieldsCheck(fs)
    case Str(s, _) => if s == "" then Fail(StrEmpty(f.name, f.tag)) else Pass
    case Int(n, _) => if n == 0 then Fail(IntZero(f.name, f.tag)) else Pass
    case Uint(u) => if u == 0 then Fail(UintZero(f.name, f.tag)) else Pass
    case List(items) =>
      (match ListCheck(items)
       case Fail(e) => Fail(InList(f.name, f.tag, e))
       case Pass => Pass)
    case Bool(_) => Pass
    case Other => Fail(NotHandled(f.name, f.tag))
  }

  /** k is the first field, in declaration order, that fails its rule. */
  ghost predicate FirstFailingAt(fs: seq<Field>, k: int) {
    0 <= k < |fs| && TypesHandling(fs[k]).Fail? &&
    forall j :: 0 <= j < k ==> TypesHandling(fs[j]).Pass?
  }

  /** StructureFields as a function over a struct's fields: the specification of
      the loop below, and what typesHandling recurses into. What it promises is
      proved in module Properties (FieldsCheckFirstFailure). */
  function FieldsCheck(fs: seq<Field>): Check<CheckError>
    decreases fs
  {
    if fs == [] then Pass
    else
      match TypesHandling(fs[0])
      case Fail(e) => Fail(e)
      case Pass => FieldsCheck(fs[1..])
  }

  /** StructureFields: walk the fields in declaration order and return the
      error of the first field that fails. */
  method StructureFields(s: Value) returns (r: Check<CheckError>)
    requires s.Struct?
    ensures r == FieldsCheck(s.fields)
  {
    var i := 0;
    while i < |s.fields|
      invariant 0 <= i <= |s.fields|
      invariant FieldsCheck(s.fields[i..]) == FieldsCheck(s.fields)
    {
      var err := TypesHandling(s.fields[i]);
      if err.Fail? {
        return err;
      }
      i := i + 1;
    }
    return Pass;
  }
}
