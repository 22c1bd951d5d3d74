/**
 * Concrete runs of the model on the inputs the source's own test suite uses
 * (src/__tests__/actionrevelation.test.js), stated as lemmas about the pure
 * transition function and the detectors.
 */
module Scenarios {
  import opened Wrappers
  import opened Errors
  import opened Documents
  import opened DeltaWriter
  import opened JsValues
  import opened Validation
  import opened Revelation

  /** A string value argument, as a caller passes `"value"`. */
  function Text(s: string): Arg {
    Arg(map[], String(s))
  }

  /** The state right after the factory, with the given old feed data. */
  function Fresh(data: Option<Json>): State {
    State(data, data, [])
  }

  /** Set on a path whose parent object is missing: `{}` then `set(["abc", "def"], "value")`. */
  lemma SetUnderMissingParentFails()
    ensures
      var s := Fresh(Some(Obj(map[])));
      Next(s, Call(Operation.Set, PathArray([Key("abc"), Key("def")]), Text("value")))
        == (Fail(Error(InvalidOperation, NonExistentLocation)), s)
  {
    var p := [Key("abc"), Key("def")];
    assert Init(p) == [Key("abc")];
    LookupSnoc(Obj(map[]), [], Key("abc"));
    SetStoresValue(Obj(map[]), p, Str("value"));
  }

  /** Set adds a key to an existing object: `{abc: {}}` becomes `{abc: {def: "value"}}`. */
  lemma SetAddsKey()
    ensures
      var doc := Obj(map["abc" := Obj(map[])]);
      var s := Fresh(Some(doc));
      var d := Delta(Operation.Set, [Key("abc"), Key("def")], Some(Str("value")));
      Next(s, Call(Operation.Set, PathArray([Key("abc"), Key("def")]), Text("value")))
        == (Pass, State(Some(doc), Some(Obj(map["abc" := Obj(map["def" := Str("value")])])), [d]))
  {
    var doc := Obj(map["abc" := Obj(map[])]);
    var p := [Key("abc"), Key("def")];
    var d := Delta(Operation.Set, p, Some(Str("value")));
    var c := Call(Operation.Set, PathArray(p), Text("value"));
    assert Admit(c) == Success(d);
    var e := AtChild(Operation.Set, Key("def"), Some(Str("value")));
    assert EditPath(d) == [Key("abc")] && EditOf(d) == e;
    assert [Key("abc")][1..] == [];
    var inner := Obj(map["def" := Str("value")]);
    assert EditAt(Obj(map[]), [], e) == Success(inner);
    assert EditAt(doc, [Key("abc")], e) == Success(WithChild(doc, Key("abc"), inner));
    assert doc.members["abc" := inner] == map["abc" := inner];
    assert [] + [d] == [d];
  }

  /** Without old feed data the same call is logged and no feed data appears. */
  lemma SetWithoutFeedDataIsLogged()
    ensures
      var d := Delta(Operation.Set, [Key("abc"), Key("def")], Some(Str("value")));
      Next(Fresh(None), Call(Operation.Set, PathArray([Key("abc"), Key("def")]), Text("value")))
        == (Pass, State(None, None, [d]))
  {
    var d := Delta(Operation.Set, [Key("abc"), Key("def")], Some(Str("value")));
    var c := Call(Operation.Set, PathArray([Key("abc"), Key("def")]), Text("value"));
    assert Admit(c) == Success(d);
    assert [] + [d] == [d];
  }

  /** DeleteValue removes every member equal to the value, not just the first. */
  lemma DeleteValueRemovesEveryMatch()
    ensures
      var doc := Obj(map["a" := Num(1), "b" := Num(1), "c" := Num(0)]);
      Apply(doc, Delta(Operation.DeleteValue, [], Some(Num(1)))) == Success(Obj(map["c" := Num(0)]))
    ensures Apply(Obj(map["c" := Num(0)]), Delta(Operation.DeleteValue, [], Some(Num(0)))) == Success(Obj(map[]))
  {
    var m := map["a" := Num(1), "b" := Num(1), "c" := Num(0)];
    assert RemoveMembers(m, Num(1)) == map["c" := Num(0)];
    assert RemoveMembers(map["c" := Num(0)], Num(0)) == map[];
  }

  /** InsertBefore shifts the element at the index: `[1, 2, 3]` becomes `[1, "value", 2, 3]`. */
  lemma InsertBeforeShifts()
    ensures
      var doc := Obj(map["myArray" := Arr([Num(1), Num(2), Num(3)])]);
      Apply(doc, Delta(Operation.InsertBefore, [Key("myArray"), Index(1)], Some(Str("value"))))
        == Success(Obj(map["myArray" := Arr([Num(1), Str("value"), Num(2), Num(3)])]))
  {
    var a := [Num(1), Num(2), Num(3)];
    var b := [Num(1), Str("value"), Num(2), Num(3)];
    var d := Delta(Operation.InsertBefore, [Key("myArray"), Index(1)], Some(Str("value")));
    assert a[..1] + [Str("value")] + a[1..] == b;
    assert EditPath(d) == [Key("myArray")] && EditOf(d) == AtChild(Operation.InsertBefore, Index(1), Some(Str("value")));
    assert EditAt(Arr(a), [], EditOf(d)) == Success(Arr(b));
    var doc := Obj(map["myArray" := Arr(a)]);
    assert [Key("myArray")][1..] == [];
    assert EditAt(doc, [Key("myArray")], EditOf(d)) == Success(WithChild(doc, Key("myArray"), Arr(b)));
    assert doc.members["myArray" := Arr(b)] == map["myArray" := Arr(b)];
  }

  /** InsertAfter puts the value after the index: `[1, 2, 3]` becomes `[1, 2, "value", 3]`. */
  lemma InsertAfterShifts()
    ensures
      var doc := Obj(map["myArray" := Arr([Num(1), Num(2), Num(3)])]);
      Apply(doc, Delta(Operation.InsertAfter, [Key("myArray"), Index(1)], Some(Str("value"))))
        == Success(Obj(map["myArray" := Arr([Num(1), Num(2), Str("value"), Num(3)])]))
  {
    var a := [Num(1), Num(2), Num(3)];
    var b := [Num(1), Num(2), Str("value"), Num(3)];
    var d := Delta(Operation.InsertAfter, [Key("myArray"), Index(1)], Some(Str("value")));
    assert a[..2] + [Str("value")] + a[2..] == b;
    assert EditPath(d) == [Key("myArray")] && EditOf(d) == AtChild(Operation.InsertAfter, Index(1), Some(Str("value")));
    assert EditAt(Arr(a), [], EditOf(d)) == Success(Arr(b));
    var doc := Obj(map["myArray" := Arr(a)]);
    assert [Key("myArray")][1..] == [];
    assert EditAt(doc, [Key("myArray")], EditOf(d)) == Success(WithChild(doc, Key("myArray"), Arr(b)));
    assert doc.members["myArray" := Arr(b)] == map["myArray" := Arr(b)];
  }

  /** `o = {}; o.o = o`: an object holding itself. */
  const SelfHeap: Heap := map[0 := ObjectNode(map["o" := Ref(0)])]

  /** `{a: thing, b: thing}` with `thing = {a: 1, b: 1}`: a shared child, no cycle. */
  const DiamondHeap: Heap := map[0 := ObjectNode(map["a" := Ref(1), "b" := Ref(1)]),
                                 1 := ObjectNode(map["a" := Number(1), "b" := Number(1)])]

  lemma SelfReferenceIsCircular()
    ensures Closed(SelfHeap) && HasCircular(SelfHeap, Ref(0), [])
    ensures ValidateJsonValue(SelfHeap, Ref(0)) == Fail(Error(InvalidValue, CircularReference))
  {
    assert SelfHeap[0].members["o"] == Ref(0);
    assert HasCircular(SelfHeap, Ref(0), [0]);
  }

  lemma SharedChildIsNotCircular()
    ensures Closed(DiamondHeap) && !HasCircular(DiamondHeap, Ref(0), [])
  {
    var rank := map[0 := 1, 1 := 0];
    forall x, y | Edge(DiamondHeap, x, y) ensures y in rank && rank[y] < rank[x] {
      assert DiamondHeap[0].members.Values == {Ref(1)};
      assert DiamondHeap[1].members.Values == {Number(1)};
    }
    AcyclicNotCircular(DiamondHeap, rank, Ref(0));
  }

  /** A missing value and a nested undefined fail with different messages. */
  lemma UndefinedMessages()
    ensures ValidateJsonValue(map[], Undefined) == Fail(Error(InvalidValue, ValueMissing))
    ensures ValidateJsonValue(map[0 := ArrayNode([Undefined])], Ref(0)) == Fail(Error(InvalidValue, UndefinedPresent))
  {
    var h := map[0 := ArrayNode([Undefined])];
    assert h[0].elems[0] == Undefined;
    assert !HasCircular(h, Ref(0), []);
    assert HasUndefined(h, Ref(0), []);
  }
}
