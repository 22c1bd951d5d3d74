/**
 * The delta writer: how one delta changes a feed data document.
 *
 * The source delegates this to an external library (`deltaWriter.apply`,
 * imported at src/actionrevelation.js:3). Its behaviour here is the one the
 * success and failure cases of src/__tests__/actionrevelation.test.js pin
 * down: every path step must name an existing child (Set alone may create a
 * key of an existing object), the value at the end must have the type the
 * operation works on, and every failure is the same INVALID_OPERATION error.
 * Apply is a function: the old document is never changed, the result is a
 * new document.
 */
module DeltaWriter {
  import opened Wrappers
  import opened Errors
  import opened Documents

  /** The fourteen delta operations, named as on the wire. */
  datatype Operation =
    | Set | Delete | DeleteValue
    | Prepend | Append
    | Increment | Decrement
    | Toggle
    | InsertFirst | InsertLast | InsertBefore | InsertAfter
    | DeleteFirst | DeleteLast

  /** The operations whose delta carries a `Value`. */
  predicate CarriesValue(op: Operation) {
    !(op.Delete? || op.Toggle? || op.DeleteFirst? || op.DeleteLast?)
  }

  /**
   * The operations that act on the container holding the location (the
   * location's last step names a member or an element of it) rather than on
   * the value found at the location.
   */
  predicate ActsOnParent(op: Operation) {
    op.Set? || op.Delete? || op.InsertBefore? || op.InsertAfter?
  }

  /** A feed delta: `{Operation, Path, Value?}`. */
  datatype Delta = Delta(operation: Operation, path: Path, value: Option<Json>)

  /** What to do at the end of a path. */
  datatype Edit =
    | AtTarget(op: Operation, payload: Option<Json>)
    | AtChild(op: Operation, loc: PathElem, payload: Option<Json>)

  /** An array without every element equal to `v`, in the original order. */
  function RemoveAll(a: seq<Json>, v: Json): (r: seq<Json>)
    ensures |r| <= |a|
    ensures v !in a ==> r == a
  {
    if a == [] then [] else Kept(a[0], v) + RemoveAll(a[1..], v)
  }

  /** What RemoveAll keeps of one element. */
  function Kept(x: Json, v: Json): seq<Json> {
    if x == v then [] else [x]
  }

  /** RemoveAll drops every copy of the value and keeps every other element as often as it occurred. */
  lemma {:induction false} RemoveAllCounts(a: seq<Json>, v: Json)
    ensures multiset(RemoveAll(a, v)) == multiset(a)[v := 0]
    decreases |a|
  {
    if a != [] {
      assert a == [a[0]] + a[1..];
      RemoveAllCounts(a[1..], v);
    }
  }

  /** RemoveAll keeps the order of what it keeps: it works piece by piece. */
  lemma {:induction false} RemoveAllConcat(a: seq<Json>, b: seq<Json>, v: Json)
    ensures RemoveAll(a + b, v) == RemoveAll(a, v) + RemoveAll(b, v)
    decreases |a|
  {
    if a == [] {
      assert a + b == b;
    } else {
      assert (a + b)[0] == a[0];
      assert (a + b)[1..] == a[1..] + b;
      RemoveAllConcat(a[1..], b, v);
    }
  }

  /** An object without every member whose value equals `v`. */
  function RemoveMembers(m: map<string, Json>, v: Json): (r: map<string, Json>)
    ensures forall k :: k in r <==> k in m && m[k] != v
    ensures forall k :: k in r ==> r[k] == m[k]
  {
    map k | k in m && m[k] != v :: m[k]
  }

  /** Two documents of the same JSON type. */
  predicate SameKind(x: Json, y: Json) {
    && x.Null? == y.Null? && x.Bool? == y.Bool? && x.Num? == y.Num?
    && x.Str? == y.Str? && x.Arr? == y.Arr? && x.Obj? == y.Obj?
  }

  /** Performs an edit on the value found at the end of the path. */
  function EditNode(x: Json, e: Edit): (r: Result<Json, Error>)
    ensures r.Failure? ==> r.error == BadLocation
    ensures r.Success? && !(e.AtTarget? && e.op.Set?) ==> SameKind(x, r.value)
    ensures r.Success? && e.AtChild? ==> ChildAt(x, e.loc).Some? || (x.Obj? && e.op.Set? && e.loc.Key?)
  {
    match e
    case AtTarget(op, payload) =>
      (match (op, x, payload)
       case (Set, _, Some(v)) => Success(v)
       case (DeleteValue, Arr(a), Some(v)) => Success(Arr(RemoveAll(a, v)))
       case (DeleteValue, Obj(m), Some(v)) => Success(Obj(RemoveMembers(m, v)))
       case (Prepend, Str(s), Some(Str(t))) => Success(Str(t + s))
       case (Append, Str(s), Some(Str(t))) => Success(Str(s + t))
       case (Increment, Num(n), Some(Num(k))) => Success(Num(n + k))
       case (Decrement, Num(n), Some(Num(k))) => Success(Num(n - k))
       case (Toggle, Bool(b), _) => Success(Bool(!b))
       case (InsertFirst, Arr(a), Some(v)) => Success(Arr([v] + a))
       case (InsertLast, Arr(a), Some(v)) => Success(Arr(a + [v]))
       case (DeleteFirst, Arr(a), _) => if |a| > 0 then Success(Arr(a[1..])) else Failure(BadLocation)
       case (DeleteLast, Arr(a), _) => if |a| > 0 then Success(Arr(a[..|a| - 1])) else Failure(BadLocation)
       case _ => Failure(BadLocation))
    case AtChild(op, loc, payload) =>
      (match (op, x, loc, payload)
       case (Set, Obj(m), Key(k), Some(v)) => Success(Obj(m[k := v]))
       case (Set, Arr(a), Index(i), Some(v)) =>
         if 0 <= i < |a| then Success(Arr(a[i := v])) else Failure(BadLocation)
       case (Delete, Obj(m), Key(k), _) =>
         if k in m then Success(Obj(m - {k})) else Failure(BadLocation)
       case (Delete, Arr(a), Index(i), _) =>
         if 0 <= i < |a| then Success(Arr(a[..i] + a[i + 1..])) else Failure(BadLocation)
       case (InsertBefore, Arr(a), Index(i), Some(v)) =>
         if 0 <= i < |a| then Success(Arr(a[..i] + [v] + a[i..])) else Failure(BadLocation)
       case (InsertAfter, Arr(a), Index(i), Some(v)) =>
         if 0 <= i < |a| then Success(Arr(a[..i + 1] + [v] + a[i + 1..])) else Failure(BadLocation)
       case _ => Failure(BadLocation))
  }

  /**
   * Walks `p` through `doc`, performs `e` at its end and rebuilds the
   * containers on the way back up (copy on write).
   */
  function EditAt(doc: Json, p: Path, e: Edit): (r: Result<Json, Error>)
    ensures r.Failure? ==> r.error == BadLocation
    ensures r.Success? <==> Lookup(doc, p).Some? && EditNode(Lookup(doc, p).value, e).Success?
    ensures r.Success? ==> Lookup(r.value, p) == Some(EditNode(Lookup(doc, p).value, e).value)
    ensures r.Success? && |p| > 0 ==> r.value.Obj? == doc.Obj? && r.value.Arr? == doc.Arr?
    decreases |p|
  {
    if p == [] then EditNode(doc, e)
    else
      match ChildAt(doc, p[0])
      case None => Failure(BadLocation)
      case Some(c) =>
        match EditAt(c, p[1..], e)
        case Failure(err) => Failure(err)
        case Success(c') => Success(WithChild(doc, p[0], c'))
  }

  /** The edit a delta makes, and the path at whose end it is made. */
  function EditOf(d: Delta): Edit {
    if ActsOnParent(d.operation) && |d.path| > 0
    then AtChild(d.operation, Last(d.path), d.value)
    else AtTarget(d.operation, d.value)
  }

  function EditPath(d: Delta): Path {
    if ActsOnParent(d.operation) && |d.path| > 0 then Init(d.path) else d.path
  }

  /** `deltaWriter.apply`: the document that results from applying `d` to `doc`. */
  function Apply(doc: Json, d: Delta): (r: Result<Json, Error>)
    ensures r.Failure? ==> r.error == BadLocation
  {
    EditAt(doc, EditPath(d), EditOf(d))
  }

  /** An operation on the parent edits the container that holds the location. */
  lemma ApplyAtParent(doc: Json, d: Delta)
    requires ActsOnParent(d.operation) && |d.path| > 0
    ensures Apply(doc, d).Success? <==>
      Lookup(doc, Init(d.path)).Some? &&
      EditNode(Lookup(doc, Init(d.path)).value, AtChild(d.operation, Last(d.path), d.value)).Success?
    ensures Apply(doc, d).Success? ==>
      Lookup(Apply(doc, d).value, Init(d.path)) ==
        Some(EditNode(Lookup(doc, Init(d.path)).value, AtChild(d.operation, Last(d.path), d.value)).value)
  {
  }

  /** Applies deltas one after the other; the first failure stops the replay. */
  function Replay(doc: Json, ds: seq<Delta>): (r: Result<Json, Error>)
    ensures r.Failure? ==> r.error == BadLocation
    ensures |ds| == 1 ==> r == Apply(doc, ds[0])
    decreases |ds|
  {
    if ds == [] then Success(doc)
    else
      match Apply(doc, ds[0])
      case Failure(err) => Failure(err)
      case Success(next) => Replay(next, ds[1..])
  }

  /** Replaying one more delta is applying it to the result of the replay so far. */
  lemma {:induction false} ReplaySnoc(doc: Json, ds: seq<Delta>, d: Delta)
    ensures Replay(doc, ds + [d]) ==
      match Replay(doc, ds) case Failure(err) => Failure(err) case Success(x) => Apply(x, d)
    decreases |ds|
  {
    if ds == [] {
      assert ds + [d] == [d];
      assert ([d])[1..] == [];
    } else {
      assert (ds + [d])[0] == ds[0];
      assert (ds + [d])[1..] == ds[1..] + [d];
      match Apply(doc, ds[0])
      case Failure(_) =>
      case Success(next) => ReplaySnoc(next, ds[1..], d);
    }
  }

  /** Replaying two logs one after the other is replaying their concatenation. */
  lemma {:induction false} ReplayConcat(doc: Json, ds: seq<Delta>, es: seq<Delta>)
    ensures Replay(doc, ds + es) ==
      match Replay(doc, ds) case Failure(err) => Failure(err) case Success(x) => Replay(x, es)
    decreases |ds|
  {
    if ds == [] {
      assert ds + es == es;
    } else {
      assert (ds + es)[0] == ds[0];
      assert (ds + es)[1..] == ds[1..] + es;
      match Apply(doc, ds[0])
      case Failure(_) =>
      case Success(next) => ReplayConcat(next, ds[1..], es);
    }
  }

  // ---------------------------------------------------------------------
  // Locality: an edit changes nothing outside the subtree it is made in.
  // ---------------------------------------------------------------------

  lemma {:induction false} EditAtFrame(doc: Json, p: Path, e: Edit, q: Path)
    requires Diverge(p, q)
    requires EditAt(doc, p, e).Success?
    ensures Lookup(EditAt(doc, p, e).value, q) == Lookup(doc, q)
    decreases |p|
  {
    var c := ChildAt(doc, p[0]).value;
    var c' := EditAt(c, p[1..], e).value;
    var r := WithChild(doc, p[0], c');
    assert EditAt(doc, p, e).value == r;
    if p[0] != q[0] {
      assert ChildAt(r, q[0]) == ChildAt(doc, q[0]);
    } else {
      EditAtFrame(c, p[1..], e, q[1..]);
    }
  }

  /** A delta leaves every location on a path that parts from the edited one as it was. */
  lemma {:induction false} ApplyFrame(doc: Json, d: Delta, q: Path)
    requires Diverge(EditPath(d), q)
    requires Apply(doc, d).Success?
    ensures Lookup(Apply(doc, d).value, q) == Lookup(doc, q)
  {
    EditAtFrame(doc, EditPath(d), EditOf(d), q);
  }

  // ---------------------------------------------------------------------
  // Undoing an edit: if the second edit undoes the first at the node, it
  // undoes it in the whole document.
  // ---------------------------------------------------------------------

  lemma {:induction false} EditAtUndo(doc: Json, p: Path, e1: Edit, e2: Edit)
    requires EditAt(doc, p, e1).Success?
    requires EditNode(Lookup(doc, p).value, e1).Success?
    requires EditNode(EditNode(Lookup(doc, p).value, e1).value, e2) == Success(Lookup(doc, p).value)
    ensures EditAt(EditAt(doc, p, e1).value, p, e2) == Success(doc)
    decreases |p|
  {
    if p != [] {
      var c := ChildAt(doc, p[0]).value;
      var c' := EditAt(c, p[1..], e1).value;
      var r := WithChild(doc, p[0], c');
      assert EditAt(doc, p, e1).value == r;
      EditAtUndo(c, p[1..], e1, e2);
      assert ChildAt(r, p[0]) == Some(c');
      assert EditAt(r, p, e2) == Success(WithChild(r, p[0], c));
      WithChildTwice(doc, p[0], c', c);
      WithSameChild(doc, p[0]);
    }
  }

  // ---------------------------------------------------------------------
  // What each operation does.
  // ---------------------------------------------------------------------

  /** Any delta other than Set whose location does not exist fails. */
  lemma {:induction false} MissingLocationFails(doc: Json, d: Delta)
    requires !d.operation.Set?
    requires Lookup(doc, d.path).None?
    ensures Apply(doc, d) == Failure(BadLocation)
  {
    if ActsOnParent(d.operation) && |d.path| > 0 {
      InitLast(d.path);
      LookupSnoc(doc, Init(d.path), Last(d.path));
    }
  }

  /** Set needs an existing parent; the key of an object may be new, the index of an array may not. */
  lemma {:induction false} SetStoresValue(doc: Json, p: Path, v: Json)
    requires |p| > 0
    ensures Apply(doc, Delta(Set, p, Some(v))).Success? <==>
      Lookup(doc, Init(p)).Some? &&
      ((Lookup(doc, Init(p)).value.Obj? && Last(p).Key?) || ChildAt(Lookup(doc, Init(p)).value, Last(p)).Some?)
    ensures Apply(doc, Delta(Set, p, Some(v))).Success? ==>
      Lookup(Apply(doc, Delta(Set, p, Some(v))).value, p) == Some(v)
    ensures Apply(doc, Delta(Set, p, Some(v))).Success? && Lookup(doc, Init(p)).value.Obj? ==>
      Last(p).Key? &&
      Lookup(Apply(doc, Delta(Set, p, Some(v))).value, Init(p)) ==
        Some(Obj(Lookup(doc, Init(p)).value.members[Last(p).key := v]))
    ensures Apply(doc, Delta(Set, p, Some(v))).Success? && Lookup(doc, Init(p)).value.Arr? ==>
      Last(p).Index? && 0 <= Last(p).index < |Lookup(doc, Init(p)).value.elems| &&
      Lookup(Apply(doc, Delta(Set, p, Some(v))).value, Init(p)) ==
        Some(Arr(Lookup(doc, Init(p)).value.elems[Last(p).index := v]))
  {
    var d := Delta(Set, p, Some(v));
    ApplyAtParent(doc, d);
    LookupLast(doc, p);
    if Apply(doc, d).Success? {
      LookupLast(Apply(doc, d).value, p);
    }
  }

  /** Set at the root replaces the whole document. */
  lemma {:induction false} SetRootReplaces(doc: Json, v: Json)
    ensures Apply(doc, Delta(Set, [], Some(v))) == Success(v)
  {
  }

  /** Deleting a member of an object removes exactly that key. */
  lemma {:induction false} DeleteRemovesKey(doc: Json, p: Path)
    requires |p| > 0 && Last(p).Key?
    ensures Apply(doc, Delta(Delete, p, None)).Success? <==> Lookup(doc, p).Some?
    ensures Apply(doc, Delta(Delete, p, None)).Success? ==>
      Lookup(Apply(doc, Delta(Delete, p, None)).value, p).None? &&
      Lookup(Apply(doc, Delta(Delete, p, None)).value, Init(p)) ==
        Some(Obj(Lookup(doc, Init(p)).value.members - {Last(p).key}))
  {
    var d := Delta(Delete, p, None);
    ApplyAtParent(doc, d);
    LookupLast(doc, p);
    if Apply(doc, d).Success? {
      LookupLast(Apply(doc, d).value, p);
    }
  }

  /** Deleting an array element removes exactly that index; later elements move down by one. */
  lemma {:induction false} DeleteRemovesElement(doc: Json, p: Path)
    requires |p| > 0 && Last(p).Index?
    ensures Apply(doc, Delta(Delete, p, None)).Success? <==> Lookup(doc, p).Some?
    ensures Apply(doc, Delta(Delete, p, None)).Success? ==>
      var a := Lookup(doc, Init(p)).value.elems;
      var i := Last(p).index;
      Lookup(doc, Init(p)).value.Arr? && 0 <= i < |a| &&
      Lookup(Apply(doc, Delta(Delete, p, None)).value, Init(p)) == Some(Arr(a[..i] + a[i + 1..]))
  {
    ApplyAtParent(doc, Delta(Delete, p, None));
    LookupLast(doc, p);
  }

  /** Toggle flips a boolean, and toggling twice restores the document. */
  lemma {:induction false} ToggleInvolution(doc: Json, p: Path)
    ensures Apply(doc, Delta(Toggle, p, None)).Success? <==> Lookup(doc, p).Some? && Lookup(doc, p).value.Bool?
    ensures Apply(doc, Delta(Toggle, p, None)).Success? ==>
      Lookup(Apply(doc, Delta(Toggle, p, None)).value, p) == Some(Bool(!Lookup(doc, p).value.b)) &&
      Apply(Apply(doc, Delta(Toggle, p, None)).value, Delta(Toggle, p, None)) == Success(doc)
  {
    if Apply(doc, Delta(Toggle, p, None)).Success? {
      EditAtUndo(doc, p, AtTarget(Toggle, None), AtTarget(Toggle, None));
    }
  }

  /** Increment adds to a number; decrementing by the same amount undoes it. */
  lemma {:induction false} IncrementDecrementInverse(doc: Json, p: Path, k: int)
    ensures Apply(doc, Delta(Increment, p, Some(Num(k)))).Success? <==> Lookup(doc, p).Some? && Lookup(doc, p).value.Num?
    ensures Apply(doc, Delta(Increment, p, Some(Num(k)))).Success? ==>
      Lookup(Apply(doc, Delta(Increment, p, Some(Num(k)))).value, p) == Some(Num(Lookup(doc, p).value.n + k)) &&
      Apply(Apply(doc, Delta(Increment, p, Some(Num(k)))).value, Delta(Decrement, p, Some(Num(k)))) == Success(doc)
  {
    if Apply(doc, Delta(Increment, p, Some(Num(k)))).Success? {
      EditAtUndo(doc, p, AtTarget(Increment, Some(Num(k))), AtTarget(Decrement, Some(Num(k))));
    }
  }

  /** Decrement subtracts from a number; incrementing by the same amount undoes it. */
  lemma {:induction false} DecrementIncrementInverse(doc: Json, p: Path, k: int)
    ensures Apply(doc, Delta(Decrement, p, Some(Num(k)))).Success? <==> Lookup(doc, p).Some? && Lookup(doc, p).value.Num?
    ensures Apply(doc, Delta(Decrement, p, Some(Num(k)))).Success? ==>
      Lookup(Apply(doc, Delta(Decrement, p, Some(Num(k)))).value, p) == Some(Num(Lookup(doc, p).value.n - k)) &&
      Apply(Apply(doc, Delta(Decrement, p, Some(Num(k)))).value, Delta(Increment, p, Some(Num(k)))) == Success(doc)
  {
    if Apply(doc, Delta(Decrement, p, Some(Num(k)))).Success? {
      EditAtUndo(doc, p, AtTarget(Decrement, Some(Num(k))), AtTarget(Increment, Some(Num(k))));
    }
  }

  /** Prepend and Append concatenate onto an existing string. */
  lemma {:induction false} ConcatenateStrings(doc: Json, p: Path, t: string)
    ensures Apply(doc, Delta(Prepend, p, Some(Str(t)))).Success? <==> Lookup(doc, p).Some? && Lookup(doc, p).value.Str?
    ensures Apply(doc, Delta(Append, p, Some(Str(t)))).Success? <==> Lookup(doc, p).Some? && Lookup(doc, p).value.Str?
    ensures Apply(doc, Delta(Prepend, p, Some(Str(t)))).Success? ==>
      Lookup(Apply(doc, Delta(Prepend, p, Some(Str(t)))).value, p) == Some(Str(t + Lookup(doc, p).value.s)) &&
      Lookup(Apply(doc, Delta(Append, p, Some(Str(t)))).value, p) == Some(Str(Lookup(doc, p).value.s + t))
  {
  }

  /** InsertFirst puts the value in front of an array; DeleteFirst takes it away again. */
  lemma {:induction false} InsertFirstDeleteFirst(doc: Json, p: Path, v: Json)
    ensures Apply(doc, Delta(InsertFirst, p, Some(v))).Success? <==> Lookup(doc, p).Some? && Lookup(doc, p).value.Arr?
    ensures Apply(doc, Delta(InsertFirst, p, Some(v))).Success? ==>
      Lookup(Apply(doc, Delta(InsertFirst, p, Some(v))).value, p) == Some(Arr([v] + Lookup(doc, p).value.elems)) &&
      Apply(Apply(doc, Delta(InsertFirst, p, Some(v))).value, Delta(DeleteFirst, p, None)) == Success(doc)
  {
    if Apply(doc, Delta(InsertFirst, p, Some(v))).Success? {
      var a := Lookup(doc, p).value.elems;
      assert ([v] + a)[1..] == a;
      EditAtUndo(doc, p, AtTarget(InsertFirst, Some(v)), AtTarget(DeleteFirst, None));
    }
  }

  /** InsertLast puts the value at the end of an array; DeleteLast takes it away again. */
  lemma {:induction false} InsertLastDeleteLast(doc: Json, p: Path, v: Json)
    ensures Apply(doc, Delta(InsertLast, p, Some(v))).Success? <==> Lookup(doc, p).Some? && Lookup(doc, p).value.Arr?
    ensures Apply(doc, Delta(InsertLast, p, Some(v))).Success? ==>
      Lookup(Apply(doc, Delta(InsertLast, p, Some(v))).value, p) == Some(Arr(Lookup(doc, p).value.elems + [v])) &&
      Apply(Apply(doc, Delta(InsertLast, p, Some(v))).value, Delta(DeleteLast, p, None)) == Success(doc)
  {
    if Apply(doc, Delta(InsertLast, p, Some(v))).Success? {
      var a := Lookup(doc, p).value.elems;
      assert (a + [v])[..|a + [v]| - 1] == a;
      EditAtUndo(doc, p, AtTarget(InsertLast, Some(v)), AtTarget(DeleteLast, None));
    }
  }

  /** DeleteFirst and DeleteLast need a non-empty array. */
  lemma {:induction false} DeleteFirstOfArray(doc: Json, p: Path)
    ensures Apply(doc, Delta(DeleteFirst, p, None)).Success? <==>
      Lookup(doc, p).Some? && Lookup(doc, p).value.Arr? && |Lookup(doc, p).value.elems| > 0
    ensures Apply(doc, Delta(DeleteFirst, p, None)).Success? ==>
      Lookup(Apply(doc, Delta(DeleteFirst, p, None)).value, p) == Some(Arr(Lookup(doc, p).value.elems[1..]))
  {
  }

  lemma {:induction false} DeleteLastOfArray(doc: Json, p: Path)
    ensures Apply(doc, Delta(DeleteLast, p, None)).Success? <==>
      Lookup(doc, p).Some? && Lookup(doc, p).value.Arr? && |Lookup(doc, p).value.elems| > 0
    ensures Apply(doc, Delta(DeleteLast, p, None)).Success? ==>
      Lookup(Apply(doc, Delta(DeleteLast, p, None)).value, p) ==
        Some(Arr(Lookup(doc, p).value.elems[..|Lookup(doc, p).value.elems| - 1]))
  {
  }

  /**
   * InsertBefore puts the value at the index the path ends in, moving the
   * element there and those after it up by one.
   */
  lemma {:induction false} InsertBeforePlaces(doc: Json, p: Path, v: Json)
    requires |p| > 0
    ensures Apply(doc, Delta(InsertBefore, p, Some(v))).Success? <==>
      Last(p).Index? && Lookup(doc, Init(p)).Some? && Lookup(doc, Init(p)).value.Arr? && Lookup(doc, p).Some?
    ensures Apply(doc, Delta(InsertBefore, p, Some(v))).Success? ==>
      var a := Lookup(doc, Init(p)).value.elems;
      var i := Last(p).index;
      Lookup(Apply(doc, Delta(InsertBefore, p, Some(v))).value, Init(p)) == Some(Arr(a[..i] + [v] + a[i..])) &&
      Lookup(Apply(doc, Delta(InsertBefore, p, Some(v))).value, p) == Some(v)
  {
    var d := Delta(InsertBefore, p, Some(v));
    ApplyAtParent(doc, d);
    LookupLast(doc, p);
    if Apply(doc, d).Success? {
      var a := Lookup(doc, Init(p)).value.elems;
      var i := Last(p).index;
      assert (a[..i] + [v] + a[i..])[i] == v;
      LookupLast(Apply(doc, d).value, p);
    }
  }

  /** Deleting the index InsertBefore wrote to undoes it. */
  lemma {:induction false} InsertBeforeDelete(doc: Json, p: Path, v: Json)
    requires |p| > 0
    requires Apply(doc, Delta(InsertBefore, p, Some(v))).Success?
    ensures Apply(Apply(doc, Delta(InsertBefore, p, Some(v))).value, Delta(Delete, p, None)) == Success(doc)
  {
    var i := Last(p).index;
    var e1 := AtChild(InsertBefore, Last(p), Some(v));
    var e2 := AtChild(Delete, Last(p), None);
    assert Apply(doc, Delta(InsertBefore, p, Some(v))) == EditAt(doc, Init(p), e1);
    var a := Lookup(doc, Init(p)).value.elems;
    var b := a[..i] + [v] + a[i..];
    assert b[..i] + b[i + 1..] == a;
    assert EditNode(Arr(a), e1) == Success(Arr(b));
    assert EditNode(Arr(b), e2) == Success(Arr(a));
    assert EditPath(Delta(Delete, p, None)) == Init(p) && EditOf(Delta(Delete, p, None)) == e2;
    EditAtUndo(doc, Init(p), e1, e2);
  }

  /** InsertAfter puts the value just after the index the path ends in. */
  lemma {:induction false} InsertAfterPlaces(doc: Json, p: Path, v: Json)
    requires |p| > 0
    ensures Apply(doc, Delta(InsertAfter, p, Some(v))).Success? <==>
      Last(p).Index? && Lookup(doc, Init(p)).Some? && Lookup(doc, Init(p)).value.Arr? && Lookup(doc, p).Some?
    ensures Apply(doc, Delta(InsertAfter, p, Some(v))).Success? ==>
      var a := Lookup(doc, Init(p)).value.elems;
      var i := Last(p).index;
      Lookup(Apply(doc, Delta(InsertAfter, p, Some(v))).value, Init(p)) == Some(Arr(a[..i + 1] + [v] + a[i + 1..])) &&
      Lookup(Apply(doc, Delta(InsertAfter, p, Some(v))).value, Init(p) + [Index(i + 1)]) == Some(v)
  {
    var d := Delta(InsertAfter, p, Some(v));
    ApplyAtParent(doc, d);
    LookupLast(doc, p);
    if Apply(doc, d).Success? {
      var a := Lookup(doc, Init(p)).value.elems;
      var i := Last(p).index;
      var next := Init(p) + [Index(i + 1)];
      assert Init(next) == Init(p) && Last(next) == Index(i + 1);
      assert (a[..i + 1] + [v] + a[i + 1..])[i + 1] == v;
      LookupLast(Apply(doc, d).value, next);
    }
  }

  /** Deleting the index just after the path undoes InsertAfter. */
  lemma {:induction false} InsertAfterDelete(doc: Json, p: Path, v: Json)
    requires |p| > 0
    requires Apply(doc, Delta(InsertAfter, p, Some(v))).Success?
    ensures Last(p).Index? &&
      Apply(Apply(doc, Delta(InsertAfter, p, Some(v))).value, Delta(Delete, Init(p) + [Index(Last(p).index + 1)], None))
        == Success(doc)
  {
    var i := Last(p).index;
    var next := Init(p) + [Index(i + 1)];
    var e1 := AtChild(InsertAfter, Last(p), Some(v));
    var e2 := AtChild(Delete, Index(i + 1), None);
    assert Apply(doc, Delta(InsertAfter, p, Some(v))) == EditAt(doc, Init(p), e1);
    var a := Lookup(doc, Init(p)).value.elems;
    var b := a[..i + 1] + [v] + a[i + 1..];
    assert b[..i + 1] + b[i + 2..] == a;
    assert EditNode(Arr(a), e1) == Success(Arr(b));
    assert EditNode(Arr(b), e2) == Success(Arr(a));
    assert Init(next) == Init(p) && Last(next) == Index(i + 1);
    assert EditPath(Delta(Delete, next, None)) == Init(p) && EditOf(Delta(Delete, next, None)) == e2;
    EditAtUndo(doc, Init(p), e1, e2);
  }

  /** DeleteValue removes every member or element equal to the value, and keeps all others. */
  lemma {:induction false} DeleteValueRemovesAll(doc: Json, p: Path, v: Json)
    ensures Apply(doc, Delta(DeleteValue, p, Some(v))).Success? <==>
      Lookup(doc, p).Some? && (Lookup(doc, p).value.Arr? || Lookup(doc, p).value.Obj?)
    ensures Apply(doc, Delta(DeleteValue, p, Some(v))).Success? ==>
      var before := Lookup(doc, p).value;
      var after := Lookup(Apply(doc, Delta(DeleteValue, p, Some(v))).value, p).value;
      (before.Arr? ==> after == Arr(RemoveAll(before.elems, v))) &&
      (before.Obj? ==>
         && after.Obj?
         && (forall k :: k in after.members <==> k in before.members && before.members[k] != v)
         && (forall k :: k in after.members ==> after.members[k] == before.members[k]))
  {
  }

  /** A delta that keeps to the root policy never turns an object root into anything else. */
  lemma {:induction false} ApplyKeepsObjectRoot(doc: Json, d: Delta)
    requires doc.Obj?
    requires d.operation.Set? && d.path == [] && d.value.Some? ==> d.value.value.Obj?
    requires Apply(doc, d).Success?
    ensures Apply(doc, d).value.Obj?
  {
  }
}
