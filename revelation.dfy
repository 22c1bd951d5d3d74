/**
 * The action revelation: the record of how one action changes one feed
 * (src/actionrevelation.js). It holds the feed name and arguments, the feed
 * data before the action (if supplied), the append-only log of deltas and the
 * feed data with those deltas applied.
 *
 * The pure part states what one call of a delta method does to the abstract
 * state (Admit, Record, Next); the class ActionRevelation carries that state
 * in fields and its fourteen methods update them in place.
 */
module Revelation {
  import opened Wrappers
  import opened Errors
  import opened Documents
  import opened DeltaWriter
  import opened JsValues
  import opened Validation

  /** One call of a delta method. A value argument the caller left out is `undefined`. */
  datatype Call = Call(op: Operation, path: PathArg, arg: Arg)

  /** The value argument of the methods that take none. */
  const NoArg := Arg(map[], Undefined)

  /** The payload check of each operation, run after the path check. */
  function ValueCheck(op: Operation, arg: Arg): (r: Outcome<Error>)
    requires WellFormed(arg)
    ensures r.Pass? && CarriesValue(op) ==> JsonExpressible(arg.heap, arg.value)
    ensures r.Fail? ==> r.error.kind == InvalidValue
    ensures op.Prepend? || op.Append? ==>
      (r.Pass? <==> arg.value.String?) && (r.Fail? ==> r.error == Error(InvalidValue, StringRequired))
    ensures op.Increment? || op.Decrement? ==>
      (r.Pass? <==> arg.value.Number?) && (r.Fail? ==> r.error == Error(InvalidValue, NumberRequired))
    ensures !CarriesValue(op) ==> r.Pass?
    ensures op.Set? || op.DeleteValue? || op.InsertFirst? || op.InsertLast? || op.InsertBefore? || op.InsertAfter? ==>
      r == ValidateJsonValue(arg.heap, arg.value)
  {
    match op
    case Prepend | Append =>
      if arg.value.String? then Pass else Fail(Error(InvalidValue, StringRequired))
    case Increment | Decrement =>
      if arg.value.Number? then Pass else Fail(Error(InvalidValue, NumberRequired))
    case Delete | Toggle | DeleteFirst | DeleteLast => Pass
    case _ => ValidateJsonValue(arg.heap, arg.value)
  }

  /** The root policy of each operation: the check made when the path is empty. */
  function RootCheck(op: Operation, arg: Arg): (r: Outcome<Error>)
    requires WellFormed(arg)
    ensures r.Pass? <==> op.DeleteValue? || (op.Set? && IsPlainObject(arg.heap, arg.value))
    ensures op.Set? && r.Fail? ==> r.error == Error(InvalidValue, RootNotObject)
    ensures op.Delete? ==> r == Fail(Error(InvalidPath, DeleteRoot))
    ensures op.Prepend? || op.Append? ==> r == Fail(Error(InvalidPath, StringOpsOnRoot))
    ensures op.Increment? || op.Decrement? ==> r == Fail(Error(InvalidPath, NumberOpsOnRoot))
    ensures op.Toggle? ==> r == Fail(Error(InvalidPath, BooleanOpsOnRoot))
    ensures (|| op.InsertFirst? || op.InsertLast? || op.InsertBefore? || op.InsertAfter?
             || op.DeleteFirst? || op.DeleteLast?) ==> r == Fail(Error(InvalidPath, ArrayOpsOnRoot))
  {
    match op
    case Set =>
      if IsPlainObject(arg.heap, arg.value) then Pass else Fail(Error(InvalidValue, RootNotObject))
    case Delete => Fail(Error(InvalidPath, DeleteRoot))
    case DeleteValue => Pass
    case Prepend | Append => Fail(Error(InvalidPath, StringOpsOnRoot))
    case Increment | Decrement => Fail(Error(InvalidPath, NumberOpsOnRoot))
    case Toggle => Fail(Error(InvalidPath, BooleanOpsOnRoot))
    case InsertFirst | InsertLast | InsertBefore | InsertAfter | DeleteFirst | DeleteLast =>
      Fail(Error(InvalidPath, ArrayOpsOnRoot))
  }

  /** A delta as it may stand in the log: a valid path, a value exactly when the operation carries one, the root policy kept. */
  ghost predicate Admissible(d: Delta) {
    && ValidPath(d.path)
    && (d.value.Some? <==> CarriesValue(d.operation))
    && (d.path == [] ==> d.operation.DeleteValue? || (d.operation.Set? && d.value.value.Obj?))
  }

  /**
   * The checks a delta method makes before touching any state, in the order
   * the source makes them: path, then payload, then root policy. On success,
   * the delta the call records.
   */
  function Admit(c: Call): (r: Result<Delta, Error>)
    requires WellFormed(c.arg)
    ensures r.Success? ==> c.path.PathArray? && r.value.operation == c.op && r.value.path == c.path.elems
    ensures r.Success? ==> Admissible(r.value)
    ensures r.Success? && CarriesValue(c.op) ==> JsonExpressible(c.arg.heap, c.arg.value)
    ensures r.Success? && CarriesValue(c.op) ==> r.value.value == Some(ToJson(c.arg.heap, c.arg.value, []))
    ensures r.Failure? ==> r.error.kind == InvalidPath || r.error.kind == InvalidValue
    ensures PathCheck(c.path).Fail? ==> r == Failure(PathCheck(c.path).error)
    ensures PathCheck(c.path).Pass? && ValueCheck(c.op, c.arg).Fail? ==> r == Failure(ValueCheck(c.op, c.arg).error)
    ensures PathCheck(c.path).Pass? && ValueCheck(c.op, c.arg).Pass? ==>
      && (r.Success? <==> |c.path.elems| > 0 || RootCheck(c.op, c.arg).Pass?)
      && (r.Failure? ==> r.error == RootCheck(c.op, c.arg).error)
  {
    match PathCheck(c.path)
    case Fail(e) => Failure(e)
    case Pass =>
      match ValueCheck(c.op, c.arg)
      case Fail(e) => Failure(e)
      case Pass =>
        if |c.path.elems| == 0 && RootCheck(c.op, c.arg).Fail? then Failure(RootCheck(c.op, c.arg).error)
        else
          var payload := if CarriesValue(c.op) then Some(ToJson(c.arg.heap, c.arg.value, [])) else None;
          Success(Delta(c.op, c.path.elems, payload))
  }

  /** The abstract state of an action revelation. */
  datatype State = State(oldData: Option<Json>, newData: Option<Json>, deltas: seq<Delta>)

  /**
   * The invariant: without old feed data there is no new feed data; with it,
   * both are objects and the new feed data is the old with the logged deltas
   * applied in order. Every logged delta is admissible.
   */
  ghost predicate Inv(s: State) {
    && (s.oldData.None? ==> s.newData.None?)
    && (s.oldData.Some? ==>
          && s.oldData.value.Obj?
          && s.newData.Some?
          && s.newData.value.Obj?
          && Replay(s.oldData.value, s.deltas) == Success(s.newData.value))
    && forall i | 0 <= i < |s.deltas| :: Admissible(s.deltas[i])
  }

  /** Applying an admitted delta to the tracked feed data (if any) and logging it. */
  function Record(s: State, d: Delta): (r: (Outcome<Error>, State))
    ensures r.0.Fail? ==> r.1 == s && s.newData.Some? && r.0.error == BadLocation
    ensures r.0.Pass? ==> r.1 == State(s.oldData, r.1.newData, s.deltas + [d])
    ensures s.newData.None? ==> r == (Pass, s.(deltas := s.deltas + [d]))
    ensures s.newData.Some? ==> (r.0.Pass? <==> Apply(s.newData.value, d).Success?)
    ensures r.0.Pass? && s.newData.Some? ==> r.1.newData == Some(Apply(s.newData.value, d).value)
  {
    match s.newData
    case None => (Pass, s.(deltas := s.deltas + [d]))
    case Some(doc) =>
      match Apply(doc, d)
      case Failure(e) => (Fail(e), s)
      case Success(next) => (Pass, State(s.oldData, Some(next), s.deltas + [d]))
  }

  /**
   * One call of a delta method: its outcome and the state after it. A
   * failing call changes nothing; a succeeding call appends exactly one delta
   * (naming the method, with the path argument and the payload if the
   * operation carries one) and leaves the earlier entries as they were.
   */
  function Next(s: State, c: Call): (r: (Outcome<Error>, State))
    requires WellFormed(c.arg)
    ensures r.0.Fail? ==> r.1 == s
    ensures r.0.Pass? ==>
      && Admit(c).Success?
      && r.1.oldData == s.oldData
      && r.1.deltas == s.deltas + [Admit(c).value]
      && r.1.deltas[|s.deltas|].operation == c.op
      && r.1.deltas[|s.deltas|].path == c.path.elems
      && (r.1.deltas[|s.deltas|].value.Some? <==> CarriesValue(c.op))
    ensures r.0.Pass? <==> Admit(c).Success? && (s.newData.Some? ==> Apply(s.newData.value, Admit(c).value).Success?)
  {
    match Admit(c)
    case Failure(e) => (Fail(e), s)
    case Success(d) => Record(s, d)
  }

  lemma RecordKeepsInvariant(s: State, d: Delta)
    requires Inv(s) && Admissible(d)
    ensures Inv(Record(s, d).1)
  {
    var r := Record(s, d);
    if r.0.Pass? {
      var s' := r.1;
      if s.oldData.Some? {
        ReplaySnoc(s.oldData.value, s.deltas, d);
        ApplyKeepsObjectRoot(s.newData.value, d);
      }
      forall i | 0 <= i < |s'.deltas| ensures Admissible(s'.deltas[i]) {
        if i < |s.deltas| {
          assert s'.deltas[i] == s.deltas[i];
        }
      }
    }
  }

  /** Every call keeps the invariant, whatever its outcome. */
  lemma NextKeepsInvariant(s: State, c: Call)
    requires WellFormed(c.arg) && Inv(s)
    ensures Inv(Next(s, c).1)
  {
    if Admit(c).Success? {
      RecordKeepsInvariant(s, Admit(c).value);
    }
  }

  /**
   * Without old feed data no document is tracked: every structurally valid
   * call succeeds and is logged, and the feed data stays absent.
   */
  lemma NoFeedDataStillLogs(s: State, c: Call)
    requires WellFormed(c.arg) && Inv(s) && s.oldData.None?
    ensures Next(s, c).1.newData.None?
    ensures Next(s, c).0.Pass? <==> Admit(c).Success?
    ensures Admit(c).Success? ==> Next(s, c).1.deltas == s.deltas + [Admit(c).value]
  {
  }

  /** With old feed data, a call that passes the structural checks fails exactly when applying its delta fails. */
  lemma TrackedCallsApply(s: State, c: Call)
    requires WellFormed(c.arg) && Inv(s) && s.oldData.Some? && Admit(c).Success?
    ensures Next(s, c).0.Pass? <==> Apply(s.newData.value, Admit(c).value).Success?
    ensures Next(s, c).0.Fail? ==> Next(s, c).0.error == Error(InvalidOperation, NonExistentLocation)
    ensures Next(s, c).0.Pass? ==> Next(s, c).1.newData == Some(Apply(s.newData.value, Admit(c).value).value)
  {
  }

  /**
   * The root policy: what each operation does with the empty path. Prepend,
   * Append, Increment and Decrement check their payload type before the root.
   */
  lemma RootPolicy(c: Call)
    requires WellFormed(c.arg) && c.path == PathArray([])
    ensures c.op.Delete? ==> Admit(c) == Failure(Error(InvalidPath, DeleteRoot))
    ensures c.op.Toggle? ==> Admit(c) == Failure(Error(InvalidPath, BooleanOpsOnRoot))
    ensures c.op.DeleteFirst? || c.op.DeleteLast? ==> Admit(c) == Failure(Error(InvalidPath, ArrayOpsOnRoot))
    ensures c.op.InsertFirst? || c.op.InsertLast? || c.op.InsertBefore? || c.op.InsertAfter? ==>
      Admit(c) == if JsonExpressible(c.arg.heap, c.arg.value)
                  then Failure(Error(InvalidPath, ArrayOpsOnRoot))
                  else Failure(ValidateJsonValue(c.arg.heap, c.arg.value).error)
    ensures c.op.Prepend? || c.op.Append? ==>
      Admit(c) == if c.arg.value.String?
                  then Failure(Error(InvalidPath, StringOpsOnRoot))
                  else Failure(Error(InvalidValue, StringRequired))
    ensures c.op.Increment? || c.op.Decrement? ==>
      Admit(c) == if c.arg.value.Number?
                  then Failure(Error(InvalidPath, NumberOpsOnRoot))
                  else Failure(Error(InvalidValue, NumberRequired))
    ensures c.op.Set? && JsonExpressible(c.arg.heap, c.arg.value) ==>
      (Admit(c).Success? <==> IsPlainObject(c.arg.heap, c.arg.value)) &&
      (Admit(c).Failure? ==> Admit(c).error == Error(InvalidValue, RootNotObject))
    ensures c.op.DeleteValue? ==> (Admit(c).Success? <==> JsonExpressible(c.arg.heap, c.arg.value))
  {
  }

  /** Calls made one after another. */
  function Run(s: State, calls: seq<Call>): State
    requires forall i | 0 <= i < |calls| :: WellFormed(calls[i].arg)
    decreases |calls|
  {
    if calls == [] then s else Run(Next(s, calls[0]).1, calls[1..])
  }

  /**
   * Over any sequence of calls the invariant holds, the old feed data stays
   * as supplied, and the log only grows at its end.
   */
  lemma {:induction false} RunAppendOnly(s: State, calls: seq<Call>)
    requires forall i | 0 <= i < |calls| :: WellFormed(calls[i].arg)
    requires Inv(s)
    ensures Inv(Run(s, calls))
    ensures Run(s, calls).oldData == s.oldData
    ensures |s.deltas| <= |Run(s, calls).deltas| <= |s.deltas| + |calls|
    ensures Run(s, calls).deltas[..|s.deltas|] == s.deltas
    decreases |calls|
  {
    if calls != [] {
      var s1 := Next(s, calls[0]).1;
      NextKeepsInvariant(s, calls[0]);
      RunAppendOnly(s1, calls[1..]);
      var t := Run(s1, calls[1..]);
      assert t.deltas[..|s.deltas|] == t.deltas[..|s1.deltas|][..|s.deltas|];
    }
  }

  /** Feed data supplied as old feed data: absent, or an object. */
  predicate ValidFeedData(data: Option<Json>) {
    data.None? || data.value.Obj?
  }

  /** One action on one feed, revealed as deltas. */
  class ActionRevelation {
    const feedName: string
    const feedArgs: map<string, Json>
    const oldFeedData: Option<Json>
    var feedDeltas: seq<Delta>
    var newFeedData: Option<Json>

    ghost function Snapshot(): State
      reads this
    {
      State(oldFeedData, newFeedData, feedDeltas)
    }

    ghost predicate Valid()
      reads this
    {
      Inv(Snapshot())
    }

    /** `actionRevelationFactory`: no deltas yet, the new feed data a copy of the old. */
    constructor (feedName: string, feedArgs: map<string, Json>, oldFeedData: Option<Json>)
      requires ValidFeedData(oldFeedData)
      ensures Valid()
      ensures this.feedName == feedName && this.feedArgs == feedArgs && this.oldFeedData == oldFeedData
      ensures feedDeltas == [] && newFeedData == oldFeedData
    {
      this.feedName := feedName;
      this.feedArgs := feedArgs;
      this.oldFeedData := oldFeedData;
      feedDeltas := [];
      newFeedData := oldFeedData;
    }

    /**
     * `newFeedData()`: the old feed data with every logged delta applied, or
     * NO_FEED_DATA when no old feed data was supplied.
     */
    function NewFeedData(): (r: Result<Json, Error>)
      reads this
      requires Valid()
      ensures r.Failure? <==> oldFeedData.None?
      ensures r.Failure? ==> r.error == Error(NoFeedData, NoOldFeedData)
      ensures r.Success? ==> Replay(oldFeedData.value, feedDeltas) == Success(r.value) && r.value.Obj?
    {
      if oldFeedData.None? then Failure(Error(NoFeedData, NoOldFeedData))
      else Success(newFeedData.value)
    }

    /** `_hashable()`: whether old feed data was supplied. */
    function Hashable(): (r: bool)
      reads this
      requires Valid()
      ensures r <==> NewFeedData().Success?
    {
      oldFeedData.Some?
    }

    /**
     * `_hash()`: the digest of the current feed data, by a digest function
     * supplied by the caller; NO_FEED_DATA when no old feed data was supplied.
     */
    function Hash<D>(digest: Json -> D): (r: Result<D, Error>)
      reads this
      requires Valid()
      ensures r.Failure? <==> !Hashable()
      ensures r.Failure? ==> r.error == Error(NoFeedData, NoOldFeedData)
      ensures r.Success? ==> r.value == digest(NewFeedData().value)
    {
      if oldFeedData.None? then Failure(Error(NoFeedData, NoOldFeedData))
      else Success(digest(newFeedData.value))
    }

    /** Applies an admitted delta to the feed data (if tracked), then logs it. */
    method Commit(delta: Delta) returns (o: Outcome<Error>)
      requires Valid() && Admissible(delta)
      modifies this
      ensures Valid()
      ensures (o, Snapshot()) == Record(old(Snapshot()), delta)
    {
      RecordKeepsInvariant(Snapshot(), delta);
      if newFeedData.Some? {
        var r := Apply(newFeedData.value, delta);
        if r.Failure? {
          return Fail(r.error);
        }
        newFeedData := Some(r.value);
      }
      feedDeltas := feedDeltas + [delta];
      return Pass;
    }

    method Set(path: PathArg, value: Arg) returns (o: Outcome<Error>)
      requires Valid() && WellFormed(value)
      modifies this
      ensures Valid()
      ensures (o, Snapshot()) == Next(old(Snapshot()), Call(Operation.Set, path, value))
    {
      o := ValidatePath(path);
      if o.Fail? { return; }
      o := ValidateJsonValue(value.heap, value.value);
      if o.Fail? { return; }
      if |path.elems| == 0 && !IsPlainObject(value.heap, value.value) {
        return Fail(Error(InvalidValue, RootNotObject));
      }
      var delta := Delta(Operation.Set, path.elems, Some(ToJson(value.heap, value.value, [])));
      o := Commit(delta);
    }

    method Delete(path: PathArg) returns (o: Outcome<Error>)
      requires Valid()
      modifies this
      ensures Valid()
      ensures (o, Snapshot()) == Next(old(Snapshot()), Call(Operation.Delete, path, NoArg))
    {
      o := ValidatePath(path);
      if o.Fail? { return; }
      if |path.elems| == 0 {
        return Fail(Error(InvalidPath, DeleteRoot));
      }
      var delta := Delta(Operation.Delete, path.elems, None);
      o := Commit(delta);
    }

    method DeleteValue(path: PathArg, value: Arg) returns (o: Outcome<Error>)
      requires Valid() && WellFormed(value)
      modifies this
      ensures Valid()
      ensures (o, Snapshot()) == Next(old(Snapshot()), Call(Operation.DeleteValue, path, value))
    {
      o := ValidatePath(path);
      if o.Fail? { return; }
      o := ValidateJsonValue(value.heap, value.value);
      if o.Fail? { return; }
      var delta := Delta(Operation.DeleteValue, path.elems, Some(ToJson(value.heap, value.value, [])));
      o := Commit(delta);
    }

    method Prepend(path: PathArg, value: Arg) returns (o: Outcome<Error>)
      requires Valid() && WellFormed(value)
      modifies this
      ensures Valid()
      ensures (o, Snapshot()) == Next(old(Snapshot()), Call(Operation.Prepend, path, value))
    {
      o := ValidatePath(path);
      if o.Fail? { return; }
      if !value.value.String? {
        return Fail(Error(InvalidValue, StringRequired));
      }
      if |path.elems| == 0 {
        return Fail(Error(InvalidPath, StringOpsOnRoot));
      }
      var delta := Delta(Operation.Prepend, path.elems, Some(Str(value.value.s)));
      o := Commit(delta);
    }

    method Append(path: PathArg, value: Arg) returns (o: Outcome<Error>)
      requires Valid() && WellFormed(value)
      modifies this
      ensures Valid()
      ensures (o, Snapshot()) == Next(old(Snapshot()), Call(Operation.Append, path, value))
    {
      o := ValidatePath(path);
      if o.Fail? { return; }
      if !value.value.String? {
        return Fail(Error(InvalidValue, StringRequired));
      }
      if |path.elems| == 0 {
        return Fail(Error(InvalidPath, StringOpsOnRoot));
      }
      var delta := Delta(Operation.Append, path.elems, Some(Str(value.value.s)));
      o := Commit(delta);
    }

    method Increment(path: PathArg, value: Arg) returns (o: Outcome<Error>)
      requires Valid() && WellFormed(value)
      modifies this
      ensures Valid()
      ensures (o, Snapshot()) == Next(old(Snapshot()), Call(Operation.Increment, path, value))
    {
      o := ValidatePath(path);
      if o.Fail? { return; }
      if !value.value.Number? {
        return Fail(Error(InvalidValue, NumberRequired));
      }
      if |path.elems| == 0 {
        return Fail(Error(InvalidPath, NumberOpsOnRoot));
      }
      var delta := Delta(Operation.Increment, path.elems, Some(Num(value.value.n)));
      o := Commit(delta);
    }

    method Decrement(path: PathArg, value: Arg) returns (o: Outcome<Error>)
      requires Valid() && WellFormed(value)
      modifies this
      ensures Valid()
      ensures (o, Snapshot()) == Next(old(Snapshot()), Call(Operation.Decrement, path, value))
    {
      o := ValidatePath(path);
      if o.Fail? { return; }
      if !value.value.Number? {
        return Fail(Error(InvalidValue, NumberRequired));
      }
      if |path.elems| == 0 {
        return Fail(Error(InvalidPath, NumberOpsOnRoot));
      }
      var delta := Delta(Operation.Decrement, path.elems, Some(Num(value.value.n)));
      o := Commit(delta);
    }

    method Toggle(path: PathArg) returns (o: Outcome<Error>)
      requires Valid()
      modifies this
      ensures Valid()
      ensures (o, Snapshot()) == Next(old(Snapshot()), Call(Operation.Toggle, path, NoArg))
    {
      o := ValidatePath(path);
      if o.Fail? { return; }
      if |path.elems| == 0 {
        return Fail(Error(InvalidPath, BooleanOpsOnRoot));
      }
      var delta := Delta(Operation.Toggle, path.elems, None);
      o := Commit(delta);
    }

    method InsertFirst(path: PathArg, value: Arg) returns (o: Outcome<Error>)
      requires Valid() && WellFormed(value)
      modifies this
      ensures Valid()
      ensures (o, Snapshot()) == Next(old(Snapshot()), Call(Operation.InsertFirst, path, value))
    {
      o := ValidatePath(path);
      if o.Fail? { return; }
      o := ValidateJsonValue(value.heap, value.value);
      if o.Fail? { return; }
      if |path.elems| == 0 {
        return Fail(Error(InvalidPath, ArrayOpsOnRoot));
      }
      var delta := Delta(Operation.InsertFirst, path.elems, Some(ToJson(value.heap, value.value, [])));
      o := Commit(delta);
    }

    method InsertLast(path: PathArg, value: Arg) returns (o: Outcome<Error>)
      requires Valid() && WellFormed(value)
      modifies this
      ensures Valid()
      ensures (o, Snapshot()) == Next(old(Snapshot()), Call(Operation.InsertLast, path, value))
    {
      o := ValidatePath(path);
      if o.Fail? { return; }
      o := ValidateJsonValue(value.heap, value.value);
      if o.Fail? { return; }
      if |path.elems| == 0 {
        return Fail(Error(InvalidPath, ArrayOpsOnRoot));
      }
      var delta := Delta(Operation.InsertLast, path.elems, Some(ToJson(value.heap, value.value, [])));
      o := Commit(delta);
    }

    method InsertBefore(path: PathArg, value: Arg) returns (o: Outcome<Error>)
      requires Valid() && WellFormed(value)
      modifies this
      ensures Valid()
      ensures (o, Snapshot()) == Next(old(Snapshot()), Call(Operation.InsertBefore, path, value))
    {
      o := ValidatePath(path);
      if o.Fail? { return; }
      o := ValidateJsonValue(value.heap, value.value);
      if o.Fail? { return; }
      if |path.elems| == 0 {
        return Fail(Error(InvalidPath, ArrayOpsOnRoot));
      }
      var delta := Delta(Operation.InsertBefore, path.elems, Some(ToJson(value.heap, value.value, [])));
      o := Commit(delta);
    }

    method InsertAfter(path: PathArg, value: Arg) returns (o: Outcome<Error>)
      requires Valid() && WellFormed(value)
      modifies this
      ensures Valid()
      ensures (o, Snapshot()) == Next(old(Snapshot()), Call(Operation.InsertAfter, path, value))
    {
      o := ValidatePath(path);
      if o.Fail? { return; }
      o := ValidateJsonValue(value.heap, value.value);
      if o.Fail? { return; }
      if |path.elems| == 0 {
        return Fail(Error(InvalidPath, ArrayOpsOnRoot));
      }
      var delta := Delta(Operation.InsertAfter, path.elems, Some(ToJson(value.heap, value.value, [])));
      o := Commit(delta);
    }

    method DeleteFirst(path: PathArg) returns (o: Outcome<Error>)
      requires Valid()
      modifies this
      ensures Valid()
      ensures (o, Snapshot()) == Next(old(Snapshot()), Call(Operation.DeleteFirst, path, NoArg))
    {
      o := ValidatePath(path);
      if o.Fail? { return; }
      if |path.elems| == 0 {
        return Fail(Error(InvalidPath, ArrayOpsOnRoot));
      }
      var delta := Delta(Operation.DeleteFirst, path.elems, None);
      o := Commit(delta);
    }

    method DeleteLast(path: PathArg) returns (o: Outcome<Error>)
      requires Valid()
      modifies this
      ensures Valid()
      ensures (o, Snapshot()) == Next(old(Snapshot()), Call(Operation.DeleteLast, path, NoArg))
    {
      o := ValidatePath(path);
      if o.Fail? { return; }
      if |path.elems| == 0 {
        return Fail(Error(InvalidPath, ArrayOpsOnRoot));
      }
      var delta := Delta(Operation.DeleteLast, path.elems, None);
      o := Commit(delta);
    }
  }
}
