/**
 * Values as a JS caller passes them to the delta operations: primitives,
 * `undefined`, and arrays and plain objects that live in a heap and are
 * passed by reference, so that one container may be reached twice (a
 * diamond) or be its own descendant (a cycle).
 */
module JsValues {
  import Documents

  type Id = nat

  datatype Value =
    | Undefined
    | Null
    | Boolean(b: bool)
    | Number(n: int)
    | String(s: string)
    | Ref(id: Id)

  datatype Container = ArrayNode(elems: seq<Value>) | ObjectNode(members: map<string, Value>)

  type Heap = map<Id, Container>

  /** An argument value together with the heap its references point into. */
  datatype Arg = Arg(heap: Heap, value: Value)

  predicate RefIn(h: Heap, v: Value) {
    v.Ref? ==> v.id in h
  }

  predicate ChildrenIn(h: Heap, c: Container) {
    match c
    case ArrayNode(es) => forall i | 0 <= i < |es| :: RefIn(h, es[i])
    case ObjectNode(ms) => forall k | k in ms :: RefIn(h, ms[k])
  }

  /** Every reference in the heap points to a container of the heap. */
  predicate Closed(h: Heap) {
    forall id | id in h :: ChildrenIn(h, h[id])
  }

  predicate WellFormed(a: Arg) {
    Closed(a.heap) && RefIn(a.heap, a.value)
  }

  /** `check.object`: a plain object (not an array, not null). */
  predicate IsPlainObject(h: Heap, v: Value)
    requires RefIn(h, v)
  {
    v.Ref? && h[v.id].ObjectNode?
  }

  function Ancestry(ancestors: seq<Id>): set<Id> {
    set a | a in ancestors
  }

  /**
   * `_hasCircular`: whether an array or object reachable from `v` is
   * reference-identical to one of its ancestors on the current branch.
   * `ancestors` is the chain of containers above `v`; each child sees the
   * chain extended by its own parent only, so siblings do not see each other.
   */
  function HasCircular(h: Heap, v: Value, ancestors: seq<Id>): (r: bool)
    requires Closed(h) && RefIn(h, v)
    ensures !v.Ref? ==> !r
    ensures v.Ref? && v.id in ancestors ==> r
    decreases h.Keys - Ancestry(ancestors)
  {
    match v
    case Ref(x) =>
      if x in ancestors then true
      else
        var chain := ancestors + [x];
        assert Ancestry(chain) == Ancestry(ancestors) + {x};
        (match h[x]
         case ArrayNode(es) => exists i | 0 <= i < |es| :: HasCircular(h, es[i], chain)
         case ObjectNode(ms) => exists k | k in ms :: HasCircular(h, ms[k], chain))
    case _ => false
  }

  /**
   * `_hasUndefined`: whether `v` is undefined or holds undefined as a member
   * or element at any depth. The source recurses without bound on a cyclic
   * value; it is only ever called on values already found acyclic, which is
   * what the precondition says. `ancestors` serves the termination proof only.
   */
  function HasUndefined(h: Heap, v: Value, ghost ancestors: seq<Id>): (r: bool)
    requires Closed(h) && RefIn(h, v) && !HasCircular(h, v, ancestors)
    ensures v.Undefined? ==> r
    decreases h.Keys - Ancestry(ancestors)
  {
    match v
    case Undefined => true
    case Ref(x) =>
      var chain := ancestors + [x];
      assert Ancestry(chain) == Ancestry(ancestors) + {x};
      (match h[x]
       case ArrayNode(es) => exists i | 0 <= i < |es| :: HasUndefined(h, es[i], chain)
       case ObjectNode(ms) => exists k | k in ms :: HasUndefined(h, ms[k], chain))
    case _ => false
  }

  /** No cycle and no undefined anywhere: the value has a JSON rendering. */
  predicate JsonExpressible(h: Heap, v: Value)
    requires Closed(h) && RefIn(h, v)
  {
    !HasCircular(h, v, []) && !HasUndefined(h, v, [])
  }

  /** The document a JSON-expressible value denotes (a deep copy of it). */
  function ToJson(h: Heap, v: Value, ghost ancestors: seq<Id>): (r: Documents.Json)
    requires Closed(h) && RefIn(h, v)
    requires !HasCircular(h, v, ancestors) && !HasUndefined(h, v, ancestors)
    ensures v.Null? ==> r == Documents.Null
    ensures v.Boolean? ==> r == Documents.Bool(v.b)
    ensures v.Number? ==> r == Documents.Num(v.n)
    ensures v.String? ==> r == Documents.Str(v.s)
    ensures v.Ref? ==> (r.Arr? <==> h[v.id].ArrayNode?) && (r.Obj? <==> h[v.id].ObjectNode?)
    ensures r.Arr? ==> v.Ref? && |r.elems| == |h[v.id].elems|
    ensures r.Obj? ==> v.Ref? && r.members.Keys == h[v.id].members.Keys
    ensures r.Arr? ==>
      assert Ancestry(ancestors + [v.id]) == Ancestry(ancestors) + {v.id};
      forall i | 0 <= i < |r.elems| :: r.elems[i] == ToJson(h, h[v.id].elems[i], ancestors + [v.id])
    ensures r.Obj? ==>
      assert Ancestry(ancestors + [v.id]) == Ancestry(ancestors) + {v.id};
      forall k | k in r.members :: r.members[k] == ToJson(h, h[v.id].members[k], ancestors + [v.id])
    decreases h.Keys - Ancestry(ancestors), 0
  {
    match v
    case Undefined => Documents.Null
    case Null => Documents.Null
    case Boolean(b) => Documents.Bool(b)
    case Number(n) => Documents.Num(n)
    case String(s) => Documents.Str(s)
    case Ref(x) =>
      var chain := ancestors + [x];
      assert Ancestry(chain) == Ancestry(ancestors) + {x};
      match h[x]
      case ArrayNode(es) =>
        Documents.Arr(ToJsonElems(h, es, chain))
      case ObjectNode(ms) =>
        Documents.Obj(map k | k in ms :: ToJson(h, ms[k], chain))
  }

  /** The elements of an array, converted one by one. */
  function ToJsonElems(h: Heap, es: seq<Value>, ghost chain: seq<Id>): (r: seq<Documents.Json>)
    requires Closed(h)
    requires forall i | 0 <= i < |es| ::
      RefIn(h, es[i]) && !HasCircular(h, es[i], chain) && !HasUndefined(h, es[i], chain)
    ensures |r| == |es|
    ensures forall i | 0 <= i < |es| :: r[i] == ToJson(h, es[i], chain)
    decreases h.Keys - Ancestry(chain), |es| + 1
  {
    if es == [] then [] else [ToJson(h, es[0], chain)] + ToJsonElems(h, es[1..], chain)
  }

  // ---------------------------------------------------------------------
  // What the two detectors mean, stated over walks through the heap.
  // ---------------------------------------------------------------------

  /** `c` holds a reference to container `y` as a member or element. */
  predicate HoldsRef(c: Container, y: Id) {
    match c
    case ArrayNode(es) => Ref(y) in es
    case ObjectNode(ms) => Ref(y) in ms.Values
  }

  /** `c` holds undefined as a member or element. */
  predicate HoldsUndefined(c: Container) {
    match c
    case ArrayNode(es) => Undefined in es
    case ObjectNode(ms) => Undefined in ms.Values
  }

  predicate Edge(h: Heap, x: Id, y: Id) {
    x in h && HoldsRef(h[x], y)
  }

  /** A sequence of containers, each a child of the one before. */
  ghost predicate IsWalk(h: Heap, w: seq<Id>) {
    && |w| > 0
    && (forall i | 0 <= i < |w| :: w[i] in h)
    && (forall i | 0 <= i < |w| - 1 :: Edge(h, w[i], w[i + 1]))
  }

  /** The walk ends at a container it already passed through: a cycle. */
  ghost predicate Revisits(w: seq<Id>)
    requires |w| > 0
  {
    w[|w| - 1] in w[..|w| - 1]
  }

  lemma ExtendWalk(h: Heap, x: Id, w: seq<Id>)
    requires IsWalk(h, w) && Edge(h, x, w[0])
    ensures IsWalk(h, [x] + w)
  {
    var w' := [x] + w;
    forall i | 0 <= i < |w'| - 1 ensures Edge(h, w'[i], w'[i + 1]) {
      if i > 0 {
        assert w'[i] == w[i - 1] && w'[i + 1] == w[i];
      }
    }
  }

  lemma WalkTail(h: Heap, w: seq<Id>)
    requires IsWalk(h, w) && |w| >= 2
    ensures IsWalk(h, w[1..])
  {
    var w' := w[1..];
    forall i | 0 <= i < |w'| - 1 ensures Edge(h, w'[i], w'[i + 1]) {
      assert w'[i] == w[i + 1] && w'[i + 1] == w[i + 2];
    }
  }

  lemma {:induction false} CircularHasWalk(h: Heap, x: Id, ancestors: seq<Id>)
    requires Closed(h) && x in h && HasCircular(h, Ref(x), ancestors)
    ensures exists w ::
      IsWalk(h, w) && w[0] == x && (w[|w| - 1] in ancestors || w[|w| - 1] in w[..|w| - 1])
    decreases h.Keys - Ancestry(ancestors)
  {
    if x in ancestors {
      var w := [x];
      assert IsWalk(h, w) && w[0] == x && w[|w| - 1] in ancestors;
    } else {
      var chain := ancestors + [x];
      assert Ancestry(chain) == Ancestry(ancestors) + {x};
      var y: Id;
      match h[x] {
        case ArrayNode(es) =>
          var i :| 0 <= i < |es| && HasCircular(h, es[i], chain);
          y := es[i].id;
          assert es[i] == Ref(y);
        case ObjectNode(ms) =>
          var k :| k in ms && HasCircular(h, ms[k], chain);
          y := ms[k].id;
          assert ms[k] == Ref(y);
      }
      assert Edge(h, x, y) && HasCircular(h, Ref(y), chain);
      CircularHasWalk(h, y, chain);
      var w' :| IsWalk(h, w') && w'[0] == y &&
        (w'[|w'| - 1] in chain || w'[|w'| - 1] in w'[..|w'| - 1]);
      var last := w'[|w'| - 1];
      var w := [x] + w';
      ExtendWalk(h, x, w');
      assert w[0] == x && w[|w| - 1] == last;
      assert w[..|w| - 1] == [x] + w'[..|w'| - 1];
      if last in w'[..|w'| - 1] {
        assert last in w[..|w| - 1];
      } else if last == x {
        assert last in w[..|w| - 1];
      } else {
        assert last in ancestors;
      }
    }
  }

  lemma {:induction false} WalkMakesCircular(h: Heap, w: seq<Id>, ancestors: seq<Id>)
    requires Closed(h) && IsWalk(h, w)
    requires w[|w| - 1] in ancestors || w[|w| - 1] in w[..|w| - 1]
    ensures HasCircular(h, Ref(w[0]), ancestors)
    decreases |w|
  {
    var x := w[0];
    if x !in ancestors {
      assert |w| >= 2;
      var y := w[1];
      assert Edge(h, x, y);
      var chain := ancestors + [x];
      var w' := w[1..];
      assert w[..|w| - 1] == [x] + w'[..|w'| - 1];
      WalkTail(h, w);
      WalkMakesCircular(h, w', chain);
      match h[x]
      case ArrayNode(es) =>
        var i :| 0 <= i < |es| && es[i] == Ref(y);
        assert HasCircular(h, es[i], chain);
      case ObjectNode(ms) =>
        var k :| k in ms && ms[k] == Ref(y);
        assert HasCircular(h, ms[k], chain);
    }
  }

  /**
   * `_hasCircular(v)` holds exactly when `v` is a container from which a
   * walk leads back to a container already on it: some container is its own
   * descendant. Two references to one shared container are not such a walk.
   */
  lemma CircularIffCycle(h: Heap, v: Value)
    requires Closed(h) && RefIn(h, v)
    ensures HasCircular(h, v, []) <==> v.Ref? && exists w :: IsWalk(h, w) && w[0] == v.id && Revisits(w)
  {
    if v.Ref? {
      if HasCircular(h, v, []) {
        CircularHasWalk(h, v.id, []);
      }
      if w :| IsWalk(h, w) && w[0] == v.id && Revisits(w) {
        WalkMakesCircular(h, w, []);
      }
    }
  }

  /** Ranks that fall strictly along every edge: the heap has no cycle. */
  ghost predicate Ranked(h: Heap, rank: map<Id, nat>) {
    h.Keys <= rank.Keys && forall x, y :: Edge(h, x, y) ==> y in rank && rank[y] < rank[x]
  }

  lemma {:induction false} RankedHasNoCircular(h: Heap, rank: map<Id, nat>, v: Value, ancestors: seq<Id>)
    requires Closed(h) && RefIn(h, v) && Ranked(h, rank)
    requires v.Ref? ==> forall a | a in ancestors :: a in rank && rank[a] > rank[v.id]
    ensures !HasCircular(h, v, ancestors)
    decreases h.Keys - Ancestry(ancestors)
  {
    if v.Ref? {
      var x := v.id;
      var chain := ancestors + [x];
      assert Ancestry(chain) == Ancestry(ancestors) + {x};
      match h[x]
      case ArrayNode(es) =>
        forall i | 0 <= i < |es| ensures !HasCircular(h, es[i], chain) {
          if es[i].Ref? {
            assert Edge(h, x, es[i].id);
          }
          RankedHasNoCircular(h, rank, es[i], chain);
        }
      case ObjectNode(ms) =>
        forall k | k in ms ensures !HasCircular(h, ms[k], chain) {
          if ms[k].Ref? {
            assert ms[k] in ms.Values;
            assert Edge(h, x, ms[k].id);
          }
          RankedHasNoCircular(h, rank, ms[k], chain);
        }
    }
  }

  /** A heap without cycles (diamonds allowed) never reports a circular reference. */
  lemma AcyclicNotCircular(h: Heap, rank: map<Id, nat>, v: Value)
    requires Closed(h) && RefIn(h, v) && Ranked(h, rank)
    ensures !HasCircular(h, v, [])
  {
    RankedHasNoCircular(h, rank, v, []);
  }

  lemma {:induction false} UndefinedHasWalk(h: Heap, x: Id, ancestors: seq<Id>)
    requires Closed(h) && x in h && !HasCircular(h, Ref(x), ancestors)
    requires HasUndefined(h, Ref(x), ancestors)
    ensures exists w :: IsWalk(h, w) && w[0] == x && HoldsUndefined(h[w[|w| - 1]])
    decreases h.Keys - Ancestry(ancestors)
  {
    var chain := ancestors + [x];
    assert Ancestry(chain) == Ancestry(ancestors) + {x};
    var child: Value;
    match h[x] {
      case ArrayNode(es) =>
        var i :| 0 <= i < |es| && HasUndefined(h, es[i], chain);
        child := es[i];
        assert child in es;
      case ObjectNode(ms) =>
        var k :| k in ms && HasUndefined(h, ms[k], chain);
        child := ms[k];
        assert child in ms.Values;
    }
    if child.Undefined? {
      var w := [x];
      assert IsWalk(h, w) && HoldsUndefined(h[w[|w| - 1]]);
    } else {
      var y := child.id;
      assert Edge(h, x, y);
      UndefinedHasWalk(h, y, chain);
      var w' :| IsWalk(h, w') && w'[0] == y && HoldsUndefined(h[w'[|w'| - 1]]);
      var w := [x] + w';
      ExtendWalk(h, x, w');
      assert w[|w| - 1] == w'[|w'| - 1];
    }
  }

  lemma {:induction false} WalkMakesUndefined(h: Heap, w: seq<Id>, ancestors: seq<Id>)
    requires Closed(h) && IsWalk(h, w) && HoldsUndefined(h[w[|w| - 1]])
    requires !HasCircular(h, Ref(w[0]), ancestors)
    ensures HasUndefined(h, Ref(w[0]), ancestors)
    decreases |w|
  {
    var x := w[0];
    var chain := ancestors + [x];
    if |w| == 1 {
      match h[x]
      case ArrayNode(es) =>
        var i :| 0 <= i < |es| && es[i] == Undefined;
        assert HasUndefined(h, es[i], chain);
      case ObjectNode(ms) =>
        var k :| k in ms && ms[k] == Undefined;
        assert HasUndefined(h, ms[k], chain);
    } else {
      var y := w[1];
      assert Edge(h, x, y);
      var w' := w[1..];
      WalkTail(h, w);
      match h[x]
      case ArrayNode(es) =>
        var i :| 0 <= i < |es| && es[i] == Ref(y);
        assert !HasCircular(h, es[i], chain);
        WalkMakesUndefined(h, w', chain);
        assert HasUndefined(h, es[i], chain);
      case ObjectNode(ms) =>
        var k :| k in ms && ms[k] == Ref(y);
        assert !HasCircular(h, ms[k], chain);
        WalkMakesUndefined(h, w', chain);
        assert HasUndefined(h, ms[k], chain);
    }
  }

  /**
   * On an acyclic value, `_hasUndefined(v)` holds exactly when `v` is
   * undefined or some container reachable from it holds undefined directly.
   */
  lemma UndefinedIffReachable(h: Heap, v: Value)
    requires Closed(h) && RefIn(h, v) && !HasCircular(h, v, [])
    ensures HasUndefined(h, v, []) <==>
      v.Undefined? || (v.Ref? && exists w :: IsWalk(h, w) && w[0] == v.id && HoldsUndefined(h[w[|w| - 1]]))
  {
    if v.Ref? {
      if HasUndefined(h, v, []) {
        UndefinedHasWalk(h, v.id, []);
      }
      if w :| IsWalk(h, w) && w[0] == v.id && HoldsUndefined(h[w[|w| - 1]]) {
        WalkMakesUndefined(h, w, []);
      }
    }
  }
}
