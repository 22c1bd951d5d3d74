/**
 * Feed data (JSON documents) and paths into them.
 */
module Documents {
  import opened Wrappers

  /** A JSON-expressible document. Numbers are modelled as integers. */
  datatype Json =
    | Null
    | Bool(b: bool)
    | Num(n: int)
    | Str(s: string)
    | Arr(elems: seq<Json>)
    | Obj(members: map<string, Json>)

  /**
   * One element of a path argument as the caller passes it: a string, an
   * integer, a number that is not an integer, or any other JS value.
   */
  datatype PathElem = Key(key: string) | Index(index: int) | Fraction | OtherElem

  type Path = seq<PathElem>

  /** The child of `doc` that `loc` names: a key of an object or an index of an array. */
  function ChildAt(doc: Json, loc: PathElem): (r: Option<Json>)
    ensures r.Some? ==> doc.Obj? || doc.Arr?
  {
    match (doc, loc)
    case (Obj(m), Key(k)) => if k in m then Some(m[k]) else None
    case (Arr(a), Index(i)) => if 0 <= i < |a| then Some(a[i]) else None
    case _ => None
  }

  /** `doc` with the existing child named by `loc` replaced by `c`. */
  function WithChild(doc: Json, loc: PathElem, c: Json): (r: Json)
    requires ChildAt(doc, loc).Some?
    ensures ChildAt(r, loc) == Some(c)
    ensures forall l :: l != loc ==> ChildAt(r, l) == ChildAt(doc, l)
    ensures r.Obj? == doc.Obj? && r.Arr? == doc.Arr?
  {
    match doc
    case Obj(m) => Obj(m[loc.key := c])
    case Arr(a) => Arr(a[loc.index := c])
  }

  lemma WithChildTwice(doc: Json, loc: PathElem, c: Json, d: Json)
    requires ChildAt(doc, loc).Some?
    ensures WithChild(WithChild(doc, loc, c), loc, d) == WithChild(doc, loc, d)
  {
    match doc
    case Obj(m) =>
      assert m[loc.key := c][loc.key := d] == m[loc.key := d];
    case Arr(a) =>
  }

  lemma WithSameChild(doc: Json, loc: PathElem)
    requires ChildAt(doc, loc).Some?
    ensures WithChild(doc, loc, ChildAt(doc, loc).value) == doc
  {
    match doc
    case Obj(m) =>
      assert m[loc.key := m[loc.key]] == m;
    case Arr(a) =>
  }

  /** The value at `p` in `doc`, if every step of `p` names an existing child. */
  function Lookup(doc: Json, p: Path): Option<Json>
    decreases |p|
  {
    if p == [] then Some(doc)
    else
      match ChildAt(doc, p[0])
      case None => None
      case Some(c) => Lookup(c, p[1..])
  }

  /** Looking up a path extended by one step looks up the prefix, then the child. */
  lemma {:induction false} LookupSnoc(doc: Json, p: Path, loc: PathElem)
    ensures Lookup(doc, p + [loc]) ==
      match Lookup(doc, p) case None => None case Some(x) => ChildAt(x, loc)
    decreases |p|
  {
    if p == [] {
      assert p + [loc] == [loc];
      assert ([loc])[1..] == [];
    } else {
      assert (p + [loc])[0] == p[0];
      assert (p + [loc])[1..] == p[1..] + [loc];
      match ChildAt(doc, p[0])
      case None =>
      case Some(c) => LookupSnoc(c, p[1..], loc);
    }
  }

  /**
   * Two paths that part ways: at some depth they name different children,
   * having agreed on every step before.
   */
  predicate Diverge(p: Path, q: Path)
    decreases |p|
  {
    |p| > 0 && |q| > 0 && (p[0] != q[0] || Diverge(p[1..], q[1..]))
  }

  /** All paths but the last step. */
  function Init(p: Path): Path
    requires |p| > 0
  {
    p[..|p| - 1]
  }

  function Last(p: Path): PathElem
    requires |p| > 0
  {
    p[|p| - 1]
  }

  lemma InitLast(p: Path)
    requires |p| > 0
    ensures Init(p) + [Last(p)] == p
  {
  }

  /** Looking up a non-empty path looks up all but its last step, then takes that child. */
  lemma LookupLast(doc: Json, p: Path)
    requires |p| > 0
    ensures Lookup(doc, p) == match Lookup(doc, Init(p)) case None => None case Some(x) => ChildAt(x, Last(p))
  {
    InitLast(p);
    LookupSnoc(doc, Init(p), Last(p));
  }
}
