/** A record's mutable state as a value: its type, its field dictionary
    (values may be `None`, as in the free-text path), the dictionary's
    insertion order, and its accumulated error messages. */
module FieldState {
  import opened PyStr

  datatype RecordState = RecordState(
    typ: string,
    vals: map<string, Option<string>>,
    order: seq<string>,
    errors: seq<string>)

  /** The outcome of a step that may raise an uncaught Python exception. */
  datatype Outcome<T> = Done(value: T) | Raised(exception: string)

  /** The insertion order lists every field exactly once. */
  ghost predicate Valid(r: RecordState) {
    && Distinct(r.order)
    && (forall f :: f in r.vals <==> f in r.order)
  }

  ghost predicate Distinct(fs: seq<string>) {
    forall i, j :: 0 <= i < j < |fs| ==> fs[i] != fs[j]
  }

  /** `fields.get(f)`: `None` both when `f` is absent and when its value is `None`. */
  function Get(r: RecordState, f: string): Option<string> {
    if f in r.vals then r.vals[f] else None
  }

  /** Python truthiness of a value that may be `None`. */
  predicate Truthy(v: Option<string>) {
    v.Some? && v.value != ""
  }

  /** `fields[f] = v`: a new field goes to the end of the insertion order. */
  function Put(r: RecordState, f: string, v: Option<string>): RecordState {
    r.(vals := r.vals[f := v], order := if f in r.vals then r.order else r.order + [f])
  }

  /** `order` without `f`. */
  function Remove(order: seq<string>, f: string): seq<string> {
    if order == [] then []
    else (if order[0] == f then [] else [order[0]]) + Remove(order[1..], f)
  }

  /** Removal drops exactly `f` from the order. */
  lemma {:induction false} RemoveMembers(order: seq<string>, f: string)
    ensures forall g :: g in Remove(order, f) <==> g in order && g != f
    decreases |order|
  {
    if order != [] {
      RemoveMembers(order[1..], f);
    }
  }

  /** `del fields[f]` */
  function Del(r: RecordState, f: string): RecordState {
    r.(vals := r.vals - {f}, order := Remove(r.order, f))
  }

  /** `errors.append(msg)` */
  function Err(r: RecordState, msg: string): RecordState {
    r.(errors := r.errors + [msg])
  }

  /** The placeholder `handleerror` puts in a missing mandatory field. */
  function Placeholder(m: string): string {
    "{\\biberror{no " + m + "}}"
  }

  /** `handleerror(m)` */
  function HandleError(r: RecordState, m: string): (r': RecordState)
    ensures Get(r', m).Some?
    ensures Get(r, m).Some? ==> r' == r
    ensures Get(r, m).None? ==> Get(r', m) == Some(Placeholder(m)) && r'.errors == r.errors + ["missing " + m]
    ensures forall g :: g != m ==> Get(r', g) == Get(r, g)
    ensures r'.typ == r.typ
  {
    if Get(r, m).None? then Err(Put(r, m, Some(Placeholder(m))), "missing " + m) else r
  }

  // ----- the dictionary invariant -----

  lemma {:induction false} RemoveDistinct(order: seq<string>, f: string)
    requires Distinct(order)
    ensures Distinct(Remove(order, f))
    decreases |order|
  {
    if order != [] {
      assert Distinct(order[1..]) by {
        forall i, j | 0 <= i < j < |order[1..]| ensures order[1..][i] != order[1..][j] {
          assert order[1..][i] == order[i + 1] && order[1..][j] == order[j + 1];
        }
      }
      RemoveDistinct(order[1..], f);
      RemoveMembers(order[1..], f);
      var head := if order[0] == f then [] else [order[0]];
      var rest := Remove(order[1..], f);
      assert order[0] !in order[1..] by {
        forall k | 0 <= k < |order[1..]| ensures order[1..][k] != order[0] {
          assert order[1..][k] == order[k + 1];
        }
      }
      assert Remove(order, f) == head + rest;
      forall i, j | 0 <= i < j < |head + rest| ensures (head + rest)[i] != (head + rest)[j] {
        if i < |head| {
          assert (head + rest)[j] == rest[j - |head|];
          assert rest[j - |head|] in rest;
        }
      }
    }
  }

  /** Assignment keeps every field listed exactly once. */
  lemma PutValid(r: RecordState, f: string, v: Option<string>)
    requires Valid(r)
    ensures Valid(Put(r, f, v))
  {
  }

  /** Deletion keeps every field listed exactly once. */
  lemma DelValid(r: RecordState, f: string)
    requires Valid(r)
    ensures Valid(Del(r, f))
  {
    RemoveDistinct(r.order, f);
    RemoveMembers(r.order, f);
  }

  /** The loop `for m in ms: handleerror(m)` over the mandatory fields. */
  function HandleAll(r: RecordState, ms: seq<string>): RecordState
    decreases |ms|
  {
    if ms == [] then r else HandleError(HandleAll(r, ms[..|ms| - 1]), ms[|ms| - 1])
  }

  /** After the mandatory-field loop every listed field holds a value, and
      the fields that already had one are untouched. */
  lemma {:induction false} HandleAllFills(r: RecordState, ms: seq<string>)
    ensures var r' := HandleAll(r, ms);
      && (forall m :: m in ms ==> Get(r', m).Some?)
      && (forall g :: g !in ms ==> Get(r', g) == Get(r, g))
      && (forall m :: m in ms && Get(r, m).Some? ==> Get(r', m) == Get(r, m))
      && r'.typ == r.typ
    decreases |ms|
  {
    if ms != [] {
      var init := ms[..|ms| - 1];
      HandleAllFills(r, init);
      assert forall m :: m in ms ==> m in init || m == ms[|ms| - 1];
    }
  }
}
