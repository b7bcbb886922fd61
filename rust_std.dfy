/** The pieces of Rust's standard library the containers rely on: `Option`,
    `Result`, and the `Vec<T>` operations `push`, `pop`, `insert` and `remove`,
    each with the index bounds beyond which the real operation panics. A
    vector is its sequence of elements; capacity and reallocation are not
    modelled. */
module RustStd {

  datatype Option<T> = None | Some(value: T)

  datatype Result<T, E> = Ok(value: T) | Err(error: E)

  /** `Vec::push`: the new element becomes the last one. */
  function VecPush<T>(v: seq<T>, x: T): (r: seq<T>)
    ensures |r| == |v| + 1 && r[|v|] == x
    ensures forall k :: 0 <= k < |v| ==> r[k] == v[k]
  {
    v + [x]
  }

  /** `Vec::pop`: `None` on an empty vector, otherwise the last element and
      the vector without it. */
  function VecPop<T>(v: seq<T>): (r: (Option<T>, seq<T>))
    ensures r.0.None? <==> |v| == 0
    ensures r.0.None? ==> r.1 == v
    ensures r.0.Some? ==> VecPush(r.1, r.0.value) == v
  {
    if |v| == 0 then (None, v) else (Some(v[|v| - 1]), v[..|v| - 1])
  }

  /** `Vec::insert(index, x)`: panics unless `index <= len`; otherwise the
      elements from `index` on move one place to the right. */
  function VecInsert<T>(v: seq<T>, index: nat, x: T): (r: seq<T>)
    requires index <= |v|
    ensures |r| == |v| + 1 && r[index] == x
    ensures forall k :: 0 <= k < index ==> r[k] == v[k]
    ensures forall k :: index < k <= |v| ==> r[k] == v[k - 1]
  {
    v[..index] + [x] + v[index..]
  }

  /** `Vec::remove(index)`: panics unless `index < len`; otherwise returns the
      element at `index` and moves the later ones one place to the left. */
  function VecRemove<T>(v: seq<T>, index: nat): (r: (T, seq<T>))
    requires index < |v|
    ensures r.0 == v[index] && |r.1| == |v| - 1
    ensures forall k :: 0 <= k < index ==> r.1[k] == v[k]
    ensures forall k :: index <= k < |v| - 1 ==> r.1[k] == v[k + 1]
  {
    (v[index], v[..index] + v[index + 1..])
  }

  /** Popping what was just pushed gives back the element and the vector. */
  lemma PopAfterPush<T>(v: seq<T>, x: T)
    ensures VecPop(VecPush(v, x)) == (Some(x), v)
  {
    assert VecPush(v, x)[..|v|] == v;
  }

  /** Removing at the index just inserted at undoes the insertion. */
  lemma RemoveAfterInsert<T>(v: seq<T>, index: nat, x: T)
    requires index <= |v|
    ensures VecRemove(VecInsert(v, index, x), index) == (x, v)
  {
    var w := VecInsert(v, index, x);
    assert w[..index] + w[index + 1..] == v;
  }

  /** Inserting at the end is pushing. */
  lemma InsertAtEndIsPush<T>(v: seq<T>, x: T)
    ensures VecInsert(v, |v|, x) == VecPush(v, x)
  {
    assert v[..|v|] == v;
  }
}
