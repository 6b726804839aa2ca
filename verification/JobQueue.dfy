/** A queue that drops a job whose identifier it already holds. */
module JobQueue {
  import opened Ordering

  function Add<T(==, !new)>(queue: seq<T>, id: T): (r: seq<T>)
    ensures queue <= r && forall x :: x in r <==> x in queue || x == id
    ensures Distinct(queue) ==> Distinct(r)
  {
    if id in queue then queue else queue + [id]
  }

  function AddAll<T(==, !new)>(queue: seq<T>, ids: seq<T>): (r: seq<T>)
    ensures Distinct(queue) ==> Distinct(r)
    ensures forall x :: x in r <==> x in queue || x in ids
  {
    if ids == [] then queue
    else
      assert ids == ids[..|ids| - 1] + [ids[|ids| - 1]];
      Add(AddAll(queue, ids[..|ids| - 1]), ids[|ids| - 1])
  }
}
