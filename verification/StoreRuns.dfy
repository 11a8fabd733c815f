/** Whole runs of the store of src/store.cc against one plain map. */
module StoreRuns {
  import opened Bytes
  import opened Store

  datatype Op<V> =
    | Get(key: Key)
    | Set(key: Key, value: V)
    | Change(key: Key, value: V)
    | Delete(key: Key)
    | Touch(key: Key)
    | Dump

  datatype Answer<V> = Value(value: Option<V>) | Found(found: bool) | Done

  /** What an operation does to a plain map, and what it answers. */
  function MapAfter<V>(m: map<Key, V>, op: Op<V>): (r: map<Key, V>) {
    match op
    case Set(k, v) => m[k := v]
    case Change(k, v) => if k in m then m[k := v] else m
    case Delete(k) => m - {k}
    case _ => m
  }

  function MapAnswer<V>(m: map<Key, V>, op: Op<V>): (a: Answer<V>) {
    match op
    case Get(k) => Value(if k in m then Some(m[k]) else None)
    case Change(k, v) => Found(k in m)
    case _ => Done
  }

  function MapRun<V>(m: map<Key, V>, ops: seq<Op<V>>): (r: (map<Key, V>, seq<Answer<V>>)) {
    if ops == [] then (m, [])
    else
      var (n, answers) := MapRun(m, ops[..|ops| - 1]);
      var op := ops[|ops| - 1];
      (MapAfter(n, op), answers + [MapAnswer(n, op)])
  }

  method Step<V(!new)>(s: Store<V>, op: Op<V>) returns (a: Answer<V>)
    requires s.Valid()
    modifies s, s.Nodes()
    ensures s.Valid() && fresh(s.Nodes() - old(s.Nodes()))
    ensures s.contents == MapAfter(old(s.contents), op) && a == MapAnswer(old(s.contents), op)
  {
    a := Done;
    match op
    case Get(k) =>
      var n := s.GetObject(k, {});
      a := Value(if n != null then Some(n.value) else None);
    case Set(k, v) => var _ := s.SetValue(k, v);
    case Change(k, v) =>
      var found := s.Update(k, v);
      a := Found(found);
    case Delete(k) => var _ := s.DeleteKey(k);
    case Touch(k) => s.AddDirtyKey(k);
    case Dump => s.DumpToBackends();
  }

  /** Any run over a backend answers as one plain map that starts as the backend would, and
      once nothing waits to be synced the backend is that map. */
  method Execute<V(!new)>(backend: map<Key, V>, ops: seq<Op<V>>) returns (s: Store<V>, answers: seq<Answer<V>>)
    ensures fresh(s) && s.Valid() && s.hasBackend
    ensures (s.contents, answers) == MapRun(backend, ops)
    ensures s.waitSync == map[] ==> s.backend == MapRun(backend, ops).0
  {
    s := new Store(true, backend);
    answers := [];
    for i := 0 to |ops|
      invariant fresh(s) && fresh(s.Nodes()) && s.Valid() && s.hasBackend
      invariant (s.contents, answers) == MapRun(backend, ops[..i])
    {
      assert ops[..i + 1][..i] == ops[..i];
      var a := Step(s, ops[i]);
      answers := answers + [a];
    }
    assert ops[..|ops|] == ops;
  }

  /** Enough dumps bring the backend up to date. */
  method Drain<V(!new)>(s: Store<V>)
    requires s.Valid() && s.hasBackend
    modifies s`backend, s`waitSync
    ensures s.Valid() && s.waitSync == map[] && s.backend == s.contents
  {
    while s.waitSync != map[]
      invariant s.Valid()
      decreases |s.waitSync|
    {
      s.DumpToBackends();
    }
  }
}
