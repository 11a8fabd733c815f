/** PStore of src/store.cc: a cache of objects over a backend, with a list of keys whose
    state has yet to reach the backend. The list holds pointers to the cached objects, which
    commands update in place. */
module Store {
  import opened Bytes

  type Key = seq<byte>

  /** A cached object, at a stable address. */
  class Node<V> {
    var value: V

    constructor (value: V)
      ensures this.value == value
    {
      this.value := value;
    }
  }

  const MAX_SYNC := 100

  class Store<V(!new)> {
    var db: map<Key, Node<V>>
    var waitSync: map<Key, Node?<V>>
    var backend: map<Key, V>
    const hasBackend: bool

    /** The one plain map that cache, list and backend stand for. */
    ghost var contents: map<Key, V>

    /** An empty cache over the backend, if there is one. */
    constructor (hasBackend: bool, backend: map<Key, V>)
      requires !hasBackend ==> backend == map[]
      ensures Valid() && waitSync == map[] && this.backend == backend && this.hasBackend == hasBackend
      ensures contents == backend && Nodes() == {}
    {
      db, waitSync := map[], map[];
      this.backend, this.hasBackend := backend, hasBackend;
      contents := backend;
    }

    ghost function Nodes(): (s: set<object>)
      reads this
    {
      set k | k in db :: db[k] as object
    }

    /** No pointer dangles, no two keys share an object, a null pointer stands for a deleted
        key, and what is cached and not waiting is as in the backend, the loose keys aside. */
    ghost predicate Linked(loose: set<Key>)
      reads this, Nodes()
    {
      && (!hasBackend ==> waitSync == map[] && backend == map[])
      && (forall k | k in waitSync :: if waitSync[k] == null then k !in db else k in db && waitSync[k] == db[k])
      && (forall k, l | k in db && l in db && k != l :: db[k] != db[l])
      && (hasBackend ==>
            forall k | k in db && k !in waitSync && k !in loose :: k in backend && backend[k] == db[k].value)
    }

    /** A key has a value if it is cached, or if it is in the backend and not waiting. */
    ghost predicate Agrees()
      reads this, Nodes()
    {
      && (forall k :: k in contents <==> k in db || (k in backend && k !in waitSync))
      && (forall k | k in contents :: contents[k] == if k in db then db[k].value else backend[k])
    }

    ghost predicate Valid()
      reads this, Nodes()
    {
      Linked({}) && Agrees()
    }

    /** Assigns to the object of the key, which is created if need be. */
    method Assign(key: Key, value: V) returns (node: Node<V>)
      requires Valid()
      modifies this`db, Nodes()
      ensures key in db && db[key] == node && node.value == value
      ensures db == old(db)[key := node] && (if key in old(db) then node == old(db)[key] else fresh(node))
      ensures forall k | k in old(db) && k != key :: db[k].value == old(db[k].value)
    {
      if key in db {
        node := db[key];
        node.value := value;
        assert db == db[key := node];
      } else {
        node := new Node(value);
        db := db[key := node];
      }
    }

    /** GetObject: the object of the key, loaded from the backend if it is only there. */
    method GetObject(key: Key, ghost loose: set<Key>) returns (node: Node?<V>)
      requires Linked(loose) && Agrees()
      modifies this`db
      ensures Linked(loose) && Agrees() && fresh(Nodes() - old(Nodes()))
      ensures node != null <==> key in contents
      ensures node != null ==> key in db && db[key] == node && node.value == contents[key]
      ensures forall k | k in old(db) :: k in db && db[k] == old(db)[k]
    {
      if key in db {
        return db[key];
      }
      if hasBackend {
        if key in waitSync {
          return null;
        }
        if key in backend {
          var n := new Node(backend[key]);
          db := db[key := n];
          return n;
        }
      }
      return null;
    }

    /** SetValue */
    method SetValue(key: Key, value: V) returns (node: Node<V>)
      requires Valid()
      modifies this`db, this`waitSync, this`contents, Nodes()
      ensures Valid() && contents == old(contents)[key := value] && fresh(Nodes() - old(Nodes()))
      ensures key in db && db[key] == node
    {
      node := Assign(key, value);
      if hasBackend {
        waitSync := waitSync[key := node];
      }
      contents := contents[key := value];
    }

    /** DeleteKey: whether the key was cached. */
    method DeleteKey(key: Key) returns (cached: bool)
      requires Valid()
      modifies this`db, this`waitSync, this`contents
      ensures Valid() && contents == old(contents) - {key} && fresh(Nodes() - old(Nodes()))
      ensures cached <==> key in old(db)
    {
      if hasBackend {
        waitSync := waitSync[key := null];
      }
      cached := key in db;
      db := db - {key};
      contents := contents - {key};
    }

    /** A command changes the object of the key in place, before AddDirtyKey tells. */
    method Mutate(key: Key, node: Node<V>, value: V)
      requires Valid() && key in db && db[key] == node
      modifies this`contents, node
      ensures Linked({key}) && Agrees() && contents == old(contents)[key := value]
    {
      node.value := value;
      contents := contents[key := value];
    }

    /** AddDirtyKey */
    method AddDirtyKey(key: Key)
      requires Linked({key}) && Agrees()
      modifies this`db, this`waitSync
      ensures Valid() && fresh(Nodes() - old(Nodes()))
      ensures hasBackend ==> key in waitSync
    {
      if hasBackend {
        var obj := GetObject(key, {key});
        waitSync := waitSync[key := obj];
      }
    }

    /** An update in place, as the commands make it: find, change, tell. */
    method Update(key: Key, value: V) returns (found: bool)
      requires Valid()
      modifies this`db, this`waitSync, this`contents, Nodes()
      ensures Valid() && fresh(Nodes() - old(Nodes()))
      ensures found <==> key in old(contents)
      ensures contents == if found then old(contents)[key := value] else old(contents)
    {
      var node := GetObject(key, {});
      if node == null {
        return false;
      }
      Mutate(key, node, value);
      AddDirtyKey(key);
      return true;
    }

    /** Lines 706-720: one key reaches the backend and leaves the list. */
    method SyncOne(key: Key)
      requires Valid() && hasBackend && key in waitSync
      modifies this`backend, this`waitSync
      ensures Valid() && waitSync == old(waitSync) - {key}
      ensures backend == if key in contents then old(backend)[key := contents[key]] else old(backend) - {key}
    {
      var node := waitSync[key];
      if node != null {
        backend := backend[key := node.value];
      } else {
        backend := backend - {key};
      }
      waitSync := waitSync - {key};
    }

    /** DumpToBackends: up to kMaxSync keys of the list, in any order. */
    method DumpToBackends()
      requires Valid()
      modifies this`backend, this`waitSync
      ensures Valid() && waitSync.Keys <= old(waitSync).Keys
      ensures |waitSync| == if |old(waitSync)| > MAX_SYNC then |old(waitSync)| - MAX_SYNC else 0
      ensures forall k | k !in old(waitSync) :: k in backend <==> k in old(backend)
      ensures forall k | k in backend && k !in old(waitSync) :: backend[k] == old(backend)[k]
    {
      if !hasBackend {
        return;
      }
      var processed := 0;
      while processed < MAX_SYNC && waitSync != map[]
        invariant Valid() && processed <= MAX_SYNC && waitSync.Keys <= old(waitSync).Keys
        invariant |waitSync| + processed == |old(waitSync)|
        invariant forall k | k !in old(waitSync) :: k in backend <==> k in old(backend)
        invariant forall k | k in backend && k !in old(waitSync) :: backend[k] == old(backend)[k]
        decreases MAX_SYNC - processed
      {
        var key :| key in waitSync;
        OneFewer(waitSync, key);
        SyncOne(key);
        processed := processed + 1;
      }
    }
  }
}
