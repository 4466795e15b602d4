/**
 * The per-user registry hive (HKCU) as an abstract hierarchical store:
 * a map from a key path — names joined with a backslash — to the values
 * of that key, a map from value name to string. It stands in for the
 * `winreg` client that the shell options call; only the four operations
 * they use are modelled: get, create, set and a recursive destroy.
 */
module Store {
  import opened Wrappers

  type Values = map<string, string>
  type Keys = map<string, Values>

  datatype StoreError = KeyNotFound(path: string) | AccessDenied(path: string)

  /** What a read of one value reports: an error, no value (`val == null`), or the value. */
  datatype ReadResult = Failed(error: StoreError) | Missing | Found(value: string)

  const Separator: char := '\\'

  /** `k` is `root` itself or a key nested, at any depth, under it. */
  predicate InSubtree(k: string, root: string) {
    k == root || (|root| < |k| && k[..|root| + 1] == root + [Separator])
  }

  /** The key path `root\suffix`. */
  function Child(root: string, suffix: string): (r: string)
    ensures InSubtree(r, root) && r != root
    ensures |r| == |root| + 1 + |suffix|
  {
    var r := root + [Separator] + suffix;
    assert r[..|root| + 1] == root + [Separator];
    r
  }

  /** Every key of a subtree agrees with its root on the root's characters. */
  lemma SubtreeSharesRoot(k: string, root: string, i: nat)
    requires InSubtree(k, root) && i < |root|
    ensures i < |k| && k[i] == root[i]
  {
    if k != root {
      assert k[..|root| + 1][i] == (root + [Separator])[i];
    }
  }

  /** The value stored under `path` as `name`, if there is one. */
  function ValueAt(m: Keys, path: string, name: string): (r: Option<string>)
    ensures r.Some? <==> path in m && name in m[path]
    ensures r.Some? ==> r.value == m[path][name]
  {
    if path in m && name in m[path] then Some(m[path][name]) else None
  }

  /** `get(name)` on the key `path`: reading a key that does not exist is an error. */
  function Lookup(m: Keys, path: string, name: string): (r: ReadResult)
    ensures r.Failed? <==> path !in m
    ensures r.Missing? <==> path in m && name !in m[path]
    ensures r.Found? ==> ValueAt(m, path, name) == Some(r.value)
  {
    if path !in m then Failed(KeyNotFound(path))
    else if name !in m[path] then Missing
    else Found(m[path][name])
  }

  /** `create()`: the key exists afterwards; no value changes. */
  function Created(m: Keys, path: string): (r: Keys)
    ensures r.Keys == m.Keys + {path}
    ensures forall k, n :: ValueAt(r, k, n) == ValueAt(m, k, n)
  {
    if path in m then m else m[path := map[]]
  }

  /** `set(name, REG_SZ, value)`: overwrites one value, creating the key if needed. */
  function Assigned(m: Keys, path: string, name: string, value: string): (r: Keys)
    ensures r.Keys == m.Keys + {path}
    ensures ValueAt(r, path, name) == Some(value)
    ensures forall k, n :: (k != path || n != name) ==> ValueAt(r, k, n) == ValueAt(m, k, n)
  {
    m[path := (if path in m then m[path] else map[])[name := value]]
  }

  /** `destroy()`: removes `root` and every key nested under it, and nothing else. */
  function Pruned(m: Keys, root: string): (r: Keys)
    ensures forall k :: k in r <==> k in m && !InSubtree(k, root)
    ensures forall k :: k in r ==> r[k] == m[k]
  {
    map k | k in m && !InSubtree(k, root) :: m[k]
  }

  /** A store whose keys and values agree everywhere is the same store. */
  lemma Extensionality(m1: Keys, m2: Keys)
    requires m1.Keys == m2.Keys
    requires forall k, n :: ValueAt(m1, k, n) == ValueAt(m2, k, n)
    ensures m1 == m2
  {
    forall k | k in m1 ensures m1[k] == m2[k] {
      assert forall n :: n in m1[k] <==> ValueAt(m1, k, n).Some?;
      assert forall n :: n in m2[k] <==> ValueAt(m2, k, n).Some?;
      assert m1[k].Keys == m2[k].Keys;
      forall n | n in m1[k] ensures m1[k][n] == m2[k][n] {
        assert ValueAt(m1, k, n) == ValueAt(m2, k, n);
      }
    }
  }

  /*
   * `register` starts every `create` at once, and each part's `set` runs
   * after its own `create`, so steps of different parts may interleave.
   * The lemmas below show that any two adjacent steps of different parts
   * may be swapped: two creates, a create and a set, or two sets of
   * different slots. A refused step leaves the store as it was, so it
   * commutes with everything.
   */

  /** Two creates may run in either order. */
  lemma CreatesCommute(m: Keys, p: string, q: string)
    ensures Created(Created(m, p), q) == Created(Created(m, q), p)
  {
    Extensionality(Created(Created(m, p), q), Created(Created(m, q), p));
  }

  /** A create and a set may run in either order. */
  lemma CreateAndSetCommute(m: Keys, p: string, q: string, name: string, value: string)
    ensures Created(Assigned(m, p, name, value), q) == Assigned(Created(m, q), p, name, value)
  {
    Extensionality(Created(Assigned(m, p, name, value), q), Assigned(Created(m, q), p, name, value));
  }

  /** Sets of two different slots may run in either order. */
  lemma SetsCommute(m: Keys, p: string, n1: string, v1: string, q: string, n2: string, v2: string)
    requires p != q || n1 != n2
    ensures Assigned(Assigned(m, p, n1, v1), q, n2, v2) == Assigned(Assigned(m, q, n2, v2), p, n1, v1)
  {
    Extensionality(Assigned(Assigned(m, p, n1, v1), q, n2, v2), Assigned(Assigned(m, q, n2, v2), p, n1, v1));
  }

  /**
   * The hive the options write to. `locked` holds key paths the user may
   * not change: create, set and destroy naming one of them fail with
   * AccessDenied and leave the store as it was. Reads always succeed.
   */
  class Hive {
    var keys: Keys
    const locked: set<string>

    constructor (initial: Keys, denied: set<string>)
      ensures keys == initial && locked == denied
    {
      keys := initial;
      locked := denied;
    }

    method Create(path: string) returns (err: Option<StoreError>)
      modifies this
      ensures err == if path in locked then Some(AccessDenied(path)) else None
      ensures keys == if path in locked then old(keys) else Created(old(keys), path)
    {
      if path in locked {
        err := Some(AccessDenied(path));
      } else {
        keys := Created(keys, path);
        err := None;
      }
    }

    method Set(path: string, name: string, value: string) returns (err: Option<StoreError>)
      modifies this
      ensures err == if path in locked then Some(AccessDenied(path)) else None
      ensures keys == if path in locked then old(keys) else Assigned(old(keys), path, name, value)
    {
      if path in locked {
        err := Some(AccessDenied(path));
      } else {
        keys := Assigned(keys, path, name, value);
        err := None;
      }
    }

    method Destroy(root: string) returns (err: Option<StoreError>)
      modifies this
      ensures err == if root in locked then Some(AccessDenied(root)) else None
      ensures keys == if root in locked then old(keys) else Pruned(old(keys), root)
    {
      if root in locked {
        err := Some(AccessDenied(root));
      } else {
        keys := Pruned(keys, root);
        err := None;
      }
    }
  }
}
