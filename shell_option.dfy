/**
 * `ShellOption`: a shell-integration feature described as an ordered list
 * of value writes under one root key of the hive. The first part is the
 * marker: `isRegistered` and `update` look only at it.
 */
module ShellOptions {
  import opened Wrappers
  import opened Store

  /** One write: `name = value` under `root\subKey`, or under `root` when `subKey` is absent. */
  datatype Part = Part(subKey: Option<string>, name: string, value: string)

  /** What a template literal prints for a property the part does not have. */
  const Undefined: string := "undefined"

  /** The key `register` writes a part under: the suffix is used only when present. */
  function WriteAddress(key: string, p: Part): (r: string)
    ensures InSubtree(r, key)
    ensures r == key <==> p.subKey.None?
  {
    if p.subKey.Some? then Child(key, p.subKey.value) else key
  }

  /**
   * The key `isRegistered` and `update` read the marker from. The suffix is
   * interpolated unconditionally, so an absent sub-key reads `root\undefined`:
   * this agrees with the key `register` writes exactly when the sub-key is set.
   */
  function MarkerAddress(key: string, p: Part): (r: string)
    ensures InSubtree(r, key) && r != key
    ensures r == WriteAddress(key, p) <==> p.subKey.Some?
  {
    Child(key, if p.subKey.Some? then p.subKey.value else Undefined)
  }

  /** No two parts write the same value name under the same key. */
  predicate DistinctSlots(key: string, ps: seq<Part>) {
    forall i, j :: 0 <= i < j < |ps| ==>
      WriteAddress(key, ps[i]) != WriteAddress(key, ps[j]) || ps[i].name != ps[j].name
  }

  /** `isRegistered`: the marker value can be read and equals the configured marker exactly. */
  predicate Marked(m: Keys, key: string, ps: seq<Part>): (r: bool)
    requires |ps| > 0
    ensures var a := MarkerAddress(key, ps[0]);
      r <==> a in m && ps[0].name in m[a] && m[a][ps[0].name] == ps[0].value
  {
    Lookup(m, MarkerAddress(key, ps[0]), ps[0].name) == Found(ps[0].value)
  }

  /** `create` then `set` of one part; a failing call (a locked key) changes nothing. */
  function WritePart(m: Keys, locked: set<string>, key: string, p: Part): Keys {
    var a := WriteAddress(key, p);
    if a in locked then m else Assigned(Created(m, a), a, p.name, p.value)
  }

  /** The store after every part has been written, in list order. */
  function RegisterAll(m: Keys, locked: set<string>, key: string, ps: seq<Part>): Keys
    decreases |ps|
  {
    if ps == [] then m
    else WritePart(RegisterAll(m, locked, key, ps[..|ps| - 1]), locked, key, ps[|ps| - 1])
  }

  /** Some part is written under `a`, and `a` accepts writes. */
  predicate Written(locked: set<string>, key: string, ps: seq<Part>, a: string) {
    a !in locked && exists p :: p in ps && WriteAddress(key, p) == a
  }

  /** The value of the last part that writes `n` under `a`, if any. */
  function LastWrite(locked: set<string>, key: string, ps: seq<Part>, a: string, n: string): Option<string>
    decreases |ps|
  {
    if ps == [] then None
    else
      var p := ps[|ps| - 1];
      if a !in locked && WriteAddress(key, p) == a && p.name == n then Some(p.value)
      else LastWrite(locked, key, ps[..|ps| - 1], a, n)
  }

  /** `update`'s effect on the store: register again only if some marker value is present. */
  function Updated(m: Keys, locked: set<string>, key: string, ps: seq<Part>): Keys
    requires |ps| > 0
  {
    if Lookup(m, MarkerAddress(key, ps[0]), ps[0].name).Found? then RegisterAll(m, locked, key, ps) else m
  }

  /**
   * Register's effect, key by key and value by value: a key exists afterwards
   * iff it existed or some part was written under it, and each value is the
   * last one written to its slot, or the old one when no part wrote it.
   */
  lemma {:induction false} RegisterAllAt(m: Keys, locked: set<string>, key: string, ps: seq<Part>, a: string, n: string)
    ensures a in RegisterAll(m, locked, key, ps) <==> a in m || Written(locked, key, ps, a)
    ensures ValueAt(RegisterAll(m, locked, key, ps), a, n)
         == if LastWrite(locked, key, ps, a, n).Some? then LastWrite(locked, key, ps, a, n) else ValueAt(m, a, n)
  {
    if ps != [] {
      var init, last := ps[..|ps| - 1], ps[|ps| - 1];
      assert ps == init + [last];
      assert forall p :: p in ps <==> p in init || p == last;
      RegisterAllAt(m, locked, key, init, a, n);
    }
  }

  /** A key no part is written under keeps its presence and all its values. */
  lemma {:induction false} RegisterAllUntouched(m: Keys, locked: set<string>, key: string, ps: seq<Part>, a: string)
    requires !Written(locked, key, ps, a)
    ensures a in RegisterAll(m, locked, key, ps) <==> a in m
    ensures a in m ==> RegisterAll(m, locked, key, ps)[a] == m[a]
  {
    if ps != [] {
      var init, last := ps[..|ps| - 1], ps[|ps| - 1];
      assert ps == init + [last];
      assert forall p :: p in init ==> p in ps;
      assert last in ps;
      RegisterAllUntouched(m, locked, key, init, a);
    }
  }

  /** `register` changes nothing outside the subtree of its root key. */
  lemma RegisterFrame(m: Keys, locked: set<string>, key: string, ps: seq<Part>)
    ensures forall a :: !InSubtree(a, key) ==>
      (a in RegisterAll(m, locked, key, ps) <==> a in m) && (a in m ==> RegisterAll(m, locked, key, ps)[a] == m[a])
  {
    forall a | !InSubtree(a, key)
      ensures (a in RegisterAll(m, locked, key, ps) <==> a in m) && (a in m ==> RegisterAll(m, locked, key, ps)[a] == m[a])
    {
      RegisterAllUntouched(m, locked, key, ps, a);
    }
  }

  /** Registering twice leaves the same store as registering once. */
  lemma RegisterIdempotent(m: Keys, locked: set<string>, key: string, ps: seq<Part>)
    ensures RegisterAll(RegisterAll(m, locked, key, ps), locked, key, ps) == RegisterAll(m, locked, key, ps)
  {
    var once := RegisterAll(m, locked, key, ps);
    var twice := RegisterAll(once, locked, key, ps);
    forall a, n ensures (a in twice <==> a in once) && ValueAt(twice, a, n) == ValueAt(once, a, n) {
      RegisterAllAt(m, locked, key, ps, a, n);
      RegisterAllAt(once, locked, key, ps, a, n);
    }
    assert forall a :: a in twice <==> a in once by {
      forall a ensures a in twice <==> a in once {
        RegisterAllAt(m, locked, key, ps, a, "");
        RegisterAllAt(once, locked, key, ps, a, "");
      }
    }
    Extensionality(twice, once);
  }

  /** With distinct slots, the last write to a slot is the value of the one part that owns it. */
  lemma {:induction false} LastWriteOfDistinct(locked: set<string>, key: string, ps: seq<Part>, a: string, n: string)
    requires DistinctSlots(key, ps)
    ensures forall p :: p in ps && a !in locked && WriteAddress(key, p) == a && p.name == n ==>
      LastWrite(locked, key, ps, a, n) == Some(p.value)
    ensures LastWrite(locked, key, ps, a, n).Some? ==>
      a !in locked && exists p :: p in ps && WriteAddress(key, p) == a && p.name == n
  {
    if ps != [] {
      var init, last := ps[..|ps| - 1], ps[|ps| - 1];
      assert ps == init + [last];
      assert DistinctSlots(key, init);
      LastWriteOfDistinct(locked, key, init, a, n);
      forall p | p in ps && a !in locked && WriteAddress(key, p) == a && p.name == n
        ensures LastWrite(locked, key, ps, a, n) == Some(p.value)
      {
        if p != last {
          var i :| 0 <= i < |init| && init[i] == p;
          assert ps[i] == p && ps[|ps| - 1] == last;
        }
      }
    }
  }

  /** After `register`, every part whose key accepts writes can be read back with its value. */
  lemma RegisterReadBack(m: Keys, locked: set<string>, key: string, ps: seq<Part>)
    requires DistinctSlots(key, ps)
    ensures forall i :: 0 <= i < |ps| && WriteAddress(key, ps[i]) !in locked ==>
      Lookup(RegisterAll(m, locked, key, ps), WriteAddress(key, ps[i]), ps[i].name) == Found(ps[i].value)
  {
    forall i | 0 <= i < |ps| && WriteAddress(key, ps[i]) !in locked
      ensures Lookup(RegisterAll(m, locked, key, ps), WriteAddress(key, ps[i]), ps[i].name) == Found(ps[i].value)
    {
      RegisterAllAt(m, locked, key, ps, WriteAddress(key, ps[i]), ps[i].name);
      LastWriteOfDistinct(locked, key, ps, WriteAddress(key, ps[i]), ps[i].name);
    }
  }

  /**
   * With distinct slots the writes commute: two lists holding the same parts
   * in any order leave the same store, so issuing them concurrently is safe.
   */
  lemma RegisterOrderIrrelevant(m: Keys, locked: set<string>, key: string, ps: seq<Part>, qs: seq<Part>)
    requires DistinctSlots(key, ps) && DistinctSlots(key, qs)
    requires forall p :: p in ps <==> p in qs
    ensures RegisterAll(m, locked, key, ps) == RegisterAll(m, locked, key, qs)
  {
    var rp := RegisterAll(m, locked, key, ps);
    var rq := RegisterAll(m, locked, key, qs);
    forall a, n ensures (a in rp <==> a in rq) && ValueAt(rp, a, n) == ValueAt(rq, a, n) {
      RegisterAllAt(m, locked, key, ps, a, n);
      RegisterAllAt(m, locked, key, qs, a, n);
      LastWriteOfDistinct(locked, key, ps, a, n);
      LastWriteOfDistinct(locked, key, qs, a, n);
      assert Written(locked, key, ps, a) <==> Written(locked, key, qs, a);
    }
    assert forall a :: a in rp <==> a in rq by {
      forall a ensures a in rp <==> a in rq {
        RegisterAllAt(m, locked, key, ps, a, "");
        RegisterAllAt(m, locked, key, qs, a, "");
        assert Written(locked, key, ps, a) <==> Written(locked, key, qs, a);
      }
    }
    Extensionality(rp, rq);
  }

  /** When the marker has a sub-key and its key accepts writes, `register` makes `isRegistered` true. */
  lemma RegisterMarks(m: Keys, locked: set<string>, key: string, ps: seq<Part>)
    requires |ps| > 0 && ps[0].subKey.Some? && WriteAddress(key, ps[0]) !in locked
    requires DistinctSlots(key, ps)
    ensures Marked(RegisterAll(m, locked, key, ps), key, ps)
  {
    RegisterReadBack(m, locked, key, ps);
  }

  /** A store with nothing under the root key is not registered. */
  lemma UnregisteredWhenSubtreeEmpty(m: Keys, key: string, ps: seq<Part>)
    requires |ps| > 0
    requires forall k :: k in m ==> !InSubtree(k, key)
    ensures !Marked(m, key, ps)
  {
    assert MarkerAddress(key, ps[0]) !in m;
  }

  /**
   * Deregistering after registering removes everything register wrote and
   * nothing else: the store is the old one with the root's subtree gone.
   */
  lemma DeregisterUndoesRegister(m: Keys, locked: set<string>, key: string, ps: seq<Part>)
    ensures Pruned(RegisterAll(m, locked, key, ps), key) == Pruned(m, key)
    ensures |ps| > 0 ==> !Marked(Pruned(RegisterAll(m, locked, key, ps), key), key, ps)
  {
    RegisterFrame(m, locked, key, ps);
    var l, r := Pruned(RegisterAll(m, locked, key, ps), key), Pruned(m, key);
    assert l.Keys == r.Keys;
    if |ps| > 0 {
      UnregisteredWhenSubtreeEmpty(l, key, ps);
    }
  }

  /** `update` writes nothing unless a marker value can be read. */
  lemma UpdateRefusesUnregistered(m: Keys, locked: set<string>, key: string, ps: seq<Part>)
    requires |ps| > 0
    requires !Lookup(m, MarkerAddress(key, ps[0]), ps[0].name).Found?
    ensures Updated(m, locked, key, ps) == m
    ensures !Marked(m, key, ps)
  {
  }

  /**
   * `update` does not compare the marker: a marker holding a stale value is
   * not registered, yet `update` rewrites every part.
   */
  lemma UpdateIgnoresMarkerValue(m: Keys, locked: set<string>, key: string, ps: seq<Part>, stale: string)
    requires |ps| > 0 && stale != ps[0].value
    requires Lookup(m, MarkerAddress(key, ps[0]), ps[0].name) == Found(stale)
    ensures !Marked(m, key, ps)
    ensures Updated(m, locked, key, ps) == RegisterAll(m, locked, key, ps)
  {
  }

  /**
   * After registering one configuration, `update` with a changed one that
   * keeps the marker's key and name rewrites every part to its new value,
   * and the marker then reads the new value.
   */
  lemma UpdateRefreshes(m: Keys, locked: set<string>, key: string, ps: seq<Part>, qs: seq<Part>)
    requires |ps| > 0 && |qs| > 0
    requires ps[0].subKey.Some? && ps[0].subKey == qs[0].subKey && ps[0].name == qs[0].name
    requires WriteAddress(key, ps[0]) !in locked
    requires DistinctSlots(key, ps) && DistinctSlots(key, qs)
    ensures var u := Updated(RegisterAll(m, locked, key, ps), locked, key, qs);
      && u == RegisterAll(RegisterAll(m, locked, key, ps), locked, key, qs)
      && Marked(u, key, qs)
      && forall i :: 0 <= i < |qs| && WriteAddress(key, qs[i]) !in locked ==>
           Lookup(u, WriteAddress(key, qs[i]), qs[i].name) == Found(qs[i].value)
  {
    var r := RegisterAll(m, locked, key, ps);
    RegisterMarks(m, locked, key, ps);
    RegisterReadBack(r, locked, key, qs);
  }

  /**
   * One configured feature: its root key, its parts, and the hive it writes.
   * The key and the parts never change after construction.
   */
  class ShellOption {
    const key: string
    const parts: seq<Part>
    const hive: Hive

    constructor (hive: Hive, key: string, parts: seq<Part>)
      ensures this.hive == hive && this.key == key && this.parts == parts
    {
      this.hive := hive;
      this.key := key;
      this.parts := parts;
    }

    /** The answer `isRegistered` passes to its callback. */
    function IsRegistered(): (r: bool)
      requires |parts| > 0
      reads hive
      ensures r <==> Lookup(hive.keys, MarkerAddress(key, parts[0]), parts[0].name) == Found(parts[0].value)
    {
      Marked(hive.keys, key, parts)
    }

    /**
     * Writes every part, ignoring the errors of create and set, and counts
     * down `doneCount`. The completion callback fires once, after the last
     * write, or never when there are no parts: `completions` is how often.
     */
    method Register() returns (completions: nat)
      modifies hive
      ensures hive.keys == RegisterAll(old(hive.keys), hive.locked, key, parts)
      ensures completions == if |parts| == 0 then 0 else 1
    {
      var doneCount := |parts|;
      completions := 0;
      var i := 0;
      while i < |parts|
        invariant 0 <= i <= |parts|
        invariant doneCount == |parts| - i
        invariant completions == if 0 < i && doneCount == 0 then 1 else 0
        invariant hive.keys == RegisterAll(old(hive.keys), hive.locked, key, parts[..i])
      {
        var part := parts[i];
        var address := WriteAddress(key, part);
        var _ := hive.Create(address);
        var _ := hive.Set(address, part.name, part.value);
        assert parts[..i + 1][..i] == parts[..i];
        doneCount := doneCount - 1;
        if doneCount == 0 {
          completions := completions + 1;
        }
        i := i + 1;
      }
      assert parts[..|parts|] == parts;
    }

    /**
     * Destroys the whole root subtree if the feature is registered; the
     * answer is always `(null, wasRegistered)`, whatever destroy reports.
     */
    method Deregister() returns (err: Option<StoreError>, wasRegistered: bool)
      requires |parts| > 0
      modifies hive
      ensures err == None
      ensures wasRegistered == Marked(old(hive.keys), key, parts)
      ensures hive.keys == if !wasRegistered then old(hive.keys)
                           else if key in hive.locked then old(hive.keys)
                           else Pruned(old(hive.keys), key)
    {
      wasRegistered := IsRegistered();
      if wasRegistered {
        var _ := hive.Destroy(key);
      }
      err := None;
    }

    /**
     * Re-registers if any marker value is present; otherwise passes on the
     * read's error (none when the value is merely absent) and writes nothing.
     * The callback fires exactly once either way.
     */
    method Update() returns (err: Option<StoreError>, completions: nat)
      requires |parts| > 0
      modifies hive
      ensures hive.keys == Updated(old(hive.keys), hive.locked, key, parts)
      ensures var read := Lookup(old(hive.keys), MarkerAddress(key, parts[0]), parts[0].name);
        err == if read.Failed? then Some(read.error) else None
      ensures completions == 1
    {
      var read := Lookup(hive.keys, MarkerAddress(key, parts[0]), parts[0].name);
      if !read.Found? {
        err := if read.Failed? then Some(read.error) else None;
        completions := 1;
      } else {
        completions := Register();
        err := None;
      }
    }
  }
}
