/**
 * `AutoDict` from python/commons/collection_utils.py: a dictionary whose
 * item lookup creates a fresh, empty `AutoDict` under any missing key, and
 * whose `set`/`get` walk a list of keys, creating the levels they pass.
 *
 * A nested level is a value `Dict(entries)` inside its parent's entries; the
 * Python variable `current`, a reference to one nested level, is modelled by
 * the key path from the root to that level (the cursor).
 */
module CollectionUtils {
  import opened Wrappers

  type Key = string

  /** What a key maps to: a nested `AutoDict` level, or any other value. */
  datatype Node<V> = Leaf(value: V) | Dict(entries: map<Key, Node<V>>)

  /** The exceptions `set` and `get` can raise. */
  datatype Error = KeyError | IndexError | TypeError

  /** The caller's list argument to `set` / `get` (a plain list, or a single string key). */
  datatype Keys = Str(key: Key) | List(list: KeyList)

  function ListFootprint(keys: Keys): set<object>
  {
    if keys.List? then {keys.list} else {}
  }

  // ---------------------------------------------------------------------
  // Nested maps, addressed by key paths
  // ---------------------------------------------------------------------

  /**
   * The node found by following path `p` from the level `m` WITHOUT creating
   * anything; `None` when a key is missing or the path runs through a leaf.
   * The empty path names `m` itself.
   */
  function At<V>(m: map<Key, Node<V>>, p: seq<Key>): Option<Node<V>>
    decreases |p|
  {
    if p == [] then Some(Dict(m))
    else if p[0] !in m then None
    else match m[p[0]]
      case Leaf(_) => if |p| == 1 then Some(m[p[0]]) else None
      case Dict(c) => At(c, p[1..])
  }

  /** Path `p` leads to a nested level (a dictionary). */
  predicate IsDictPath<V>(m: map<Key, Node<V>>, p: seq<Key>)
  {
    At(m, p).Some? && At(m, p).value.Dict?
  }

  /** Path `p` leads to a leaf value, which cannot be indexed further. */
  predicate LeafAt<V>(m: map<Key, Node<V>>, p: seq<Key>)
  {
    At(m, p).Some? && At(m, p).value.Leaf?
  }

  /** Some non-empty prefix of `q` (possibly `q` itself) leads to a leaf. */
  predicate LeafOnPath<V>(m: map<Key, Node<V>>, q: seq<Key>)
  {
    exists j :: 0 < j <= |q| && LeafAt(m, q[..j])
  }

  /** The entries of the level at path `q`. */
  function DictAt<V>(m: map<Key, Node<V>>, q: seq<Key>): map<Key, Node<V>>
    requires IsDictPath(m, q)
  {
    At(m, q).value.entries
  }

  /** `m` after assigning `n` to key `k` of the level at path `q` (`level[k] = n`). */
  function PutAt<V>(m: map<Key, Node<V>>, q: seq<Key>, k: Key, n: Node<V>): map<Key, Node<V>>
    requires IsDictPath(m, q)
    decreases |q|
  {
    if q == [] then m[k := n]
    else m[q[0] := Dict(PutAt(m[q[0]].entries, q[1..], k, n))]
  }

  /**
   * `level[k]` on the level at path `q` (`AutoDict.__getitem__`): the stored
   * node if `k` is present, otherwise a fresh empty level that is inserted
   * under `k` and returned.
   */
  function GetItemAt<V>(m: map<Key, Node<V>>, q: seq<Key>, k: Key): (r: (map<Key, Node<V>>, Node<V>))
    requires IsDictPath(m, q)
    ensures k in DictAt(m, q) ==> r.0 == m && r.1 == DictAt(m, q)[k]
    ensures k !in DictAt(m, q) ==> r.1 == Dict(map[]) && At(r.0, q + [k]) == Some(Dict(map[]))
    ensures k !in DictAt(m, q) ==> forall p :: !(p <= q) && !(q + [k] <= p) ==> At(r.0, p) == At(m, p)
  {
    if k in DictAt(m, q) then (m, DictAt(m, q)[k])
    else
      PutAtFacts(m, q, k, Dict(map[]));
      (PutAt(m, q, k, Dict(map[])), Dict(map[]))
  }

  /**
   * The walk `current = current[head]` over every key of `q`, from the root:
   * missing levels are created as empty dictionaries, and stepping into a
   * leaf fails with `TypeError` (the leaf cannot be indexed next).
   */
  function Descend<V>(m: map<Key, Node<V>>, q: seq<Key>): (r: Result<map<Key, Node<V>>, Error>)
    ensures r.Success? ==> IsDictPath(r.value, q)
    ensures r.Failure? ==> r.error == TypeError
    decreases |q|
  {
    if q == [] then Success(m)
    else
      var child := if q[0] in m then m[q[0]] else Dict(map[]);
      match child
      case Leaf(_) => Failure(TypeError)
      case Dict(c) =>
        match Descend(c, q[1..])
        case Failure(e) => Failure(e)
        case Success(c') =>
          AtCons(m[q[0] := Dict(c')], q[0], c', q[1..]);
          assert [q[0]] + q[1..] == q;
          Success(m[q[0] := Dict(c')])
  }

  /**
   * `set(keys, value)` with a list of keys (non-empty): walk to the parent
   * level creating missing levels, then assign the last key there.
   */
  function SetPath<V>(m: map<Key, Node<V>>, p: seq<Key>, v: Node<V>): (r: Result<map<Key, Node<V>>, Error>)
    requires p != []
    ensures r.Success? ==> At(r.value, p) == Some(v) && IsDictPath(r.value, p[..|p| - 1])
  {
    var parent := p[..|p| - 1];
    match Descend(m, parent)
    case Failure(e) => Failure(e)
    case Success(m1) =>
      PutAtFacts(m1, parent, p[|p| - 1], v);
      assert parent + [p[|p| - 1]] == p;
      Success(PutAt(m1, parent, p[|p| - 1], v))
  }

  /**
   * `get(keys)` with a list of keys (non-empty): walk to the parent level
   * creating missing levels, then look up the last key there, which also
   * creates an empty level when it is missing. Returns the new map and the
   * node found.
   */
  function GetPath<V>(m: map<Key, Node<V>>, p: seq<Key>): (r: Result<(map<Key, Node<V>>, Node<V>), Error>)
    requires p != []
    ensures r.Success? ==> At(r.value.0, p) == Some(r.value.1) && IsDictPath(r.value.0, p[..|p| - 1])
    ensures r.Failure? <==> LeafOnPath(m, p[..|p| - 1])
    ensures r.Failure? ==> r.error == TypeError
  {
    var parent := p[..|p| - 1];
    var k := p[|p| - 1];
    DescendFailsIffLeaf(m, parent);
    match Descend(m, parent)
    case Failure(e) => Failure(e)
    case Success(m1) =>
      assert parent + [k] == p;
      if k in DictAt(m1, parent) then
        AtSnoc(m1, parent, k);
        Success(GetItemAt(m1, parent, k))
      else
        PutAtFacts(m1, parent, k, Dict(map[]));
        Success(GetItemAt(m1, parent, k))
  }

  // ---------------------------------------------------------------------
  // Lemmas about paths
  // ---------------------------------------------------------------------

  /** Looking through a nested level: the paths below key `k` are the paths of its entries. */
  lemma AtCons<V>(m: map<Key, Node<V>>, k: Key, c: map<Key, Node<V>>, r: seq<Key>)
    requires k in m && m[k] == Dict(c)
    ensures At(m, [k] + r) == At(c, r)
  {
    assert ([k] + r)[1..] == r;
  }

  /** Assigning `level[k] = n` at path `q` places `n` at `q + [k]` and leaves every unrelated path alone. */
  lemma {:induction false} PutAtFacts<V>(m: map<Key, Node<V>>, q: seq<Key>, k: Key, n: Node<V>)
    requires IsDictPath(m, q)
    ensures At(PutAt(m, q, k, n), q + [k]) == Some(n)
    ensures IsDictPath(PutAt(m, q, k, n), q) && DictAt(PutAt(m, q, k, n), q) == DictAt(m, q)[k := n]
    ensures forall p :: !(p <= q) && !(q + [k] <= p) ==> At(PutAt(m, q, k, n), p) == At(m, p)
    decreases |q|
  {
    var m' := PutAt(m, q, k, n);
    if q == [] {
      assert q + [k] == [k];
      forall p | !(p <= q) && !(q + [k] <= p)
        ensures At(m', p) == At(m, p)
      {
        assert p != [] && p[0] != k;
      }
    } else {
      var h := q[0];
      var c := m[h].entries;
      var c' := PutAt(c, q[1..], k, n);
      assert m' == m[h := Dict(c')];
      PutAtFacts(c, q[1..], k, n);
      AtCons(m', h, c', q[1..] + [k]);
      assert [h] + (q[1..] + [k]) == q + [k];
      AtCons(m', h, c', q[1..]);
      AtCons(m, h, c, q[1..]);
      assert [h] + q[1..] == q;
      forall p | !(p <= q) && !(q + [k] <= p)
        ensures At(m', p) == At(m, p)
      {
        if p != [] && p[0] == h {
          var r := p[1..];
          assert [h] + r == p;
          assert r <= q[1..] ==> p <= q;
          assert q[1..] + [k] <= r ==> q + [k] <= p;
          AtCons(m', h, c', r);
          AtCons(m, h, c, r);
        }
      }
    }
  }

  /** A path whose every level already exists is walked without changing anything. */
  lemma {:induction false} DescendExisting<V>(m: map<Key, Node<V>>, q: seq<Key>)
    requires IsDictPath(m, q)
    ensures Descend(m, q) == Success(m)
    decreases |q|
  {
    if q != [] {
      var c := m[q[0]].entries;
      AtCons(m, q[0], c, q[1..]);
      assert [q[0]] + q[1..] == q;
      DescendExisting(c, q[1..]);
      assert m[q[0] := Dict(c)] == m;
    }
  }

  /**
   * A successful walk either finds the whole path already present (and
   * changes nothing) or ends in a freshly created, empty level; every path
   * that is not a prefix of `q` reads the same before and after.
   */
  lemma {:induction false} DescendFacts<V>(m: map<Key, Node<V>>, q: seq<Key>)
    requires Descend(m, q).Success?
    ensures IsDictPath(m, q) ==> Descend(m, q).value == m
    ensures !IsDictPath(m, q) ==> DictAt(Descend(m, q).value, q) == map[]
    ensures forall p :: !(p <= q) ==> At(Descend(m, q).value, p) == At(m, p)
    decreases |q|
  {
    var m1 := Descend(m, q).value;
    if q == [] {
    } else {
      var h := q[0];
      var c := if h in m then m[h].entries else map[];
      var c' := Descend(c, q[1..]).value;
      assert m1 == m[h := Dict(c')];
      DescendFacts(c, q[1..]);
      assert [h] + q[1..] == q;
      AtCons(m1, h, c', q[1..]);
      if IsDictPath(m, q) {
        DescendExisting(m, q);
      } else if h in m {
        AtCons(m, h, c, q[1..]);
      } else {
        if q[1..] != [] {
          assert !IsDictPath(c, q[1..]);
        }
      }
      forall p | !(p <= q)
        ensures At(m1, p) == At(m, p)
      {
        if p != [] && p[0] == h {
          var r := p[1..];
          assert [h] + r == p;
          assert r <= q[1..] ==> p <= q;
          AtCons(m1, h, c', r);
          if h in m {
            AtCons(m, h, c, r);
          } else {
            assert r != [];
          }
        }
      }
    }
  }

  /** Walking one key further is one more `current[head]` step at the end of the walk so far. */
  lemma {:induction false} DescendSnoc<V>(m: map<Key, Node<V>>, q: seq<Key>, k: Key)
    ensures Descend(m, q + [k]) ==
      match Descend(m, q)
      case Failure(e) => Failure(e)
      case Success(m1) =>
        var (m2, n) := GetItemAt(m1, q, k);
        if n.Leaf? then Failure(TypeError) else Success(m2)
    decreases |q|
  {
    if q == [] {
      assert [] + [k] == [k];
      assert [k][1..] == [];
      if k in m && m[k].Dict? {
        assert m[k := m[k]] == m;
      }
    } else {
      var h := q[0];
      var c := if h in m then m[h] else Dict(map[]);
      assert (q + [k])[0] == h && (q + [k])[1..] == q[1..] + [k];
      if c.Dict? {
        DescendSnoc(c.entries, q[1..], k);
        match Descend(c.entries, q[1..])
        case Failure(e) =>
        case Success(c1) =>
          var m1 := m[h := Dict(c1)];
          assert Descend(m, q) == Success(m1);
          AtCons(m1, h, c1, q[1..]);
          assert [h] + q[1..] == q;
          assert DictAt(m1, q) == DictAt(c1, q[1..]);
          var k1 := k in DictAt(c1, q[1..]);
          if !k1 {
            assert PutAt(m1, q, k, Dict(map[])) == m[h := Dict(PutAt(c1, q[1..], k, Dict(map[])))];
          }
      }
    }
  }

  /** A walk fails exactly when some prefix of the path leads to a leaf. */
  lemma {:induction false} DescendFailsIffLeaf<V>(m: map<Key, Node<V>>, q: seq<Key>)
    ensures Descend(m, q).Failure? <==> LeafOnPath(m, q)
    decreases |q|
  {
    if q == [] {
    } else {
      var h := q[0];
      assert q[..1] == [h];
      if h !in m {
        var empty: map<Key, Node<V>> := map[];
        DescendFailsIffLeaf(empty, q[1..]);
        forall j | 0 < j <= |q[1..]|
          ensures !LeafAt(empty, q[1..][..j])
        {
        }
        forall j | 0 < j <= |q|
          ensures !LeafAt(m, q[..j])
        {
          assert q[..j][0] == h;
        }
      } else if m[h].Leaf? {
        assert LeafAt(m, q[..1]);
      } else {
        var c := m[h].entries;
        DescendFailsIffLeaf(c, q[1..]);
        if LeafOnPath(c, q[1..]) {
          var j :| 0 < j <= |q[1..]| && LeafAt(c, q[1..][..j]);
          AtCons(m, h, c, q[1..][..j]);
          assert [h] + q[1..][..j] == q[..j + 1];
        }
        if LeafOnPath(m, q) {
          var j :| 0 < j <= |q| && LeafAt(m, q[..j]);
          AtCons(m, h, c, q[..j][1..]);
          assert [h] + q[..j][1..] == q[..j];
          assert q[..j][1..] == q[1..][..j - 1];
        }
      }
    }
  }

  // ---------------------------------------------------------------------
  // What `set` and `get` with a key list promise
  // ---------------------------------------------------------------------

  /**
   * `set` leaves untouched every path that neither leads to a level on the
   * way to the target nor runs through the target key.
   */
  lemma SetPathFrame<V>(m: map<Key, Node<V>>, p: seq<Key>, v: Node<V>, r: seq<Key>)
    requires p != [] && SetPath(m, p, v).Success?
    requires !(r <= p[..|p| - 1]) && !(p <= r)
    ensures At(SetPath(m, p, v).value, r) == At(m, r)
  {
    var parent := p[..|p| - 1];
    var m1 := Descend(m, parent).value;
    DescendFacts(m, parent);
    PutAtFacts(m1, parent, p[|p| - 1], v);
    assert parent + [p[|p| - 1]] == p;
  }

  /** `set` raises `TypeError` exactly when a strict prefix of the key path leads to a leaf. */
  lemma SetPathFailsIffLeaf<V>(m: map<Key, Node<V>>, p: seq<Key>, v: Node<V>)
    requires p != []
    ensures SetPath(m, p, v).Failure? <==> LeafOnPath(m, p[..|p| - 1])
    ensures SetPath(m, p, v).Failure? ==> SetPath(m, p, v).error == TypeError
  {
    DescendFailsIffLeaf(m, p[..|p| - 1]);
  }

  /** `get` on a path that already exists returns the stored node and changes nothing. */
  lemma GetPathPresent<V>(m: map<Key, Node<V>>, p: seq<Key>, n: Node<V>)
    requires p != [] && At(m, p) == Some(n)
    ensures GetPath(m, p) == Success((m, n))
  {
    var parent := p[..|p| - 1];
    var k := p[|p| - 1];
    assert p == parent + [k];
    ParentOfPresent(m, parent, k);
    DescendExisting(m, parent);
  }

  /**
   * `get` creates levels only on the way to the target, so it leaves untouched
   * every path that neither leads to a level on the way nor runs through the
   * target key.
   */
  lemma GetPathFrame<V>(m: map<Key, Node<V>>, p: seq<Key>, r: seq<Key>)
    requires p != [] && GetPath(m, p).Success?
    requires !(r <= p[..|p| - 1]) && !(p <= r)
    ensures At(GetPath(m, p).value.0, r) == At(m, r)
  {
    DescendFacts(m, p[..|p| - 1]);
    assert p[..|p| - 1] + [p[|p| - 1]] == p;
  }

  /** A path that exists leads through existing levels all the way to its last key. */
  lemma {:induction false} ParentOfPresent<V>(m: map<Key, Node<V>>, q: seq<Key>, k: Key)
    requires At(m, q + [k]).Some?
    ensures IsDictPath(m, q) && k in DictAt(m, q) && DictAt(m, q)[k] == At(m, q + [k]).value
    decreases |q|
  {
    if q == [] {
      assert [] + [k] == [k];
    } else {
      var h := q[0];
      assert (q + [k])[0] == h && (q + [k])[1..] == q[1..] + [k];
      var c := m[h].entries;
      AtCons(m, h, c, q[1..] + [k]);
      AtCons(m, h, c, q[1..]);
      assert [h] + q[1..] == q;
      assert [h] + (q[1..] + [k]) == q + [k];
      ParentOfPresent(c, q[1..], k);
    }
  }

  /** A key present in the level at `q` is found at path `q + [k]`. */
  lemma {:induction false} AtSnoc<V>(m: map<Key, Node<V>>, q: seq<Key>, k: Key)
    requires IsDictPath(m, q) && k in DictAt(m, q)
    ensures At(m, q + [k]) == Some(DictAt(m, q)[k])
    decreases |q|
  {
    if q == [] {
      assert [] + [k] == [k];
    } else {
      var h := q[0];
      var c := m[h].entries;
      AtCons(m, h, c, q[1..] + [k]);
      AtCons(m, h, c, q[1..]);
      assert [h] + q[1..] == q;
      assert [h] + (q[1..] + [k]) == q + [k];
      AtSnoc(c, q[1..], k);
    }
  }

  /**
   * `get` on a missing path that passes through no leaf does not raise: it
   * creates the missing levels and returns a fresh empty level, which is now
   * stored at the path.
   */
  lemma GetPathMissing<V>(m: map<Key, Node<V>>, p: seq<Key>)
    requires p != [] && At(m, p) == None && !LeafOnPath(m, p[..|p| - 1])
    ensures GetPath(m, p).Success?
    ensures GetPath(m, p).value.1 == Dict(map[])
    ensures At(GetPath(m, p).value.0, p) == Some(Dict(map[]))
  {
    var parent := p[..|p| - 1];
    var k := p[|p| - 1];
    assert p == parent + [k];
    DescendFailsIffLeaf(m, parent);
    var m1 := Descend(m, parent).value;
    DescendFacts(m, parent);
    if IsDictPath(m, parent) {
      if k in DictAt(m, parent) {
        PutAtFacts(m, parent, k, DictAt(m, parent)[k]);
        assert PutAt(m, parent, k, DictAt(m, parent)[k]) == m by {
          PutAtIdentity(m, parent, k);
        }
        assert false;
      }
    }
  }

  /** Writing back the value a key already holds changes nothing. */
  lemma {:induction false} PutAtIdentity<V>(m: map<Key, Node<V>>, q: seq<Key>, k: Key)
    requires IsDictPath(m, q) && k in DictAt(m, q)
    ensures PutAt(m, q, k, DictAt(m, q)[k]) == m
    decreases |q|
  {
    if q != [] {
      var c := m[q[0]].entries;
      AtCons(m, q[0], c, q[1..]);
      assert [q[0]] + q[1..] == q;
      PutAtIdentity(c, q[1..], k);
    }
  }

  /**
   * The walk so far reached the level at `P[..i]` and the next key holds a
   * leaf: nothing was created on the way, and the walk of every key but the
   * last fails.
   */
  lemma LeafStep<V>(m0: map<Key, Node<V>>, m: map<Key, Node<V>>, P: seq<Key>, i: nat)
    requires i + 1 < |P| && Descend(m0, P[..i]) == Success(m)
    requires P[i] in DictAt(m, P[..i]) && DictAt(m, P[..i])[P[i]].Leaf?
    ensures m == m0 && LeafAt(m0, P[..i + 1])
    ensures Descend(m0, P[..|P| - 1]).Failure?
  {
    DescendFacts(m0, P[..i]);
    AtSnoc(m, P[..i], P[i]);
    assert P[..i] + [P[i]] == P[..i + 1];
    DescendFailsIffLeaf(m0, P[..|P| - 1]);
    assert P[..|P| - 1][..i + 1] == P[..i + 1];
  }

  // ---------------------------------------------------------------------
  // The caller's key list and the dictionary object
  // ---------------------------------------------------------------------

  /** A Python list of keys, which `set` and `get` consume with `pop`. */
  class KeyList {
    var items: seq<Key>

    constructor (items: seq<Key>)
      ensures this.items == items
    {
      this.items := items;
    }

    /** `pop(0)`: remove and return the first key; `IndexError` on an empty list. */
    method PopFirst() returns (r: Result<Key, Error>)
      modifies this
      ensures old(items) == [] ==> r == Failure(IndexError) && items == old(items)
      ensures old(items) != [] ==> r == Success(old(items)[0]) && items == old(items)[1..]
    {
      if items == [] {
        r := Failure(IndexError);
      } else {
        r := Success(items[0]);
        items := items[1..];
      }
    }

    /** `pop()`: remove and return the last key; `IndexError` on an empty list. */
    method PopLast() returns (r: Result<Key, Error>)
      modifies this
      ensures old(items) == [] ==> r == Failure(IndexError) && items == old(items)
      ensures old(items) != [] ==> r == Success(old(items)[|old(items)| - 1]) && items == old(items)[..|old(items)| - 1]
    {
      if items == [] {
        r := Failure(IndexError);
      } else {
        r := Success(items[|items| - 1]);
        items := items[..|items| - 1];
      }
    }
  }

  class AutoDict<V> {
    /** The top-level entries; nested levels are `Dict` nodes inside them. */
    var entries: map<Key, Node<V>>

    constructor ()
      ensures entries == map[]
    {
      entries := map[];
    }

    /** `d[k]`: the stored node, or a fresh empty level inserted under the missing key. */
    method GetItem(k: Key) returns (n: Node<V>)
      modifies this
      ensures k in old(entries) ==> n == old(entries)[k] && entries == old(entries)
      ensures k !in old(entries) ==> n == Dict(map[]) && entries == old(entries)[k := Dict(map[])]
    {
      if k in entries {
        n := entries[k];
      } else {
        n := Dict(map[]);
        entries := entries[k := n];
      }
    }

    /**
     * Walks `list` from the root the way `set` and `get` do: pops every key but
     * the last, each time stepping `current = current[head]`. Returns the
     * cursor (the path of `current`) or the `TypeError` raised when a step
     * lands on a leaf, in which case the key after the leaf has been popped.
     */
    method WalkToParent(list: KeyList) returns (r: Result<seq<Key>, Error>, ghost leafDepth: nat)
      modifies this, list
      ensures var P := old(list.items);
        && (r.Success? ==>
              && (P == [] ==> r.value == [] && list.items == [])
              && (P != [] ==> r.value == P[..|P| - 1] && list.items == [P[|P| - 1]])
              && Descend(old(entries), r.value) == Success(entries))
        && (r.Failure? ==>
              && r.error == TypeError && entries == old(entries)
              && 0 < leafDepth < |P| && LeafAt(old(entries), P[..leafDepth])
              && list.items == P[leafDepth + 1..]
              && Descend(old(entries), P[..|P| - 1]).Failure?)
    {
      ghost var P := list.items;
      ghost var m0 := entries;
      var cur: seq<Key> := [];
      leafDepth := 0;
      while |list.items| > 1
        invariant |cur| < |P| || (P == [] && cur == [])
        invariant cur == P[..|cur|] && list.items == P[|cur|..]
        invariant Descend(m0, cur) == Success(entries)
        decreases |list.items|
      {
        var popped := list.PopFirst();
        var head := popped.value;
        assert cur + [head] == P[..|cur| + 1];
        DescendSnoc(m0, cur, head);
        var (m1, node) := GetItemAt(entries, cur, head);
        if node.Leaf? {
          // `current` is now a leaf; the next indexing pops one more key and raises.
          LeafStep(m0, entries, P, |cur|);
          ghost var rest := list.items;
          assert rest == P[|cur| + 1..];
          if |list.items| > 1 {
            popped := list.PopFirst();
            assert list.items == rest[1..];
          } else {
            popped := list.PopLast();
            assert |rest| == 1 && list.items == [];
          }
          leafDepth := |cur| + 1;
          assert list.items == P[leafDepth + 1..];
          return Failure(TypeError), leafDepth;
        }
        entries := m1;
        cur := cur + [head];
      }
      assert P != [] ==> cur == P[..|P| - 1];
      r := Success(cur);
    }

    /**
     * `set(keys, value)`. A string key is a plain assignment and returns `None`.
     * A key list is consumed; on success the value is stored at the end of the
     * path and the innermost level (the one now holding it) is returned.
     */
    method Set(keys: Keys, value: Node<V>) returns (r: Result<Option<Node<V>>, Error>)
      modifies this, ListFootprint(keys)
      ensures keys.Str? ==> r == Success(None) && entries == old(entries)[keys.key := value]
      ensures keys.List? && old(keys.list.items) == [] ==>
        r == Failure(IndexError) && entries == old(entries) && keys.list.items == []
      ensures keys.List? && old(keys.list.items) != [] ==>
        var P := old(keys.list.items);
        match SetPath(old(entries), P, value)
        case Success(m) =>
          && entries == m && keys.list.items == []
          && r == Success(Some(Dict(DictAt(m, P[..|P| - 1]))))
        case Failure(e) =>
          && r == Failure(e) && entries == old(entries)
          && exists j :: 0 < j < |P| && LeafAt(old(entries), P[..j]) && keys.list.items == P[j + 1..]
    {
      if keys.Str? {
        entries := entries[keys.key := value];
        return Success(None);
      }
      var list := keys.list;
      ghost var P := list.items;
      var walk, leafDepth := WalkToParent(list);
      if walk.Failure? {
        return Failure(walk.error);
      }
      var cur := walk.value;
      var popped := list.PopLast();
      if popped.Failure? {
        return Failure(popped.error);
      }
      assert cur == P[..|P| - 1];
      PutAtFacts(entries, cur, popped.value, value);
      entries := PutAt(entries, cur, popped.value, value);
      r := Success(Some(Dict(DictAt(entries, cur))));
    }

    /**
     * `get(keys)`. A string key is a plain lookup: `KeyError` when missing,
     * and nothing is created. A key list is consumed and every missing level
     * on it, the last one included, is created.
     */
    method Get(keys: Keys) returns (r: Result<Node<V>, Error>)
      modifies this, ListFootprint(keys)
      ensures keys.Str? && keys.key in old(entries) ==>
        r == Success(old(entries)[keys.key]) && entries == old(entries)
      ensures keys.Str? && keys.key !in old(entries) ==>
        r == Failure(KeyError) && entries == old(entries)
      ensures keys.List? && old(keys.list.items) == [] ==>
        r == Failure(IndexError) && entries == old(entries) && keys.list.items == []
      ensures keys.List? && old(keys.list.items) != [] ==>
        var P := old(keys.list.items);
        match GetPath(old(entries), P)
        case Success(mn) =>
          && entries == mn.0 && r == Success(mn.1) && keys.list.items == []
        case Failure(e) =>
          && r == Failure(e) && entries == old(entries)
          && exists j :: 0 < j < |P| && LeafAt(old(entries), P[..j]) && keys.list.items == P[j + 1..]
    {
      if keys.Str? {
        if keys.key in entries {
          return Success(entries[keys.key]);
        }
        return Failure(KeyError);
      }
      var list := keys.list;
      ghost var P := list.items;
      var walk, leafDepth := WalkToParent(list);
      if walk.Failure? {
        return Failure(walk.error);
      }
      var cur := walk.value;
      var popped := list.PopLast();
      if popped.Failure? {
        return Failure(popped.error);
      }
      assert cur == P[..|P| - 1];
      var (m1, node) := GetItemAt(entries, cur, popped.value);
      entries := m1;
      r := Success(node);
    }
  }
}
