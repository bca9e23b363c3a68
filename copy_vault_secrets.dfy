/**
 * `copy_secrets` of python/copy-vault-secrets.py: a pre-order walk over a
 * key/value secret tree in Vault (version 2 of its key/value engine, where
 * secrets are read under `<kv_base>data/` and listed under
 * `<kv_base>metadata/`), followed by one write of each secret found to the
 * same relative place under a new path.
 *
 * The Vault server is a value: what reading and what listing each full path
 * gives. A path missing from `data` reads as `None` (no secret there); a
 * path missing from `listings` lists as `None` (nothing below it).
 */
module VaultCopy {

  /** The key/value pairs of one secret (`data['data']['data']`). */
  type Secret = map<string, string>

  /** What `vault.read` gives for a path that it knows: `Forbidden`, or a secret. */
  datatype ReadResult = ReadForbidden | Stored(secret: Secret)

  /**
   * What `vault.list` gives for a path that it knows: `Forbidden`, or the
   * listed child keys (a response without `data.keys` lists none).
   */
  datatype ListResult = ListForbidden | Listed(keys: seq<string>)

  datatype Vault = Vault(data: map<string, ReadResult>, listings: map<string, ListResult>)

  /** One write of the copy: the full data path and the secret written there. */
  datatype Write = Write(dataPath: string, secret: Secret)

  function DataPath(kvBase: string, path: string): string
  {
    kvBase + "data/" + path
  }

  function ListPath(kvBase: string, path: string): string
  {
    kvBase + "metadata/" + path
  }

  /**
   * Every listed child key is non-empty. An empty key would make the walk
   * visit the same path again without end.
   */
  predicate WellFormed(v: Vault)
  {
    forall lp :: lp in v.listings && v.listings[lp].Listed? ==> forall c :: c in v.listings[lp].keys ==> c != ""
  }

  /** An upper bound on the length of the strings in `s`. */
  ghost function MaxLen(s: set<string>): (m: nat)
    ensures forall x :: x in s ==> |x| <= m
  {
    if s == {} then 0
    else
      var x :| x in s;
      var rest := MaxLen(s - {x});
      if |x| > rest then |x| else rest
  }

  /**
   * What is left of the walk's room to grow: positive while `path` can still
   * have a listing, and smaller for every longer path.
   */
  ghost function Room(v: Vault, kvBase: string, path: string): nat
  {
    var bound := MaxLen(v.listings.Keys);
    if |ListPath(kvBase, path)| <= bound then bound - |ListPath(kvBase, path)| + 1 else 0
  }

  /** The secret stored at `path`, as read under the data prefix. */
  predicate HoldsSecret(v: Vault, kvBase: string, path: string, secret: Secret)
  {
    DataPath(kvBase, path) in v.data && v.data[DataPath(kvBase, path)] == Stored(secret)
  }

  /**
   * `recursive_read(path)`, as the sequence of (path, secret) pairs it
   * yields. A forbidden read ends this subtree with nothing; otherwise the
   * path's own secret comes first, then, unless the listing is missing or
   * forbidden, the walks of the children in listing order.
   */
  function Walk(v: Vault, kvBase: string, path: string): (r: seq<(string, Secret)>)
    requires WellFormed(v)
    ensures forall i :: 0 <= i < |r| ==> path <= r[i].0 && HoldsSecret(v, kvBase, r[i].0, r[i].1)
    ensures r != [] && r[0].0 == path <==> DataPath(kvBase, path) in v.data && v.data[DataPath(kvBase, path)].Stored?
    decreases Room(v, kvBase, path), 1, 0
  {
    var dp := DataPath(kvBase, path);
    var lp := ListPath(kvBase, path);
    if dp in v.data && v.data[dp].ReadForbidden? then []
    else
      var own := if dp in v.data then [(path, v.data[dp].secret)] else [];
      if lp !in v.listings || v.listings[lp].ListForbidden? then own
      else own + WalkChildren(v, kvBase, path, 0)
  }

  /** The walks of the children of `path` from the `from`-th listed key on, one after another. */
  function WalkChildren(v: Vault, kvBase: string, path: string, from: nat): (r: seq<(string, Secret)>)
    requires WellFormed(v)
    requires ListPath(kvBase, path) in v.listings && v.listings[ListPath(kvBase, path)].Listed?
    requires from <= |v.listings[ListPath(kvBase, path)].keys|
    ensures forall i :: 0 <= i < |r| ==> |path| < |r[i].0| && path <= r[i].0 && HoldsSecret(v, kvBase, r[i].0, r[i].1)
    decreases Room(v, kvBase, path), 0, |v.listings[ListPath(kvBase, path)].keys| - from
  {
    var keys := v.listings[ListPath(kvBase, path)].keys;
    if from == |keys| then []
    else
      var child := path + keys[from];
      assert keys[from] in keys;
      assert |ListPath(kvBase, child)| > |ListPath(kvBase, path)|;
      Walk(v, kvBase, child) + WalkChildren(v, kvBase, path, from + 1)
  }

  /** The own secret of a path comes before anything from below it (pre-order). */
  lemma OwnSecretFirst(v: Vault, kvBase: string, path: string, secret: Secret)
    requires WellFormed(v) && HoldsSecret(v, kvBase, path, secret)
    ensures Walk(v, kvBase, path) != [] && Walk(v, kvBase, path)[0] == (path, secret)
    ensures forall i :: 1 <= i < |Walk(v, kvBase, path)| ==> |path| < |Walk(v, kvBase, path)[i].0|
  {
  }

  /** A path without a secret yields nothing itself, but the walk still goes on below it. */
  lemma NoSecretStillDescends(v: Vault, kvBase: string, path: string)
    requires WellFormed(v) && DataPath(kvBase, path) !in v.data
    requires ListPath(kvBase, path) in v.listings && v.listings[ListPath(kvBase, path)].Listed?
    ensures Walk(v, kvBase, path) == WalkChildren(v, kvBase, path, 0)
  {
  }

  /** A missing or forbidden listing ends the walk at that path, after its own secret. */
  lemma UnlistedPathIsLeaf(v: Vault, kvBase: string, path: string)
    requires WellFormed(v)
    requires ListPath(kvBase, path) !in v.listings || v.listings[ListPath(kvBase, path)].ListForbidden?
    ensures |Walk(v, kvBase, path)| <= 1
  {
  }

  /**
   * A forbidden read stops one subtree only: the child's walk is empty and
   * the walk of its later siblings follows unchanged.
   */
  lemma ForbiddenChildSkipped(v: Vault, kvBase: string, path: string, from: nat)
    requires WellFormed(v)
    requires ListPath(kvBase, path) in v.listings && v.listings[ListPath(kvBase, path)].Listed?
    requires from < |v.listings[ListPath(kvBase, path)].keys|
    requires var child := path + v.listings[ListPath(kvBase, path)].keys[from];
      DataPath(kvBase, child) in v.data && v.data[DataPath(kvBase, child)].ReadForbidden?
    ensures WalkChildren(v, kvBase, path, from) == WalkChildren(v, kvBase, path, from + 1)
  {
  }

  // ---------------------------------------------------------------------
  // The copy loop
  // ---------------------------------------------------------------------

  /**
   * `re.sub('^' + old_path, new_path, subpath)` for a `subpath` that starts
   * with `old_path`, where both are plain text: the leading `old_path` is
   * replaced by `new_path`.
   */
  function Rebase(oldPath: string, newPath: string, subpath: string): (r: string)
    requires oldPath <= subpath
    ensures newPath <= r && |r| - |newPath| == |subpath| - |oldPath|
    ensures forall k :: |newPath| <= k < |r| ==> r[k] == subpath[k - |newPath| + |oldPath|]
  {
    newPath + subpath[|oldPath|..]
  }

  /** Rebasing back from the new path to the old one restores the path. */
  lemma RebaseRoundTrip(oldPath: string, newPath: string, subpath: string)
    requires oldPath <= subpath
    ensures Rebase(newPath, oldPath, Rebase(oldPath, newPath, subpath)) == subpath
  {
    var r := Rebase(oldPath, newPath, subpath);
    var back := Rebase(newPath, oldPath, r);
    assert |back| == |subpath|;
    forall k | 0 <= k < |subpath|
      ensures back[k] == subpath[k]
    {
      if k >= |oldPath| {
        assert back[k] == r[k - |oldPath| + |newPath|];
      }
    }
  }

  /**
   * The loop of `copy_secrets`: one write per secret the walk from
   * `oldPath` yields, in walk order, to the same place relative to `newPath`.
   * The walk sees the vault as it was before the copy started.
   */
  method CopySecrets(v: Vault, kvBase: string, oldPath: string, newPath: string) returns (writes: seq<Write>)
    requires WellFormed(v)
    ensures |writes| == |Walk(v, kvBase, oldPath)|
    ensures forall i :: 0 <= i < |writes| ==>
      var (subpath, secret) := Walk(v, kvBase, oldPath)[i];
      writes[i] == Write(DataPath(kvBase, Rebase(oldPath, newPath, subpath)), secret)
    // what is written at new_path + suffix is the secret stored at old_path + suffix
    ensures forall i :: 0 <= i < |writes| ==>
      var suffix := Walk(v, kvBase, oldPath)[i].0[|oldPath|..];
      writes[i].dataPath == DataPath(kvBase, newPath + suffix) && HoldsSecret(v, kvBase, oldPath + suffix, writes[i].secret)
  {
    var walk := Walk(v, kvBase, oldPath);
    writes := [];
    var i := 0;
    while i < |walk|
      invariant 0 <= i <= |walk| && |writes| == i
      invariant forall k :: 0 <= k < i ==>
        writes[k] == Write(DataPath(kvBase, Rebase(oldPath, newPath, walk[k].0)), walk[k].1)
    {
      var (subpath, secret) := walk[i];
      writes := writes + [Write(DataPath(kvBase, Rebase(oldPath, newPath, subpath)), secret)];
      i := i + 1;
    }
    forall k | 0 <= k < |walk|
      ensures oldPath + walk[k].0[|oldPath|..] == walk[k].0
    {
      assert walk[k].0 == walk[k].0[..|oldPath|] + walk[k].0[|oldPath|..];
    }
  }
}
