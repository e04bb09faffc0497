/** The memoised tree of derived keys: lib/tcert/keytree.go, and the paths that callers ask it for. */
module KeyTree {
  import opened Common

  const SEP: byte := '/' as int
  const COMMA: byte := ',' as int

  type Name = Bytes
  type Path = seq<Name>

  /** Child derivation: the name is the HMAC argument; it may refuse. */
  type Derive<!K> = (K, Name) -> Option<K>

  // ----- The tree without a cache -----

  function Fold<K>(derive: Derive<K>, start: K, path: Path): (k: Option<K>) {
    if path == [] then Some(start)
    else
      match Fold(derive, start, path[..|path| - 1])
      case Some(parent) => derive(parent, path[|path| - 1])
      case None => None
  }

  /** Knowing a node's key is knowing its subtree: the key of p + q is the fold of q from the key of p. */
  lemma {:induction false} FoldConcat<K>(derive: Derive<K>, start: K, p: Path, q: Path)
    ensures Fold(derive, start, p + q) ==
            match Fold(derive, start, p) case Some(k) => Fold(derive, k, q) case None => None
  {
    if q == [] {
      assert p + q == p;
    } else {
      FoldConcat(derive, start, p, q[..|q| - 1]);
      assert (p + q)[..|p + q| - 1] == p + q[..|q| - 1];
    }
  }

  // ----- The tree with its cache -----

  /** The derivations that fail during one call although they would succeed at another time, by depth. */
  type Faults = nat -> bool

  /** What one call of GetKey returns and how it leaves the cache. */
  function Lookup<K>(derive: Derive<K>, root: K, keys: map<Bytes, K>, path: Path, faults: Faults)
    : (r: (Option<K>, map<Bytes, K>))
    decreases |path|
  {
    if path == [] then (Some(root), keys)
    else if Join(path, SEP) in keys then (Some(keys[Join(path, SEP)]), keys)
    else
      var (parent, keys') := Lookup(derive, root, keys, path[..|path| - 1], faults);
      if parent.None? || faults(|path|) then (None, keys')
      else
        var key := derive(parent.value, path[|path| - 1]);
        if key.None? then (None, keys') else (key, keys'[Join(path, SEP) := key.value])
  }

  class Tree<K> {
    const derive: Derive<K>
    const rootKey: K
    var keys: map<Bytes, K>

    constructor (derive: Derive<K>, rootKey: K)
      ensures this.derive == derive && this.rootKey == rootKey && keys == map[]
    {
      this.derive, this.rootKey, this.keys := derive, rootKey, map[];
    }

    method DeriveChildKey(parentKey: K, childName: Name, fault: bool) returns (key: Option<K>)
      ensures key == if fault then None else derive(parentKey, childName)
    {
      key := if fault then None else derive(parentKey, childName);
    }

    method GetKey(path: Path, faults: Faults) returns (key: Option<K>)
      modifies this`keys
      ensures (key, keys) == Lookup(derive, rootKey, old(keys), path, faults)
      decreases |path|
    {
      if |path| == 0 { return Some(rootKey); }
      var pathStr := Join(path, SEP);
      if pathStr in keys { return Some(keys[pathStr]); }
      var parentKey := GetKey(path[0..|path| - 1], faults);
      assert path[0..|path| - 1] == path[..|path| - 1];
      if parentKey.None? { return None; }
      var childName := path[|path| - 1];
      key := DeriveChildKey(parentKey.value, childName, faults(|path|));
      if key.None? { return None; }
      keys := keys[pathStr := key.value];
    }
  }

  // ----- Histories of calls -----

  datatype Call = Call(path: Path, faults: Faults)

  function CacheAfter<K>(derive: Derive<K>, root: K, calls: seq<Call>): (keys: map<Bytes, K>) {
    if calls == [] then map[]
    else
      var c := calls[|calls| - 1];
      Lookup(derive, root, CacheAfter(derive, root, calls[..|calls| - 1]), c.path, c.faults).1
  }

  /** What call number `i` of the history returns. */
  function Result<K>(derive: Derive<K>, root: K, calls: seq<Call>, i: nat): (r: Option<K>)
    requires i < |calls|
  {
    Lookup(derive, root, CacheAfter(derive, root, calls[..i]), calls[i].path, calls[i].faults).0
  }

  /** `p` is a non-empty leading part of some path asked for. */
  ghost predicate Visited(calls: seq<Call>, p: Path) {
    p != [] && exists i :: 0 <= i < |calls| && p <= calls[i].path
  }

  /** Joining tells all the nodes that the history passes apart. */
  ghost predicate NoCollision(calls: seq<Call>) {
    forall p, q :: Visited(calls, p) && Visited(calls, q) && Join(p, SEP) == Join(q, SEP) ==> p == q
  }

  ghost predicate PathsSepFree(calls: seq<Call>) {
    forall i :: 0 <= i < |calls| ==> SepFree(calls[i].path, SEP)
  }

  lemma SepFreePathsDoNotCollide(calls: seq<Call>)
    requires PathsSepFree(calls)
    ensures NoCollision(calls)
  {
    forall p, q | Visited(calls, p) && Visited(calls, q) && Join(p, SEP) == Join(q, SEP)
      ensures p == q
    {
      assert SepFree(p, SEP) && SepFree(q, SEP);
      JoinInjective(p, q, SEP);
    }
  }

  /** Every cached key is the fold for a node that the history passed. */
  ghost predicate Sound<K>(derive: Derive<K>, root: K, keys: map<Bytes, K>, calls: seq<Call>) {
    forall s :: s in keys ==>
      exists p :: Visited(calls, p) && Join(p, SEP) == s && Fold(derive, root, p) == Some(keys[s])
  }

  /** One call, at any point of a history without collisions. */
  lemma {:induction false} LookupSound<K>(
      derive: Derive<K>, root: K, keys: map<Bytes, K>, path: Path, faults: Faults, calls: seq<Call>)
    requires NoCollision(calls) && Sound(derive, root, keys, calls)
    requires path == [] || Visited(calls, path)
    ensures var (r, keys') := Lookup(derive, root, keys, path, faults);
            && Sound(derive, root, keys', calls)
            && (r.Some? ==> r == Fold(derive, root, path))
            && (r.None? ==> Fold(derive, root, path).None? || exists j :: 1 <= j <= |path| && faults(j))
    decreases |path|
  {
    if path != [] {
      if Join(path, SEP) !in keys {
        LookupSound(derive, root, keys, path[..|path| - 1], faults, calls);
      }
    }
  }

  lemma {:induction false} CacheSound<K>(derive: Derive<K>, root: K, calls: seq<Call>, n: nat)
    requires NoCollision(calls) && n <= |calls|
    ensures Sound(derive, root, CacheAfter(derive, root, calls[..n]), calls)
  {
    if n > 0 {
      CacheSound(derive, root, calls, n - 1);
      var c := calls[n - 1];
      assert calls[..n][..n - 1] == calls[..n - 1];
      assert c.path != [] ==> Visited(calls, c.path);
      LookupSound(derive, root, CacheAfter(derive, root, calls[..n - 1]), c.path, c.faults, calls);
    }
  }

  /**
   * After any history, failed calls included, a key that is returned is the plain fold from the
   * root; a call without faults returns exactly what the uncached tree would.
   */
  lemma CacheAgreesWithFold<K>(derive: Derive<K>, root: K, calls: seq<Call>, i: nat)
    requires NoCollision(calls) && i < |calls|
    ensures Result(derive, root, calls, i).Some? ==>
              Result(derive, root, calls, i) == Fold(derive, root, calls[i].path)
    ensures (forall j :: 1 <= j <= |calls[i].path| ==> !calls[i].faults(j)) ==>
              Result(derive, root, calls, i) == Fold(derive, root, calls[i].path)
  {
    CacheSound(derive, root, calls, i);
    assert calls[i].path != [] ==> Visited(calls, calls[i].path);
    LookupSound(derive, root, CacheAfter(derive, root, calls[..i]), calls[i].path, calls[i].faults, calls);
  }

  // ----- Without the condition the cache is wrong -----

  /** The free derivation, whose keys are the paths themselves. */
  function Extend(k: Path, name: Name): (r: Option<Path>) { Some(k + [name]) }

  lemma {:induction false} FoldExtend(start: Path, path: Path)
    ensures Fold(Extend, start, path) == Some(start + path)
  {
    if path == [] {
      assert start + path == start;
    } else {
      FoldExtend(start, path[..|path| - 1]);
      assert start + path == start + path[..|path| - 1] + [path[|path| - 1]];
    }
  }

  /** All leading parts of `path` are filed under their joins. */
  ghost predicate Filed(keys: map<Bytes, Path>, path: Path) {
    forall n :: 1 <= n <= |path| ==> Join(path[..n], SEP) in keys && keys[Join(path[..n], SEP)] == path[..n]
  }

  /** Every cached path is filed under its own join, and so are its leading parts. */
  ghost predicate Closed(keys: map<Bytes, Path>) {
    forall s :: s in keys ==> Join(keys[s], SEP) == s && Filed(keys, keys[s])
  }

  ghost predicate Grows<K(!new)>(keys: map<Bytes, K>, keys': map<Bytes, K>) {
    forall s :: s in keys ==> s in keys' && keys'[s] == keys[s]
  }

  lemma {:induction false} JoinGrows(path: Path)
    requires |path| >= 2
    ensures |Join(path[..|path| - 1], SEP)| < |Join(path, SEP)|
  {
    var shorter := path[..|path| - 1];
    if |path| == 2 {
      assert Join(path, SEP) == path[0] + [SEP] + Join(path[1..], SEP);
    } else {
      assert path[1..][..|path| - 2] == shorter[1..];
      JoinGrows(path[1..]);
    }
  }

  lemma FiledGrows(keys: map<Bytes, Path>, keys': map<Bytes, Path>, path: Path)
    requires Filed(keys, path) && Grows(keys, keys')
    ensures Filed(keys', path)
  {
  }

  lemma FiledExtend(keys: map<Bytes, Path>, path: Path)
    requires path != [] && Filed(keys, path[..|path| - 1])
    requires Join(path, SEP) in keys && keys[Join(path, SEP)] == path
    ensures Filed(keys, path)
  {
    forall n | 1 <= n <= |path|
      ensures Join(path[..n], SEP) in keys && keys[Join(path[..n], SEP)] == path[..n]
    {
      if n == |path| {
        assert path[..n] == path;
      } else {
        assert path[..n] == path[..|path| - 1][..n];
      }
    }
  }

  lemma FileOne(keys: map<Bytes, Path>, path: Path)
    requires path != [] && Closed(keys) && Filed(keys, path[..|path| - 1]) && Join(path, SEP) !in keys
    ensures var keys' := keys[Join(path, SEP) := path];
            Closed(keys') && Filed(keys', path) && Grows(keys, keys')
  {
    hide Filed, Join;
    var keys' := keys[Join(path, SEP) := path];
    FiledGrows(keys, keys', path[..|path| - 1]);
    FiledExtend(keys', path);
    forall s | s in keys
      ensures Filed(keys', keys[s])
    {
      FiledGrows(keys, keys', keys[s]);
    }
  }

  lemma FreeParent(parent: Path, path: Path)
    requires path != [] && Extend(parent, path[|path| - 1]) == Some(path)
    ensures parent == path[..|path| - 1]
  {
    assert parent == (parent + [path[|path| - 1]])[..|path| - 1];
  }

  /** When a call on the free tree answers with its own path, all of that path's leading parts are filed. */
  lemma {:induction false} FreeLookup(keys: map<Bytes, Path>, path: Path, faults: Faults)
    requires Closed(keys)
    requires Lookup(Extend, [], keys, path, faults).0 == Some(path)
    ensures var keys' := Lookup(Extend, [], keys, path, faults).1;
            && Closed(keys') && Filed(keys', path) && Grows(keys, keys')
            && forall s :: s in keys' && s !in keys ==> path != [] && |s| <= |Join(path, SEP)|
    decreases |path|
  {
    hide Filed, Join, Extend;
    if path == [] {
      FiledEmpty(keys);
    } else if Join(path, SEP) !in keys {
      var parent := path[..|path| - 1];
      var (r, keys1) := Lookup(Extend, [], keys, parent, faults);
      FreeParent(r.value, path);
      FreeLookup(keys, parent, faults);
      if |path| >= 2 {
        JoinGrows(path);
      }
      FileOne(keys1, path);
    }
  }

  lemma FiledEmpty(keys: map<Bytes, Path>)
    ensures Filed(keys, [])
  {
  }

  lemma {:induction false} FreeHistory(calls: seq<Call>, n: nat)
    requires n <= |calls|
    requires forall i :: 0 <= i < n ==> Result(Extend, [], calls, i) == Some(calls[i].path)
    ensures Closed(CacheAfter(Extend, [], calls[..n]))
    ensures forall i :: 0 <= i < n ==> Filed(CacheAfter(Extend, [], calls[..n]), calls[i].path)
  {
    hide Filed, Lookup;
    if n > 0 {
      FreeHistory(calls, n - 1);
      assert calls[..n][..n - 1] == calls[..n - 1];
      var keys, keys' := CacheAfter(Extend, [], calls[..n - 1]), CacheAfter(Extend, [], calls[..n]);
      assert Result(Extend, [], calls, n - 1) == Some(calls[n - 1].path);
      FreeLookup(keys, calls[n - 1].path, calls[n - 1].faults);
      forall i | 0 <= i < n - 1
        ensures Filed(keys', calls[i].path)
      {
        FiledGrows(keys, keys', calls[i].path);
      }
    }
  }

  /**
   * The exact condition: on a fault-free history the cache agrees with the uncached free tree
   * exactly when no two of the nodes passed have the same join. So "a/b" and then "a","b" go wrong.
   */
  lemma CacheSoundIffNoCollision(calls: seq<Call>)
    requires forall i, j :: 0 <= i < |calls| && 1 <= j <= |calls[i].path| ==> !calls[i].faults(j)
    ensures NoCollision(calls) <==>
            forall i :: 0 <= i < |calls| ==> Result(Extend, [], calls, i) == Fold(Extend, [], calls[i].path)
  {
    forall i | 0 <= i < |calls|
      ensures Fold(Extend, [], calls[i].path) == Some(calls[i].path)
    {
      FoldExtend([], calls[i].path);
      assert [] + calls[i].path == calls[i].path;
    }
    if NoCollision(calls) {
      forall i | 0 <= i < |calls|
        ensures Result(Extend, [], calls, i) == Fold(Extend, [], calls[i].path)
      {
        CacheAgreesWithFold(Extend, [], calls, i);
      }
    } else if forall i :: 0 <= i < |calls| ==> Result(Extend, [], calls, i) == Fold(Extend, [], calls[i].path) {
      FreeHistory(calls, |calls|);
      forall p, q | Visited(calls, p) && Visited(calls, q) && Join(p, SEP) == Join(q, SEP)
        ensures p == q
      {
        FiledUnder(calls, p);
        FiledUnder(calls, q);
      }
    }
  }

  lemma FiledUnder(calls: seq<Call>, p: Path)
    requires Visited(calls, p)
    requires forall i :: 0 <= i < |calls| ==> Filed(CacheAfter(Extend, [], calls[..|calls|]), calls[i].path)
    ensures var keys := CacheAfter(Extend, [], calls[..|calls|]);
            Join(p, SEP) in keys && keys[Join(p, SEP)] == p
  {
    var i :| 0 <= i < |calls| && p <= calls[i].path;
    assert Filed(CacheAfter(Extend, [], calls[..|calls|]), calls[i].path);
    assert p == calls[i].path[..|p|];
  }

  // ----- Where the paths come from -----

  function Reversed<T>(s: seq<T>): (r: seq<T>)
    ensures |r| == |s|
  {
    seq(|s|, i requires 0 <= i < |s| => s[|s| - i - 1])
  }

  method Reverse(input: seq<Name>) returns (out: seq<Name>)
    ensures out == Reversed(input)
  {
    var size := |input|;
    var buffer := new Name[size](_ => []);
    for i := 0 to size
      invariant forall j :: 0 <= j < i ==> buffer[j] == input[size - j - 1]
    {
      buffer[i] := input[size - i - 1];
    }
    out := buffer[..];
  }

  /** The affiliation path of a directory entry, from its distinguished name. */
  function AffiliationPath(dn: Bytes): (path: Path) { Reversed(Split(dn, COMMA)) }

  method GetAffiliationPath(dn: Bytes) returns (path: Path)
    ensures path == AffiliationPath(dn)
  {
    path := Reverse(Split(dn, COMMA));
  }

  /** The affiliation path of a registered user, from the group column. */
  function GroupPath(group: Bytes): (path: Path) { Split(group, SEP) }

  /** A group's path never contains the separator, and its cache entry is the group itself. */
  lemma GroupPathIsSepFree(group: Bytes)
    ensures SepFree(GroupPath(group), SEP) && Join(GroupPath(group), SEP) == group
  {
    SplitIsSepFree(group, SEP);
    JoinOfSplit(group, SEP);
  }

  lemma {:induction false} SplitPartsAvoid<T>(s: seq<T>, sep: T, x: T)
    requires x !in s
    ensures SepFree(Split(s, sep), x)
  {
    if s != [] {
      SplitPartsAvoid(s[1..], sep, x);
    }
  }

  lemma ReversedTwice<T>(s: seq<T>)
    ensures Reversed(Reversed(s)) == s
  {
  }

  /** The components, last first and joined with commas, give the name back; none contains a comma. */
  lemma AffiliationPathGivesName(dn: Bytes)
    ensures Join(Reversed(AffiliationPath(dn)), COMMA) == dn
    ensures SepFree(AffiliationPath(dn), COMMA)
  {
    ReversedTwice(Split(dn, COMMA));
    JoinOfSplit(dn, COMMA);
    SplitIsSepFree(dn, COMMA);
  }

  /** Extra leading components of a name extend its affiliation path at the end. */
  lemma LongerNameExtendsPath(extra: Bytes, dn: Bytes)
    ensures AffiliationPath(extra + [COMMA] + dn) == AffiliationPath(dn) + AffiliationPath(extra)
  {
    SplitConcat(extra, dn, COMMA);
    var a, b := Split(extra, COMMA), Split(dn, COMMA);
    assert Reversed(a + b) == Reversed(b) + Reversed(a);
  }

  /**
   * For directory names without "/", in any history on the shared tree: where neither of two calls
   * meets a fault, the key returned for an entry derives the key returned for any entry below it.
   */
  lemma ParentKeyDerivesChildKey<K>(
      derive: Derive<K>, root: K, calls: seq<Call>, i: nat, j: nat, dn: Bytes, extra: Bytes)
    requires PathsSepFree(calls) && i < |calls| && j < |calls|
    requires forall depth :: 1 <= depth <= |calls[i].path| ==> !calls[i].faults(depth)
    requires forall depth :: 1 <= depth <= |calls[j].path| ==> !calls[j].faults(depth)
    requires calls[i].path == AffiliationPath(dn)
    requires calls[j].path == AffiliationPath(extra + [COMMA] + dn)
    ensures Result(derive, root, calls, j) ==
            match Result(derive, root, calls, i)
            case Some(k) => Fold(derive, k, AffiliationPath(extra))
            case None => None
  {
    SepFreePathsDoNotCollide(calls);
    CacheAgreesWithFold(derive, root, calls, i);
    CacheAgreesWithFold(derive, root, calls, j);
    LongerNameExtendsPath(extra, dn);
    FoldConcat(derive, root, AffiliationPath(dn), AffiliationPath(extra));
  }

  /** Names without "/" have affiliation paths that the tree keeps apart. */
  lemma AffiliationPathIsSepFree(dn: Bytes)
    requires SEP !in dn
    ensures SepFree(AffiliationPath(dn), SEP)
  {
    SplitPartsAvoid(dn, COMMA, SEP);
  }
}
