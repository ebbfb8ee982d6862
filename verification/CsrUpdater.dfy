/** The recursive edits of the CSR description tree
    (cva6/config/gen_from_riscv_config/scripts/libs/csr_updater.py). */
module CsrUpdater {
  import opened Wrappers

  /** YAML scalars that compare equal in Python are one value here. */
  datatype Scalar = Null | Number(n: int) | Text(s: string)

  datatype Tree = Leaf(value: Scalar) | Dict(entries: map<string, Tree>)

  type Entries = map<string, Tree>

  // ---- csr_recursive_update ----

  /** What becomes of a key that both trees have. */
  function Merged(key: string, current: Tree, update: Tree): Tree
    decreases current, 1
  {
    if current.Dict? && update.Dict? && key != "rv32" then Updated(current, update) else update
  }

  function Updated(original: Tree, update: Tree): (r: Tree)
    requires original.Dict? && update.Dict?
    ensures r.Dict? && r.entries.Keys == original.entries.Keys
    decreases original, 0
  {
    Dict(map k | k in original.entries ::
      if k in update.entries then Merged(k, original.entries[k], update.entries[k]) else original.entries[k])
  }

  method CsrRecursiveUpdate(original: Tree, update: Tree) returns (r: Tree)
    requires original.Dict? && update.Dict?
    ensures r == Updated(original, update)
    decreases original
  {
    var dict := original.entries;
    var todo := update.entries.Keys;
    while todo != {}
      invariant todo <= update.entries.Keys && dict.Keys == original.entries.Keys
      invariant forall k :: k in dict ==>
                  dict[k] == if k in update.entries && k !in todo then Merged(k, original.entries[k], update.entries[k])
                             else original.entries[k]
      decreases todo
    {
      var key :| key in todo;
      if key in dict {
        var value := update.entries[key];
        if value.Dict? && dict[key].Dict? {
          if key == "rv32" {
            dict := dict[key := value];
          } else {
            var sub := CsrRecursiveUpdate(dict[key], value);
            dict := dict[key := sub];
          }
        } else {
          dict := dict[key := value];
        }
      }
      todo := todo - {key};
    }
    assert dict == Updated(original, update).entries;
    r := Dict(dict);
  }

  lemma {:induction false} UpdatedWithItself(t: Tree)
    requires t.Dict?
    ensures Updated(t, t) == t
  {
    forall k | k in t.entries
      ensures Merged(k, t.entries[k], t.entries[k]) == t.entries[k]
    {
      if t.entries[k].Dict? {
        UpdatedWithItself(t.entries[k]);
      }
    }
    assert Updated(t, t).entries == t.entries;
  }

  /** Applying the same update twice is applying it once. */
  lemma {:induction false} UpdateIdempotent(original: Tree, update: Tree)
    requires original.Dict? && update.Dict?
    ensures Updated(Updated(original, update), update) == Updated(original, update)
    decreases original, 0
  {
    var once := Updated(original, update);
    var twice := Updated(once, update);
    forall k | k in once.entries
      ensures twice.entries[k] == once.entries[k]
    {
      if k in update.entries {
        MergeIdempotent(k, original.entries[k], update.entries[k]);
      }
    }
    assert twice.entries == once.entries;
  }

  lemma {:induction false} MergeIdempotent(key: string, current: Tree, update: Tree)
    ensures Merged(key, Merged(key, current, update), update) == Merged(key, current, update)
    decreases current, 1
  {
    if update.Dict? && key != "rv32" {
      if current.Dict? {
        UpdateIdempotent(current, update);
      } else {
        UpdatedWithItself(update);
      }
    }
  }

  // ---- remove_keys_recursive ----

  /** The exclusion: remove the dicts v with v[key][subKey] == cond, or v[key] == cond when there is
      no sub-key. */
  datatype Exclusion = Exclusion(key: string, subKey: Option<string>, cond: Scalar)

  /** `d.get(k)` */
  function Get(d: Entries, k: string): Tree {
    if k in d then d[k] else Leaf(Null)
  }

  /** `None` when a value that is no dict is asked for the sub-key. */
  function Matches(v: Entries, x: Exclusion): Option<bool> {
    match x.subKey
    case None => Some(Get(v, x.key) == Leaf(x.cond))
    case Some(sub) =>
      if x.key !in v then Some(Null == x.cond)
      else if v[x.key].Leaf? then None
      else Some(Get(v[x.key].entries, sub) == Leaf(x.cond))
  }

  /** The walk over the tree raises nothing. */
  predicate Walks(t: Tree, x: Exclusion) {
    t.Leaf? || forall k :: k in t.entries ==>
                 && Walks(t.entries[k], x)
                 && (t.entries[k].Dict? ==> Matches(t.entries[k].entries, x).Some?)
  }

  predicate Excluded(v: Tree, x: Exclusion) {
    v.Dict? && Matches(v.entries, x) == Some(true)
  }

  function Removed(t: Tree, x: Exclusion): Tree {
    if t.Leaf? then t
    else Dict(map k | k in t.entries && !Excluded(t.entries[k], x) :: Removed(t.entries[k], x))
  }

  method RemoveKeysRecursive(t: Tree, x: Exclusion) returns (r: Option<Tree>)
    requires t.Dict?
    ensures r.Some? <==> Walks(t, x)
    ensures r.Some? ==> r.value == Removed(t, x)
    decreases t
  {
    var dictionary := t.entries;
    var keysToRemove: set<string> := {};
    var todo := t.entries.Keys;
    while todo != {}
      invariant todo <= t.entries.Keys && dictionary.Keys == t.entries.Keys
      invariant keysToRemove == set k | k in t.entries && k !in todo && Excluded(t.entries[k], x)
      invariant forall k :: k in t.entries ==>
                  dictionary[k] == if k in todo then t.entries[k] else Removed(t.entries[k], x)
      invariant forall k :: k in t.entries && k !in todo ==>
                  Walks(t.entries[k], x) && (t.entries[k].Dict? ==> Matches(t.entries[k].entries, x).Some?)
      decreases todo
    {
      var k :| k in todo;
      var v := dictionary[k];
      if v.Dict? {
        var m := Matches(v.entries, x);
        if m.None? {
          return None;
        }
        if m.value {
          keysToRemove := keysToRemove + {k};
        }
        var sub := RemoveKeysRecursive(v, x);
        if sub.None? {
          return None;
        }
        dictionary := dictionary[k := sub.value];
      }
      todo := todo - {k};
    }
    dictionary := dictionary - keysToRemove;
    assert dictionary == Removed(t, x).entries;
    return Some(Dict(dictionary));
  }

  /** No dict below this one is excluded. */
  ghost predicate Clean(t: Tree, x: Exclusion) {
    t.Leaf? || forall k :: k in t.entries ==> !Excluded(t.entries[k], x) && Clean(t.entries[k], x)
  }

  /** A pass does not turn a dict that stays into one that should go. */
  lemma {:induction false} StaysUnmatched(v: Tree, x: Exclusion)
    requires x.cond != Null && v.Dict? && Walks(v, x) && Matches(v.entries, x) == Some(false)
    ensures Matches(Removed(v, x).entries, x) == Some(false)
  {
    if x.subKey.Some? && x.key in v.entries {
      var d := v.entries[x.key];
      if !Excluded(d, x) {
        assert Removed(v, x).entries[x.key] == Removed(d, x);
        GetAfter(d, x, x.subKey.value);
      }
    } else if x.subKey.None? {
      GetAfter(v, x, x.key);
    }
  }

  /** A scalar is neither made nor changed by a pass. */
  lemma {:induction false} GetAfter(d: Tree, x: Exclusion, k: string)
    requires d.Dict? && x.cond != Null
    ensures Get(Removed(d, x).entries, k) == Leaf(x.cond) <==> Get(d.entries, k) == Leaf(x.cond)
  {
    var r := Removed(d, x).entries;
    if k in r {
      assert r[k] == Removed(d.entries[k], x);
    } else if k in d.entries {
      assert Excluded(d.entries[k], x);
    }
  }

  /** When the condition is not null, one pass leaves nothing to remove. */
  lemma {:induction false} OnePassCleans(t: Tree, x: Exclusion)
    requires x.cond != Null && Walks(t, x)
    ensures Clean(Removed(t, x), x)
  {
    if t.Dict? {
      forall k | k in Removed(t, x).entries
        ensures !Excluded(Removed(t, x).entries[k], x) && Clean(Removed(t, x).entries[k], x)
      {
        OnePassCleans(t.entries[k], x);
        if t.entries[k].Dict? {
          StaysUnmatched(t.entries[k], x);
        }
      }
    }
  }

  lemma {:induction false} CleanStays(t: Tree, x: Exclusion)
    requires Clean(t, x)
    ensures Removed(t, x) == t
  {
    if t.Dict? {
      forall k | k in t.entries
        ensures Removed(t.entries[k], x) == t.entries[k]
      {
        CleanStays(t.entries[k], x);
      }
      assert Removed(t, x).entries == t.entries;
    }
  }

  /** A tree on which the first pass with a null condition makes a new dict fit the exclusion. */
  function NullSample(x: Exclusion): Tree {
    var inner := if x.subKey.Some? then Dict(map[x.subKey.value := Dict(map[])]) else Dict(map[]);
    Dict(map["r" := Dict(map[x.key := inner])])
  }

  lemma {:induction false} NullNeedsMore(x: Exclusion)
    requires x.cond == Null
    ensures Walks(NullSample(x), x) && Removed(Removed(NullSample(x), x), x) != Removed(NullSample(x), x)
  {
    var t := NullSample(x);
    var reg := t.entries["r"];
    var inner := reg.entries[x.key];
    var empty := Dict(map[]);
    assert Walks(empty, x) && Walks(inner, x) && Walks(reg, x);
    assert Matches(reg.entries, x) == Some(false);
    var once := Removed(t, x);
    assert once.entries["r"] == Removed(reg, x);
    if x.subKey == Some(x.key) {
      assert Matches(inner.entries, x) == Some(true);
    }
    assert Excluded(inner, x);
    assert Removed(reg, x).entries == map[];
    assert Excluded(once.entries["r"], x);
    assert "r" !in Removed(once, x).entries;
  }

  /** The second pass raises nothing on a tree that the first one got through. */
  lemma {:induction false} WalksAfter(t: Tree, x: Exclusion)
    requires Walks(t, x)
    ensures Walks(Removed(t, x), x)
  {
    if t.Dict? {
      forall k | k in Removed(t, x).entries
        ensures Walks(Removed(t, x).entries[k], x)
        ensures Removed(t, x).entries[k].Dict? ==> Matches(Removed(t, x).entries[k].entries, x).Some?
      {
        var v := t.entries[k];
        assert Removed(t, x).entries[k] == Removed(v, x);
        WalksAfter(v, x);
        if v.Dict? && x.key in Removed(v, x).entries {
          assert Removed(v, x).entries[x.key] == Removed(v.entries[x.key], x);
        }
      }
    }
  }

  /** The second pass on what the first one made of the tree raises nothing and changes nothing. */
  predicate SecondPassIdle(t: Tree, x: Exclusion) {
    Walks(Removed(t, x), x) && Removed(Removed(t, x), x) == Removed(t, x)
  }

  /** On every tree that the first pass gets through the second one is idle, exactly when the condition
      is not null. */
  lemma {:induction false} SecondPassIff(x: Exclusion)
    ensures (forall t :: Walks(t, x) ==> SecondPassIdle(t, x)) <==> x.cond != Null
  {
    if x.cond != Null {
      forall t | Walks(t, x)
        ensures SecondPassIdle(t, x)
      {
        WalksAfter(t, x);
        OnePassCleans(t, x);
        CleanStays(Removed(t, x), x);
      }
    } else {
      NullNeedsMore(x);
      assert !SecondPassIdle(NullSample(x), x);
    }
  }

  // ---- both edits by key paths ----

  type Path = seq<string>

  /** What a tree holds behind a path of keys. */
  function At(t: Tree, path: Path): Option<Tree>
    decreases |path|
  {
    if path == [] then Some(t)
    else if t.Dict? && path[0] in t.entries then At(t.entries[path[0]], path[1..])
    else None
  }

  lemma {:induction false} AtConcat(t: Tree, a: Path, b: Path)
    ensures At(t, a + b) == match At(t, a) case None => None case Some(sub) => At(sub, b)
    decreases |a|
  {
    if a == [] {
      assert a + b == b;
    } else {
      assert (a + b)[0] == a[0] && (a + b)[1..] == a[1..] + b;
      if t.Dict? && a[0] in t.entries {
        AtConcat(t.entries[a[0]], a[1..], b);
      }
    }
  }

  lemma {:induction false} AtOne(t: Tree, k: string)
    ensures At(t, [k]) == if t.Dict? && k in t.entries then Some(t.entries[k]) else None
  {
    assert [k][1..] == [];
  }

  ghost predicate MeetsNoRv32(path: Path) {
    forall i :: 0 <= i < |path| ==> path[i] != "rv32"
  }

  /** At a path of both trees that meets no `rv32` before its end the result holds what the update holds,
      unless both hold dicts there; then, too, when the path ends in `rv32`, and otherwise a dict with the
      keys of the original. */
  lemma {:induction false} UpdatedWhereBoth(original: Tree, update: Tree, path: Path)
    requires original.Dict? && update.Dict? && path != [] && MeetsNoRv32(path[..|path| - 1])
    requires At(original, path).Some? && At(update, path).Some?
    ensures var a, b, r := At(original, path).value, At(update, path).value, At(Updated(original, update), path);
            if a.Dict? && b.Dict? && path[|path| - 1] != "rv32"
            then r.Some? && r.value.Dict? && r.value.entries.Keys == a.entries.Keys
            else r == Some(b)
    decreases |path|
  {
    var key, rest := path[0], path[1..];
    if |path| > 1 {
      assert path[..|path| - 1][0] == key && path[..|path| - 1][1..] == rest[..|rest| - 1];
      UpdatedWhereBoth(original.entries[key], update.entries[key], rest);
    }
  }

  /** A path of the original that leaves the update below dicts of both, with no `rv32` up to there, holds
      in the result what it held; and a path that the original does not have is not added. */
  lemma {:induction false} UpdatedElsewhere(original: Tree, update: Tree, path: Path, k: nat)
    requires original.Dict? && update.Dict? && k < |path| && MeetsNoRv32(path[..k])
    requires At(original, path[..k]).Some? && At(original, path[..k]).value.Dict?
    requires At(update, path[..k]).Some? && At(update, path[..k]).value.Dict?
    requires At(update, path[..k + 1]).None? || At(original, path[..k + 1]).None?
    ensures At(Updated(original, update), path) == At(original, path)
    decreases |path|
  {
    var key, rest := path[0], path[1..];
    if k > 0 {
      assert path[..k][0] == key && path[..k][1..] == rest[..k - 1];
      assert path[..k + 1][0] == key && path[..k + 1][1..] == rest[..k];
      UpdatedElsewhere(original.entries[key], update.entries[key], rest, k - 1);
    } else {
      assert path[..1][0] == key && path[..1][1..] == [];
    }
  }

  /** The exclusion, spelled out. */
  predicate Fits(v: Tree, x: Exclusion) {
    && v.Dict?
    && match (x.subKey, At(v, [x.key]))
       case (_, None) => x.cond == Null
       case (None, Some(d)) => d == Leaf(x.cond)
       case (Some(sub), Some(d)) =>
         d.Dict? && (At(d, [sub]) == Some(Leaf(x.cond)) || (At(d, [sub]).None? && x.cond == Null))
  }

  lemma {:induction false} FitsIs(v: Tree, x: Exclusion)
    ensures Excluded(v, x) <==> Fits(v, x)
  {
    AtOne(v, x.key);
    if x.subKey.Some? && At(v, [x.key]).Some? {
      AtOne(At(v, [x.key]).value, x.subKey.value);
    }
  }

  ghost predicate FitsOnTheWay(t: Tree, x: Exclusion, path: Path) {
    exists k :: 1 <= k <= |path| && At(t, path[..k]).Some? && Fits(At(t, path[..k]).value, x)
  }

  lemma {:induction false} OnTheWayNext(t: Tree, x: Exclusion, path: Path)
    requires path != [] && t.Dict? && path[0] in t.entries
    ensures FitsOnTheWay(t, x, path) <==>
            Fits(t.entries[path[0]], x) || FitsOnTheWay(t.entries[path[0]], x, path[1..])
  {
    var v, rest := t.entries[path[0]], path[1..];
    forall k | 1 <= k <= |path|
      ensures At(t, path[..k]) == At(v, rest[..k - 1])
    {
      assert path[..k][0] == path[0] && path[..k][1..] == rest[..k - 1];
    }
    assert At(v, rest[..0]) == Some(v);
    if FitsOnTheWay(v, x, rest) {
      var k :| 1 <= k <= |rest| && At(v, rest[..k]).Some? && Fits(At(v, rest[..k]).value, x);
      assert At(t, path[..k + 1]) == At(v, rest[..k]);
    }
    if Fits(v, x) {
      assert At(t, path[..1]) == Some(v);
    }
  }

  /** A pass removes exactly the paths that go through or to a dict that fits, and keeps every value on
      the others. */
  lemma {:induction false} RemovedAt(t: Tree, x: Exclusion, path: Path)
    ensures At(Removed(t, x), path).Some? <==> At(t, path).Some? && !FitsOnTheWay(t, x, path)
    ensures At(Removed(t, x), path).Some? ==>
              var a, r := At(t, path).value, At(Removed(t, x), path).value; (a.Leaf? || r.Leaf?) ==> r == a
    decreases |path|
  {
    if path != [] && t.Dict? && path[0] in t.entries {
      FitsIs(t.entries[path[0]], x);
      OnTheWayNext(t, x, path);
      RemovedAt(t.entries[path[0]], x, path[1..]);
    }
  }

  /** The walk asks a scalar for the sub-key at this path. */
  predicate RaisesAt(t: Tree, x: Exclusion, path: Path) {
    && path != [] && x.subKey.Some? && At(t, path + [x.key]).Some? && At(t, path + [x.key]).value.Leaf?
  }

  /** The walk raises nothing exactly when there is no such path. */
  lemma {:induction false} WalksIff(t: Tree, x: Exclusion)
    ensures Walks(t, x) <==> forall path :: !RaisesAt(t, x, path)
  {
    if !Walks(t, x) {
      var k :| k in t.entries &&
               !(Walks(t.entries[k], x) && (t.entries[k].Dict? ==> Matches(t.entries[k].entries, x).Some?));
      var v := t.entries[k];
      if Walks(v, x) {
        AtConcat(t, [k], [x.key]);
        AtOne(t, k);
        AtOne(v, x.key);
        assert RaisesAt(t, x, [k]);
      } else {
        WalksIff(v, x);
        var path :| RaisesAt(v, x, path);
        AtConcat(t, [k], path + [x.key]);
        AtOne(t, k);
        assert [k] + (path + [x.key]) == ([k] + path) + [x.key];
        assert RaisesAt(t, x, [k] + path);
      }
    } else {
      forall path
        ensures !RaisesAt(t, x, path)
      {
        WalksEverywhere(t, x, path);
      }
    }
  }

  lemma {:induction false} WalksEverywhere(t: Tree, x: Exclusion, path: Path)
    requires Walks(t, x)
    ensures !RaisesAt(t, x, path)
    decreases |path|
  {
    if path != [] {
      var k, rest := path[0], path[1..];
      AtConcat(t, [k], rest + [x.key]);
      AtOne(t, k);
      assert [k] + (rest + [x.key]) == path + [x.key];
      if t.Dict? && k in t.entries {
        if rest == [] {
          AtOne(t.entries[k], x.key);
          assert rest + [x.key] == [x.key];
        } else {
          WalksEverywhere(t.entries[k], x, rest);
        }
      }
    }
  }
}
