/**
 The merge of user settings over defaults in interface.py, on arbitrarily nested objects.

 The merge is characterised by paths: what the merged document holds at any path is determined
 by what the two documents hold there.
 */
module ConfigMerge {
  import opened Wrappers

  /** A JSON value. Lists count as scalars: the merge does not look into them. */
  datatype Json = Null | Scalar(text: string, truthy: bool) | Obj(fields: map<string, Json>)

  /** The merge of two objects. */
  function Merged(d: Json, u: Json): (m: Json)
    requires d.Obj? && u.Obj?
    ensures m.Obj? && m.fields.Keys == d.fields.Keys + u.fields.Keys
    decreases d
  {
    Obj(map k | k in d.fields.Keys + u.fields.Keys ::
      if k !in u.fields then d.fields[k]
      else if k in d.fields && d.fields[k].Obj? && u.fields[k].Obj? then Merged(d.fields[k], u.fields[k])
      else u.fields[k])
  }

  /** The whole call. It fails only for an object over a default that is neither an object nor empty. */
  function DeepMerged(d: Json, u: Json): Option<Json> {
    if u.Null? then Some(d)
    else if !u.Obj? then Some(u)
    else if d.Obj? then Some(Merged(d, u))
    else if d.Scalar? && d.truthy then None
    else Some(u)
  }

  method DeepMerge(defaults: Json, user: Json) returns (r: Option<Json>)
    ensures r == DeepMerged(defaults, user)
    decreases defaults
  {
    if !user.Obj? {
      return Some(if user.Null? then defaults else user);
    }
    var result: map<string, Json> := if defaults.Obj? then defaults.fields else map[];
    if defaults.Scalar? && defaults.truthy {
      return None;
    }
    var items: map<string, Json> := if defaults.Obj? then defaults.fields else map[];
    var keys := items.Keys;
    while keys != {}
      invariant keys <= items.Keys && result.Keys == items.Keys
      invariant forall k :: k in keys ==> result[k] == items[k]
      invariant forall k :: k in items.Keys - keys ==>
        k in Merged(Obj(items), user).fields && result[k] == Merged(Obj(items), user).fields[k]
      decreases keys
    {
      var key :| key in keys;
      if key in user.fields {
        if items[key].Obj? && user.fields[key].Obj? {
          assert items == defaults.fields;
          var merged := DeepMerge(items[key], user.fields[key]);
          result := result[key := merged.value];
        } else {
          result := result[key := user.fields[key]];
        }
      }
      keys := keys - {key};
    }
    var extra := user.fields.Keys - result.Keys;
    while extra != {}
      invariant extra <= user.fields.Keys - items.Keys
      invariant result.Keys == items.Keys + user.fields.Keys - extra
      invariant forall k :: k in result ==> result[k] == Merged(Obj(items), user).fields[k]
      decreases extra
    {
      var key :| key in extra;
      result := result[key := user.fields[key]];
      extra := extra - {key};
    }
    assert result == Merged(Obj(items), user).fields;
    if !defaults.Obj? {
      assert Merged(Obj(map[]), user).fields == user.fields;
    }
    return Some(Obj(result));
  }

  // ----- By paths -----

  type Path = seq<string>

  function Get(j: Json, path: Path): Option<Json>
    decreases |path|
  {
    if path == [] then Some(j)
    else if j.Obj? && path[0] in j.fields then Get(j.fields[path[0]], path[1..])
    else None
  }

  /** The document leaves the path free: following it, one comes to an object without the next key. */
  predicate Free(u: Json, path: Path)
    decreases |path|
  {
    path != [] && u.Obj? && (path[0] in u.fields ==> Free(u.fields[path[0]], path[1..]))
  }

  /** What the merged document holds at a path: the user's value, or where the user leaves it free the default. */
  function Chosen(d: Json, u: Json, path: Path): Option<Json> {
    match Get(u, path)
    case Some(x) =>
      if x.Obj? && Get(d, path).Some? && Get(d, path).value.Obj? then Some(Merged(Get(d, path).value, x)) else Some(x)
    case None =>
      if Free(u, path) then Get(d, path) else None
  }

  lemma {:induction false} MergedByPaths(d: Json, u: Json, path: Path)
    requires d.Obj? && u.Obj?
    ensures Get(Merged(d, u), path) == Chosen(d, u, path)
    decreases |path|
  {
    if path != [] {
      var k, rest := path[0], path[1..];
      if k in u.fields && k in d.fields && d.fields[k].Obj? && u.fields[k].Obj? {
        MergedByPaths(d.fields[k], u.fields[k], rest);
      } else if k in u.fields && k in d.fields {
        assert Get(d, path) == Get(d.fields[k], rest) && Get(u, path) == Get(u.fields[k], rest);
        assert Free(u, path) == Free(u.fields[k], rest);
        UnfreeHasNothing(u.fields[k], rest);
        UnfreeHasNothing(d.fields[k], rest);
      }
    }
  }

  /** A value is missing for one of two reasons: the path is free, or it runs through a value that is no object. */
  lemma {:induction false} UnfreeHasNothing(u: Json, path: Path)
    ensures Free(u, path) ==> Get(u, path) == None
    ensures !u.Obj? && path != [] ==> Get(u, path) == None && !Free(u, path)
    decreases |path|
  {
    if path != [] && u.Obj? && path[0] in u.fields {
      UnfreeHasNothing(u.fields[path[0]], path[1..]);
    }
  }

  /**
   On any two documents: without a user's value the defaults stand, a value that is no object stands as it is,
   an object is merged path by path into an object or an empty default, and over any other value it fails.
   */
  lemma WholeDocuments(d: Json, u: Json, path: Path)
    ensures DeepMerged(d, u).None? <==> u.Obj? && d.Scalar? && d.truthy
    ensures u == Null ==> DeepMerged(d, u) == Some(d)
    ensures u.Scalar? ==> DeepMerged(d, u) == Some(u)
    ensures u.Obj? && DeepMerged(d, u).Some? ==>
              Get(DeepMerged(d, u).value, path) == if d.Obj? then Chosen(d, u, path) else Get(u, path)
  {
    if d.Obj? && u.Obj? {
      MergedByPaths(d, u, path);
    }
  }

  /** The user's leaves win. */
  lemma UserWins(d: Json, u: Json, path: Path, x: Json)
    requires d.Obj? && u.Obj? && !x.Obj? && Get(u, path) == Some(x)
    ensures Get(Merged(d, u), path) == Some(x)
  {
    MergedByPaths(d, u, path);
  }

  /** A leaf of the merged document that the user did not give is a default the user left free, and conversely. */
  lemma DefaultsFill(d: Json, u: Json, path: Path, x: Json)
    requires d.Obj? && u.Obj? && Get(u, path) == None
    ensures Get(Merged(d, u), path) == Some(x) <==> Free(u, path) && Get(d, path) == Some(x)
  {
    MergedByPaths(d, u, path);
  }

  /** Defaults merged over themselves are unchanged. */
  lemma {:induction false} MergeSelf(d: Json)
    requires d.Obj?
    ensures Merged(d, d) == d
    decreases d
  {
    forall k | k in d.fields && d.fields[k].Obj? ensures Merged(d.fields[k], d.fields[k]) == d.fields[k] {
      MergeSelf(d.fields[k]);
    }
    assert Merged(d, d).fields == d.fields;
  }

  /** Merging again over the same defaults changes nothing. */
  lemma {:induction false} MergeTwice(d: Json, u: Json)
    requires d.Obj? && u.Obj?
    ensures Merged(d, Merged(d, u)) == Merged(d, u)
    decreases d
  {
    var m := Merged(d, u);
    forall k | k in d.fields && d.fields[k].Obj? && m.fields[k].Obj?
      ensures Merged(d.fields[k], m.fields[k]) == m.fields[k]
    {
      if k in u.fields {
        MergeTwice(d.fields[k], u.fields[k]);
      } else {
        MergeSelf(d.fields[k]);
      }
    }
    assert Merged(d, m).fields == m.fields;
  }
}
