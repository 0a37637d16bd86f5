/** Shared vocabulary: optional values and results that carry an error. */
module Prelude {
  datatype Option<+T> = None | Some(value: T)

  datatype Result<+T, +E> = Ok(value: T) | Err(error: E)

  function Max(a: int, b: int): (m: int)
    ensures m >= a && m >= b && (m == a || m == b)
  {
    if a < b then b else a
  }

  lemma {:induction false} SubsetSize<T>(a: set<T>, b: set<T>)
    requires a <= b
    ensures |a| <= |b|
  {
    if a != {} {
      var x :| x in a;
      SubsetSize(a - {x}, b - {x});
    }
  }

  ghost predicate Distinct<T>(s: seq<T>) {
    forall i, j :: 0 <= i < j < |s| ==> s[i] != s[j]
  }

  lemma {:induction false} DistinctConcat<T>(a: seq<T>, b: seq<T>)
    requires Distinct(a) && Distinct(b)
    requires forall x :: x in b ==> x !in a
    ensures Distinct(a + b)
  {
    forall i, j | 0 <= i < j < |a + b| ensures (a + b)[i] != (a + b)[j] {
      if i < |a| <= j {
        assert (a + b)[j] in b && (a + b)[i] in a;
      }
    }
  }
}

/** Texts standing at a position of another. */
module Positions {
  /** The part of a text between two positions, cut off at its end. */
  function Slice(content: string, start: nat, end: nat): (r: string)
    ensures start <= end <= |content| ==> r == content[start..end]
    ensures start <= |content| < end ==> r == content[start..]
    ensures end <= start || |content| <= start ==> r == ""
  {
    var e := if end < |content| then end else |content|;
    if start < e then content[start..e] else ""
  }

  /** Text t stands in s at position at. */
  predicate StandsAt(s: string, at: nat, t: string) {
    at + |t| <= |s| && s[at..at + |t|] == t
  }

  lemma {:induction false} StandsAtSplit(s: string, at: nat, t: string, u: string)
    ensures StandsAt(s, at, t + u) <==> StandsAt(s, at, t) && StandsAt(s, at + |t|, u)
  {
    assert t == (t + u)[..|t|] && u == (t + u)[|t|..];
    if at + |t + u| <= |s| {
      assert s[at..at + |t + u|] == s[at..at + |t|] + s[at + |t|..at + |t| + |u|];
    }
  }
}

/**
 A dictionary that remembers insertion order, as the scripting language's built-in one does:
 storing under a key that is already present keeps its position, removing and storing again
 moves it to the end.
 */
module OrderedDict {
  import opened Prelude

  datatype Dict<V> = Dict(keys: seq<string>, entries: map<string, V>)

  ghost predicate Valid<V>(d: Dict<V>) {
    && Distinct(d.keys)
    && (forall k :: k in d.keys <==> k in d.entries)
  }

  function Empty<V>(): Dict<V> {
    Dict([], map[])
  }

  function Lookup<V>(d: Dict<V>, k: string): Option<V> {
    if k in d.entries then Some(d.entries[k]) else None
  }

  function Put<V>(d: Dict<V>, k: string, v: V): (r: Dict<V>)
    ensures Valid(d) ==> Valid(r)
    ensures Lookup(r, k) == Some(v)
    ensures forall o :: o != k ==> Lookup(r, o) == Lookup(d, o)
  {
    Dict(if k in d.entries then d.keys else d.keys + [k], d.entries[k := v])
  }

  function Without(keys: seq<string>, k: string): (r: seq<string>)
    ensures forall o :: o in r <==> o in keys && o != k
    ensures Distinct(keys) ==> Distinct(r)
  {
    if keys == [] then []
    else
      var rest := Without(keys[1..], k);
      assert forall o :: o in keys <==> o == keys[0] || o in keys[1..];
      assert Distinct(keys) ==> Distinct(keys[1..]) && keys[0] !in keys[1..];
      if keys[0] == k then rest else [keys[0]] + rest
  }

  function Remove<V>(d: Dict<V>, k: string): (r: Dict<V>)
    ensures Valid(d) ==> Valid(r)
    ensures Lookup(r, k) == None
    ensures forall o :: o != k ==> Lookup(r, o) == Lookup(d, o)
  {
    Dict(Without(d.keys, k), d.entries - {k})
  }
}
