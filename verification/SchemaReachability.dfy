/** Which component schemas of an API contract its operations use, directly or through others. */
module SchemaReachability {
  import opened Prelude

  datatype Json =
    | Obj(fields: seq<(string, Json)>)
    | Arr(items: seq<Json>)
    | Str(text: string)
    | Scalar

  function Prefix(): string {
    "#/components/schemas/"
  }

  function Field(fields: seq<(string, Json)>, key: string): Option<Json> {
    if fields == [] then None else if fields[0].0 == key then Some(fields[0].1) else Field(fields[1..], key)
  }

  /** The schema name that an object refers to by its own `$ref`. */
  function OwnRef(fields: seq<(string, Json)>): set<string> {
    match Field(fields, "$ref")
    case Some(Str(t)) => if Prefix() <= t then {t[|Prefix()|..]} else {}
    case _ => {}
  }

  /** The schema names referred to anywhere under a node. */
  function Refs(node: Json): set<string>
    decreases node, 1, 0
  {
    match node
    case Obj(fields) => OwnRef(fields) + ChildRefs(node, |fields|)
    case Arr(items) => ChildRefs(node, |items|)
    case _ => {}
  }

  function Children(node: Json): nat {
    match node
    case Obj(fields) => |fields|
    case Arr(items) => |items|
    case _ => 0
  }

  function Child(node: Json, i: nat): (child: Json)
    requires i < Children(node)
    ensures child < node
  {
    if node.Obj? then node.fields[i].1 else node.items[i]
  }

  /** The names referred to under the first k children. */
  function ChildRefs(node: Json, k: nat): set<string>
    requires k <= Children(node)
    decreases node, 0, k
  {
    if k == 0 then {} else ChildRefs(node, k - 1) + Refs(Child(node, k - 1))
  }

  lemma {:induction false} InChildRefs(node: Json, k: nat, r: string)
    requires k <= Children(node)
    ensures r in ChildRefs(node, k) <==> exists i :: 0 <= i < k && r in Refs(Child(node, i))
    decreases k
  {
    if k != 0 {
      InChildRefs(node, k - 1, r);
    }
  }

  method CollectSchemaRefs(node: Json) returns (refs: set<string>)
    ensures refs == Refs(node)
  {
    refs := {};
    match node {
      case Obj(fields) =>
        refs := OwnRef(fields);
        for i := 0 to |fields|
          invariant refs == OwnRef(fields) + ChildRefs(node, i)
        {
          assert Child(node, i) == fields[i].1;
          var more := CollectSchemaRefs(fields[i].1);
          refs := refs + more;
        }
      case Arr(items) =>
        for i := 0 to |items|
          invariant refs == ChildRefs(node, i)
        {
          var more := CollectSchemaRefs(items[i]);
          refs := refs + more;
        }
      case _ =>
    }
  }

  /** Node inner is node outer or lies somewhere under it. */
  ghost predicate Under(inner: Json, outer: Json) {
    inner == outer || exists i :: 0 <= i < Children(outer) && Under(inner, Child(outer, i))
  }

  /** The object has the name of this component schema as its own `$ref`. */
  predicate RefersToSchema(fields: seq<(string, Json)>, name: string) {
    Field(fields, "$ref") == Some(Str("#/components/schemas/" + name))
  }

  /** An object refers to a name exactly when its `$ref` is that name behind the prefix of component schemas. */
  lemma {:induction false} OwnRefIff(fields: seq<(string, Json)>, name: string)
    ensures name in OwnRef(fields) <==> RefersToSchema(fields, name)
  {
    hide Field;
    assert ("#/components/schemas/" + name)[21..] == name;
    match Field(fields, "$ref") {
      case Some(Str(t)) =>
        if Prefix() <= t {
          assert t == Prefix() + t[21..];
        }
      case _ =>
    }
  }

  /** Some object at or under the node has the name as its own `$ref`. */
  ghost predicate Mentions(node: Json, name: string) {
    exists n :: Under(n, node) && n.Obj? && RefersToSchema(n.fields, name)
  }

  /** The collected names are exactly those of the references of objects under the node. */
  lemma {:induction false} RefsAreMentions(node: Json, name: string)
    ensures name in Refs(node) <==> Mentions(node, name)
  {
    hide OwnRef, RefersToSchema;
    InChildRefs(node, Children(node), name);
    if node.Obj? {
      OwnRefIff(node.fields, name);
    }
    forall i | 0 <= i < Children(node) ensures name in Refs(Child(node, i)) <==> Mentions(Child(node, i), name) {
      RefsAreMentions(Child(node, i), name);
    }
    if node.Obj? && name in OwnRef(node.fields) {
      assert Under(node, node);
    } else if i :| 0 <= i < Children(node) && name in Refs(Child(node, i)) {
      var n :| Under(n, Child(node, i)) && n.Obj? && RefersToSchema(n.fields, name);
      assert Under(n, node);
    }
    if Mentions(node, name) {
      var n :| Under(n, node) && n.Obj? && RefersToSchema(n.fields, name);
      if n != node {
        var i :| 0 <= i < Children(node) && Under(n, Child(node, i));
        assert Mentions(Child(node, i), name);
      }
    }
  }

  // ----- The worklist -----

  datatype Contract = Contract(paths: Json, schemas: map<string, Json>)

  /** The set holds what the operations refer to, and what the known schemas in it refer to. */
  predicate Closed(c: Contract, s: set<string>) {
    Refs(c.paths) <= s && forall n :: n in s && n in c.schemas ==> Refs(c.schemas[n]) <= s
  }

  /** Every name referred to anywhere in the contract. */
  ghost function Universe(c: Contract): set<string> {
    Refs(c.paths) + set n, r | n in c.schemas && r in Refs(c.schemas[n]) :: r
  }

  method ReachableSchemas(c: Contract) returns (seen: set<string>)
    ensures Closed(c, seen)
    ensures forall s :: Closed(c, s) ==> seen <= s
  {
    var frontier := CollectSchemaRefs(c.paths);
    seen := {};
    while frontier != {}
      invariant frontier !! seen
      invariant Refs(c.paths) <= seen + frontier <= Universe(c)
      invariant forall n :: n in seen && n in c.schemas ==> Refs(c.schemas[n]) <= seen + frontier
      invariant forall s :: Closed(c, s) ==> seen + frontier <= s
      decreases Universe(c) - seen
    {
      var name :| name in frontier;
      ghost var before := seen + frontier;
      ghost var wasSeen := seen;
      frontier := frontier - {name};
      if name !in seen {
        seen := seen + {name};
        if name in c.schemas {
          var refs := CollectSchemaRefs(c.schemas[name]);
          frontier := frontier + (refs - seen);
          assert seen + frontier == before + refs;
        } else {
          assert seen + frontier == before;
        }
      }
      assert name in Universe(c) - wasSeen && name !in Universe(c) - seen;
    }
  }

  ghost predicate RefersTo(c: Contract, from: string, to: string) {
    from in c.schemas && to in Refs(c.schemas[from])
  }

  /** A chain of references leads from an operation to the name, through fewer than n schemas. */
  ghost predicate Reaches(c: Contract, name: string, n: nat)
    decreases n
  {
    n > 0 && (name in Refs(c.paths) || exists from :: Reaches(c, from, n - 1) && RefersTo(c, from, name))
  }

  lemma {:induction false} ReachedIsInClosed(c: Contract, s: set<string>, name: string, n: nat)
    requires Closed(c, s) && Reaches(c, name, n)
    ensures name in s
    decreases n
  {
    if name !in Refs(c.paths) {
      var from :| Reaches(c, from, n - 1) && RefersTo(c, from, name);
      ReachedIsInClosed(c, s, from, n - 1);
    }
  }

  ghost predicate Reachable(c: Contract, name: string) {
    exists n: nat :: Reaches(c, name, n)
  }

  lemma {:induction false} ReachableIsClosed(c: Contract, s: set<string>)
    requires Closed(c, s)
    ensures Closed(c, set n | n in s && Reachable(c, n))
  {
    var reached := set n | n in s && Reachable(c, n);
    forall n | n in Refs(c.paths) ensures n in reached {
      assert Reaches(c, n, 1);
    }
    forall n | n in reached && n in c.schemas ensures Refs(c.schemas[n]) <= reached {
      var k: nat :| Reaches(c, n, k);
      forall r | r in Refs(c.schemas[n]) ensures r in reached {
        assert RefersTo(c, n, r);
        assert Reaches(c, r, k + 1);
      }
    }
  }

  /** The least closed set is the set of names that some chain of references reaches. */
  lemma {:induction false} LeastClosedIsReachable(c: Contract, seen: set<string>)
    requires Closed(c, seen) && forall s :: Closed(c, s) ==> seen <= s
    ensures forall n :: n in seen <==> Reachable(c, n)
  {
    ReachableIsClosed(c, seen);
    assert seen <= set n | n in seen && Reachable(c, n);
    forall n | Reachable(c, n) ensures n in seen {
      var k: nat :| Reaches(c, n, k);
      ReachedIsInClosed(c, seen, n, k);
    }
  }
}
