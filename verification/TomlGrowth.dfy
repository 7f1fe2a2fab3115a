// What a TOML document may do as it grows: gain keys and array-of-tables items, and nothing else.

module TomlGrowth {
  import opened Options
  import opened TomlTables

  ghost predicate KeepsBody(d: Def, v: Value, d': Def, v': Value)
    decreases d, 0
  {
    && v.Table? && v'.Table?
    && forall k :: k in d.children ==>
         && k in v.entries && k in d'.children && k in v'.entries
         && KeepsNode(d.children[k], v.entries[k], d'.children[k], v'.entries[k])
  }

  /** Inline tables and plain values never change; an array of tables only ever changes its last item or gets longer. */
  ghost predicate KeepsNode(n: Def, x: Value, n': Def, x': Value)
    decreases n, 1
  {
    match n.kind
    case InlineTable => n' == n == Node(InlineTable) && x' == x
    case Plain => n' == n == Node(Plain) && x' == x
    case ArrayOfTables =>
      && n'.kind.ArrayOfTables? && x.Array? && x'.Array?
      && 0 < |n.items| == |x.elems| <= |n'.items| == |x'.elems|
      && (forall i :: 0 <= i < |n.items| - 1 ==> n'.items[i] == n.items[i] && x'.elems[i] == x.elems[i])
      && (forall i :: 0 <= i < |n.items| ==>
            && n.items[i].kind.ExplicitTable? && n'.items[i].kind.ExplicitTable?
            && KeepsBody(n.items[i], x.elems[i], n'.items[i], x'.elems[i]))
    case _ =>
      && (n'.kind == n.kind || (n.kind.ImplicitTable? && n'.kind.ExplicitTable?))
      && KeepsBody(n, x, n', x')
  }

  lemma {:induction false} KeepsRefl(d: Def, v: Value)
    requires Body(d, v)
    ensures KeepsBody(d, v, d, v)
    decreases d
  {
    forall k | k in d.children
      ensures KeepsNode(d.children[k], v.entries[k], d.children[k], v.entries[k])
    {
      KeepsReflNode(d.children[k], v.entries[k]);
    }
  }

  lemma {:induction false} KeepsReflNode(n: Def, x: Value)
    requires Mirror(n, x)
    ensures KeepsNode(n, x, n, x)
    decreases n
  {
    if n.kind.ArrayOfTables? {
      forall i | 0 <= i < |n.items|
        ensures KeepsBody(n.items[i], x.elems[i], n.items[i], x.elems[i])
      {
        KeepsRefl(n.items[i], x.elems[i]);
      }
    } else if IsTableKind(n.kind) {
      forall k | k in n.children
        ensures KeepsNode(n.children[k], x.entries[k], n.children[k], x.entries[k])
      {
        KeepsReflNode(n.children[k], x.entries[k]);
      }
    }
  }

  lemma {:induction false} KeepsTrans(d: Def, v: Value, d1: Def, v1: Value, d2: Def, v2: Value)
    requires KeepsBody(d, v, d1, v1) && KeepsBody(d1, v1, d2, v2)
    ensures KeepsBody(d, v, d2, v2)
    decreases d, 0
  {
    forall k | k in d.children
      ensures k in v2.entries && k in d2.children && KeepsNode(d.children[k], v.entries[k], d2.children[k], v2.entries[k])
    {
      KeepsTransNode(d.children[k], v.entries[k], d1.children[k], v1.entries[k], d2.children[k], v2.entries[k]);
    }
  }

  lemma {:induction false} KeepsTransNode(n: Def, x: Value, n1: Def, x1: Value, n2: Def, x2: Value)
    requires KeepsNode(n, x, n1, x1) && KeepsNode(n1, x1, n2, x2)
    ensures KeepsNode(n, x, n2, x2)
    decreases n, 1
  {
    if n.kind.ArrayOfTables? {
      forall i | 0 <= i < |n.items|
        ensures KeepsBody(n.items[i], x.elems[i], n2.items[i], x2.elems[i])
      {
        KeepsTrans(n.items[i], x.elems[i], n1.items[i], x1.elems[i], n2.items[i], x2.elems[i]);
      }
    } else if IsTableKind(n.kind) {
      KeepsTrans(n, x, n1, x1, n2, x2);
    }
  }

  // ---------- the two ways in which the trees change ----------

  /** One child changes, or is new. */
  lemma {:induction false} KeepsChild(d: Def, v: Value, k: Key, node: Def, item: Value)
    requires Body(d, v) && (k in d.children ==> KeepsNode(d.children[k], v.entries[k], node, item))
    ensures KeepsBody(d, v, d.(children := d.children[k := node]), Table(v.entries[k := item]))
  {
    forall j | j in d.children && j != k
      ensures KeepsNode(d.children[j], v.entries[j], d.children[j], v.entries[j])
    {
      KeepsReflNode(d.children[j], v.entries[j]);
    }
  }

  /** The last item of an array of tables changes. */
  lemma {:induction false} KeepsLast(node: Def, item: Value, sub: Def, subv: Value)
    requires Mirror(node, item) && node.kind.ArrayOfTables? && sub.kind.ExplicitTable?
    requires KeepsBody(Last(node.items), Last(item.elems), sub, subv)
    ensures KeepsNode(node, item, node.(items := ReplaceLast(node.items, sub)), Array(ReplaceLast(item.elems, subv)))
  {
    forall i | 0 <= i < |node.items| - 1
      ensures KeepsBody(node.items[i], item.elems[i], node.items[i], item.elems[i])
    {
      KeepsRefl(node.items[i], item.elems[i]);
    }
  }

  lemma {:induction false} WalksKeep(d: Def, v: Value, path: Path, missing: Kind, create: bool)
    requires IsTableKind(missing) && Body(d, v) && EnsureDef(d, path, missing, create).Ok? && EnsureTable(v, path).Ok?
    ensures KeepsBody(d, v, EnsureDef(d, path, missing, create).value, EnsureTable(v, path).value)
    decreases |path|
  {
    if path == [] {
      KeepsRefl(d, v);
    } else {
      var k, rest := path[0], path[1..];
      var node := if k in d.children then d.children[k] else Node(missing);
      var item := ItemAt(v, k);
      HeadStep(d, v, k, missing);
      hide Body, Mirror, KeepsBody;
      if node.kind.ArrayOfTables? {
        WalksKeep(Last(node.items), Last(item.elems), rest, missing, create);
        var sub, subv := EnsureDef(Last(node.items), rest, missing, create).value, EnsureTable(Last(item.elems), rest).value;
        KeepsLast(node, item, sub, subv);
        KeepsChild(d, v, k, node.(items := ReplaceLast(node.items, sub)), Array(ReplaceLast(item.elems, subv)));
      } else {
        WalksKeep(node, item, rest, missing, create);
        KeepsChild(d, v, k, EnsureDef(node, rest, missing, create).value, EnsureTable(item, rest).value);
      }
    }
  }

  lemma {:induction false} PutKeeps(d: Def, v: Value, path: Path, n: Def, t: Value)
    requires Body(d, v) && DefResolves(d, path) && TableResolves(v, path) && t.Table?
    requires KeepsBody(DefAt(d, path), TableAt(v, path), n, t) && n.kind == DefAt(d, path).kind
    ensures KeepsBody(d, v, PutDef(d, path, n), PutTable(v, path, t))
    decreases |path|
  {
    if path != [] {
      var k, rest := path[0], path[1..];
      var node, item := d.children[k], v.entries[k];
      HeadStep(d, v, k, ImplicitTable);
      PutThenAt(if node.kind.ArrayOfTables? then Last(node.items) else node, rest, n);
      hide Body, Mirror, KeepsBody;
      if node.kind.ArrayOfTables? {
        PutKeeps(Last(node.items), Last(item.elems), rest, n, t);
        var sub, subv := PutDef(Last(node.items), rest, n), PutTable(Last(item.elems), rest, t);
        KeepsLast(node, item, sub, subv);
        KeepsChild(d, v, k, node.(items := ReplaceLast(node.items, sub)), Array(ReplaceLast(item.elems, subv)));
      } else {
        PutKeeps(node, item, rest, n, t);
        KeepsChild(d, v, k, PutDef(node, rest, n), PutTable(item, rest, t));
      }
    }
  }

  // ---------- places, named from the root ----------

  datatype Step = ByKey(key: Key) | ByIndex(index: nat)

  /** The definition at a place: down by keys, and by index into arrays of tables. */
  function DefNode(d: Def, steps: seq<Step>): Option<Def>
    decreases |steps|
  {
    if steps == [] then Some(d)
    else match steps[0]
      case ByKey(k) => if !d.kind.ArrayOfTables? && k in d.children then DefNode(d.children[k], steps[1..]) else None
      case ByIndex(i) => if d.kind.ArrayOfTables? && i < |d.items| then DefNode(d.items[i], steps[1..]) else None
  }

  function ValueNode(v: Value, steps: seq<Step>): Option<Value>
    decreases |steps|
  {
    if steps == [] then Some(v)
    else match steps[0]
      case ByKey(k) => if v.Table? && k in v.entries then ValueNode(v.entries[k], steps[1..]) else None
      case ByIndex(i) => if v.Array? && i < |v.elems| then ValueNode(v.elems[i], steps[1..]) else None
  }

  /** Every place keeps what it has: see KeepsNode for what each kind of node promises. */
  lemma {:induction false} PlacesKept(n: Def, x: Value, n': Def, x': Value, steps: seq<Step>)
    requires KeepsNode(n, x, n', x') && DefNode(n, steps).Some?
    ensures ValueNode(x, steps).Some? && DefNode(n', steps).Some? && ValueNode(x', steps).Some?
    ensures KeepsNode(DefNode(n, steps).value, ValueNode(x, steps).value, DefNode(n', steps).value, ValueNode(x', steps).value)
    decreases |steps|
  {
    if steps != [] {
      match steps[0]
      case ByKey(k) =>
        PlacesKept(n.children[k], x.entries[k], n'.children[k], x'.entries[k], steps[1..]);
      case ByIndex(i) =>
        PlacesKept(n.items[i], x.elems[i], n'.items[i], x'.elems[i], steps[1..]);
    }
  }
}
