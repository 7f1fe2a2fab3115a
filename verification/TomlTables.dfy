// The two trees that the TOML parser grows in lockstep: the document and the record of how each
// table came to be (src/toml/src/parser.cpp:377-452, 820-836, 910-993).

module TomlTables {
  type Key = string
  type Path = seq<Key>
  /** A key path as written: it has at least one part. */
  type KeyPath = p: Path | p != [] witness [""]

  datatype Kind = ImplicitTable | ExplicitTable | DottedTable | InlineTable | ArrayOfTables | Plain

  /** `DefinitionNode` */
  datatype Def = Def(kind: Kind, children: map<Key, Def>, items: seq<Def>)

  /** A TOML value; everything that is neither a table nor an array is a scalar. */
  datatype Value = Scalar(text: string) | Table(entries: map<Key, Value>) | Array(elems: seq<Value>)

  datatype Error = TableRedefinition | DuplicateKey | DuplicateTable | RecursionLimitExceeded | ResourceLimitExceeded

  datatype Result<T> = Ok(value: T) | Err(error: Error)

  function Node(kind: Kind): Def {
    Def(kind, map[], [])
  }

  predicate IsTableKind(kind: Kind) {
    kind.ImplicitTable? || kind.ExplicitTable? || kind.DottedTable?
  }

  function ReplaceLast<T>(s: seq<T>, x: T): (r: seq<T>)
    requires s != []
    ensures |r| == |s| && r[|s| - 1] == x && forall i :: 0 <= i < |s| - 1 ==> r[i] == s[i]
  {
    s[..|s| - 1] + [x]
  }

  function Last<T>(s: seq<T>): T
    requires s != []
  {
    s[|s| - 1]
  }

  // ---------- walking down a path ----------

  /** The value under a key, a new table if there is none. */
  function ItemAt(t: Value, k: Key): Value
    requires t.Table?
  {
    if k in t.entries then t.entries[k] else Table(map[])
  }

  /** `resolve_table`: the tree after the walk, in which missing tables have been made. */
  function EnsureTable(t: Value, path: Path): (r: Result<Value>)
    requires t.Table?
    ensures r.Ok? ==> r.value.Table? && TableResolves(r.value, path)
    decreases |path|
  {
    if path == [] then Ok(t)
    else
      var item := ItemAt(t, path[0]);
      if item.Table? then
        match EnsureTable(item, path[1..])
        case Ok(sub) => Ok(Table(t.entries[path[0] := sub]))
        case Err(e) => Err(e)
      else if item.Array? && item.elems != [] && Last(item.elems).Table? then
        match EnsureTable(Last(item.elems), path[1..])
        case Ok(sub) => Ok(Table(t.entries[path[0] := Array(ReplaceLast(item.elems, sub))]))
        case Err(e) => Err(e)
      else Err(TableRedefinition)
  }

  /** `resolve_definition` */
  function EnsureDef(d: Def, path: Path, missing: Kind, create: bool): (r: Result<Def>)
    requires IsTableKind(missing)
    ensures r.Ok? ==> r.value.kind == d.kind && r.value.items == d.items && DefResolves(r.value, path)
    decreases |path|
  {
    if path == [] then Ok(d)
    else if path[0] !in d.children && !create then Err(TableRedefinition)
    else
      var node := if path[0] in d.children then d.children[path[0]] else Node(missing);
      if missing.DottedTable? && !node.kind.DottedTable? then Err(TableRedefinition)
      else if node.kind.ArrayOfTables? then
        if node.items == [] then Err(TableRedefinition)
        else
          match EnsureDef(Last(node.items), path[1..], missing, create)
          case Ok(sub) => Ok(d.(children := d.children[path[0] := node.(items := ReplaceLast(node.items, sub))]))
          case Err(e) => Err(e)
      else if !IsTableKind(node.kind) then Err(TableRedefinition)
      else
        match EnsureDef(node, path[1..], missing, create)
        case Ok(sub) => Ok(d.(children := d.children[path[0] := sub]))
        case Err(e) => Err(e)
  }

  // The pointers that the two walks return, as places in the trees.

  predicate TableResolves(t: Value, path: Path)
    decreases |path|
  {
    && t.Table?
    && (path == [] ||
        (&& path[0] in t.entries
         && var item := t.entries[path[0]];
            if item.Array? then item.elems != [] && TableResolves(Last(item.elems), path[1..])
            else TableResolves(item, path[1..])))
  }

  function TableAt(t: Value, path: Path): (r: Value)
    requires TableResolves(t, path)
    ensures r.Table?
    decreases |path|
  {
    if path == [] then t
    else
      var item := t.entries[path[0]];
      TableAt(if item.Array? then Last(item.elems) else item, path[1..])
  }

  function PutTable(t: Value, path: Path, put: Value): (r: Value)
    requires TableResolves(t, path) && put.Table?
    ensures r.Table?
    decreases |path|
  {
    if path == [] then put
    else
      var item := t.entries[path[0]];
      if item.Array? then
        Table(t.entries[path[0] := Array(ReplaceLast(item.elems, PutTable(Last(item.elems), path[1..], put)))])
      else Table(t.entries[path[0] := PutTable(item, path[1..], put)])
  }

  predicate DefResolves(d: Def, path: Path)
    decreases |path|
  {
    path == [] ||
    (&& path[0] in d.children
     && var node := d.children[path[0]];
        if node.kind.ArrayOfTables? then node.items != [] && DefResolves(Last(node.items), path[1..])
        else IsTableKind(node.kind) && DefResolves(node, path[1..]))
  }

  function DefAt(d: Def, path: Path): Def
    requires DefResolves(d, path)
    decreases |path|
  {
    if path == [] then d
    else
      var node := d.children[path[0]];
      DefAt(if node.kind.ArrayOfTables? then Last(node.items) else node, path[1..])
  }

  function PutDef(d: Def, path: Path, put: Def): Def
    requires DefResolves(d, path)
    decreases |path|
  {
    if path == [] then put
    else
      var node := d.children[path[0]];
      if node.kind.ArrayOfTables? then
        d.(children := d.children[path[0] := node.(items := ReplaceLast(node.items, PutDef(Last(node.items), path[1..], put)))])
      else d.(children := d.children[path[0] := PutDef(node, path[1..], put)])
  }

  // ---------- the mirror ----------

  /** The children of d and the entries of v agree, key by key. */
  ghost predicate Body(d: Def, v: Value)
    decreases d, 0
  {
    v.Table? && d.children.Keys == v.entries.Keys && forall k :: k in d.children ==> Mirror(d.children[k], v.entries[k])
  }

  /** Tables for tables, arrays of tables item by item; inline tables and other values are opaque. */
  ghost predicate Mirror(d: Def, v: Value)
    decreases d, 1
  {
    match d.kind
    case InlineTable => v.Table? && d == Node(InlineTable)
    case Plain => !v.Table? && d == Node(Plain)
    case ArrayOfTables =>
      && v.Array? && |d.items| == |v.elems| > 0
      && forall i :: 0 <= i < |d.items| ==> d.items[i].kind.ExplicitTable? && Body(d.items[i], v.elems[i])
    case _ => Body(d, v)
  }

  lemma {:induction false} ChildStep(d: Def, v: Value, k: Key, node: Def, item: Value)
    requires Body(d, v) && Mirror(node, item)
    ensures Body(d.(children := d.children[k := node]), Table(v.entries[k := item]))
  {
  }

  lemma {:induction false} BodyMirror(d: Def, v: Value)
    requires Body(d, v) && IsTableKind(d.kind)
    ensures Mirror(d, v)
  {
  }

  lemma {:induction false} TableIsTable(d: Def, v: Value)
    requires Body(d, v)
    ensures v.Table? && d.children.Keys == v.entries.Keys
  {
  }

  /** The child at the head of a path, and the table to go on from. */
  lemma {:induction false} HeadStep(d: Def, v: Value, k: Key, missing: Kind)
    requires Body(d, v) && IsTableKind(missing)
    ensures var node := if k in d.children then d.children[k] else Node(missing);
            var item := ItemAt(v, k);
            && Mirror(node, item)
            && (IsTableKind(node.kind) ==> Body(node, item) && item.Table?)
            && (node.kind.ArrayOfTables? ==>
                  && node.items != [] && item.Array? && item.elems != []
                  && Last(node.items).kind.ExplicitTable? && Body(Last(node.items), Last(item.elems)) && Last(item.elems).Table?)
  {
  }

  /**
   * Once the definition walk succeeds, the value walk does too, and both arrive at places that mirror
   * each other.
   */
  lemma {:induction false} WalksTogether(d: Def, v: Value, path: Path, missing: Kind, create: bool)
    requires IsTableKind(missing) && Body(d, v) && EnsureDef(d, path, missing, create).Ok?
    ensures EnsureTable(v, path).Ok?
    ensures var d', v' := EnsureDef(d, path, missing, create).value, EnsureTable(v, path).value;
            && Body(d', v') && DefResolves(d', path) && TableResolves(v', path)
            && Body(DefAt(d', path), TableAt(v', path))
    decreases |path|
  {
    if path != [] {
      var k, rest := path[0], path[1..];
      var node := if k in d.children then d.children[k] else Node(missing);
      var item := ItemAt(v, k);
      HeadStep(d, v, k, missing);
      TableIsTable(d, v);
      hide Body;
      hide Mirror;
      if node.kind.ArrayOfTables? {
        WalksTogether(Last(node.items), Last(item.elems), rest, missing, create);
        var sub, subv := EnsureDef(Last(node.items), rest, missing, create).value, EnsureTable(Last(item.elems), rest).value;
        ArrayStep(node, item, sub, subv);
        ChildStep(d, v, k, node.(items := ReplaceLast(node.items, sub)), Array(ReplaceLast(item.elems, subv)));
      } else {
        WalksTogether(node, item, rest, missing, create);
        var sub, subv := EnsureDef(node, rest, missing, create).value, EnsureTable(item, rest).value;
        BodyMirror(sub, subv);
        ChildStep(d, v, k, sub, subv);
      }
    }
  }

  /** Replacing the last item of an array of tables keeps the mirror. */
  lemma {:induction false} ArrayStep(node: Def, item: Value, sub: Def, subv: Value)
    requires Mirror(node, item) && node.kind.ArrayOfTables? && sub.kind.ExplicitTable? && Body(sub, subv)
    ensures Mirror(node.(items := ReplaceLast(node.items, sub)), Array(ReplaceLast(item.elems, subv)))
  {
  }

  /** A path that resolves in the definitions resolves in the document, at mirroring places. */
  lemma {:induction false} ResolvesTogether(d: Def, v: Value, path: Path)
    requires Body(d, v) && DefResolves(d, path)
    ensures TableResolves(v, path) && Body(DefAt(d, path), TableAt(v, path))
    decreases |path|
  {
    if path != [] {
      var node, item := d.children[path[0]], v.entries[path[0]];
      assert Mirror(node, item);
      if node.kind.ArrayOfTables? {
        ResolvesTogether(Last(node.items), Last(item.elems), path[1..]);
      } else {
        ResolvesTogether(node, item, path[1..]);
      }
    }
  }

  /** Where a path resolves, the walks change nothing. */
  lemma {:induction false} ResolvedWalk(d: Def, v: Value, path: Path, create: bool)
    requires Body(d, v) && DefResolves(d, path)
    ensures EnsureDef(d, path, ImplicitTable, create) == Ok(d) && EnsureTable(v, path) == Ok(v)
    decreases |path|
  {
    if path != [] {
      var k := path[0];
      var node, item := d.children[k], v.entries[k];
      assert Mirror(node, item);
      assert d.children[k := node] == d.children && v.entries[k := item] == v.entries;
      if node.kind.ArrayOfTables? {
        ResolvedWalk(Last(node.items), Last(item.elems), path[1..], create);
        assert ReplaceLast(node.items, Last(node.items)) == node.items;
        assert ReplaceLast(item.elems, Last(item.elems)) == item.elems;
      } else {
        ResolvedWalk(node, item, path[1..], create);
      }
    }
  }

  /** Changing both trees at one place, to things that mirror each other, keeps the mirror. */
  lemma {:induction false} PutTogether(d: Def, v: Value, path: Path, n: Def, t: Value)
    requires Body(d, v) && DefResolves(d, path) && TableResolves(v, path) && t.Table?
    requires Body(n, t) && n.kind == DefAt(d, path).kind
    ensures Body(PutDef(d, path, n), PutTable(v, path, t)) && PutDef(d, path, n).kind == d.kind
    decreases |path|
  {
    if path != [] {
      var k, rest := path[0], path[1..];
      var node, item := d.children[k], v.entries[k];
      HeadStep(d, v, k, ImplicitTable);
      hide Body;
      hide Mirror;
      if node.kind.ArrayOfTables? {
        PutTogether(Last(node.items), Last(item.elems), rest, n, t);
        var sub, subv := PutDef(Last(node.items), rest, n), PutTable(Last(item.elems), rest, t);
        ArrayStep(node, item, sub, subv);
        ChildStep(d, v, k, node.(items := ReplaceLast(node.items, sub)), Array(ReplaceLast(item.elems, subv)));
      } else {
        PutTogether(node, item, rest, n, t);
        var sub, subv := PutDef(node, rest, n), PutTable(item, rest, t);
        BodyMirror(sub, subv);
        ChildStep(d, v, k, sub, subv);
      }
    }
  }

  /** What was put at a place is found there. */
  lemma {:induction false} PutThenAt(d: Def, path: Path, n: Def)
    requires DefResolves(d, path) && n.kind == DefAt(d, path).kind
    ensures DefResolves(PutDef(d, path, n), path) && DefAt(PutDef(d, path, n), path) == n
    ensures PutDef(d, path, n).kind == d.kind
    decreases |path|
  {
    if path != [] {
      var node := d.children[path[0]];
      PutThenAt(if node.kind.ArrayOfTables? then Last(node.items) else node, path[1..], n);
    }
  }
}
