// Exactly when a TOML statement is accepted, by what its path meets (src/toml/src/parser.cpp:410-447,
// 784-993).

module TomlAcceptance {
  import opened Options
  import opened TomlTables
  import opened TomlGrowth
  import opened TomlParser
  import opened TomlMeaning

  // ---------- what stands under a path ----------

  /** The definition to go on in: of an array of tables, that of its last table. */
  function Within(n: Def): Def {
    if n.kind.ArrayOfTables? && n.items != [] then Last(n.items) else n
  }

  /** The definition under a key path, if anything was defined there. */
  function Known(d: Def, path: KeyPath): Option<Def>
    decreases |path|
  {
    if path[0] !in d.children then None
    else if |path| == 1 then Some(d.children[path[0]])
    else Known(Within(d.children[path[0]]), path[1..])
  }

  /** A table can be entered, and so can the last one of an array of tables; after dots, only a dotted table. */
  predicate Enters(n: Def, missing: Kind) {
    && (missing.DottedTable? ==> n.kind.DottedTable?)
    && (IsTableKind(n.kind) || (n.kind.ArrayOfTables? && n.items != []))
  }

  /** What stands under a path, if anything, can be entered. */
  predicate Passable(d: Def, path: KeyPath, missing: Kind) {
    match Known(d, path)
    case None => true
    case Some(n) => Enters(n, missing)
  }

  /** A walk that may make tables succeeds if and only if everything on the way can be entered. */
  lemma {:induction false} WalkIff(d: Def, path: Path, missing: Kind)
    requires IsTableKind(missing)
    ensures EnsureDef(d, path, missing, true).Ok? <==> forall i :: 0 < i <= |path| ==> Passable(d, path[..i], missing)
    decreases |path|
  {
    if path != [] {
      var node := if path[0] in d.children then d.children[path[0]] else Node(missing);
      var rest := path[1..];
      WalkIff(Within(node), rest, missing);
      WalkStep(d, path, missing);
      assert path[..1] == [path[0]];
      assert Passable(d, path[..1], missing) <==> Enters(node, missing);
      hide Passable, Known, Enters, EnsureDef;
      if forall i :: 0 < i <= |path| ==> Passable(d, path[..i], missing) {
        forall j | 0 < j <= |rest|
          ensures Passable(Within(node), rest[..j], missing)
        {
          PassableDeeper(d, path, missing, j);
          assert Passable(d, path[..j + 1], missing);
        }
      }
      if Enters(node, missing) && forall j :: 0 < j <= |rest| ==> Passable(Within(node), rest[..j], missing) {
        forall i | 0 < i <= |path|
          ensures Passable(d, path[..i], missing)
        {
          if i > 1 {
            PassableDeeper(d, path, missing, i - 1);
            assert Passable(Within(node), rest[..i - 1], missing);
          }
        }
      }
    }
  }

  lemma {:induction false} WalkStep(d: Def, path: KeyPath, missing: Kind)
    requires IsTableKind(missing)
    ensures var node := if path[0] in d.children then d.children[path[0]] else Node(missing);
            EnsureDef(d, path, missing, true).Ok? <==> Enters(node, missing) && EnsureDef(Within(node), path[1..], missing, true).Ok?
  {
  }

  lemma {:induction false} PassableDeeper(d: Def, path: KeyPath, missing: Kind, j: nat)
    requires 0 < j <= |path| - 1
    ensures var node := if path[0] in d.children then d.children[path[0]] else Node(missing);
            Passable(Within(node), path[1..][..j], missing) <==> Passable(d, path[..j + 1], missing)
  {
    var rest := path[1..];
    assert path[..j + 1][0] == path[0] && path[..j + 1][1..] == rest[..j];
    NothingKnown(missing, rest[..j]);
  }

  lemma {:induction false} NothingKnown(kind: Kind, path: KeyPath)
    ensures Known(Node(kind), path).None?
  {
  }

  /** The key at the end of a walk has the definition that stood under the whole path. */
  lemma {:induction false} WalkKnown(d: Def, front: Path, key: Key, missing: Kind)
    requires IsTableKind(missing) && EnsureDef(d, front, missing, true).Ok?
    ensures Lookup(DefAt(EnsureDef(d, front, missing, true).value, front).children, key) == Known(d, front + [key])
    decreases |front|
  {
    var path := front + [key];
    if front == [] {
      assert path == [key];
    } else {
      assert path[0] == front[0] && path[1..] == front[1..] + [key];
      var node := if front[0] in d.children then d.children[front[0]] else Node(missing);
      WalkKnown(Within(node), front[1..], key, missing);
      NothingKnown(missing, path[1..]);
    }
  }

  // ---------- headers ----------

  /** What a header may meet at its own place. */
  predicate HeaderFits(repeated: bool, known: Option<Def>) {
    match known
    case None => true
    case Some(n) => if repeated then n.kind.ArrayOfTables? else n.kind.ImplicitTable?
  }

  /** A header is accepted if and only if its way is open, and its place is empty or may be opened. */
  lemma {:induction false} HeaderIff(s: State, repeated: bool, path: KeyPath)
    requires Consistent(s)
    ensures HeaderStep(s, repeated, path).Ok? <==>
              && (forall i :: 0 < i < |path| ==> Passable(s.defs, path[..i], ImplicitTable))
              && HeaderFits(repeated, Known(s.defs, path))
    ensures HeaderStep(s, repeated, path) == Err(DuplicateTable) <==>
              && (forall i :: 0 < i < |path| ==> Passable(s.defs, path[..i], ImplicitTable))
              && !repeated && Known(s.defs, path).Some? && Known(s.defs, path).value.kind.ExplicitTable?
    ensures HeaderStep(s, repeated, path).Err? ==> HeaderStep(s, repeated, path).error in {DuplicateTable, TableRedefinition}
  {
    var front, key := Front(path), Last(path);
    FrontLast(path);
    WalkIff(s.defs, front, ImplicitTable);
    assert forall i :: 0 < i < |path| ==> path[..i] == front[..i];
    WalkError(s.defs, front, ImplicitTable, true);
    hide Passable, EnsureDef;
    if EnsureDef(s.defs, front, ImplicitTable, true).Ok? {
      WalksTogether(s.defs, s.root, front, ImplicitTable, true);
      WalkKnown(s.defs, front, key, ImplicitTable);
      var defs, root := EnsureDef(s.defs, front, ImplicitTable, true).value, EnsureTable(s.root, front).value;
      var parentDef, parent := DefAt(defs, front), TableAt(root, front);
      NodeFits(repeated, parentDef, parent, key);
      hide Known, EnsureTable, DefAt, TableAt, HeaderNode, HeaderFits, Body, Consistent, PutDef, PutTable;
    }
  }

  lemma {:induction false} WalkError(d: Def, path: Path, missing: Kind, create: bool)
    requires IsTableKind(missing)
    ensures EnsureDef(d, path, missing, create).Err? ==> EnsureDef(d, path, missing, create).error == TableRedefinition
    decreases |path|
  {
    if path != [] {
      var node := if path[0] in d.children then d.children[path[0]] else Node(missing);
      WalkError(Within(node), path[1..], missing, create);
    }
  }

  lemma {:induction false} NodeFits(repeated: bool, parentDef: Def, parent: Value, key: Key)
    requires Body(parentDef, parent)
    ensures parent.Table?
    ensures var known, r := Lookup(parentDef.children, key), HeaderNode(repeated, Lookup(parentDef.children, key), Lookup(parent.entries, key));
            && (r.Ok? <==> HeaderFits(repeated, known))
            && (r == Err(DuplicateTable) <==> !repeated && known.Some? && known.value.kind.ExplicitTable?)
            && (r.Err? ==> r.error in {DuplicateTable, TableRedefinition})
  {
    TableIsTable(parentDef, parent);
    if key in parentDef.children { assert Mirror(parentDef.children[key], parent.entries[key]); }
  }

  // ---------- assignments ----------

  /** `insert_path` succeeds if and only if nothing but dotted tables is on the way, and nothing at the place. */
  lemma {:induction false} InsertIff(table: Value, def: Def, path: KeyPath, x: Value)
    requires Body(def, table)
    ensures table.Table?
    ensures InsertPath(table, def, path, x).Ok? <==>
              (forall i :: 0 < i < |path| ==> Passable(def, path[..i], DottedTable)) && Known(def, path).None?
    ensures InsertPath(table, def, path, x) == Err(DuplicateKey) <==>
              (forall i :: 0 < i < |path| ==> Passable(def, path[..i], DottedTable)) && Known(def, path).Some?
    ensures InsertPath(table, def, path, x).Err? ==> InsertPath(table, def, path, x).error in {DuplicateKey, TableRedefinition}
  {
    TableIsTable(def, table);
    var front, key := Front(path), Last(path);
    FrontLast(path);
    WalkIff(def, front, DottedTable);
    assert forall i :: 0 < i < |path| ==> path[..i] == front[..i];
    WalkError(def, front, DottedTable, true);
    hide Passable, EnsureDef;
    if EnsureDef(def, front, DottedTable, true).Ok? {
      WalksTogether(def, table, front, DottedTable, true);
      WalkKnown(def, front, key, DottedTable);
      InsertMirrors(table, def, path, x);
      hide Known, EnsureTable, DefAt, TableAt, Body, KeepsBody;
    }
  }

  lemma {:induction false} KnownBelow(d: Def, a: Path, b: KeyPath)
    requires DefResolves(d, a)
    ensures Known(d, a + b) == Known(DefAt(d, a), b)
    decreases |a|
  {
    if a == [] {
      assert a + b == b;
    } else {
      assert (a + b)[0] == a[0] && (a + b)[1..] == a[1..] + b;
      var node := d.children[a[0]];
      KnownBelow(Within(node), a[1..], b);
      if node.kind.ArrayOfTables? {
        assert Within(node) == Last(node.items);
      } else {
        assert Within(node) == node;
      }
    }
  }

  /** An assignment is accepted if and only if, below the current table, only dotted tables are on its way and its place is empty. */
  lemma {:induction false} AssignmentIff(s: State, path: KeyPath, x: Value)
    requires Consistent(s)
    ensures Assignment(s, path, x).Ok? <==>
              && (forall i :: 0 < i < |path| ==> Passable(s.defs, s.current + path[..i], DottedTable))
              && Known(s.defs, s.current + path).None?
    ensures Assignment(s, path, x) == Err(DuplicateKey) <==>
              && (forall i :: 0 < i < |path| ==> Passable(s.defs, s.current + path[..i], DottedTable))
              && Known(s.defs, s.current + path).Some?
    ensures Assignment(s, path, x).Err? ==> Assignment(s, path, x).error in {DuplicateKey, TableRedefinition}
  {
    AssignmentConsistent(s, path, x);
    ResolvesTogether(s.defs, s.root, s.current);
    var table, def := TableAt(s.root, s.current), DefAt(s.defs, s.current);
    InsertIff(table, def, path, x);
    KnownBelow(s.defs, s.current, path);
    forall i | 0 < i < |path|
      ensures Passable(s.defs, s.current + path[..i], DottedTable) <==> Passable(def, path[..i], DottedTable)
    {
      KnownBelow(s.defs, s.current, path[..i]);
    }
    hide Body, EnsureDef, EnsureTable, InsertPath, DefAt, TableAt, Known, Passable, Consistent;
  }

  // ---------- what is known afterwards ----------

  predicate IsPrefix(p: Path, q: Path) {
    |p| <= |q| && q[..|p|] == p
  }

  /**
   * After the node n was put under a path: n is there, with what it holds; on the way to it are the definitions there
   * were, or new ones of the missing kind; and nothing else has changed.
   */
  predicate KnownAfter(d: Def, d': Def, path: KeyPath, n: Def, missing: Kind, p: KeyPath) {
    if p == path then Known(d', p) == Some(n)
    else if IsPrefix(p, path) then
      Known(d', p).Some? && Known(d', p).value.kind == match Known(d, p) case Some(m) => m.kind case None => missing
    else if IsPrefix(path, p) then Known(d', p) == Known(Within(n), p[|path|..])
    else Known(d', p) == Known(d, p)
  }

  /** What a walk and a write at its end leave. */
  function Defined(d: Def, front: Path, key: Key, n: Def, missing: Kind): Def
    requires IsTableKind(missing) && EnsureDef(d, front, missing, true).Ok?
  {
    var e := EnsureDef(d, front, missing, true).value;
    PutDef(e, front, DefAt(e, front).(children := DefAt(e, front).children[key := n]))
  }

  lemma {:induction false} DefinedStep(d: Def, front: Path, key: Key, n: Def, missing: Kind)
    requires IsTableKind(missing) && EnsureDef(d, front, missing, true).Ok? && front != []
    ensures var node := if front[0] in d.children then d.children[front[0]] else Node(missing);
            && EnsureDef(Within(node), front[1..], missing, true).Ok?
            && var sub, d' := Defined(Within(node), front[1..], key, n, missing), Defined(d, front, key, n, missing);
            && d'.children.Keys == d.children.Keys + {front[0]} && d'.kind == d.kind
            && (forall k :: k in d.children && k != front[0] ==> d'.children[k] == d.children[k])
            && d'.children[front[0]].kind == node.kind && Within(d'.children[front[0]]) == sub
  {
    var node := if front[0] in d.children then d.children[front[0]] else Node(missing);
    var e := EnsureDef(d, front, missing, true).value;
    if node.kind.ArrayOfTables? {
      assert Within(node) == Last(node.items);
      var sub := EnsureDef(Last(node.items), front[1..], missing, true).value;
      assert Last(ReplaceLast(node.items, sub)) == sub;
    } else {
      assert Within(node) == node;
      PutKind(EnsureDef(node, front[1..], missing, true).value, front[1..], key, n);
    }
  }

  lemma {:induction false} PutKind(e: Def, front: Path, key: Key, n: Def)
    requires DefResolves(e, front)
    ensures PutDef(e, front, DefAt(e, front).(children := DefAt(e, front).children[key := n])).kind == e.kind
    decreases |front|
  {
  }

  lemma {:induction false} DefinedIs(d: Def, front: Path, key: Key, n: Def, missing: Kind, p: KeyPath)
    requires IsTableKind(missing) && EnsureDef(d, front, missing, true).Ok?
    ensures KnownAfter(d, Defined(d, front, key, n, missing), front + [key], n, missing, p)
    decreases |front|
  {
    var path := front + [key];
    if front == [] {
      assert path == [key];
      PrefixHead(path, p);
      PrefixHead(p, path);
      if p[0] == key && |p| > 1 { assert p[..1] == [key]; }
    } else {
      var node := if front[0] in d.children then d.children[front[0]] else Node(missing);
      DefinedStep(d, front, key, n, missing);
      assert path[0] == front[0] && path[1..] == front[1..] + [key];
      hide Defined, EnsureDef, KnownAfter, Known, Within;
      if p[0] == front[0] && |p| > 1 {
        DefinedIs(Within(node), front[1..], key, n, missing, p[1..]);
        KnownDeeper(d, Defined(d, front, key, n, missing), node, path, n, missing, p);
      } else {
        DefinedOther(d, Defined(d, front, key, n, missing), front[0], path, n, missing, p);
      }
    }
  }

  lemma {:induction false} DefinedOther(d: Def, d': Def, k: Key, path: KeyPath, n: Def, missing: Kind, p: KeyPath)
    requires |path| > 1 && path[0] == k && (p[0] != k || |p| == 1)
    requires d'.children.Keys == d.children.Keys + {k} && forall j :: j in d.children && j != k ==> d'.children[j] == d.children[j]
    requires d'.children[k].kind == if k in d.children then d.children[k].kind else missing
    ensures KnownAfter(d, d', path, n, missing, p)
  {
    PrefixHead(path, p);
    PrefixHead(p, path);
    if p[0] == k { assert p == [k] && path[..1] == p; }
  }

  lemma {:induction false} PrefixHead(p: Path, q: Path)
    requires p != [] && q != []
    ensures IsPrefix(p, q) ==> p[0] == q[0]
  {
    if IsPrefix(p, q) { assert q[..|p|][0] == q[0]; }
  }

  /** The same, one key further up. */
  lemma {:induction false} KnownDeeper(d: Def, d': Def, node: Def, path: KeyPath, n: Def, missing: Kind, p: KeyPath)
    requires |p| > 1 && |path| > 1 && p[0] == path[0] && p[0] in d'.children
    requires node == if p[0] in d.children then d.children[p[0]] else Node(missing)
    requires KnownAfter(Within(node), Within(d'.children[p[0]]), path[1..], n, missing, p[1..])
    ensures KnownAfter(d, d', path, n, missing, p)
  {
    Shifted(p, path);
    Shifted(path, p);
    NothingKnown(missing, p[1..]);
    assert Known(d', p) == Known(Within(d'.children[p[0]]), p[1..]);
    assert Known(d, p) == if p[0] in d.children then Known(Within(node), p[1..]) else None;
    hide Known, Within, IsPrefix;
    if IsPrefix(path, p) { assert p[1..][|path[1..]|..] == p[|path|..]; }
    assert p == path <==> p[1..] == path[1..] by { assert p == [p[0]] + p[1..] && path == [path[0]] + path[1..]; }
  }

  lemma {:induction false} Shifted(p: Path, q: Path)
    requires p != [] && q != [] && p[0] == q[0]
    ensures IsPrefix(p, q) <==> IsPrefix(p[1..], q[1..])
  {
    if IsPrefix(p, q) { assert q[1..][..|p| - 1] == q[..|p|][1..]; }
    if IsPrefix(p[1..], q[1..]) { assert q[..|p|] == [q[0]] + q[1..][..|p| - 1]; assert p == [p[0]] + p[1..]; }
  }

  /** The definition that a header leaves. */
  function HeaderDef(repeated: bool, known: Option<Def>): Def {
    if repeated then Def(ArrayOfTables, if known.Some? then known.value.children else map[], (if known.Some? then known.value.items else []) + [Node(ExplicitTable)])
    else match known case Some(n) => n.(kind := ExplicitTable) case None => Node(ExplicitTable)
  }

  /** After a header, its place is explicit, or one table longer, and all other places are as they were. */
  lemma {:induction false} HeaderKnows(s: State, repeated: bool, path: KeyPath, p: KeyPath)
    requires Consistent(s) && HeaderStep(s, repeated, path).Ok?
    ensures KnownAfter(s.defs, HeaderStep(s, repeated, path).value.defs, path, HeaderDef(repeated, Known(s.defs, path)), ImplicitTable, p)
  {
    var front, key := Front(path), Last(path);
    FrontLast(path);
    WalkKnown(s.defs, front, key, ImplicitTable);
    var defs, root := EnsureDef(s.defs, front, ImplicitTable, true).value, EnsureTable(s.root, front).value;
    var parentDef, parent := DefAt(defs, front), TableAt(root, front);
    var known, existing := Lookup(parentDef.children, key), Lookup(parent.entries, key);
    HeaderDefIs(repeated, known, existing);
    DefinedIs(s.defs, front, key, HeaderNode(repeated, known, existing).value.0, ImplicitTable, p);
    hide EnsureDef, EnsureTable, PutTable, TableAt, HeaderNode, KnownAfter, Known, Consistent;
  }

  lemma {:induction false} HeaderDefIs(repeated: bool, known: Option<Def>, existing: Option<Value>)
    requires HeaderNode(repeated, known, existing).Ok?
    ensures HeaderNode(repeated, known, existing).value.0 == HeaderDef(repeated, known)
  {
    if known.None? { assert [] + [Node(ExplicitTable)] == [Node(ExplicitTable)]; }
  }

  function StoredDef(x: Value): Def {
    Node(if x.Table? then InlineTable else Plain)
  }

  lemma {:induction false} InsertKnows(table: Value, def: Def, path: KeyPath, x: Value, p: KeyPath)
    requires table.Table? && InsertPath(table, def, path, x).Ok?
    ensures KnownAfter(def, InsertPath(table, def, path, x).value.def, path, StoredDef(x), DottedTable, p)
  {
    FrontLast(path);
    DefinedIs(def, Front(path), Last(path), StoredDef(x), DottedTable, p);
    hide EnsureDef, EnsureTable, PutTable, TableAt, KnownAfter, Known;
  }

  /** The same, from a table that is there already. */
  lemma {:induction false} PutKnown(d: Def, a: Path, sub: Def, path: KeyPath, n: Def, missing: Kind, p: KeyPath)
    requires DefResolves(d, a) && sub.kind == DefAt(d, a).kind && forall q: KeyPath :: KnownAfter(DefAt(d, a), sub, path, n, missing, q)
    ensures KnownAfter(d, PutDef(d, a, sub), a + path, n, missing, p)
    decreases |a|
  {
    if a == [] {
      assert a + path == path;
    } else {
      assert (a + path)[0] == a[0] && (a + path)[1..] == a[1..] + path;
      var node, d' := d.children[a[0]], PutDef(d, a, sub);
      PutStep(d, a, sub);
      hide PutDef, KnownAfter;
      if p[0] == a[0] && |p| > 1 {
        PutKnown(Within(node), a[1..], sub, path, n, missing, p[1..]);
        KnownDeeper(d, d', node, a + path, n, missing, p);
      } else {
        PutOther(d, d', a[0], a + path, n, missing, p);
      }
    }
  }

  lemma {:induction false} PutStep(d: Def, a: Path, sub: Def)
    requires DefResolves(d, a) && a != [] && sub.kind == DefAt(d, a).kind
    ensures var node, d' := d.children[a[0]], PutDef(d, a, sub);
            && DefResolves(Within(node), a[1..]) && DefAt(d, a) == DefAt(Within(node), a[1..])
            && a[0] in d'.children && Within(d'.children[a[0]]) == PutDef(Within(node), a[1..], sub)
            && d'.children[a[0]].kind == node.kind && d'.children == d.children[a[0] := d'.children[a[0]]]
  {
    var node := d.children[a[0]];
    PutThenAt(Within(node), a[1..], sub);
    if node.kind.ArrayOfTables? {
      assert Within(node) == Last(node.items);
      assert Last(ReplaceLast(node.items, PutDef(Last(node.items), a[1..], sub))) == PutDef(Last(node.items), a[1..], sub);
    } else {
      assert Within(node) == node;
    }
  }

  lemma {:induction false} PutOther(d: Def, d': Def, k: Key, path: KeyPath, n: Def, missing: Kind, p: KeyPath)
    requires |path| > 1 && path[0] == k && (p[0] != k || |p| == 1) && k in d.children && k in d'.children
    requires d'.children[k].kind == d.children[k].kind && d'.children == d.children[k := d'.children[k]]
    ensures KnownAfter(d, d', path, n, missing, p)
  {
    PrefixHead(path, p);
    PrefixHead(p, path);
    if p[0] == k { assert p == [k] && path[..1] == p; }
  }

  /** After an assignment, its place holds a value, what was made on the way is dotted, and all else is as it was. */
  lemma {:induction false} AssignmentKnows(s: State, path: KeyPath, x: Value, p: KeyPath)
    requires Consistent(s) && Assignment(s, path, x).Ok?
    ensures KnownAfter(s.defs, Assignment(s, path, x).value.defs, s.current + path, StoredDef(x), DottedTable, p)
  {
    AssignmentConsistent(s, path, x);
    ResolvesTogether(s.defs, s.root, s.current);
    var table, def := TableAt(s.root, s.current), DefAt(s.defs, s.current);
    InsertMirrors(table, def, path, x);
    var sub := InsertPath(table, def, path, x).value.def;
    forall q: KeyPath
      ensures KnownAfter(def, sub, path, StoredDef(x), DottedTable, q)
    {
      InsertKnows(table, def, path, x, q);
    }
    hide KnownAfter, InsertPath, Body, KeepsBody, EnsureDef, EnsureTable, PutTable;
    PutKnown(s.defs, s.current, sub, path, StoredDef(x), DottedTable, p);
  }

  // ---------- values ----------

  /** Values of which every inline table has paths that keep out of each other's way: none leads to or through another. */
  predicate Storable(e: Expr) {
    match e
    case Atom(_) => true
    case ArrayExpr(items) => forall i :: 0 <= i < |items| ==> Storable(items[i])
    case InlineExpr(entries) =>
      && (forall i :: 0 <= i < |entries| ==> Storable(entries[i].value))
      && (forall i, j :: 0 <= i < j < |entries| ==> Clear(entries[i].path, entries[j].path))
  }

  predicate Clear(p: Path, q: Path) {
    !IsPrefix(p, q) && !IsPrefix(q, p)
  }

  /** What an inline table knows after its first n entries. */
  ghost predicate InlineKnows(e: Expr, n: nat, d: Def)
    requires e.InlineExpr? && n <= |e.entries|
  {
    forall p: KeyPath :: InlineKnown(e, n, d, p)
  }

  ghost predicate InlineKnown(e: Expr, n: nat, d: Def, p: KeyPath)
    requires e.InlineExpr? && n <= |e.entries|
  {
    match Known(d, p)
    case None => forall k :: 0 <= k < n ==> !IsPrefix(p, e.entries[k].path)
    case Some(m) =>
      if m.kind.DottedTable? then
        && (exists k :: 0 <= k < n && IsPrefix(p, e.entries[k].path)) && (forall k :: 0 <= k < n ==> e.entries[k].path != p)
      else
        (exists k :: 0 <= k < n && e.entries[k].path == p)
  }

  predicate AllClear(e: Expr, n: nat, path: Path)
    requires e.InlineExpr? && n <= |e.entries|
  {
    forall k :: 0 <= k < n ==> Clear(e.entries[k].path, path)
  }

  /** A path can be stored in an inline table if and only if it is clear of those before it. */
  lemma {:induction false} InlineClear(e: Expr, n: nat, d: Def, path: KeyPath)
    requires e.InlineExpr? && n <= |e.entries| && InlineKnows(e, n, d)
    ensures (forall i :: 0 < i < |path| ==> Passable(d, path[..i], DottedTable)) && Known(d, path).None? <==> AllClear(e, n, path)
  {
    hide Known;
    assert InlineKnown(e, n, d, path);
    forall i | 0 < i < |path|
      ensures Passable(d, path[..i], DottedTable) <==> forall k :: 0 <= k < n ==> e.entries[k].path != path[..i]
    {
      assert InlineKnown(e, n, d, path[..i]);
    }
    forall k | 0 <= k < n
      ensures IsPrefix(e.entries[k].path, path) <==>
                e.entries[k].path == path || exists i :: 0 < i < |path| && e.entries[k].path == path[..i]
    {
      var q := e.entries[k].path;
      if IsPrefix(q, path) && |q| < |path| { assert q == path[..|q|]; }
      if q == path { assert path[..|q|] == q; }
    }
    SelfPrefix(path);
  }

  lemma {:induction false} SelfPrefix(p: Path)
    ensures IsPrefix(p, p)
  {
    assert p[..|p|] == p;
  }

  /** One entry more. */
  lemma {:induction false} InlineMore(e: Expr, n: nat, d: Def, d': Def, x: Value)
    requires e.InlineExpr? && n < |e.entries| && InlineKnows(e, n, d) && AllClear(e, n, e.entries[n].path)
    requires forall p: KeyPath :: KnownAfter(d, d', e.entries[n].path, StoredDef(x), DottedTable, p)
    ensures InlineKnows(e, n + 1, d')
  {
    var path := e.entries[n].path;
    var m := n + 1;
    forall p: KeyPath
      ensures InlineKnown(e, m, d', p)
    {
      assert KnownAfter(d, d', path, StoredDef(x), DottedTable, p) && InlineKnown(e, n, d, p);
      InlineOne(e, n, d, d', x, p);
    }
  }

  lemma {:induction false} InlineOne(e: Expr, n: nat, d: Def, d': Def, x: Value, p: KeyPath)
    requires e.InlineExpr? && n < |e.entries| && InlineKnown(e, n, d, p) && AllClear(e, n, e.entries[n].path)
    requires KnownAfter(d, d', e.entries[n].path, StoredDef(x), DottedTable, p)
    ensures InlineKnown(e, n + 1, d', p)
  {
    hide Known;
    var path := e.entries[n].path;
    SelfPrefix(path);
    forall k | 0 <= k < n
      ensures Clear(e.entries[k].path, path)
    {
    }
    if p == path {
      assert e.entries[n].path == p;
    } else if IsPrefix(p, path) {
      assert IsPrefix(p, e.entries[n].path);
      forall k | 0 <= k < n
        ensures e.entries[k].path != p
      {
        assert Clear(e.entries[k].path, path);
      }
    } else if IsPrefix(path, p) {
      NothingStored(x, p[|path|..]);
      forall k | 0 <= k < n
        ensures !IsPrefix(p, e.entries[k].path)
      {
        assert Clear(e.entries[k].path, path);
        PrefixTrans(path, p, e.entries[k].path);
      }
    }
  }

  lemma {:induction false} NothingStored(x: Value, p: KeyPath)
    ensures Known(Within(StoredDef(x)), p).None?
  {
  }

  lemma {:induction false} PrefixTrans(p: Path, q: Path, r: Path)
    ensures IsPrefix(p, q) && IsPrefix(q, r) ==> IsPrefix(p, r)
  {
    if IsPrefix(p, q) && IsPrefix(q, r) { assert r[..|p|] == r[..|q|][..|p|]; }
  }

  /** A value is accepted if and only if it is shallow, within the number of values allowed, and storable. */
  lemma {:induction false} EvalIff(e: Expr, depth: nat, left: nat)
    requires depth >= 1
    ensures Eval(e, depth, left).Ok? <==> Shallow(e, depth) && Values(e) <= left && Storable(e)
    decreases e, 2, 0
  {
    hide Eval, Storable, Shallow, Values;
    match e
    case Atom(_) => AtomIff(e, depth, left);
    case ArrayExpr(_) => ArrayIff(e, depth, left);
    case InlineExpr(_) => InlineIff(e, depth, left);
  }

  lemma {:induction false} AtomIff(e: Expr, depth: nat, left: nat)
    requires depth >= 1 && e.Atom?
    ensures Eval(e, depth, left).Ok? <==> Shallow(e, depth) && Values(e) <= left && Storable(e)
  {
  }

  lemma {:induction false} ArrayIff(e: Expr, depth: nat, left: nat)
    requires depth >= 1 && e.ArrayExpr?
    ensures Eval(e, depth, left).Ok? <==> Shallow(e, depth) && Values(e) <= left && Storable(e)
    decreases e, 1, 0
  {
    hide EvalItems, ItemValues;
    if depth > 1 && left > 0 { ItemsIff(e, 0, depth - 1, left - 1, []); }
  }

  lemma {:induction false} InlineIff(e: Expr, depth: nat, left: nat)
    requires depth >= 1 && e.InlineExpr?
    ensures Eval(e, depth, left).Ok? <==> Shallow(e, depth) && Values(e) <= left && Storable(e)
    decreases e, 1, 0
  {
    hide EvalEntries, EntryValues, Known;
    if depth > 1 && left > 0 {
      var trees := Trees(Table(map[]), Node(InlineTable));
      forall p: KeyPath
        ensures InlineKnown(e, 0, trees.def, p)
      {
        NothingKnown(InlineTable, p);
      }
      EntriesIff(e, 0, depth - 1, left - 1, trees);
    }
  }

  lemma {:induction false} ItemsIff(e: Expr, i: nat, depth: nat, left: nat, values: seq<Value>)
    requires depth >= 1 && e.ArrayExpr? && i <= |e.items|
    ensures EvalItems(e, i, depth, left, values).Ok? <==>
              ItemValues(e, i) <= left && forall j :: i <= j < |e.items| ==> Shallow(e.items[j], depth) && Storable(e.items[j])
    decreases e, 0, |e.items| - i
  {
    hide Eval, Values;
    if i < |e.items| {
      EvalIff(e.items[i], depth, left);
      var p := Eval(e.items[i], depth, left);
      if p.Ok? { ItemsIff(e, i + 1, depth, p.value.left, values + [p.value.value]); }
    }
  }

  /** What an inline table knows after one more of its entries is stored. */
  lemma {:induction false} EntryStored(e: Expr, i: nat, trees: Trees, next: Trees, x: Value)
    requires e.InlineExpr? && i < |e.entries| && Body(trees.def, trees.table) && InlineKnows(e, i, trees.def)
    requires AllClear(e, i, e.entries[i].path)
    requires InsertPath(trees.table, trees.def, e.entries[i].path, x) == Ok(next)
    ensures Body(next.def, next.table) && InlineKnows(e, i + 1, next.def)
  {
    TableIsTable(trees.def, trees.table);
    hide Body, InsertPath, InlineKnows, AllClear, KnownAfter;
    var path := e.entries[i].path;
    InsertMirrors(trees.table, trees.def, path, x);
    forall q: KeyPath
      ensures KnownAfter(trees.def, next.def, path, StoredDef(x), DottedTable, q)
    {
      InsertKnows(trees.table, trees.def, path, x, q);
    }
    InlineMore(e, i, trees.def, next.def, x);
  }

  lemma {:induction false} EntriesIff(e: Expr, i: nat, depth: nat, left: nat, trees: Trees)
    requires depth >= 1 && e.InlineExpr? && i <= |e.entries| && Body(trees.def, trees.table) && InlineKnows(e, i, trees.def)
    ensures trees.table.Table?
    ensures EvalEntries(e, i, depth, left, trees).Ok? <==>
              && EntryValues(e, i) <= left
              && (forall j :: i <= j < |e.entries| ==> Shallow(e.entries[j].value, depth) && Storable(e.entries[j].value))
              && (forall j :: i <= j < |e.entries| ==> AllClear(e, j, e.entries[j].path))
    decreases e, 0, |e.entries| - i
  {
    TableIsTable(trees.def, trees.table);
    hide Eval, Values, Body, InsertPath, InlineKnows, AllClear, Storable, Shallow, Known, Passable;
    if i < |e.entries| {
      EvalIff(e.entries[i].value, depth, left);
      var p := Eval(e.entries[i].value, depth, left);
      if p.Err? {
        assert !Shallow(e.entries[i].value, depth) || !Storable(e.entries[i].value) || left < Values(e.entries[i].value);
      } else {
        var path, x := e.entries[i].path, p.value.value;
        InsertIff(trees.table, trees.def, path, x);
        InlineClear(e, i, trees.def, path);
        var next := InsertPath(trees.table, trees.def, path, x);
        if next.Ok? {
          EntryStored(e, i, trees, next.value, x);
          EntriesIff(e, i + 1, depth, p.value.left, next.value);
        } else {
          assert !AllClear(e, i, path);
        }
      }
    }
  }
}
