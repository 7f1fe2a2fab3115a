// The statements of a TOML document, after lexing: table headers and assignments
// (src/toml/src/parser.cpp:742-993, 1076-1090).

module TomlParser {
  import opened Options
  import opened TomlTables
  import opened TomlGrowth

  /** The right-hand side of an assignment as written. */
  datatype Expr = Atom(text: string) | ArrayExpr(items: seq<Expr>) | InlineExpr(entries: seq<Entry>)
  datatype Entry = Entry(path: KeyPath, value: Expr)

  datatype Statement = Header(repeated: bool, path: KeyPath) | Assign(path: KeyPath, value: Expr)

  datatype Trees = Trees(table: Value, def: Def)
  datatype Parsed = Parsed(value: Value, left: nat)
  datatype State = State(root: Value, defs: Def, current: Path, left: nat)

  function Front(path: KeyPath): Path
  {
    path[..|path| - 1]
  }

  // ---------- assignment ----------

  /** `insert_path` */
  function InsertPath(table: Value, def: Def, path: KeyPath, value: Value): (r: Result<Trees>)
    requires table.Table?
    ensures r.Ok? ==> r.value.table.Table?
  {
    match EnsureDef(def, Front(path), DottedTable, true)
    case Err(e) => Err(e)
    case Ok(def1) =>
      match EnsureTable(table, Front(path))
      case Err(e) => Err(e)
      case Ok(table1) =>
        var key := Last(path);
        var parentDef, parent := DefAt(def1, Front(path)), TableAt(table1, Front(path));
        if key in parentDef.children || key in parent.entries then Err(DuplicateKey)
        else
          var kind := if value.Table? then InlineTable else Plain;
          Ok(Trees(PutTable(table1, Front(path), Table(parent.entries[key := value])),
                   PutDef(def1, Front(path), parentDef.(children := parentDef.children[key := Node(kind)]))))
  }

  /** The trees mirror each other still, nothing stored has changed, and the document's own checks were never needed. */
  lemma {:induction false} InsertMirrors(table: Value, def: Def, path: KeyPath, value: Value)
    requires Body(def, table)
    ensures var walk := EnsureDef(def, Front(path), DottedTable, true);
            walk.Ok? ==>
              && EnsureTable(table, Front(path)).Ok?
              && DefAt(walk.value, Front(path)).children.Keys == TableAt(EnsureTable(table, Front(path)).value, Front(path)).entries.Keys
    ensures var r := InsertPath(table, def, path, value);
            r.Ok? ==> Body(r.value.def, r.value.table) && KeepsBody(def, table, r.value.def, r.value.table) && r.value.def.kind == def.kind
  {
    TableIsTable(def, table);
    var front, key := Front(path), Last(path);
    var walk := EnsureDef(def, front, DottedTable, true);
    if walk.Ok? {
      WalksTogether(def, table, front, DottedTable, true);
      WalksKeep(def, table, front, DottedTable, true);
      var def1, table1 := walk.value, EnsureTable(table, front).value;
      var parentDef, parent := DefAt(def1, front), TableAt(table1, front);
      TableIsTable(parentDef, parent);
      if InsertPath(table, def, path, value).Ok? {
        var node := Node(if value.Table? then InlineTable else Plain);
        hide Body, KeepsBody, KeepsNode;
        ChangeChild(def, table, def1, table1, front, key, node, value);
      }
    }
  }

  /** One key of the table at a place is set, to what its node allows. */
  lemma {:induction false} ChangeChild(def: Def, table: Value, def1: Def, table1: Value, front: Path, key: Key, node: Def, value: Value)
    requires Body(def1, table1) && KeepsBody(def, table, def1, table1) && DefResolves(def1, front) && TableResolves(table1, front)
    requires Body(DefAt(def1, front), TableAt(table1, front)) && Mirror(node, value)
    requires key in DefAt(def1, front).children ==>
               KeepsNode(DefAt(def1, front).children[key], TableAt(table1, front).entries[key], node, value)
    ensures var parentDef, parent := DefAt(def1, front), TableAt(table1, front);
            var n := parentDef.(children := parentDef.children[key := node]);
            var def2, table2 := PutDef(def1, front, n), PutTable(table1, front, Table(parent.entries[key := value]));
            && Body(def2, table2) && KeepsBody(def, table, def2, table2) && def2.kind == def1.kind
            && DefResolves(def2, front) && DefAt(def2, front) == n
  {
    hide Body, Mirror, KeepsBody, KeepsNode;
    var parentDef, parent := DefAt(def1, front), TableAt(table1, front);
    var n, t := parentDef.(children := parentDef.children[key := node]), Table(parent.entries[key := value]);
    ChildStep(parentDef, parent, key, node, value);
    KeepsChild(parentDef, parent, key, node, value);
    PutTogether(def1, table1, front, n, t);
    PutKeeps(def1, table1, front, n, t);
    PutThenAt(def1, front, n);
    KeepsTrans(def, table, def1, table1, PutDef(def1, front, n), PutTable(table1, front, t));
  }

  /** The values written in an expression, itself included. */
  function Values(e: Expr): nat
    decreases e, 1, 0
  {
    match e
    case Atom(_) => 1
    case ArrayExpr(_) => 1 + ItemValues(e, 0)
    case InlineExpr(_) => 1 + EntryValues(e, 0)
  }

  function ItemValues(e: Expr, i: nat): nat
    requires e.ArrayExpr? && i <= |e.items|
    decreases e, 0, |e.items| - i
  {
    if i == |e.items| then 0 else Values(e.items[i]) + ItemValues(e, i + 1)
  }

  function EntryValues(e: Expr, i: nat): nat
    requires e.InlineExpr? && i <= |e.entries|
    decreases e, 0, |e.entries| - i
  {
    if i == |e.entries| then 0 else Values(e.entries[i].value) + EntryValues(e, i + 1)
  }

  /** Arrays and inline tables are nested less deep than the limit. */
  predicate Shallow(e: Expr, depth: nat) {
    match e
    case Atom(_) => true
    case ArrayExpr(items) => depth > 1 && forall i :: 0 <= i < |items| ==> Shallow(items[i], depth - 1)
    case InlineExpr(entries) => depth > 1 && forall i :: 0 <= i < |entries| ==> Shallow(entries[i].value, depth - 1)
  }

  /** `parse_value` on a written value: within the nesting limit, and each value counted against the other. */
  function Eval(e: Expr, depth: nat, left: nat): (r: Result<Parsed>)
    requires depth >= 1
    ensures r.Ok? ==> Shallow(e, depth) && r.value.left + Values(e) == left
    decreases e, 1, 0
  {
    if left == 0 then Err(ResourceLimitExceeded)
    else match e
      case Atom(text) => Ok(Parsed(Scalar(text), left - 1))
      case ArrayExpr(items) =>
        if depth == 1 then Err(RecursionLimitExceeded) else EvalItems(e, 0, depth - 1, left - 1, [])
      case InlineExpr(entries) =>
        if depth == 1 then Err(RecursionLimitExceeded)
        else
          match EvalEntries(e, 0, depth - 1, left - 1, Trees(Table(map[]), Node(InlineTable)))
          case Ok(p) => Ok(Parsed(p.0.table, p.1))
          case Err(error) => Err(error)
  }

  /** The loop of `parse_array`. */
  function EvalItems(e: Expr, i: nat, depth: nat, left: nat, values: seq<Value>): (r: Result<Parsed>)
    requires depth >= 1 && e.ArrayExpr? && i <= |e.items|
    ensures r.Ok? ==> r.value.left + ItemValues(e, i) == left && forall j :: i <= j < |e.items| ==> Shallow(e.items[j], depth)
    decreases e, 0, |e.items| - i
  {
    if i == |e.items| then Ok(Parsed(Array(values), left))
    else
      match Eval(e.items[i], depth, left)
      case Ok(p) => EvalItems(e, i + 1, depth, p.left, values + [p.value])
      case Err(error) => Err(error)
  }

  /** The loop of `parse_inline_table`, which grows a pair of trees of its own. */
  function EvalEntries(e: Expr, i: nat, depth: nat, left: nat, trees: Trees): (r: Result<(Trees, nat)>)
    requires depth >= 1 && e.InlineExpr? && i <= |e.entries| && trees.table.Table?
    ensures r.Ok? ==> r.value.1 + EntryValues(e, i) == left && forall j :: i <= j < |e.entries| ==> Shallow(e.entries[j].value, depth)
    decreases e, 0, |e.entries| - i
  {
    if i == |e.entries| then Ok((trees, left))
    else
      match Eval(e.entries[i].value, depth, left)
      case Err(error) => Err(error)
      case Ok(p) =>
        match InsertPath(trees.table, trees.def, e.entries[i].path, p.value)
        case Err(error) => Err(error)
        case Ok(next) => EvalEntries(e, i + 1, depth, p.left, next)
  }

  /** The trees of an inline table mirror each other at every step, and no key is given twice. */
  lemma {:induction false} EntriesMirror(e: Expr, i: nat, depth: nat, left: nat, trees: Trees)
    requires depth >= 1 && e.InlineExpr? && i <= |e.entries| && Body(trees.def, trees.table)
    ensures trees.table.Table?
    ensures var r := EvalEntries(e, i, depth, left, trees);
            r.Ok? ==> Body(r.value.0.def, r.value.0.table) && KeepsBody(trees.def, trees.table, r.value.0.def, r.value.0.table)
    decreases |e.entries| - i
  {
    TableIsTable(trees.def, trees.table);
    hide Body, KeepsBody;
    if i == |e.entries| {
      KeepsRefl(trees.def, trees.table);
    } else {
      var p := Eval(e.entries[i].value, depth, left);
      if p.Ok? {
        InsertMirrors(trees.table, trees.def, e.entries[i].path, p.value.value);
        var next := InsertPath(trees.table, trees.def, e.entries[i].path, p.value.value);
        if next.Ok? {
          EntriesMirror(e, i + 1, depth, p.value.left, next.value);
          var r := EvalEntries(e, i + 1, depth, p.value.left, next.value);
          if r.Ok? {
            KeepsTrans(trees.def, trees.table, next.value.def, next.value.table, r.value.0.def, r.value.0.table);
          }
        }
      }
    }
  }

  /** `parse_assignment` */
  function Assignment(s: State, path: KeyPath, value: Value): (r: Result<State>)
    requires s.root.Table?
    ensures r.Ok? ==> r.value.root.Table?
  {
    match EnsureTable(s.root, s.current)
    case Err(e) => Err(e)
    case Ok(root) =>
      match EnsureDef(s.defs, s.current, ImplicitTable, false)
      case Err(e) => Err(e)
      case Ok(defs) =>
        match InsertPath(TableAt(root, s.current), DefAt(defs, s.current), path, value)
        case Err(e) => Err(e)
        case Ok(trees) => Ok(s.(root := PutTable(root, s.current, trees.table), defs := PutDef(defs, s.current, trees.def)))
  }

  // ---------- headers ----------

  /** What a header does to the definition and the value under its last key. */
  function HeaderNode(repeated: bool, known: Option<Def>, existing: Option<Value>): (r: Result<(Def, Value)>)
  {
    if repeated then
      match known
      case None => Ok((Def(ArrayOfTables, map[], [Node(ExplicitTable)]), Array([Table(map[])])))
      case Some(n) =>
        if n.kind.ArrayOfTables? && existing.Some? && existing.value.Array? then
          Ok((n.(items := n.items + [Node(ExplicitTable)]), Array(existing.value.elems + [Table(map[])])))
        else Err(TableRedefinition)
    else
      match known
      case None => Ok((Node(ExplicitTable), Table(map[])))
      case Some(n) =>
        if n.kind.ImplicitTable? && existing.Some? && existing.value.Table? then Ok((n.(kind := ExplicitTable), existing.value))
        else if n.kind.ExplicitTable? then Err(DuplicateTable)
        else Err(TableRedefinition)
  }

  function Lookup<V>(m: map<Key, V>, k: Key): Option<V> {
    if k in m then Some(m[k]) else None
  }

  /** `parse_header` */
  function HeaderStep(s: State, repeated: bool, path: KeyPath): (r: Result<State>)
    requires s.root.Table?
    ensures r.Ok? ==> r.value.root.Table?
  {
    match EnsureDef(s.defs, Front(path), ImplicitTable, true)
    case Err(e) => Err(e)
    case Ok(defs) =>
      match EnsureTable(s.root, Front(path))
      case Err(e) => Err(e)
      case Ok(root) =>
        var key := Last(path);
        var parentDef, parent := DefAt(defs, Front(path)), TableAt(root, Front(path));
        match HeaderNode(repeated, Lookup(parentDef.children, key), Lookup(parent.entries, key))
        case Err(e) => Err(e)
        case Ok(p) =>
          Ok(s.(root := PutTable(root, Front(path), Table(parent.entries[key := p.1])),
                defs := PutDef(defs, Front(path), parentDef.(children := parentDef.children[key := p.0])),
                current := path))
  }

  lemma {:induction false} HeaderNodeKeeps(repeated: bool, n: Def, x: Value)
    requires Mirror(n, x) && HeaderNode(repeated, Some(n), Some(x)).Ok?
    ensures var p := HeaderNode(repeated, Some(n), Some(x)).value; Mirror(p.0, p.1) && KeepsNode(n, x, p.0, p.1)
  {
    KeepsReflNode(n, x);
    if repeated {
      var p := HeaderNode(repeated, Some(n), Some(x)).value;
      assert forall i :: 0 <= i < |n.items| ==> p.0.items[i] == n.items[i] && p.1.elems[i] == x.elems[i];
    }
  }

  lemma {:induction false} AppendResolves(d: Def, front: Path, key: Key)
    requires DefResolves(d, front) && key in DefAt(d, front).children
    requires var n := DefAt(d, front).children[key]; IsTableKind(n.kind) || (n.kind.ArrayOfTables? && n.items != [])
    ensures DefResolves(d, front + [key])
    decreases |front|
  {
    if front == [] {
      assert [key][1..] == [];
    } else {
      assert (front + [key])[1..] == front[1..] + [key];
      var node := d.children[front[0]];
      AppendResolves(if node.kind.ArrayOfTables? then Last(node.items) else node, front[1..], key);
    }
  }

  // ---------- every run ----------

  /** The trees mirror each other, and the current table is in both. */
  ghost predicate Consistent(s: State) {
    Body(s.defs, s.root) && DefResolves(s.defs, s.current) && s.defs.kind.ExplicitTable? && s.root.Table?
  }

  /** Nothing stored in s has changed in s'. */
  ghost predicate Preserves(s: State, s': State) {
    KeepsBody(s.defs, s.root, s'.defs, s'.root)
  }

  lemma {:induction false} HeaderConsistent(s: State, repeated: bool, path: KeyPath)
    requires Consistent(s)
    ensures EnsureDef(s.defs, Front(path), ImplicitTable, true).Ok? ==> EnsureTable(s.root, Front(path)).Ok?
    ensures var r := HeaderStep(s, repeated, path); r.Ok? ==> Consistent(r.value) && Preserves(s, r.value)
  {
    hide Body, Mirror, KeepsBody, KeepsNode, HeaderNode, EnsureDef, EnsureTable, PutDef, PutTable, DefAt, TableAt;
    var front, key := Front(path), Last(path);
    if EnsureDef(s.defs, front, ImplicitTable, true).Ok? {
      WalksTogether(s.defs, s.root, front, ImplicitTable, true);
      WalksKeep(s.defs, s.root, front, ImplicitTable, true);
      var defs, root := EnsureDef(s.defs, front, ImplicitTable, true).value, EnsureTable(s.root, front).value;
      var parentDef, parent := DefAt(defs, front), TableAt(root, front);
      TableIsTable(parentDef, parent);
      var known, existing := Lookup(parentDef.children, key), Lookup(parent.entries, key);
      if HeaderNode(repeated, known, existing).Ok? {
        var p := HeaderNode(repeated, known, existing).value;
        HeaderChild(repeated, parentDef, parent, key);
        HeaderKind(repeated, known, existing);
        ChangeChild(s.defs, s.root, defs, root, front, key, p.0, p.1);
        var n := parentDef.(children := parentDef.children[key := p.0]);
        AppendResolves(PutDef(defs, front, n), front, key);
        assert front + [key] == path;
      }
    }
  }

  lemma {:induction false} HeaderKind(repeated: bool, known: Option<Def>, existing: Option<Value>)
    requires HeaderNode(repeated, known, existing).Ok?
    ensures var n := HeaderNode(repeated, known, existing).value.0;
            if repeated then n.kind.ArrayOfTables? && n.items != [] else n.kind.ExplicitTable?
  {
  }

  lemma {:induction false} HeaderChild(repeated: bool, parentDef: Def, parent: Value, key: Key)
    requires Body(parentDef, parent)
    requires HeaderNode(repeated, Lookup(parentDef.children, key), Lookup(parent.entries, key)).Ok?
    ensures var p := HeaderNode(repeated, Lookup(parentDef.children, key), Lookup(parent.entries, key)).value;
            && Mirror(p.0, p.1)
            && (key in parentDef.children ==> KeepsNode(parentDef.children[key], parent.entries[key], p.0, p.1))
  {
    if key in parentDef.children {
      HeaderNodeKeeps(repeated, parentDef.children[key], parent.entries[key]);
    }
  }

  lemma {:induction false} AssignmentConsistent(s: State, path: KeyPath, value: Value)
    requires Consistent(s)
    ensures EnsureTable(s.root, s.current) == Ok(s.root) && EnsureDef(s.defs, s.current, ImplicitTable, false) == Ok(s.defs)
    ensures var r := Assignment(s, path, value); r.Ok? ==> Consistent(r.value) && Preserves(s, r.value)
  {
    ResolvesTogether(s.defs, s.root, s.current);
    ResolvedWalk(s.defs, s.root, s.current, false);
    hide Body, KeepsBody;
    var table, def := TableAt(s.root, s.current), DefAt(s.defs, s.current);
    InsertMirrors(table, def, path, value);
    var t := InsertPath(table, def, path, value);
    if t.Ok? {
      hide InsertPath;
      PutTogether(s.defs, s.root, s.current, t.value.def, t.value.table);
      PutKeeps(s.defs, s.root, s.current, t.value.def, t.value.table);
      PutThenAt(s.defs, s.current, t.value.def);
    }
  }

  /** One statement. The depth limit is that of the document. */
  function StatementStep(s: State, depth: nat, statement: Statement): (r: Result<State>)
    requires s.root.Table? && depth >= 1
    ensures r.Ok? ==> r.value.root.Table?
  {
    match statement
    case Header(repeated, path) => HeaderStep(s, repeated, path)
    case Assign(path, e) =>
      match Eval(e, depth, s.left)
      case Err(error) => Err(error)
      case Ok(p) => Assignment(s.(left := p.left), path, p.value)
  }

  /** `parse`, statement by statement. */
  function Run(s: State, depth: nat, statements: seq<Statement>): (r: Result<State>)
    requires s.root.Table? && depth >= 1
    ensures r.Ok? ==> r.value.root.Table?
    decreases |statements|
  {
    if statements == [] then Ok(s)
    else
      match StatementStep(s, depth, statements[0])
      case Err(e) => Err(e)
      case Ok(s1) => Run(s1, depth, statements[1..])
  }

  lemma {:induction false} StepConsistent(s: State, depth: nat, statement: Statement)
    requires Consistent(s) && depth >= 1
    ensures var r := StatementStep(s, depth, statement); r.Ok? ==> Consistent(r.value) && Preserves(s, r.value)
  {
    match statement
    case Header(repeated, path) => HeaderConsistent(s, repeated, path);
    case Assign(path, e) =>
      var p := Eval(e, depth, s.left);
      if p.Ok? {
        AssignmentConsistent(s.(left := p.value.left), path, p.value.value);
      }
  }

  /** Along every successful run the trees stay mirrors of each other, and all that is stored stays as it is. */
  lemma {:induction false} RunConsistent(s: State, depth: nat, statements: seq<Statement>)
    requires Consistent(s) && depth >= 1
    ensures var r := Run(s, depth, statements); r.Ok? ==> Consistent(r.value) && Preserves(s, r.value)
    decreases |statements|
  {
    if statements == [] {
      KeepsRefl(s.defs, s.root);
    } else {
      hide Consistent, StatementStep;
      StepConsistent(s, depth, statements[0]);
      IsTable(s);
      var s1 := StatementStep(s, depth, statements[0]);
      if s1.Ok? {
        RunConsistent(s1.value, depth, statements[1..]);
        var r := Run(s1.value, depth, statements[1..]);
        if r.Ok? {
          KeepsTrans(s.defs, s.root, s1.value.defs, s1.value.root, r.value.defs, r.value.root);
        }
      }
    }
  }

  lemma {:induction false} IsTable(s: State)
    requires Consistent(s)
    ensures s.root.Table?
  {
  }

  /** A plain value or inline table, once stored under a place, is there with the same contents at the end of the run. */
  lemma {:induction false} StoredForGood(s: State, depth: nat, statements: seq<Statement>, steps: seq<Step>)
    requires Consistent(s) && depth >= 1 && Run(s, depth, statements).Ok?
    requires DefNode(s.defs, steps).Some? && (DefNode(s.defs, steps).value.kind.Plain? || DefNode(s.defs, steps).value.kind.InlineTable?)
    ensures var s' := Run(s, depth, statements).value;
            && ValueNode(s.root, steps).Some? && ValueNode(s'.root, steps) == ValueNode(s.root, steps)
            && DefNode(s'.defs, steps) == DefNode(s.defs, steps)
  {
    RunConsistent(s, depth, statements);
    var s' := Run(s, depth, statements).value;
    PlacesKept(s.defs, s.root, s'.defs, s'.root, steps);
  }

  // ---------- a table is made explicit once ----------

  /** The place that a header names. */
  function Locate(d: Def, path: Path): seq<Step>
    decreases |path|
  {
    if path == [] then []
    else
      var node := if path[0] in d.children then d.children[path[0]] else Node(ImplicitTable);
      if |path| > 1 && node.kind.ArrayOfTables? && node.items != [] then
        [ByKey(path[0]), ByIndex(|node.items| - 1)] + Locate(Last(node.items), path[1..])
      else [ByKey(path[0])] + Locate(node, path[1..])
  }

  /** What the place holds is what is found under the last key of the table before it. */
  lemma {:induction false} LocateIs(d: Def, v: Value, front: Path, key: Key)
    requires Body(d, v) && !d.kind.ArrayOfTables?
    ensures DefResolves(d, front) ==> DefNode(d, Locate(d, front + [key])) == Lookup(DefAt(d, front).children, key)
    ensures !DefResolves(d, front) ==> DefNode(d, Locate(d, front + [key])).None?
    decreases |front|
  {
    var path := front + [key];
    if front == [] {
      assert path[1..] == [];
    } else if front[0] in d.children {
      assert path[1..] == front[1..] + [key];
      var node, item := d.children[front[0]], v.entries[front[0]];
      assert Mirror(node, item);
      if node.kind.ArrayOfTables? {
        var last, rest := Last(node.items), Locate(Last(node.items), path[1..]);
        LocateIs(last, Last(item.elems), front[1..], key);
        var steps := Locate(d, path);
        assert steps[1..][0] == ByIndex(|node.items| - 1) && steps[1..][1..] == rest;
        assert DefNode(d, steps) == DefNode(node, steps[1..]) == DefNode(last, rest);
      } else {
        var rest := Locate(node, path[1..]);
        assert Locate(d, path)[1..] == rest;
        if IsTableKind(node.kind) {
          LocateIs(node, item, front[1..], key);
        } else {
          assert rest[0].ByKey? && node.children == map[];
        }
      }
    }
  }

  /** A header for a table that is explicit already is refused. */
  lemma {:induction false} HeaderRejects(s: State, path: KeyPath)
    requires Consistent(s)
    requires var n := DefNode(s.defs, Locate(s.defs, path)); n.Some? && n.value.kind.ExplicitTable?
    ensures HeaderStep(s, false, path) == Err(DuplicateTable)
  {
    var front, key := Front(path), Last(path);
    assert front + [key] == path;
    LocateIs(s.defs, s.root, front, key);
    ResolvesTogether(s.defs, s.root, front);
    ResolvedWalk(s.defs, s.root, front, true);
  }

  lemma {:induction false} HeaderMarks(s: State, path: KeyPath)
    requires Consistent(s) && HeaderStep(s, false, path).Ok?
    ensures var s1 := HeaderStep(s, false, path).value;
            var n := DefNode(s1.defs, Locate(s1.defs, path));
            n.Some? && n.value.kind.ExplicitTable?
  {
    HeaderConsistent(s, false, path);
    var front, key := Front(path), Last(path);
    var defs, root := EnsureDef(s.defs, front, ImplicitTable, true).value, EnsureTable(s.root, front).value;
    var parentDef, parent := DefAt(defs, front), TableAt(root, front);
    var p := HeaderNode(false, Lookup(parentDef.children, key), Lookup(parent.entries, key)).value;
    HeaderKind(false, Lookup(parentDef.children, key), Lookup(parent.entries, key));
    PutThenAt(defs, front, parentDef.(children := parentDef.children[key := p.0]));
    var s1 := HeaderStep(s, false, path).value;
    assert front + [key] == path;
    hide HeaderNode, KeepsBody;
    LocateIs(s1.defs, s1.root, front, key);
  }

  /** No table is made explicit twice: a second header for the same place fails, whatever came between. */
  lemma {:induction false} ExplicitOnce(s: State, depth: nat, path: KeyPath, statements: seq<Statement>)
    requires Consistent(s) && depth >= 1 && HeaderStep(s, false, path).Ok?
    requires Run(HeaderStep(s, false, path).value, depth, statements).Ok?
    requires var s1 := HeaderStep(s, false, path).value;
             Locate(Run(s1, depth, statements).value.defs, path) == Locate(s1.defs, path)
    ensures HeaderStep(Run(HeaderStep(s, false, path).value, depth, statements).value, false, path) == Err(DuplicateTable)
  {
    HeaderConsistent(s, false, path);
    HeaderMarks(s, path);
    var s1 := HeaderStep(s, false, path).value;
    RunConsistent(s1, depth, statements);
    var s2 := Run(s1, depth, statements).value;
    hide HeaderStep, Run, Locate, DefNode;
    PlacesKept(s1.defs, s1.root, s2.defs, s2.root, Locate(s1.defs, path));
    HeaderRejects(s2, path);
  }

  // ---------- what an assignment stores ----------

  /** Resolving a path in two parts. */
  lemma {:induction false} ResolveParts(d: Def, a: Path, b: Path)
    ensures DefResolves(d, a + b) <==> DefResolves(d, a) && DefResolves(DefAt(d, a), b)
    ensures DefResolves(d, a + b) ==> DefAt(d, a + b) == DefAt(DefAt(d, a), b)
    decreases |a|
  {
    if a == [] {
      assert a + b == b;
    } else {
      assert (a + b)[1..] == a[1..] + b;
      if a[0] in d.children {
        var node := d.children[a[0]];
        if !node.kind.ArrayOfTables? || node.items != [] {
          ResolveParts(if node.kind.ArrayOfTables? then Last(node.items) else node, a[1..], b);
        }
      }
    }
  }

  /** A walk that succeeds where everything is there already changes nothing. */
  lemma {:induction false} ResolvedDef(d: Def, path: Path, missing: Kind)
    requires IsTableKind(missing) && DefResolves(d, path) && EnsureDef(d, path, missing, true).Ok?
    ensures EnsureDef(d, path, missing, true) == Ok(d)
    decreases |path|
  {
    if path != [] {
      var k := path[0];
      var node := d.children[k];
      assert d.children[k := node] == d.children;
      if node.kind.ArrayOfTables? {
        ResolvedDef(Last(node.items), path[1..], missing);
        assert ReplaceLast(node.items, Last(node.items)) == node.items;
      } else {
        ResolvedDef(node, path[1..], missing);
      }
    }
  }

  /** Redrawing the node at a place does not move the places below it. */
  lemma {:induction false} LocatePut(d: Def, front: Path, n: Def, rest: Path)
    requires DefResolves(d, front) && n.kind == DefAt(d, front).kind && rest != [] && Locate(n, rest) == Locate(DefAt(d, front), rest)
    ensures Locate(PutDef(d, front, n), front + rest) == Locate(d, front + rest)
    decreases |front|
  {
    var path := front + rest;
    if front == [] {
      assert path == rest;
    } else {
      assert path[1..] == front[1..] + rest;
      var node := d.children[front[0]];
      var below := if node.kind.ArrayOfTables? then Last(node.items) else node;
      LocatePut(below, front[1..], n, rest);
      PutThenAt(below, front[1..], n);
    }
  }

  /** Nor does making what is missing on the way. */
  lemma {:induction false} LocateEnsure(d: Def, front: Path, missing: Kind, create: bool, rest: Path)
    requires IsTableKind(missing) && EnsureDef(d, front, missing, create).Ok? && rest != []
    ensures Locate(EnsureDef(d, front, missing, create).value, front + rest) == Locate(d, front + rest)
    decreases |front|
  {
    var path := front + rest;
    if front == [] {
      assert path == rest;
    } else {
      assert path[1..] == front[1..] + rest;
      var node := if front[0] in d.children then d.children[front[0]] else Node(missing);
      LocateEnsure(if node.kind.ArrayOfTables? then Last(node.items) else node, front[1..], missing, create, rest);
      LocateEmpty(missing, path[1..]);
    }
  }

  lemma {:induction false} LocateEmpty(kind: Kind, path: Path)
    ensures Locate(Node(kind), path) == Locate(Node(ImplicitTable), path)
  {
  }

  /** The value at the place that a path names is the one found under its last key. */
  lemma {:induction false} LocateValue(d: Def, v: Value, front: Path, key: Key)
    requires Body(d, v) && DefResolves(d, front) && key in DefAt(d, front).children
    ensures TableResolves(v, front) && key in TableAt(v, front).entries
    ensures ValueNode(v, Locate(d, front + [key])) == Some(TableAt(v, front).entries[key])
    decreases |front|
  {
    var path := front + [key];
    if front == [] {
      assert path[1..] == [];
    } else {
      assert path[1..] == front[1..] + [key];
      var node, item := d.children[front[0]], v.entries[front[0]];
      assert Mirror(node, item);
      var steps := Locate(d, path);
      if node.kind.ArrayOfTables? {
        var rest := Locate(Last(node.items), path[1..]);
        LocateValue(Last(node.items), Last(item.elems), front[1..], key);
        assert steps[1..][0] == ByIndex(|node.items| - 1) && steps[1..][1..] == rest;
        assert ValueNode(v, steps) == ValueNode(item, steps[1..]) == ValueNode(Last(item.elems), rest);
      } else {
        LocateValue(node, item, front[1..], key);
        assert steps[1..] == Locate(node, path[1..]);
      }
    }
  }

  /** `insert_path`: the key is new, and afterwards it holds the value. */
  lemma {:induction false} InsertStores(table: Value, def: Def, path: KeyPath, value: Value)
    requires Body(def, table) && InsertPath(table, def, path, value).Ok?
    ensures var r := InsertPath(table, def, path, value).value;
            && (DefResolves(def, Front(path)) ==> Last(path) !in DefAt(def, Front(path)).children)
            && DefResolves(r.def, Front(path)) && Locate(r.def, path) == Locate(def, path)
            && Lookup(DefAt(r.def, Front(path)).children, Last(path)) == Some(Node(if value.Table? then InlineTable else Plain))
            && TableResolves(r.table, Front(path)) && Lookup(TableAt(r.table, Front(path)).entries, Last(path)) == Some(value)
  {
    var front, key := Front(path), Last(path);
    assert front + [key] == path;
    WalksTogether(def, table, front, DottedTable, true);
    var def1, table1 := EnsureDef(def, front, DottedTable, true).value, EnsureTable(table, front).value;
    if DefResolves(def, front) { ResolvedDef(def, front, DottedTable); }
    var parentDef, parent := DefAt(def1, front), TableAt(table1, front);
    var n := parentDef.(children := parentDef.children[key := Node(if value.Table? then InlineTable else Plain)]);
    hide Body, EnsureDef, EnsureTable;
    PutThenAt(def1, front, n);
    PutTableAt(table1, front, Table(parent.entries[key := value]));
    LocateEnsure(def, front, DottedTable, true, [key]);
    LocatePut(def1, front, n, [key]);
  }

  lemma {:induction false} PutTableAt(t: Value, path: Path, u: Value)
    requires TableResolves(t, path) && u.Table?
    ensures TableResolves(PutTable(t, path, u), path) && TableAt(PutTable(t, path, u), path) == u
    decreases |path|
  {
    if path != [] {
      var item := t.entries[path[0]];
      PutTableAt(if item.Array? then Last(item.elems) else item, path[1..], u);
    }
  }

  /** An assignment finds its place empty, and leaves the value there. */
  lemma {:induction false} AssignmentStores(s: State, path: KeyPath, value: Value)
    requires Consistent(s) && Assignment(s, path, value).Ok?
    ensures var s', steps := Assignment(s, path, value).value, Locate(s.defs, s.current + path);
            && DefNode(s.defs, steps).None?
            && DefNode(s'.defs, steps) == Some(Node(if value.Table? then InlineTable else Plain))
            && ValueNode(s'.root, steps) == Some(value)
  {
    AssignmentConsistent(s, path, value);
    ResolvesTogether(s.defs, s.root, s.current);
    var table, def := TableAt(s.root, s.current), DefAt(s.defs, s.current);
    InsertStores(table, def, path, value);
    InsertMirrors(table, def, path, value);
    var r, s' := InsertPath(table, def, path, value).value, Assignment(s, path, value).value;
    assert s'.root == PutTable(s.root, s.current, r.table) && s'.defs == PutDef(s.defs, s.current, r.def);
    hide Body, InsertPath, KeepsBody, Assignment, Locate, DefNode, ValueNode, DefResolves, DefAt, TableResolves, TableAt, PutDef, PutTable;
    PlaceBefore(s.defs, s.root, s.current, path);
    PlaceAfter(s.defs, s.root, s'.defs, s'.root, s.current, path, r.def, r.table, value);
  }

  lemma {:induction false} PlaceBefore(d: Def, v: Value, current: Path, path: KeyPath)
    requires Body(d, v) && !d.kind.ArrayOfTables? && DefResolves(d, current)
    requires DefResolves(DefAt(d, current), Front(path)) ==> Last(path) !in DefAt(DefAt(d, current), Front(path)).children
    ensures DefNode(d, Locate(d, current + path)).None?
  {
    hide Body, Locate, DefNode, DefResolves, DefAt;
    assert (current + Front(path)) + [Last(path)] == current + path;
    ResolveParts(d, current, Front(path));
    LocateIs(d, v, current + Front(path), Last(path));
  }

  lemma {:induction false} PlaceAfter(d: Def, v: Value, d': Def, v': Value, current: Path, path: KeyPath, def: Def, table: Value, value: Value)
    requires DefResolves(d, current) && TableResolves(v, current) && table.Table? && def.kind == DefAt(d, current).kind
    requires d' == PutDef(d, current, def) && v' == PutTable(v, current, table) && Body(d', v') && !d'.kind.ArrayOfTables?
    requires DefResolves(def, Front(path)) && Locate(def, path) == Locate(DefAt(d, current), path)
    requires Lookup(DefAt(def, Front(path)).children, Last(path)) == Some(Node(if value.Table? then InlineTable else Plain))
    requires TableResolves(table, Front(path)) && Lookup(TableAt(table, Front(path)).entries, Last(path)) == Some(value)
    ensures var steps := Locate(d, current + path);
            && DefNode(d', steps) == Some(Node(if value.Table? then InlineTable else Plain)) && ValueNode(v', steps) == Some(value)
  {
    hide Body, Locate, DefNode, ValueNode, DefResolves, DefAt, TableResolves, TableAt, PutDef, PutTable;
    var front, key := current + Front(path), Last(path);
    assert front + [key] == current + path;
    PutThenAt(d, current, def);
    ResolveParts(d', current, Front(path));
    LocateIs(d', v', front, key);
    LocatePut(d, current, def, path);
    LocateValue(d', v', front, key);
    PutTableAt(v, current, table);
    ResolveTables(v', current, Front(path));
  }

  lemma {:induction false} ResolveTables(t: Value, a: Path, b: Path)
    requires TableResolves(t, a) && TableResolves(TableAt(t, a), b)
    ensures TableResolves(t, a + b) && TableAt(t, a + b) == TableAt(TableAt(t, a), b)
    decreases |a|
  {
    if a == [] {
      assert a + b == b;
    } else {
      assert (a + b)[1..] == a[1..] + b;
      var item := t.entries[a[0]];
      ResolveTables(if item.Array? then Last(item.elems) else item, a[1..], b);
    }
  }

  /** What an assignment stores is there, unchanged, at the end of every successful run. */
  lemma {:induction false} AssignedForGood(s: State, depth: nat, path: KeyPath, value: Value, statements: seq<Statement>)
    requires Consistent(s) && depth >= 1 && Assignment(s, path, value).Ok?
    requires Run(Assignment(s, path, value).value, depth, statements).Ok?
    ensures var end := Run(Assignment(s, path, value).value, depth, statements).value;
            ValueNode(end.root, Locate(s.defs, s.current + path)) == Some(value)
  {
    AssignmentConsistent(s, path, value);
    AssignmentStores(s, path, value);
    var s' := Assignment(s, path, value).value;
    hide Assignment, Run, Locate, ValueNode, DefNode;
    StoredForGood(s', depth, statements, Locate(s.defs, s.current + path));
  }

  // ---------- the parser ----------

  class TomlParser {
    var root: Value
    var definitions: Def
    var currentPath: Path
    var remainingDepth: nat
    var remainingValues: nat

    function Abstract(): State
      reads this
    {
      State(root, definitions, currentPath, remainingValues)
    }

    ghost predicate Valid()
      reads this
    {
      Consistent(Abstract())
    }

    constructor (maxDepth: nat, maxValues: nat)
      ensures Valid() && remainingDepth == maxDepth && remainingValues == maxValues
      ensures root == Table(map[]) && definitions == Node(ExplicitTable) && currentPath == []
    {
      root, definitions, currentPath := Table(map[]), Node(ExplicitTable), [];
      remainingDepth, remainingValues := maxDepth, maxValues;
    }

    /** `parse_header` and `parse_assignment`; on failure the trees are not used again. */
    method ParseStatement(statement: Statement) returns (r: Result<State>)
      requires Valid() && remainingDepth >= 1
      modifies this`root, this`definitions, this`currentPath, this`remainingValues
      ensures Valid() && r == old(StatementStep(Abstract(), remainingDepth, statement))
      ensures r.Ok? ==> Abstract() == r.value && Preserves(old(Abstract()), Abstract())
      ensures r.Err? ==> Abstract() == old(Abstract())
    {
      StepConsistent(Abstract(), remainingDepth, statement);
      hide Consistent, StatementStep;
      IsTable(Abstract());
      r := StatementStep(Abstract(), remainingDepth, statement);
      if r.Ok? {
        root, definitions, currentPath, remainingValues := r.value.root, r.value.defs, r.value.current, r.value.left;
      }
    }

    /** `parse`: the document, or the first failure. */
    method Parse(statements: seq<Statement>) returns (r: Result<Value>)
      requires Valid()
      modifies this
      ensures Valid()
      ensures old(remainingDepth) == 0 ==> r == Err(RecursionLimitExceeded)
      ensures old(remainingDepth) > 0 ==>
                match old(Run(Abstract(), remainingDepth, statements))
                case Ok(s) => r == Ok(s.root) && Abstract() == s && Preserves(old(Abstract()), s)
                case Err(e) => r == Err(e)
    {
      IsTable(Abstract());
      if remainingDepth == 0 {
        return Err(RecursionLimitExceeded);
      }
      ghost var s0 := Abstract();
      RunConsistent(s0, remainingDepth, statements);
      hide Consistent, StatementStep, Preserves;
      var i := 0;
      while i < |statements|
        invariant 0 <= i <= |statements| && Valid() && root.Table? && remainingDepth == old(remainingDepth)
        invariant Run(s0, remainingDepth, statements) == Run(Abstract(), remainingDepth, statements[i..])
      {
        var step := ParseStatement(statements[i]);
        IsTable(Abstract());
        assert statements[i..][1..] == statements[i + 1..];
        if step.Err? {
          return Err(step.error);
        }
        i := i + 1;
      }
      r := Ok(root);
    }
  }
}
