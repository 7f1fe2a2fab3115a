// What a TOML document means, statement by statement and on the document alone; and exactly when a statement is
// accepted (src/toml/src/parser.cpp:377-452, 784-993, 1076-1090).

module TomlMeaning {
  import opened Options
  import opened TomlTables
  import opened TomlGrowth
  import opened TomlParser

  // ---------- the document, and one place in it ----------

  /** The table to go on in: a table, or the last one of an array of tables. */
  function Inner(x: Value): Value {
    if x.Array? && x.elems != [] then Last(x.elems) else x
  }

  /** The value under a key path, where arrays of tables stand for their last table. */
  function Under(v: Value, path: KeyPath): Option<Value>
    decreases |path|
  {
    if !v.Table? || path[0] !in v.entries then None
    else if |path| == 1 then Some(v.entries[path[0]])
    else Under(Inner(v.entries[path[0]]), path[1..])
  }

  /** The document with x under the path; tables that are missing on the way are made. */
  function Update(v: Value, path: KeyPath, x: Value): Value
    decreases |path|
  {
    if !v.Table? then v
    else if |path| == 1 then Table(v.entries[path[0] := x])
    else
      var item := ItemAt(v, path[0]);
      var sub := Update(Inner(item), path[1..], x);
      Table(v.entries[path[0] := if item.Array? && item.elems != [] then Array(ReplaceLast(item.elems, sub)) else sub])
  }

  // ---------- values as written ----------

  function ValueOf(e: Expr): Value
    decreases e, 1, 0
  {
    match e
    case Atom(text) => Scalar(text)
    case ArrayExpr(_) => Array(ItemsOf(e, |e.items|))
    case InlineExpr(_) => TableOf(e, |e.entries|)
  }

  /** The values of the first n items, in order. */
  function ItemsOf(e: Expr, n: nat): (r: seq<Value>)
    requires e.ArrayExpr? && n <= |e.items|
    ensures |r| == n
    decreases e, 0, n
  {
    if n == 0 then [] else ItemsOf(e, n - 1) + [ValueOf(e.items[n - 1])]
  }

  /** The first n entries, each at its path. */
  function TableOf(e: Expr, n: nat): Value
    requires e.InlineExpr? && n <= |e.entries|
    decreases e, 0, n
  {
    if n == 0 then Table(map[]) else Update(TableOf(e, n - 1), e.entries[n - 1].path, ValueOf(e.entries[n - 1].value))
  }

  // ---------- statements ----------

  /** A document, and the path that assignments are relative to. */
  datatype Doc = Doc(root: Value, current: Path)

  function TableOr(x: Option<Value>): Value {
    if x.Some? then x.value else Table(map[])
  }

  function ElemsOf(x: Option<Value>): seq<Value> {
    if x.Some? && x.value.Array? then x.value.elems else []
  }

  function Apply(doc: Doc, statement: Statement): Doc {
    match statement
    case Header(false, path) => Doc(Update(doc.root, path, TableOr(Under(doc.root, path))), path)
    case Header(true, path) => Doc(Update(doc.root, path, Array(ElemsOf(Under(doc.root, path)) + [Table(map[])])), path)
    case Assign(path, e) => Doc(Update(doc.root, doc.current + path, ValueOf(e)), doc.current)
  }

  function Interpret(doc: Doc, statements: seq<Statement>): Doc
    decreases |statements|
  {
    if statements == [] then doc else Interpret(Apply(doc, statements[0]), statements[1..])
  }

  // ---------- the parser's walks and writes ----------

  /** Walking to a table, making what is missing, and setting a key there. */
  lemma {:induction false} UpdateWalk(v: Value, front: Path, key: Key, x: Value)
    requires v.Table? && EnsureTable(v, front).Ok?
    ensures var t := EnsureTable(v, front).value;
            && PutTable(t, front, Table(TableAt(t, front).entries[key := x])) == Update(v, front + [key], x)
            && Lookup(TableAt(t, front).entries, key) == Under(v, front + [key])
    decreases |front|
  {
    var path := front + [key];
    if front == [] {
      assert path == [key];
    } else {
      assert path[0] == front[0] && path[1..] == front[1..] + [key];
      var item := ItemAt(v, front[0]);
      UpdateWalk(Inner(item), front[1..], key, x);
      var t := EnsureTable(v, front).value;
      if item.Table? {
        var sub := EnsureTable(item, front[1..]).value;
        assert t.entries[front[0]] == sub;
        SetTwice(v.entries, front[0], sub, PutTable(sub, front[1..], Table(TableAt(sub, front[1..]).entries[key := x])));
        NothingUnder(path[1..]);
      } else {
        var sub := EnsureTable(Last(item.elems), front[1..]).value;
        assert t.entries[front[0]] == Array(ReplaceLast(item.elems, sub));
        LastTwice(item.elems, sub, PutTable(sub, front[1..], Table(TableAt(sub, front[1..]).entries[key := x])));
        SetTwice(v.entries, front[0], t.entries[front[0]],
                 Array(ReplaceLast(item.elems, PutTable(sub, front[1..], Table(TableAt(sub, front[1..]).entries[key := x])))));
      }
    }
  }

  lemma {:induction false} NothingUnder(path: KeyPath)
    ensures Under(Table(map[]), path).None?
  {
  }

  lemma {:induction false} SetTwice(m: map<Key, Value>, k: Key, a: Value, b: Value)
    ensures m[k := a][k := b] == m[k := b]
  {
  }

  lemma {:induction false} LastTwice(s: seq<Value>, a: Value, b: Value)
    requires s != []
    ensures ReplaceLast(s, a) != [] && Last(ReplaceLast(s, a)) == a && ReplaceLast(ReplaceLast(s, a), b) == ReplaceLast(s, b)
  {
  }

  /** The same from a table that is there already. */
  lemma {:induction false} UpdateBelow(v: Value, a: Path, b: KeyPath, x: Value)
    requires TableResolves(v, a)
    ensures PutTable(v, a, Update(TableAt(v, a), b, x)) == Update(v, a + b, x) && Under(TableAt(v, a), b) == Under(v, a + b)
    ensures Update(TableAt(v, a), b, x).Table?
    decreases |a|
  {
    if a == [] {
      assert a + b == b;
    } else {
      assert (a + b)[0] == a[0] && (a + b)[1..] == a[1..] + b;
      var item := v.entries[a[0]];
      UpdateBelow(Inner(item), a[1..], b, x);
      if item.Array? {
        assert Inner(item) == Last(item.elems);
      }
    }
  }

  lemma {:induction false} FrontLast(path: KeyPath)
    ensures Front(path) + [Last(path)] == path
  {
  }

  lemma {:induction false} InsertMeans(table: Value, def: Def, path: KeyPath, x: Value)
    requires table.Table? && InsertPath(table, def, path, x).Ok?
    ensures InsertPath(table, def, path, x).value.table == Update(table, path, x) && Under(table, path).None?
  {
    UpdateWalk(table, Front(path), Last(path), x);
    FrontLast(path);
    hide EnsureTable, EnsureDef, PutTable, TableAt, PutDef, DefAt, Update, Under;
  }

  // ---------- values ----------

  lemma {:induction false} EvalMeans(e: Expr, depth: nat, left: nat)
    requires depth >= 1 && Eval(e, depth, left).Ok?
    ensures Eval(e, depth, left).value.value == ValueOf(e)
    decreases e, 1, 0
  {
    hide InsertPath, Update;
    match e
    case Atom(_) =>
    case ArrayExpr(_) => ItemsMean(e, 0, depth - 1, left - 1);
    case InlineExpr(_) => EntriesMean(e, 0, depth - 1, left - 1, Trees(Table(map[]), Node(InlineTable)));
  }

  lemma {:induction false} ItemsMean(e: Expr, i: nat, depth: nat, left: nat)
    requires depth >= 1 && e.ArrayExpr? && i <= |e.items| && EvalItems(e, i, depth, left, ItemsOf(e, i)).Ok?
    ensures EvalItems(e, i, depth, left, ItemsOf(e, i)).value.value == ValueOf(e)
    decreases e, 0, |e.items| - i
  {
    hide Eval;
    if i < |e.items| {
      EvalMeans(e.items[i], depth, left);
      var p := Eval(e.items[i], depth, left).value;
      assert ItemsOf(e, i + 1) == ItemsOf(e, i) + [p.value];
      ItemsMean(e, i + 1, depth, p.left);
    }
  }

  lemma {:induction false} EntriesMean(e: Expr, i: nat, depth: nat, left: nat, trees: Trees)
    requires depth >= 1 && e.InlineExpr? && i <= |e.entries| && trees.table == TableOf(e, i) && trees.table.Table?
    requires EvalEntries(e, i, depth, left, trees).Ok?
    ensures EvalEntries(e, i, depth, left, trees).value.0.table == ValueOf(e)
    decreases e, 0, |e.entries| - i
  {
    hide Eval, InsertPath, Update;
    if i < |e.entries| {
      EvalMeans(e.entries[i].value, depth, left);
      var p := Eval(e.entries[i].value, depth, left).value;
      InsertMeans(trees.table, trees.def, e.entries[i].path, p.value);
      EntriesMean(e, i + 1, depth, p.left, InsertPath(trees.table, trees.def, e.entries[i].path, p.value).value);
    }
  }

  // ---------- statements and runs ----------

  lemma {:induction false} AssignmentMeans(s: State, path: KeyPath, x: Value)
    requires Consistent(s) && Assignment(s, path, x).Ok?
    ensures var s' := Assignment(s, path, x).value;
            s'.root == Update(s.root, s.current + path, x) && s'.current == s.current && Under(s.root, s.current + path).None?
  {
    AssignmentConsistent(s, path, x);
    ResolvesTogether(s.defs, s.root, s.current);
    hide Body, EnsureTable, EnsureDef, InsertPath, PutTable, PutDef, Update, Under, Preserves;
    InsertMeans(TableAt(s.root, s.current), DefAt(s.defs, s.current), path, x);
    UpdateBelow(s.root, s.current, path, x);
  }

  /** A header, on the document: it opens the table under its path, or appends one to the array there. */
  lemma {:induction false} HeaderMeans(s: State, repeated: bool, path: KeyPath)
    requires Consistent(s) && HeaderStep(s, repeated, path).Ok?
    ensures var s' := HeaderStep(s, repeated, path).value;
            Doc(s'.root, s'.current) == Apply(Doc(s.root, s.current), Header(repeated, path))
    ensures !repeated ==> TableOr(Under(s.root, path)).Table?
  {
    var front, key := Front(path), Last(path);
    FrontLast(path);
    HeaderConsistent(s, repeated, path);
    WalksTogether(s.defs, s.root, front, ImplicitTable, true);
    var defs, root := EnsureDef(s.defs, front, ImplicitTable, true).value, EnsureTable(s.root, front).value;
    var parentDef, parent := DefAt(defs, front), TableAt(root, front);
    TableIsTable(parentDef, parent);
    hide Consistent, Preserves, EnsureDef, EnsureTable, PutDef, PutTable, Update, Under, HeaderNode;
    var known, existing := Lookup(parentDef.children, key), Lookup(parent.entries, key);
    var p := HeaderNode(repeated, known, existing).value;
    UpdateWalk(s.root, front, key, p.1);
    NodeMeans(repeated, known, existing);
  }

  lemma {:induction false} NodeMeans(repeated: bool, known: Option<Def>, existing: Option<Value>)
    requires HeaderNode(repeated, known, existing).Ok? && (known.None? <==> existing.None?)
    ensures HeaderNode(repeated, known, existing).value.1 ==
              if repeated then Array(ElemsOf(existing) + [Table(map[])]) else TableOr(existing)
    ensures !repeated ==> TableOr(existing).Table?
  {
    if repeated && existing.None? { assert [] + [Table(map[])] == [Table(map[])]; }
  }

  // ---------- the place of a header ----------

  lemma {:induction false} UpdateUnder(v: Value, front: Path, key: Key, x: Value)
    requires v.Table? && EnsureTable(v, front).Ok?
    ensures Under(Update(v, front + [key], x), front + [key]) == Some(x)
    decreases |front|
  {
    var path := front + [key];
    if front == [] {
      assert path == [key];
    } else {
      assert path[0] == front[0] && path[1..] == front[1..] + [key];
      var item := ItemAt(v, front[0]);
      UpdateUnder(Inner(item), front[1..], key, x);
      UpdateKind(Inner(item), path[1..], x);
    }
  }

  lemma {:induction false} UpdateKind(v: Value, path: KeyPath, x: Value)
    requires v.Table?
    ensures Update(v, path, x).Table?
  {
  }

  /** The table that a path resolves to is the value under it, or the last table of the array there. */
  lemma {:induction false} UnderTable(v: Value, path: KeyPath)
    requires TableResolves(v, path)
    ensures Under(v, path).Some? && TableAt(v, path) == Inner(Under(v, path).value)
    decreases |path|
  {
    if |path| > 1 {
      UnderTable(Inner(v.entries[path[0]]), path[1..]);
    } else {
      assert path[1..] == [];
    }
  }

  /**
   * After a header, the table it opened is the current one: for `[[k]]` a new and empty one behind those that were in
   * the array, for `[k]` the one that was there, or an empty one.
   */
  lemma {:induction false} HeaderStores(s: State, repeated: bool, path: KeyPath)
    requires Consistent(s) && HeaderStep(s, repeated, path).Ok?
    ensures var s', before := HeaderStep(s, repeated, path).value, Under(s.root, path);
            && s'.current == path && TableResolves(s'.root, path)
            && (if repeated then
                  Under(s'.root, path) == Some(Array(ElemsOf(before) + [Table(map[])])) && TableAt(s'.root, path) == Table(map[])
                else
                  Under(s'.root, path) == Some(TableOr(before)) && TableAt(s'.root, path) == TableOr(before))
  {
    HeaderMeans(s, repeated, path);
    HeaderConsistent(s, repeated, path);
    var s' := HeaderStep(s, repeated, path).value;
    ResolvesTogether(s'.defs, s'.root, path);
    WalksTogether(s.defs, s.root, Front(path), ImplicitTable, true);
    FrontLast(path);
    hide HeaderStep, EnsureTable, EnsureDef, Update, Under, Body, TableAt, TableResolves, DefResolves, Preserves, Consistent;
    UpdateUnder(s.root, Front(path), Last(path),
                if repeated then Array(ElemsOf(Under(s.root, path)) + [Table(map[])]) else TableOr(Under(s.root, path)));
    UnderTable(s'.root, path);
    TableIs(s'.root, path);
  }

  lemma {:induction false} TableIs(v: Value, path: KeyPath)
    requires TableResolves(v, path)
    ensures TableAt(v, path).Table?
  {
  }

  // ---------- runs ----------

  lemma {:induction false} StatementMeans(s: State, depth: nat, statement: Statement)
    requires Consistent(s) && depth >= 1 && s.root.Table? && StatementStep(s, depth, statement).Ok?
    ensures var s' := StatementStep(s, depth, statement).value;
            Doc(s'.root, s'.current) == Apply(Doc(s.root, s.current), statement)
  {
    hide Eval, ValueOf, Assignment, HeaderStep, Update, Under;
    match statement
    case Header(repeated, path) => HeaderMeans(s, repeated, path);
    case Assign(path, e) =>
      EvalMeans(e, depth, s.left);
      var p := Eval(e, depth, s.left).value;
      AssignmentMeans(s.(left := p.left), path, p.value);
  }

  /** A run that succeeds gives the document that its statements mean. */
  lemma {:induction false} RunMeans(s: State, depth: nat, statements: seq<Statement>)
    requires Consistent(s) && depth >= 1 && s.root.Table? && Run(s, depth, statements).Ok?
    ensures var s' := Run(s, depth, statements).value;
            Doc(s'.root, s'.current) == Interpret(Doc(s.root, s.current), statements)
    decreases |statements|
  {
    hide Consistent, StatementStep, Apply;
    if statements != [] {
      StatementMeans(s, depth, statements[0]);
      StepConsistent(s, depth, statements[0]);
      IsTable(StatementStep(s, depth, statements[0]).value);
      RunMeans(StatementStep(s, depth, statements[0]).value, depth, statements[1..]);
    }
  }
}
