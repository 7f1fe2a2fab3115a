// Failures of the token recogniser (src/serde/src/token.cpp:415-474): it stops at the first token that no value
// could have there.

module TokenFailures {
  import opened Options
  import opened TokenStream

  /** Some value begins with these tokens. */
  ghost predicate Viable(w: seq<Kind>) {
    exists t: Tree, rest: seq<Kind> :: Completes(w, rest, t)
  }

  predicate Completes(w: seq<Kind>, rest: seq<Kind>, t: Tree) {
    Flatten(t) == w + rest
  }

  // ---------- what was read can be completed ----------

  /** The next token of a completion is one that the fault asks for. */
  predicate Suits(f: Failure, rest: seq<Kind>) {
    rest != [] && (f.fault.TypeMismatch? ==> ActualKind(rest[0]) == f.fault.expected)
  }

  lemma {:induction false} ValueReads(ts: seq<Kind>, p: nat)
    requires p <= |ts| && Value(ts, p).Some?
    ensures var v := Value(ts, p).value; Flatten(v.what) == ts[p..v.next]
  {
    hide Value, Flatten;
    ValueSound(ts, p);
  }

  /** The tokens of a compound broken off at n, completed by what completes its body. */
  lemma {:induction false} Enclosed(ts: seq<Kind>, p: nat, n: nat, rest: seq<Kind>, close: Kind)
    requires p < n <= |ts|
    ensures [ts[p]] + (ts[p + 1..n] + rest) + [close] == ts[p..n] + (rest + [close])
  {
  }

  lemma {:induction false} ValueCompletes(ts: seq<Kind>, p: nat) returns (t: Tree, rest: seq<Kind>)
    requires p <= |ts| && Value(ts, p).None?
    ensures var f := ValueFailure(ts, p); Completes(ts[p..f.at], rest, t) && Suits(f, rest)
    decreases |ts| - p, 2
  {
    if p == |ts| || IsEnd(ts[p]) {
      t, rest := Leaf(Null), [Null];
    } else {
      hide Items, Pairs, Completes, ValueFailure;
      match ts[p]
      case SomeStart => t, rest := PresentCompletes(ts, p);
      case SequenceStart => t, rest := SequenceCompletes(ts, p);
      case MapStart => t, rest := MapCompletes(ts, p);
      case EnumStart => t, rest := VariantCompletes(ts, p);
    }
  }

  lemma {:induction false} PresentCompletes(ts: seq<Kind>, p: nat) returns (t: Tree, rest: seq<Kind>)
    requires At(ts, p, SomeStart) && Value(ts, p).None?
    ensures var f := ValueFailure(ts, p); Completes(ts[p..f.at], rest, t) && Suits(f, rest)
    decreases |ts| - p, 1
  {
    var f := ValueFailure(ts, p);
    var inner: Tree, more: seq<Kind>;
    if Value(ts, p + 1).None? {
      inner, more := ValueCompletes(ts, p + 1);
    } else {
      ValueReads(ts, p + 1);
      inner, more := Value(ts, p + 1).value.what, [];
    }
    hide Value;
    t, rest := Present(inner), more + [SomeEnd];
    Enclosed(ts, p, f.at, more, SomeEnd);
    assert Flatten(inner) == ts[p + 1..f.at] + more;
  }

  lemma {:induction false} SequenceCompletes(ts: seq<Kind>, p: nat) returns (t: Tree, rest: seq<Kind>)
    requires At(ts, p, SequenceStart) && Value(ts, p).None?
    ensures var f := ValueFailure(ts, p); Completes(ts[p..f.at], rest, t) && Suits(f, rest)
    decreases |ts| - p, 1
  {
    var f := ValueFailure(ts, p);
    var items: List, more: seq<Kind>;
    if Items(ts, p + 1).None? {
      items, more := ItemsCompletes(ts, p + 1);
    } else {
      ItemsSound(ts, p + 1);
      items, more := Items(ts, p + 1).value.what, [];
    }
    hide Value, Items, FlattenItems;
    t, rest := Sequence(items), more + [SequenceEnd];
    Enclosed(ts, p, f.at, more, SequenceEnd);
    assert FlattenItems(items) == ts[p + 1..f.at] + more;
  }

  lemma {:induction false} MapCompletes(ts: seq<Kind>, p: nat) returns (t: Tree, rest: seq<Kind>)
    requires At(ts, p, MapStart) && Value(ts, p).None?
    ensures var f := ValueFailure(ts, p); Completes(ts[p..f.at], rest, t) && Suits(f, rest)
    decreases |ts| - p, 1
  {
    var f := ValueFailure(ts, p);
    var pairs: Entries, more: seq<Kind>;
    if Pairs(ts, p + 1).None? {
      pairs, more := PairsCompletes(ts, p + 1);
    } else {
      PairsSound(ts, p + 1);
      pairs, more := Pairs(ts, p + 1).value.what, [];
    }
    hide Value, Pairs, FlattenPairs;
    t, rest := Map(pairs), more + [MapEnd];
    Enclosed(ts, p, f.at, more, MapEnd);
    assert FlattenPairs(pairs) == ts[p + 1..f.at] + more;
  }

  lemma {:induction false} VariantCompletes(ts: seq<Kind>, p: nat) returns (t: Tree, rest: seq<Kind>)
    requires At(ts, p, EnumStart) && Value(ts, p).None?
    ensures var f := ValueFailure(ts, p); Completes(ts[p..f.at], rest, t) && Suits(f, rest)
    decreases |ts| - p, 1
  {
    var f := ValueFailure(ts, p);
    if !At(ts, p + 1, String) {
      t, rest := Variant(Leaf(Null)), [String, Null, EnumEnd];
      assert ts[p..f.at] == [EnumStart];
    } else {
      var payload: Tree, more: seq<Kind>;
      if Value(ts, p + 2).None? {
        payload, more := ValueCompletes(ts, p + 2);
      } else {
        ValueReads(ts, p + 2);
        payload, more := Value(ts, p + 2).value.what, [];
      }
      t, rest := Variant(payload), more + [EnumEnd];
      hide Value, Flatten;
      VariantEnclosed(ts, p, f.at, payload, more);
    }
  }

  lemma {:induction false} VariantEnclosed(ts: seq<Kind>, p: nat, n: nat, payload: Tree, rest: seq<Kind>)
    requires p + 2 <= n <= |ts| && ts[p] == EnumStart && ts[p + 1] == String && Flatten(payload) == ts[p + 2..n] + rest
    ensures Flatten(Variant(payload)) == ts[p..n] + (rest + [EnumEnd])
  {
    assert ts[p..n] == [EnumStart, String] + ts[p + 2..n];
  }

  lemma {:induction false} ItemsCompletes(ts: seq<Kind>, p: nat) returns (items: List, rest: seq<Kind>)
    requires p <= |ts| && Items(ts, p).None?
    ensures var f := ItemsFailure(ts, p); FlattenItems(items) == ts[p..f.at] + rest && Suits(f, rest)
    decreases |ts| - p, 3
  {
    hide Value, Flatten, ValueFailure;
    if Value(ts, p).None? {
      var t;
      t, rest := ValueCompletes(ts, p);
      items := Cons(t, Nil);
    } else {
      var v := Value(ts, p).value;
      ValueReads(ts, p);
      var tail;
      tail, rest := ItemsCompletes(ts, v.next);
      items := Cons(v.what, tail);
      assert ts[p..ItemsFailure(ts, p).at] == ts[p..v.next] + ts[v.next..ItemsFailure(ts, p).at];
    }
  }

  lemma {:induction false} KeyOnly(key: Tree, w: seq<Kind>, rest: seq<Kind>)
    requires Completes(w, rest, key)
    ensures FlattenPairs(Entry(key, Leaf(Null), NoEntries)) == w + (rest + [Null])
  {
    assert Flatten(Leaf(Null)) == [Null];
  }

  lemma {:induction false} PairsCompletes(ts: seq<Kind>, p: nat) returns (pairs: Entries, rest: seq<Kind>)
    requires p <= |ts| && Pairs(ts, p).None?
    ensures var f := PairsFailure(ts, p); FlattenPairs(pairs) == ts[p..f.at] + rest && Suits(f, rest)
    decreases |ts| - p, 3
  {
    hide Value, ValueFailure, Flatten;
    var at := PairsFailure(ts, p).at;
    if Value(ts, p).None? {
      var key, more := ValueCompletes(ts, p);
      pairs, rest := Entry(key, Leaf(Null), NoEntries), more + [Null];
      KeyOnly(key, ts[p..at], more);
    } else {
      var k := Value(ts, p).value;
      ValueReads(ts, p);
      if Value(ts, k.next).None? {
        var value;
        value, rest := ValueCompletes(ts, k.next);
        pairs := Entry(k.what, value, NoEntries);
        assert ts[p..at] == ts[p..k.next] + ts[k.next..at];
      } else {
        var v := Value(ts, k.next).value;
        ValueReads(ts, k.next);
        var more;
        more, rest := PairsCompletes(ts, v.next);
        pairs := Entry(k.what, v.what, more);
        assert ts[p..at] == ts[p..k.next] + (ts[k.next..v.next] + ts[v.next..at]);
      }
    }
  }

  // ---------- the token it stops at cannot be there ----------

  predicate Agree(ts: seq<Kind>, us: seq<Kind>, n: nat) {
    n <= |ts| && n <= |us| && forall i :: 0 <= i < n ==> ts[i] == us[i]
  }

  /** A value is recognised whatever follows it. */
  lemma {:induction false} ValueLocal(ts: seq<Kind>, us: seq<Kind>, p: nat)
    requires p <= |ts| && Value(ts, p).Some? && Agree(ts, us, Value(ts, p).value.next)
    ensures Value(us, p) == Value(ts, p)
  {
    hide Value, Flatten;
    ValueSound(ts, p);
    var v := Value(ts, p).value;
    assert ts[p..v.next] == us[p..v.next];
    ValueComplete(us, p, v.what);
  }

  lemma {:induction false} ValueFailsLocal(ts: seq<Kind>, us: seq<Kind>, p: nat)
    requires p <= |ts| && Value(ts, p).None? && ValueFailure(ts, p).at < |ts| && Agree(ts, us, ValueFailure(ts, p).at + 1)
    ensures Value(us, p).None?
    decreases |ts| - p, 2
  {
    hide Items, Pairs, ValueFailure;
    assert ts[p] == us[p];
    match ts[p]
    case SomeStart => PresentFailsLocal(ts, us, p);
    case SequenceStart => SequenceFailsLocal(ts, us, p);
    case MapStart => MapFailsLocal(ts, us, p);
    case EnumStart => VariantFailsLocal(ts, us, p);
    case _ =>
  }

  lemma {:induction false} PresentFailsLocal(ts: seq<Kind>, us: seq<Kind>, p: nat)
    requires At(ts, p, SomeStart) && Value(ts, p).None? && ValueFailure(ts, p).at < |ts| && Agree(ts, us, ValueFailure(ts, p).at + 1)
    ensures Value(us, p).None?
    decreases |ts| - p, 1
  {
    hide Items, Pairs, ItemsFailure, PairsFailure;
    assert us[p] == SomeStart;
    if Value(ts, p + 1).None? { ValueFailsLocal(ts, us, p + 1); } else { ValueLocal(ts, us, p + 1); }
  }

  lemma {:induction false} SequenceFailsLocal(ts: seq<Kind>, us: seq<Kind>, p: nat)
    requires At(ts, p, SequenceStart) && Value(ts, p).None? && ValueFailure(ts, p).at < |ts| && Agree(ts, us, ValueFailure(ts, p).at + 1)
    ensures Value(us, p).None?
    decreases |ts| - p, 1
  {
    hide Items, Pairs, ItemsFailure, PairsFailure;
    assert us[p] == SequenceStart;
    if Items(ts, p + 1).None? { ItemsFailsLocal(ts, us, p + 1); } else { ItemsStop(ts, p + 1); }
  }

  lemma {:induction false} MapFailsLocal(ts: seq<Kind>, us: seq<Kind>, p: nat)
    requires At(ts, p, MapStart) && Value(ts, p).None? && ValueFailure(ts, p).at < |ts| && Agree(ts, us, ValueFailure(ts, p).at + 1)
    ensures Value(us, p).None?
    decreases |ts| - p, 1
  {
    hide Items, Pairs, ItemsFailure, PairsFailure;
    assert us[p] == MapStart;
    if Pairs(ts, p + 1).None? { PairsFailsLocal(ts, us, p + 1); } else { PairsStop(ts, p + 1); }
  }

  lemma {:induction false} VariantFailsLocal(ts: seq<Kind>, us: seq<Kind>, p: nat)
    requires At(ts, p, EnumStart) && Value(ts, p).None? && ValueFailure(ts, p).at < |ts| && Agree(ts, us, ValueFailure(ts, p).at + 1)
    ensures Value(us, p).None?
    decreases |ts| - p, 1
  {
    hide Items, Pairs, ItemsFailure, PairsFailure;
    assert us[p] == EnumStart;
    if At(ts, p + 1, String) {
      if Value(ts, p + 2).None? { ValueFailsLocal(ts, us, p + 2); } else { ValueLocal(ts, us, p + 2); }
    }
  }

  lemma {:induction false} ItemsStop(ts: seq<Kind>, p: nat)
    requires p <= |ts| && Items(ts, p).Some?
    ensures Items(ts, p).value.next == |ts| || ts[Items(ts, p).value.next].SequenceEnd?
    decreases |ts| - p
  {
    hide Value;
    if p < |ts| && !ts[p].SequenceEnd? { ItemsStop(ts, Value(ts, p).value.next); }
  }

  lemma {:induction false} PairsStop(ts: seq<Kind>, p: nat)
    requires p <= |ts| && Pairs(ts, p).Some?
    ensures Pairs(ts, p).value.next == |ts| || ts[Pairs(ts, p).value.next].MapEnd?
    decreases |ts| - p
  {
    hide Value;
    if p < |ts| && !ts[p].MapEnd? { PairsStop(ts, Value(ts, Value(ts, p).value.next).value.next); }
  }

  lemma {:induction false} ItemsFailsLocal(ts: seq<Kind>, us: seq<Kind>, p: nat)
    requires p <= |ts| && Items(ts, p).None? && ItemsFailure(ts, p).at < |ts| && Agree(ts, us, ItemsFailure(ts, p).at + 1)
    ensures Items(us, p).None?
    decreases |ts| - p, 3
  {
    hide Value, ValueFailure;
    assert ts[p] == us[p];
    if Value(ts, p).None? {
      ValueFailsLocal(ts, us, p);
    } else {
      ValueLocal(ts, us, p);
      ItemsFailsLocal(ts, us, Value(ts, p).value.next);
    }
  }

  lemma {:induction false} PairsFailsLocal(ts: seq<Kind>, us: seq<Kind>, p: nat)
    requires p <= |ts| && Pairs(ts, p).None? && PairsFailure(ts, p).at < |ts| && Agree(ts, us, PairsFailure(ts, p).at + 1)
    ensures Pairs(us, p).None?
    decreases |ts| - p, 3
  {
    hide Value, ValueFailure;
    assert ts[p] == us[p];
    if Value(ts, p).None? {
      ValueFailsLocal(ts, us, p);
    } else {
      ValueLocal(ts, us, p);
      var k := Value(ts, p).value;
      if Value(ts, k.next).None? {
        ValueFailsLocal(ts, us, k.next);
      } else {
        ValueLocal(ts, us, k.next);
        PairsFailsLocal(ts, us, Value(ts, k.next).value.next);
      }
    }
  }

  lemma {:induction false} NotViable(ts: seq<Kind>, p: nat)
    requires p <= |ts| && Value(ts, p).None? && ValueFailure(ts, p).at < |ts|
    ensures !Viable(ts[p..ValueFailure(ts, p).at + 1])
  {
    hide Value, ValueFailure, Flatten;
    var n := ValueFailure(ts, p).at + 1;
    forall t: Tree, rest: seq<Kind>
      ensures !Completes(ts[p..n], rest, t)
    {
      if Completes(ts[p..n], rest, t) {
        var us := ts[..p] + Flatten(t);
        assert us[p..p + |Flatten(t)|] == Flatten(t);
        assert us == ts[..n] + rest;
        ValueComplete(us, p, t);
        ValueFailsLocal(ts, us, p);
      }
    }
  }

  // ---------- the fault ----------

  /** Which fault, from the token alone. */
  predicate Fitting(ts: seq<Kind>, f: Failure)
    requires f.at <= |ts|
  {
    match f.fault
    case UnexpectedEnd => f.at == |ts|
    case TypeMismatch(_, actual) => f.at < |ts| && actual == ActualKind(ts[f.at])
    case UnexpectedCompoundEnd => f.at < |ts| && IsEnd(ts[f.at])
  }

  lemma {:induction false} ValueFitting(ts: seq<Kind>, p: nat)
    requires p <= |ts| && Value(ts, p).None?
    ensures Fitting(ts, ValueFailure(ts, p))
    decreases |ts| - p, 1
  {
    hide Items, Pairs, ItemsFailure, PairsFailure;
    if p < |ts| {
      match ts[p]
      case SomeStart => if Value(ts, p + 1).None? { ValueFitting(ts, p + 1); }
      case SequenceStart => if Items(ts, p + 1).None? { ItemsFitting(ts, p + 1); }
      case MapStart => if Pairs(ts, p + 1).None? { PairsFitting(ts, p + 1); }
      case EnumStart => if At(ts, p + 1, String) && Value(ts, p + 2).None? { ValueFitting(ts, p + 2); }
      case _ =>
    }
  }

  lemma {:induction false} ItemsFitting(ts: seq<Kind>, p: nat)
    requires p <= |ts| && Items(ts, p).None?
    ensures Fitting(ts, ItemsFailure(ts, p))
    decreases |ts| - p, 2
  {
    hide Value, ValueFailure, Fitting;
    match Value(ts, p)
    case None => ValueFitting(ts, p);
    case Some(v) => ItemsFitting(ts, v.next);
  }

  lemma {:induction false} PairsFitting(ts: seq<Kind>, p: nat)
    requires p <= |ts| && Pairs(ts, p).None?
    ensures Fitting(ts, PairsFailure(ts, p))
    decreases |ts| - p, 2
  {
    hide Value, ValueFailure, Fitting;
    match Value(ts, p)
    case None => ValueFitting(ts, p);
    case Some(k) =>
      match Value(ts, k.next)
      case None => ValueFitting(ts, k.next);
      case Some(v) => PairsFitting(ts, v.next);
  }

  /**
    * A failure is at the first token that no value could have there, or at the end if some value could still
    * come of the tokens; and a type mismatch asks for a kind that could stand in that place.
    */
  lemma {:induction false} FailsFirst(ts: seq<Kind>, p: nat)
    requires p <= |ts| && Value(ts, p).None?
    ensures var f := ValueFailure(ts, p);
            && Viable(ts[p..f.at]) && (f.at < |ts| ==> !Viable(ts[p..f.at + 1])) && Fitting(ts, f)
            && (f.fault.TypeMismatch? ==> exists k :: Viable(ts[p..f.at] + [k]) && ActualKind(k) == f.fault.expected)
  {
    hide Value, ValueFailure, Fitting, Flatten;
    var f := ValueFailure(ts, p);
    var t, rest := ValueCompletes(ts, p);
    assert ts[p..f.at] + rest == (ts[p..f.at] + [rest[0]]) + rest[1..];
    assert Completes(ts[p..f.at] + [rest[0]], rest[1..], t);
    if f.at < |ts| { NotViable(ts, p); }
    ValueFitting(ts, p);
  }

  /** The tokens run out if and only if more of them could make a value. */
  lemma {:induction false} EndIff(ts: seq<Kind>, p: nat)
    requires p <= |ts| && Value(ts, p).None?
    ensures ValueFailure(ts, p).fault == UnexpectedEnd <==> Viable(ts[p..])
  {
    hide Value, ValueFailure, Completes;
    var f := ValueFailure(ts, p);
    FailsFirst(ts, p);
    if f.at < |ts| {
      if Viable(ts[p..]) {
        var t, rest :| Completes(ts[p..], rest, t);
        LongerCompletes(ts, p, f.at + 1, rest, t);
      }
    } else {
      assert ts[p..f.at] == ts[p..];
    }
  }

  lemma {:induction false} LongerCompletes(ts: seq<Kind>, p: nat, n: nat, rest: seq<Kind>, t: Tree)
    requires p <= n <= |ts| && Completes(ts[p..], rest, t)
    ensures Completes(ts[p..n], ts[n..] + rest, t)
  {
    assert ts[p..] + rest == ts[p..n] + (ts[n..] + rest);
  }
}
