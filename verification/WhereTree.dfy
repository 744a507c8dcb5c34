/** The query compiler of src/common/models.py: `parse_where` turns nested dicts into a
    SQL predicate, and the tenant store adds its scope to the dict first.

    Rows may hold NULLs, so the compiled predicate is evaluated in SQL's three-valued
    logic; what it should mean is a plain two-valued reading of the dict. */
module WhereTree {
  import opened Wrappers
  import opened LikePattern
  import Text

  datatype Value = Null | Int(n: int) | Str(s: string)

  type Row = map<string, Value>

  function Cell(row: Row, col: string): Value {
    if col in row then row[col] else Null
  }

  // ---------- the dict language ----------

  datatype Comparison = Lt | Gt | Le | Ge | Ne

  datatype TextOp = Contains | IContains | StartsWith | IStartsWith | EndsWith | IEndsWith

  datatype Op = Compare(c: Comparison, v: Value) | TextMatch(t: TextOp, text: string) | Other(name: string)

  datatype Entry =
    | AnyOf(subs: seq<Tree>)                  // "OR": [...]
    | AllOf(subs: seq<Tree>)                  // "AND": [...]
    | Insensitive(col: string, text: string)  // {"mode": "insensitive", "value": ...}
    | Ops(col: string, ops: seq<Op>)          // {"gt": ..., "ne": ...}
    | Equals(col: string, v: Value)

  datatype Tree = Tree(entries: seq<Entry>)

  // ---------- the plain reading ----------

  /** A subtree that says nothing. It is skipped where it stands; it is not TRUE. */
  predicate Absent(w: Tree) {
    forall e | e in w.entries :: AbsentEntry(e)
  }

  predicate AbsentEntry(e: Entry) {
    match e
    case AnyOf(subs) => forall s | s in subs :: Absent(s)
    case AllOf(subs) => forall s | s in subs :: Absent(s)
    case Ops(_, ops) => ops == []
    case _ => false
  }

  predicate Holds(w: Tree, row: Row) {
    forall e | e in w.entries :: HoldsEntry(e, row)
  }

  predicate HoldsEntry(e: Entry, row: Row) {
    match e
    case AnyOf(subs) =>
      AbsentEntry(e) || exists s | s in subs :: !Absent(s) && Holds(s, row)
    case AllOf(subs) => forall s | s in subs :: Holds(s, row)
    case Insensitive(col, text) =>
      var c := Cell(row, col);
      c.Str? && Text.Lower(c.s) == Text.Lower(text)
    case Ops(col, ops) => forall op | op in ops :: HoldsOp(op, Cell(row, col))
    case Equals(col, v) => Cell(row, col) == v
  }

  predicate HoldsOp(op: Op, c: Value) {
    match op
    case Compare(Ne, Null) => c != Null
    case Compare(Ne, v) => SameKind(c, v) && c != v
    case Compare(Lt, v) => Less(c, v)
    case Compare(Gt, v) => Less(v, c)
    case Compare(Le, v) => SameKind(c, v) && !Less(v, c)
    case Compare(Ge, v) => SameKind(c, v) && !Less(c, v)
    case TextMatch(t, text) => c.Str? && Like(Folded(t, c.s), Pattern(t, text))
    case Other(_) => false
  }

  predicate SameKind(a: Value, b: Value) {
    (a.Int? && b.Int?) || (a.Str? && b.Str?)
  }

  predicate Less(a: Value, b: Value) {
    (a.Int? && b.Int? && a.n < b.n) || (a.Str? && b.Str? && Text.Before(a.s, b.s))
  }

  predicate FoldsCase(t: TextOp) {
    t == Contains || t == IContains || t == IStartsWith || t == IEndsWith
  }

  function Folded(t: TextOp, s: string): string {
    if FoldsCase(t) then Text.Lower(s) else s
  }

  function Pattern(t: TextOp, text: string): string {
    var v := Folded(t, text);
    match t
    case Contains => ANY + v + ANY
    case IContains => ANY + v + ANY
    case StartsWith => v + ANY
    case IStartsWith => v + ANY
    case EndsWith => ANY + v
    case IEndsWith => ANY + v
  }

  /** `OR: [{}, {a: 1}]` says `a = 1`: an absent alternative is dropped rather than
      making the whole OR true, and `OR: []` says nothing. */
  lemma AbsentAlternativeIsSkipped(a: Tree, subs: seq<Tree>, row: Row)
    requires Absent(a)
    ensures HoldsEntry(AnyOf([a] + subs), row) <==> HoldsEntry(AnyOf(subs), row)
    ensures HoldsEntry(AllOf([a] + subs), row) <==> HoldsEntry(AllOf(subs), row)
    ensures HoldsEntry(AnyOf([]), row)
  {
    assert forall s :: s in [a] + subs <==> s == a || s in subs;
    AbsentHolds(a);
  }

  /** What a text operator's name says, on a text cell: somewhere in it, at its start or at
      its end, regardless of case for all but `startswith` and `endswith`. */
  predicate TextMeans(t: TextOp, v: string, s: string) {
    match t
    case Contains => Text.Occurs(Text.Lower(v), Text.Lower(s))
    case IContains => Text.Occurs(Text.Lower(v), Text.Lower(s))
    case StartsWith => v <= s
    case IStartsWith => Text.Lower(v) <= Text.Lower(s)
    case EndsWith => IsSuffix(v, s)
    case IEndsWith => IsSuffix(Text.Lower(v), Text.Lower(s))
  }

  lemma TextMeansFolded(t: TextOp, v: string, s: string)
    ensures TextMeans(t, v, s) <==>
            match t
            case Contains => Text.Occurs(Folded(t, v), Folded(t, s))
            case IContains => Text.Occurs(Folded(t, v), Folded(t, s))
            case StartsWith => Folded(t, v) <= Folded(t, s)
            case IStartsWith => Folded(t, v) <= Folded(t, s)
            case EndsWith => IsSuffix(Folded(t, v), Folded(t, s))
            case IEndsWith => IsSuffix(Folded(t, v), Folded(t, s))
  {
    hide Text.Occurs, IsSuffix, Text.Lower;
  }

  /** Each of the six operators does what its name says, on every cell, exactly when the
      caller's text has none of LIKE's special characters. */
  lemma TextOperatorsMeanTheirNames(t: TextOp, v: string)
    ensures (forall s :: HoldsOp(TextMatch(t, v), Str(s)) <==> TextMeans(t, v, s)) <==> Plain(v)
  {
    if Plain(v) {
      forall s
        ensures HoldsOp(TextMatch(t, v), Str(s)) <==> TextMeans(t, v, s)
      {
        PlainTextIsRead(t, v, s);
      }
    } else {
      OtherTextIsMisread(t, v);
    }
  }

  lemma PlainTextIsRead(t: TextOp, v: string, s: string)
    requires Plain(v)
    ensures HoldsOp(TextMatch(t, v), Str(s)) <==> TextMeans(t, v, s)
  {
    hide Like, Plain, Text.Occurs, IsSuffix, Folded;
    FoldingKeepsPlain(t, v);
    TextMeansFolded(t, v, s);
    PlainContains(Folded(t, s), Folded(t, v));
    PlainStartsWith(Folded(t, s), Folded(t, v));
    PlainEndsWith(Folded(t, s), Folded(t, v));
  }

  lemma OtherTextIsMisread(t: TextOp, v: string)
    requires !Plain(v)
    ensures exists s :: !(HoldsOp(TextMatch(t, v), Str(s)) <==> TextMeans(t, v, s))
  {
    hide Like, Plain, Text.Occurs, IsSuffix, Folded, Misread;
    var text := Folded(t, v);
    var tail := t != EndsWith && t != IEndsWith;
    var s := Misread(text, tail);
    FoldingKeepsPlain(t, v);
    MisreadIsFolded(t, v, tail);
    TextMeansFolded(t, v, s);
    if t == Contains || t == IContains {
      MisreadContains(text);
    } else if tail {
      MisreadStartsWith(text);
    } else {
      MisreadEndsWith(text);
    }
    assert !(HoldsOp(TextMatch(t, v), Str(s)) <==> TextMeans(t, v, s));
  }

  lemma FoldingKeepsPlain(t: TextOp, v: string)
    ensures Plain(Folded(t, v)) <==> Plain(v)
  {
    var f := Folded(t, v);
    forall i | 0 <= i < |v|
      ensures f[i] in f && v[i] in v
      ensures f[i] in "%_\\" <==> v[i] in "%_\\"
    {
    }
  }

  // ---------- what the other entries say ----------

  /** What says nothing: no key, no operator, and junctions of nothing else. */
  lemma WhatIsAbsent(col: string, v: Value, op: Op, text: string, a: Tree, b: Tree)
    ensures Absent(Tree([])) && Absent(Tree([Ops(col, [])])) && Absent(Tree([AnyOf([])])) && Absent(Tree([AllOf([])]))
    ensures !Absent(Tree([Equals(col, v)])) && !Absent(Tree([Insensitive(col, text)]))
    ensures !Absent(Tree([Ops(col, [op])]))
    ensures Absent(Tree([AnyOf([a, b])])) <==> Absent(a) && Absent(b)
    ensures Absent(Tree([AllOf([a, b])])) <==> Absent(a) && Absent(b)
    ensures Absent(Tree(a.entries + b.entries)) <==> Absent(a) && Absent(b)
  {
    assert Equals(col, v) in Tree([Equals(col, v)]).entries;
    assert Insensitive(col, text) in Tree([Insensitive(col, text)]).entries;
    assert Ops(col, [op]) in Tree([Ops(col, [op])]).entries;
    assert AnyOf([a, b]) in Tree([AnyOf([a, b])]).entries && AllOf([a, b]) in Tree([AllOf([a, b])]).entries;
    assert a in [a, b] && b in [a, b];
    assert forall e :: e in a.entries + b.entries <==> e in a.entries || e in b.entries;
  }

  /** On numbers each comparison is what its name says. */
  lemma ComparisonsOfNumbers(a: int, b: int)
    ensures HoldsOp(Compare(Lt, Int(b)), Int(a)) <==> a < b
    ensures HoldsOp(Compare(Gt, Int(b)), Int(a)) <==> a > b
    ensures HoldsOp(Compare(Le, Int(b)), Int(a)) <==> a <= b
    ensures HoldsOp(Compare(Ge, Int(b)), Int(a)) <==> a >= b
    ensures HoldsOp(Compare(Ne, Int(b)), Int(a)) <==> a != b
  {
  }

  /** On texts, `a` is less than `b` when at the first place where they part `a` has ended
      or has the lower code point. */
  lemma ComparisonsOfTexts(a: string, b: string)
    ensures HoldsOp(Compare(Lt, Str(b)), Str(a)) <==>
            exists k: nat :: k < |b| && k <= |a| && a[..k] == b[..k] && (k == |a| || a[k] < b[k])
    ensures HoldsOp(Compare(Gt, Str(b)), Str(a)) <==>
            exists k: nat :: k < |a| && k <= |b| && a[..k] == b[..k] && (k == |b| || b[k] < a[k])
    ensures HoldsOp(Compare(Le, Str(b)), Str(a)) <==> HoldsOp(Compare(Lt, Str(b)), Str(a)) || a == b
    ensures HoldsOp(Compare(Ge, Str(b)), Str(a)) <==> HoldsOp(Compare(Gt, Str(b)), Str(a)) || a == b
    ensures HoldsOp(Compare(Ne, Str(b)), Str(a)) <==> a != b
  {
    Text.BeforeAtFirstDifference(a, b);
    Text.BeforeAtFirstDifference(b, a);
    Text.BeforeIsTotal(a, b);
    Text.BeforeIsTotal(b, a);
    if k: nat :| Text.PartsBelow(a, b, k) {
      assert k < |b| && k <= |a| && a[..k] == b[..k] && (k == |a| || a[k] < b[k]);
    }
    if k: nat :| Text.PartsBelow(b, a, k) {
      assert k < |a| && k <= |b| && a[..k] == b[..k] && (k == |b| || b[k] < a[k]);
    }
    if k: nat :| k < |b| && k <= |a| && a[..k] == b[..k] && (k == |a| || a[k] < b[k]) {
      assert Text.PartsBelow(a, b, k);
    }
    if k: nat :| k < |a| && k <= |b| && a[..k] == b[..k] && (k == |b| || b[k] < a[k]) {
      assert Text.PartsBelow(b, a, k);
    }
  }

  /** NULL satisfies no comparison; only `ne: None` asks for its absence. */
  lemma ComparisonsWithNull(c: Comparison, v: Value, cell: Value)
    ensures !HoldsOp(Compare(c, v), Null)
    ensures HoldsOp(Compare(Ne, Null), cell) <==> cell != Null
    ensures c != Ne ==> !HoldsOp(Compare(c, Null), cell)
  {
  }

  /** OR holds when some alternative that says something does, AND when both do, a dict when
      all its keys do, and an operator dict when all its operators do. */
  lemma JunctionsMeanTheirNames(a: Tree, b: Tree, col: string, p: Op, q: Op, row: Row)
    ensures !Absent(a) && !Absent(b) ==> (HoldsEntry(AnyOf([a, b]), row) <==> Holds(a, row) || Holds(b, row))
    ensures HoldsEntry(AllOf([a, b]), row) <==> Holds(a, row) && Holds(b, row)
    ensures Holds(Tree(a.entries + b.entries), row) <==> Holds(a, row) && Holds(b, row)
    ensures HoldsEntry(Ops(col, [p, q]), row) <==>
            if col in row then HoldsOp(p, row[col]) && HoldsOp(q, row[col])
            else HoldsOp(p, Null) && HoldsOp(q, Null)
  {
    assert a in [a, b] && b in [a, b] && p in [p, q] && q in [p, q];
    assert forall e :: e in a.entries + b.entries <==> e in a.entries || e in b.entries;
  }

  /** A plain key asks for equality, None for NULL, and the insensitive mode for a text of the
      same letters in either case. */
  lemma PlainKeysMeanEquality(col: string, v: Value, text: string, row: Row)
    ensures v != Null ==> (HoldsEntry(Equals(col, v), row) <==> col in row && row[col] == v)
    ensures HoldsEntry(Equals(col, Null), row) <==> col !in row || row[col] == Null
    ensures HoldsEntry(Insensitive(col, text), row) <==>
            && col in row && row[col].Str? && |row[col].s| == |text|
            && forall i | 0 <= i < |text| ::
                 || row[col].s[i] == text[i]
                 || ('A' <= text[i] <= 'Z' && row[col].s[i] as int == text[i] as int + 32)
                 || ('a' <= text[i] <= 'z' && row[col].s[i] as int == text[i] as int - 32)
  {
    if col in row && row[col].Str? && |row[col].s| == |text| {
      var s := row[col].s;
      assert Text.Lower(s) == Text.Lower(text) <==>
             forall i | 0 <= i < |text| :: Text.Lower(s)[i] == Text.Lower(text)[i];
      forall i | 0 <= i < |text|
        ensures Text.Lower(s)[i] == Text.Lower(text)[i] <==>
                || s[i] == text[i]
                || ('A' <= text[i] <= 'Z' && s[i] as int == text[i] as int + 32)
                || ('a' <= text[i] <= 'z' && s[i] as int == text[i] as int - 32)
      {
      }
    } else if col in row && row[col].Str? {
      assert |Text.Lower(row[col].s)| == |row[col].s| && |Text.Lower(text)| == |text|;
    }
  }

  predicate LowerCase(s: string) {
    forall i | 0 <= i < |s| :: Text.LowerChar(s[i]) == s[i]
  }

  lemma {:induction false} SampleIsLowerCase(p: string)
    requires LowerCase(p)
    ensures LowerCase(Sample(p))
    decreases |p|
  {
    if p == "" {
    } else if p[0] == '\\' {
      if |p| > 1 {
        SampleIsLowerCase(p[2..]);
      }
    } else {
      SampleIsLowerCase(p[1..]);
    }
  }

  // The misleading text survives the folding of the cell it is put in.
  lemma MisreadIsFolded(t: TextOp, v: string, tail: bool)
    ensures var s := Misread(Folded(t, v), tail);
            Folded(t, s) == s
  {
    if FoldsCase(t) {
      var text := Text.Lower(v);
      assert LowerCase(text) && LowerCase(text + ANY);
      SampleIsLowerCase(text + ANY);
      SampleIsLowerCase(text);
    }
  }

  // ---------- SQL ----------

  datatype Truth = False3 | Unknown | True3

  datatype Expr =
    | IsNull(col: string)
    | IsNotNull(col: string)
    | Equal(col: string, v: Value)
    | Binary(c: Comparison, col: string, v: Value)
    | LowerEqual(col: string, lowered: string)
    | LikeCell(fold: bool, col: string, pattern: string)
    | And(es: seq<Expr>)
    | Or(es: seq<Expr>)

  function Truly(b: bool): Truth {
    if b then True3 else False3
  }

  /** Kleene's logic: a comparison with NULL is unknown, `IS NULL` never is. */
  function Eval(e: Expr, row: Row): Truth {
    match e
    case IsNull(col) => Truly(Cell(row, col) == Null)
    case IsNotNull(col) => Truly(Cell(row, col) != Null)
    case Equal(col, v) =>
      if !SameKind(Cell(row, col), v) then Unknown else Truly(Cell(row, col) == v)
    case Binary(c, col, v) => EvalComparison(c, Cell(row, col), v)
    case LowerEqual(col, lowered) =>
      if !Cell(row, col).Str? then Unknown else Truly(Text.Lower(Cell(row, col).s) == lowered)
    case LikeCell(fold, col, pattern) =>
      if !Cell(row, col).Str? then Unknown
      else Truly(Like(if fold then Text.Lower(Cell(row, col).s) else Cell(row, col).s, pattern))
    case And(es) =>
      if exists x | x in es :: Eval(x, row) == False3 then False3
      else if exists x | x in es :: Eval(x, row) == Unknown then Unknown
      else True3
    case Or(es) =>
      if exists x | x in es :: Eval(x, row) == True3 then True3
      else if exists x | x in es :: Eval(x, row) == Unknown then Unknown
      else False3
  }

  function EvalComparison(c: Comparison, a: Value, b: Value): Truth {
    if !SameKind(a, b) then Unknown
    else match c
      case Lt => Truly(Less(a, b))
      case Gt => Truly(Less(b, a))
      case Le => Truly(!Less(b, a))
      case Ge => Truly(!Less(a, b))
      case Ne => Truly(a != b)
  }

  predicate Selects(e: Expr, row: Row) {
    Eval(e, row) == True3
  }

  ghost predicate AllSelect(es: seq<Expr>, row: Row) {
    forall e | e in es :: Selects(e, row)
  }

  ghost predicate SomeSelects(es: seq<Expr>, row: Row) {
    exists e | e in es :: Selects(e, row)
  }

  // ---------- the compiler ----------

  datatype ParseError =
    | UnknownColumn(col: string)         // getattr fails
    | UnsupportedOperator(name: string)
    | OrderingWithNone(col: string)      // SQLAlchemy refuses `col > None`

  predicate Compilable(schema: set<string>, w: Tree) {
    forall e | e in w.entries :: CompilableEntry(schema, e)
  }

  predicate CompilableEntry(schema: set<string>, e: Entry) {
    match e
    case AnyOf(subs) => forall s | s in subs :: Compilable(schema, s)
    case AllOf(subs) => forall s | s in subs :: Compilable(schema, s)
    case Insensitive(col, _) => col in schema
    case Ops(col, ops) => forall op | op in ops :: col in schema && CompilableOp(op)
    case Equals(col, _) => col in schema
  }

  predicate CompilableOp(op: Op) {
    match op
    case Compare(c, v) => c == Ne || v != Null
    case TextMatch(_, _) => true
    case Other(_) => false
  }

  /** What compiles: known columns, known operators, and no ordering against None. */
  lemma WhatCompiles(schema: set<string>, col: string, v: Value, text: string, c: Comparison, t: TextOp)
    ensures Compilable(schema, Tree([Equals(col, v)])) <==> col in schema
    ensures Compilable(schema, Tree([Insensitive(col, text)])) <==> col in schema
    ensures Compilable(schema, Tree([Ops(col, [Compare(c, v)])])) <==> col in schema && (c == Ne || v != Null)
    ensures Compilable(schema, Tree([Ops(col, [TextMatch(t, text)])])) <==> col in schema
    ensures !Compilable(schema, Tree([Ops(col, [Other(text)])]))
    ensures Compilable(schema, Tree([Ops(col, [])]))
  {
    hide Compilable;
    OneEntryCompiles(schema, Equals(col, v));
    OneEntryCompiles(schema, Insensitive(col, text));
    OneOpCompiles(schema, col, Compare(c, v));
    OneOpCompiles(schema, col, TextMatch(t, text));
    OneOpCompiles(schema, col, Other(text));
    OneEntryCompiles(schema, Ops(col, []));
  }

  /** A junction or a longer dict compiles when its parts do, said or unsaid. */
  lemma PartsCompile(schema: set<string>, a: Tree, b: Tree)
    ensures Compilable(schema, Tree([AnyOf([a, b])])) <==> Compilable(schema, a) && Compilable(schema, b)
    ensures Compilable(schema, Tree([AllOf([a, b])])) <==> Compilable(schema, a) && Compilable(schema, b)
    ensures Compilable(schema, Tree(a.entries + b.entries)) <==> Compilable(schema, a) && Compilable(schema, b)
  {
    hide Compilable;
    OneEntryCompiles(schema, AnyOf([a, b]));
    OneEntryCompiles(schema, AllOf([a, b]));
    assert a in [a, b] && b in [a, b];
    BothCompile(schema, a, b);
  }

  lemma OneOpCompiles(schema: set<string>, col: string, op: Op)
    ensures Compilable(schema, Tree([Ops(col, [op])])) <==> col in schema && CompilableOp(op)
  {
    hide Compilable;
    OneEntryCompiles(schema, Ops(col, [op]));
    assert op in [op];
  }

  lemma OneEntryCompiles(schema: set<string>, e: Entry)
    ensures Compilable(schema, Tree([e])) <==> CompilableEntry(schema, e)
  {
    assert e in Tree([e]).entries;
  }

  lemma BothCompile(schema: set<string>, a: Tree, b: Tree)
    ensures Compilable(schema, Tree(a.entries + b.entries)) <==> Compilable(schema, a) && Compilable(schema, b)
  {
    assert forall e :: e in a.entries + b.entries <==> e in a.entries || e in b.entries;
  }

  /** The fault is really in the dict. */
  predicate Blames(schema: set<string>, w: Tree, f: ParseError) {
    exists e | e in w.entries :: BlamesEntry(schema, e, f)
  }

  predicate BlamesEntry(schema: set<string>, e: Entry, f: ParseError) {
    match e
    case AnyOf(subs) => exists s | s in subs :: Blames(schema, s, f)
    case AllOf(subs) => exists s | s in subs :: Blames(schema, s, f)
    case Insensitive(col, _) => col !in schema && f == UnknownColumn(col)
    case Ops(col, ops) => exists op | op in ops :: BlamesOp(schema, col, op, f)
    case Equals(col, _) => col !in schema && f == UnknownColumn(col)
  }

  predicate BlamesOp(schema: set<string>, col: string, op: Op, f: ParseError) {
    if col !in schema then f == UnknownColumn(col)
    else
      || (op.Other? && f == UnsupportedOperator(op.name))
      || (op.Compare? && op.c != Ne && op.v == Null && f == OrderingWithNone(col))
  }

  /** `parse_where`: the compiled predicate selects a row exactly when the plain reading
      of the dict holds of it, and there is no predicate exactly when the dict is absent. */
  method ParseWhere(schema: set<string>, w: Tree) returns (r: Result<Option<Expr>, ParseError>)
    ensures r.Success? <==> Compilable(schema, w)
    ensures r.Failure? ==> Blames(schema, w, r.error)
    ensures r.Success? ==> (r.value.None? <==> Absent(w))
    ensures r.Success? && r.value.Some? ==>
              forall row :: Selects(r.value.value, row) <==> Holds(w, row)
    decreases w, 1
  {
    if w.entries == [] {
      return Success(None);
    }
    var expressions: seq<Expr> := [];
    for i := 0 to |w.entries|
      invariant forall j | 0 <= j < i :: CompilableEntry(schema, w.entries[j])
      invariant expressions == [] <==> forall j | 0 <= j < i :: AbsentEntry(w.entries[j])
      invariant forall row ::
          AllSelect(expressions, row) <==> forall j | 0 <= j < i :: HoldsEntry(w.entries[j], row)
    {
      var more := ParseEntry(schema, w.entries[i]);
      if more.Failure? {
        return Failure(more.error);
      }
      forall row
        ensures AllSelect(expressions + more.value, row) <==>
                AllSelect(expressions, row) && AllSelect(more.value, row)
      {
        AllSelectAppend(expressions, more.value, row);
      }
      expressions := expressions + more.value;
    }
    if expressions == [] {
      return Success(None);
    }
    JunctionsSelect(expressions);
    return Success(Some(And(expressions)));
  }

  lemma AllSelectOne(x: Expr)
    ensures forall row :: AllSelect([x], row) <==> Selects(x, row)
  {
    assert x in [x];
  }

  lemma JunctionsSelect(es: seq<Expr>)
    ensures forall row :: Selects(And(es), row) <==> AllSelect(es, row)
    ensures forall row :: AllSelect([And(es)], row) <==> AllSelect(es, row)
    ensures forall row :: AllSelect([Or(es)], row) <==> SomeSelects(es, row)
  {
    forall row
      ensures Selects(And(es), row) <==> AllSelect(es, row)
      ensures Selects(Or(es), row) <==> SomeSelects(es, row)
    {
    }
    AllSelectOne(And(es));
    AllSelectOne(Or(es));
  }

  lemma AllSelectAppend(a: seq<Expr>, b: seq<Expr>, row: Row)
    ensures AllSelect(a + b, row) <==> AllSelect(a, row) && AllSelect(b, row)
  {
    assert forall e :: e in a + b <==> e in a || e in b;
  }

  // One key of the dict: the expressions it appends.
  method ParseEntry(schema: set<string>, e: Entry) returns (r: Result<seq<Expr>, ParseError>)
    ensures r.Success? <==> CompilableEntry(schema, e)
    ensures r.Failure? ==> BlamesEntry(schema, e, r.error)
    ensures r.Success? ==> (r.value == [] <==> AbsentEntry(e))
    ensures r.Success? ==> forall row :: AllSelect(r.value, row) <==> HoldsEntry(e, row)
    decreases e, 1
  {
    match e
    case AnyOf(subs) =>
      var conditions := ParseList(schema, subs);
      if conditions.Failure? {
        return Failure(conditions.error);
      }
      JunctionsSelect(conditions.value);
      return Success(if conditions.value == [] then [] else [Or(conditions.value)]);
    case AllOf(subs) =>
      var conditions := ParseList(schema, subs);
      if conditions.Failure? {
        return Failure(conditions.error);
      }
      JunctionsSelect(conditions.value);
      return Success(if conditions.value == [] then [] else [And(conditions.value)]);
    case Insensitive(col, text) =>
      if col !in schema {
        return Failure(UnknownColumn(col));
      }
      AllSelectOne(LowerEqual(col, Text.Lower(text)));
      return Success([LowerEqual(col, Text.Lower(text))]);
    case Ops(col, ops) =>
      r := ParseOps(schema, col, ops);
    case Equals(col, v) =>
      if col !in schema {
        return Failure(UnknownColumn(col));
      }
      var x := if v == Null then IsNull(col) else Equal(col, v);
      AllSelectOne(x);
      return Success([x]);
  }

  // The list comprehension that compiles every alternative and drops the absent ones.
  method ParseList(schema: set<string>, subs: seq<Tree>) returns (r: Result<seq<Expr>, ParseError>)
    ensures r.Success? <==> forall s | s in subs :: Compilable(schema, s)
    ensures r.Failure? ==> exists s | s in subs :: Blames(schema, s, r.error)
    ensures r.Success? ==> (r.value == [] <==> forall s | s in subs :: Absent(s))
    ensures r.Success? ==> forall row ::
                AllSelect(r.value, row) <==> forall s | s in subs :: Holds(s, row)
    ensures r.Success? ==> forall row ::
                SomeSelects(r.value, row) <==> exists s | s in subs :: !Absent(s) && Holds(s, row)
    decreases subs, 0
  {
    var conditions: seq<Expr> := [];
    for i := 0 to |subs|
      invariant forall j | 0 <= j < i :: Compilable(schema, subs[j])
      invariant conditions == [] <==> forall j | 0 <= j < i :: Absent(subs[j])
      invariant forall row ::
          AllSelect(conditions, row) <==> forall j | 0 <= j < i :: Holds(subs[j], row)
      invariant forall row :: SomeSelects(conditions, row) <==>
          exists j | 0 <= j < i :: !Absent(subs[j]) && Holds(subs[j], row)
    {
      var c := ParseWhere(schema, subs[i]);
      if c.Failure? {
        return Failure(c.error);
      }
      if c.value.Some? {
        forall row
          ensures AllSelect(conditions + [c.value.value], row) <==>
                  AllSelect(conditions, row) && Selects(c.value.value, row)
          ensures SomeSelects(conditions + [c.value.value], row) <==>
                  SomeSelects(conditions, row) || Selects(c.value.value, row)
        {
          SelectAppendOne(conditions, c.value.value, row);
        }
        conditions := conditions + [c.value.value];
      } else {
        AbsentHolds(subs[i]);
      }
    }
    return Success(conditions);
  }

  lemma SelectAppendOne(a: seq<Expr>, x: Expr, row: Row)
    ensures AllSelect(a + [x], row) <==> AllSelect(a, row) && Selects(x, row)
    ensures SomeSelects(a + [x], row) <==> SomeSelects(a, row) || Selects(x, row)
  {
    assert forall e :: e in a + [x] <==> e in a || e == x;
  }

  lemma {:induction false} AbsentHolds(w: Tree)
    requires Absent(w)
    ensures forall row :: Holds(w, row)
  {
    forall e, row | e in w.entries
      ensures HoldsEntry(e, row)
    {
      if e.AllOf? {
        forall s | s in e.subs
          ensures Holds(s, row)
        {
          AbsentHolds(s);
        }
      }
    }
  }

  method ParseOps(schema: set<string>, col: string, ops: seq<Op>) returns (r: Result<seq<Expr>, ParseError>)
    ensures r.Success? <==> forall op | op in ops :: col in schema && CompilableOp(op)
    ensures r.Failure? ==> exists op | op in ops :: BlamesOp(schema, col, op, r.error)
    ensures r.Success? ==> (r.value == [] <==> ops == [])
    ensures r.Success? ==> forall row ::
                AllSelect(r.value, row) <==> forall op | op in ops :: HoldsOp(op, Cell(row, col))
    decreases ops, 0
  {
    var expressions: seq<Expr> := [];
    for i := 0 to |ops|
      invariant |expressions| == i
      invariant forall j | 0 <= j < i :: col in schema && CompilableOp(ops[j])
      invariant forall j, row | 0 <= j < i ::
          Selects(expressions[j], row) <==> HoldsOp(ops[j], Cell(row, col))
    {
      assert ops[i] in ops;
      if col !in schema {
        return Failure(UnknownColumn(col));
      }
      var x: Expr;
      match ops[i] {
        case Other(name) =>
          return Failure(UnsupportedOperator(name));
        case Compare(c, v) =>
          if v == Null && c != Ne {
            return Failure(OrderingWithNone(col));
          }
          x := if v == Null then IsNotNull(col) else Binary(c, col, v);
        case TextMatch(t, text) =>
          x := LikeCell(FoldsCase(t), col, Pattern(t, text));
      }
      expressions := expressions + [x];
    }
    forall row
      ensures AllSelect(expressions, row) <==> forall op | op in ops :: HoldsOp(op, Cell(row, col))
    {
      assert AllSelect(expressions, row) <==> forall j | 0 <= j < |ops| :: Selects(expressions[j], row);
      assert forall j | 0 <= j < |ops| :: Selects(expressions[j], row) <==> HoldsOp(ops[j], Cell(row, col));
    }
    return Success(expressions);
  }
}
