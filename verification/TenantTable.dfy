/** `TenantModel` of src/common/models.py: a table whose queries are narrowed to the
    context tenant and to rows that are not soft-deleted, by editing the caller's dict. */
module TenantTable {
  import opened Wrappers
  import opened WhereTree

  const ORG := "organization_id"
  const DELETED := "deleted_at"
  const ID := "id"

  function KeyOf(e: Entry): string {
    match e
    case AnyOf(_) => "OR"
    case AllOf(_) => "AND"
    case Insensitive(col, _) => col
    case Ops(col, _) => col
    case Equals(col, _) => col
  }

  /** `col in where`: only the dict's own keys count, not those inside its OR and AND. */
  predicate Names(w: Tree, col: string) {
    exists e | e in w.entries :: KeyOf(e) == col
  }

  // `where.setdefault(col, v)`.
  function SetDefault(w: Tree, col: string, v: Value): Tree {
    if Names(w, col) then w else Tree(w.entries + [Equals(col, v)])
  }

  function TenantScoped(w: Tree, ctx: Value): Tree {
    SetDefault(w, ORG, ctx)
  }

  function Scoped(w: Tree, ctx: Value): Tree {
    SetDefault(TenantScoped(w, ctx), DELETED, Null)
  }

  function Matching(rows: seq<Row>, w: Tree): (r: seq<Row>)
    ensures forall row :: row in r <==> row in rows && Holds(w, row)
  {
    if rows == [] then []
    else (if Holds(w, rows[0]) then [rows[0]] else []) + Matching(rows[1..], w)
  }

  /** OFFSET and LIMIT. */
  function Window(rows: seq<Row>, skip: nat, limit: Option<nat>): seq<Row> {
    var rest := if skip < |rows| then rows[skip..] else [];
    if limit.Some? && limit.value < |rest| then rest[..limit.value] else rest
  }

  /** The matches stand in table order, each as often as it is stored. */
  lemma {:induction false} MatchingKeepsOrder(a: seq<Row>, b: seq<Row>, w: Tree)
    ensures Matching(a + b, w) == Matching(a, w) + Matching(b, w)
    decreases |b|
  {
    if b == [] {
      assert a + b == a && Matching(b, w) == [];
    } else {
      hide Matching, Holds;
      var init, last := b[..|b| - 1], b[|b| - 1];
      MatchingKeepsOrder(a, init, w);
      LastApart(a, b);
      MatchingAppend(a + init, last, w);
      MatchingAppend(init, last, w);
      Associates(Matching(a, w), Matching(init, w), if Holds(w, last) then [last] else []);
    }
  }

  lemma LastApart<T>(a: seq<T>, b: seq<T>)
    requires b != []
    ensures b == b[..|b| - 1] + [b[|b| - 1]]
    ensures a + b == (a + b[..|b| - 1]) + [b[|b| - 1]]
  {
  }

  lemma Associates<T>(a: seq<T>, b: seq<T>, c: seq<T>)
    ensures (a + b) + c == a + (b + c)
  {
  }

  lemma MatchingOne(row: Row, w: Tree)
    ensures Matching([row], w) == if Holds(w, row) then [row] else []
  {
    assert [row][1..] == [];
  }

  /** The first `skip` rows are passed over, and of the rest the first `limit` are returned. */
  lemma WindowSkipsThenTakes(rows: seq<Row>, skip: nat, limit: Option<nat>)
    ensures var left := if skip < |rows| then |rows| - skip else 0;
            var r := Window(rows, skip, limit);
            && |r| == (if limit.Some? && limit.value < left then limit.value else left)
            && forall k | 0 <= k < |r| :: r[k] == rows[skip + k]
  {
  }

  lemma SetDefaultMeaning(w: Tree, col: string, v: Value, row: Row)
    ensures Holds(SetDefault(w, col, v), row) <==>
            Holds(w, row) && (Names(w, col) || Cell(row, col) == v)
  {
    var d := SetDefault(w, col, v);
    if !Names(w, col) {
      assert forall e :: e in d.entries <==> e in w.entries || e == Equals(col, v);
      assert HoldsEntry(Equals(col, v), row) <==> Cell(row, col) == v;
    }
  }

  lemma SetDefaultNames(w: Tree, col: string, v: Value, other: string)
    ensures Names(SetDefault(w, col, v), other) <==> Names(w, other) || other == col
  {
    assert forall e :: e in (w.entries + [Equals(col, v)]) <==> e in w.entries || e == Equals(col, v);
    assert KeyOf(Equals(col, v)) == col;
  }

  /** Whatever the caller's tree, each half of the scope applies exactly when the tree's
      own keys leave it open; nothing nested in an OR can widen it. */
  lemma ScopeMeaning(w: Tree, ctx: Value, row: Row)
    ensures Holds(Scoped(w, ctx), row) <==>
            && Holds(w, row)
            && (Names(w, ORG) || Cell(row, ORG) == ctx)
            && (Names(w, DELETED) || Cell(row, DELETED) == Null)
  {
    SetDefaultMeaning(w, ORG, ctx, row);
    SetDefaultMeaning(TenantScoped(w, ctx), DELETED, Null, row);
    SetDefaultNames(w, ORG, ctx, DELETED);
  }

  /** The rows a query sees are exactly the live rows of the tenant that match the tree, when no
      key of the dict itself is one of the scope's. */
  lemma QueriesSeeOwnLiveRows(rows: seq<Row>, w: Tree, ctx: Value)
    requires forall e | e in w.entries && !e.AnyOf? && !e.AllOf? :: e.col != "organization_id" && e.col != "deleted_at"
    ensures forall row :: row in Matching(rows, Scoped(w, ctx)) <==>
                          && row in rows && Holds(w, row)
                          && Cell(row, "organization_id") == ctx && Cell(row, "deleted_at") == Null
  {
    assert !Names(w, ORG) && !Names(w, DELETED);
    forall row
      ensures Holds(Scoped(w, ctx), row) <==>
              Holds(w, row) && Cell(row, ORG) == ctx && Cell(row, DELETED) == Null
    {
      ScopeMeaning(w, ctx, row);
    }
  }

  /** The caller's dict after a query under `ctx`: an empty dict is replaced and stays as it
      was; any other is shared and keeps the scope. */
  function AfterUse(w: Tree, ctx: Value): Tree {
    if w.entries == [] then w else Scoped(w, ctx)
  }

  /** Using a dict again under a second tenant asks for what a fresh dict would, exactly when
      the dict is empty, names its organization itself, or the tenant is the same;
      otherwise it still asks for the first tenant's rows. */
  lemma ReusedDictKeepsFirstTenant(w: Tree, first: Value, second: Value)
    ensures Scoped(AfterUse(w, first), second) == Scoped(w, second) <==>
            w.entries == [] || Names(w, ORG) || first == second
    ensures w.entries != [] ==> Scoped(AfterUse(w, first), second) == Scoped(w, first)
  {
    SetDefaultNames(w, ORG, first, ORG);
    SetDefaultNames(w, ORG, first, DELETED);
    SetDefaultNames(TenantScoped(w, first), DELETED, Null, ORG);
    SetDefaultNames(TenantScoped(w, first), DELETED, Null, DELETED);
    if w.entries != [] && !Names(w, ORG) && first != second {
      var k := |w.entries|;
      assert Scoped(w, first).entries[k] == Equals(ORG, first);
      assert Scoped(w, second).entries[k] == Equals(ORG, second);
    }
  }

  function RowOf(id: int, org: int): Row {
    map[ID := Int(id), ORG := Int(org), "name" := Str("high")]
  }

  /** Two tenants with a row each, and one dict used by the first and then by the second:
      a dict that says something finds the first tenant's row, an empty one the second's. */
  lemma ReuseUnderTwoTenants()
    ensures var rows := [RowOf(1, 1), RowOf(2, 2)];
            var named := Tree([Equals("name", Str("high"))]);
            && Matching(rows, Scoped(named, Int(2))) == [RowOf(2, 2)]
            && Matching(rows, Scoped(AfterUse(named, Int(1)), Int(2))) == [RowOf(1, 1)]
            && Matching(rows, Scoped(AfterUse(Tree([]), Int(1)), Int(2))) == [RowOf(2, 2)]
  {
    var named := Tree([Equals("name", Str("high"))]);
    ReusedDictKeepsFirstTenant(named, Int(1), Int(2));
    OneTenantsRow(named, 1, 2);
    OneTenantsRow(named, 2, 1);
    OneTenantsRow(Tree([]), 2, 1);
  }

  lemma SeenByItsTenant(w: Tree, ctx: int, id: int, org: int)
    requires w.entries == [] || w.entries == [Equals("name", Str("high"))]
    ensures Holds(Scoped(w, Int(ctx)), RowOf(id, org)) <==> org == ctx
  {
    var row := RowOf(id, org);
    assert Cell(row, "name") == Str("high") && Cell(row, ORG) == Int(org);
    assert |DELETED| == 10 && |ID| == 2 && |ORG| == 15 && |"name"| == 4;
    assert Cell(row, DELETED) == Null;
    assert forall e | e in w.entries :: e == Equals("name", Str("high"));
    ScopeMeaning(w, Int(ctx), row);
  }

  // Of the two rows, a tenant's query sees its own.
  lemma OneTenantsRow(w: Tree, own: int, other: int)
    requires own != other && {own, other} == {1, 2}
    requires w.entries == [] || w.entries == [Equals("name", Str("high"))]
    ensures Matching([RowOf(1, 1), RowOf(2, 2)], Scoped(w, Int(own))) == [RowOf(own, own)]
  {
    SeenByItsTenant(w, own, 1, 1);
    SeenByItsTenant(w, own, 2, 2);
    MatchingTwo(RowOf(1, 1), RowOf(2, 2), Scoped(w, Int(own)));
    assert own in {1, 2};
  }

  lemma MatchingTwo(a: Row, b: Row, w: Tree)
    ensures Matching([a, b], w) == (if Holds(w, a) then [a] else []) + (if Holds(w, b) then [b] else [])
  {
    MatchingAppend([], b, w);
    assert [a, b][1..] == [] + [b];
  }

  // ---------- update ----------

  const CREATED_BY := "created_by_id"
  const UPDATED_BY := "updated_by_id"

  /** The row after `update`: the context tenant unless the caller names one, and the acting
      user's stamp over whatever the caller passed, unless the caller sets a creator. */
  function Updated(row: Row, kwargs: Row, ctx: Value, user: Value): (r: Row)
    ensures forall col :: Cell(r, col) ==
                          if col == UPDATED_BY && CREATED_BY !in kwargs then user
                          else if col in kwargs then kwargs[col]
                          else if col == ORG then ctx
                          else Cell(row, col)
  {
    var scoped := if ORG in kwargs then kwargs else kwargs[ORG := ctx];
    row + if CREATED_BY in scoped then scoped else scoped[UPDATED_BY := user]
  }

  /** An update that names no organization leaves the row with its tenant exactly when that
      is the context's; another tenant's row moves over. */
  lemma UpdateKeepsOnlyTheContextsRows(row: Row, kwargs: Row, ctx: Value, user: Value)
    requires ORG !in kwargs
    ensures Cell(Updated(row, kwargs, ctx, user), ORG) == Cell(row, ORG) <==> Cell(row, ORG) == ctx
  {
    assert Cell(Updated(row, kwargs, ctx, user), ORG) == ctx;
  }

  lemma UpdateMovesAnotherTenantsRow()
    ensures var row := RowOf(7, 2);
            var after := Updated(row, map["name" := Str("low")], Int(1), Int(5));
            && Matching([row], Scoped(Tree([]), Int(2))) == [row]
            && Matching([after], Scoped(Tree([]), Int(2))) == []
            && Matching([after], Scoped(Tree([]), Int(1))) == [after]
            && Cell(after, UPDATED_BY) == Int(5)
  {
    var row := RowOf(7, 2);
    var after := Updated(row, map["name" := Str("low")], Int(1), Int(5));
    assert Cell(after, ORG) == Int(1) && Cell(after, DELETED) == Null;
    ScopeMeaning(Tree([]), Int(2), row);
    ScopeMeaning(Tree([]), Int(2), after);
    ScopeMeaning(Tree([]), Int(1), after);
    assert [row][1..] == [] && [after][1..] == [];
  }

  lemma ScopeCompiles(schema: set<string>, w: Tree, col: string, v: Value)
    requires col in schema
    ensures Compilable(schema, SetDefault(w, col, v)) <==> Compilable(schema, w)
  {
    assert forall e :: e in (w.entries + [Equals(col, v)]) <==> e in w.entries || e == Equals(col, v);
    assert CompilableEntry(schema, Equals(col, v));
  }

  /** The caller's dict: a mutable object the query methods write to. */
  class WhereDict {
    var tree: Tree

    constructor (tree: Tree)
      ensures this.tree == tree
    {
      this.tree := tree;
    }
  }

  ghost function TreeOf(where: WhereDict?): Tree
    reads where
  {
    if where == null then Tree([]) else where.tree
  }

  class Table {
    const schema: set<string>
    var rows: seq<Row>

    ghost predicate Valid() {
      ORG in schema && DELETED in schema
    }

    constructor (schema: set<string>)
      requires ORG in schema && DELETED in schema
      ensures Valid() && rows == []
    {
      this.schema := schema;
      rows := [];
    }

    // `if not where: where = {}`: an empty or missing dict is replaced, any other is
    // shared with the caller.
    method Shared(where: WhereDict?) returns (d: WhereDict)
      ensures d.tree == TreeOf(where)
      ensures if where != null && where.tree.entries != [] then d == where else fresh(d)
    {
      if where == null || where.tree.entries == [] {
        d := new WhereDict(Tree([]));
      } else {
        d := where;
      }
    }

    /** The statement of `query_statement`, run against the table. */
    method Query(w: Tree) returns (r: Result<seq<Row>, ParseError>)
      ensures r.Success? <==> Compilable(schema, w)
      ensures r.Success? ==> r.value == Matching(rows, w)
    {
      var parsed := ParseWhere(schema, w);
      if parsed.Failure? {
        return Failure(parsed.error);
      }
      var found: seq<Row> := [];
      for i := 0 to |rows|
        invariant found == Matching(rows[..i], w)
      {
        assert rows[..i + 1] == rows[..i] + [rows[i]];
        MatchingAppend(rows[..i], rows[i], w);
        if parsed.value.None? {
          AbsentHolds(w);
          found := found + [rows[i]];
        } else if Selects(parsed.value.value, rows[i]) {
          found := found + [rows[i]];
        }
      }
      assert rows[..|rows|] == rows;
      return Success(found);
    }

    /** `filter`: sees the tenant's live matches; leaves its scope in a non-empty dict. */
    method Filter(where: WhereDict?, ctx: Value, skip: nat, limit: Option<nat>)
      returns (r: Result<seq<Row>, ParseError>)
      requires Valid()
      modifies where
      ensures where != null ==>
                where.tree == AfterUse(old(where.tree), ctx)
      ensures r.Success? <==> Compilable(schema, old(TreeOf(where)))
      ensures r.Success? ==> r.value == Window(Matching(rows, Scoped(old(TreeOf(where)), ctx)), skip, limit)
    {
      var d := Shared(where);
      ScopeCompiles(schema, d.tree, ORG, ctx);
      if !Names(d.tree, ORG) {
        d.tree := Tree(d.tree.entries + [Equals(ORG, ctx)]);
      }
      ScopeCompiles(schema, d.tree, DELETED, Null);
      d.tree := SetDefault(d.tree, DELETED, Null);
      r := Query(d.tree);
      if r.Success? && skip > 0 {
        r := Success(if skip < |r.value| then r.value[skip..] else []);
      }
      if r.Success? && limit.Some? && limit.value < |r.value| {
        r := Success(r.value[..limit.value]);
      }
    }

    /** `find_one`: some row `filter` would see, whichever the database returns first. */
    method FindOne(where: WhereDict?, ctx: Value) returns (r: Result<Option<Row>, ParseError>)
      requires Valid()
      modifies where
      ensures where != null ==>
                where.tree == AfterUse(old(where.tree), ctx)
      ensures r.Success? <==> Compilable(schema, old(TreeOf(where)))
      ensures r.Success? ==>
                match r.value
                case None => Matching(rows, Scoped(old(TreeOf(where)), ctx)) == []
                case Some(row) => row in Matching(rows, Scoped(old(TreeOf(where)), ctx))
    {
      var found := Filter(where, ctx, 0, None);
      if found.Failure? {
        return Failure(found.error);
      }
      if found.value == [] {
        return Success(None);
      }
      var k :| 0 <= k < |found.value|;
      return Success(Some(found.value[k]));
    }

    /** `soft_delete`: stamps one matching row of the tenant, which may be one that was
        deleted before; does nothing when there is none. */
    method SoftDelete(where: WhereDict?, ctx: Value, now: int) returns (r: Result<Option<nat>, ParseError>)
      requires Valid()
      modifies this, where
      ensures where != null ==>
                where.tree ==
                if old(where.tree).entries == [] then old(where.tree) else TenantScoped(old(where.tree), ctx)
      ensures r.Success? <==> Compilable(schema, old(TreeOf(where)))
      ensures r.Failure? ==> rows == old(rows)
      ensures r.Success? && r.value.None? ==>
                && rows == old(rows)
                && Matching(rows, TenantScoped(old(TreeOf(where)), ctx)) == []
      ensures r.Success? && r.value.Some? ==>
                && var k := r.value.value;
                && k < |old(rows)|
                && Holds(TenantScoped(old(TreeOf(where)), ctx), old(rows)[k])
                && rows == old(rows)[k := old(rows)[k][DELETED := Int(now)]]
    {
      var d := Shared(where);
      ScopeCompiles(schema, d.tree, ORG, ctx);
      if !Names(d.tree, ORG) {
        d.tree := Tree(d.tree.entries + [Equals(ORG, ctx)]);
      }
      var found := Query(d.tree);
      if found.Failure? {
        return Failure(found.error);
      }
      if found.value == [] {
        return Success(None);
      }
      assert found.value[0] in rows;
      var k :| 0 <= k < |rows| && rows[k] in found.value;
      rows := rows[k := rows[k][DELETED := Int(now)]];
      return Success(Some(k));
    }

    /** `update`: finds the row by its id alone, whoever owns it and deleted or not. */
    method Update(id: int, kwargs: Row, ctx: Value, user: Value) returns (r: Option<nat>)
      modifies this
      ensures r.None? ==> rows == old(rows) && forall row | row in rows :: Cell(row, ID) != Int(id)
      ensures r.Some? ==>
                && r.value < |old(rows)| && Cell(old(rows)[r.value], ID) == Int(id)
                && rows == old(rows)[r.value := Updated(old(rows)[r.value], kwargs, ctx, user)]
    {
      if k :| 0 <= k < |rows| && Cell(rows[k], ID) == Int(id) {
        var data := kwargs;
        if ORG !in data {
          data := data[ORG := ctx];
        }
        if CREATED_BY !in data {
          data := data[UPDATED_BY := user];
        }
        rows := rows[k := rows[k] + data];
        return Some(k);
      }
      return None;
    }

    /** `delete`: removes one matching row of the tenant, soft-deleted or not; nothing
        found is the source's 404. */
    method Delete(where: WhereDict?, ctx: Value) returns (r: Result<Option<nat>, ParseError>)
      requires Valid()
      modifies this, where
      ensures where != null ==>
                where.tree ==
                if old(where.tree).entries == [] then old(where.tree) else TenantScoped(old(where.tree), ctx)
      ensures r.Success? <==> Compilable(schema, old(TreeOf(where)))
      ensures r.Success? && r.value.Some? ==>
                && var k := r.value.value;
                && k < |old(rows)|
                && Holds(TenantScoped(old(TreeOf(where)), ctx), old(rows)[k])
                && rows == old(rows)[..k] + old(rows)[k + 1..]
      ensures r.Failure? || r.value.None? ==> rows == old(rows)
      ensures r.Success? && r.value.None? ==> Matching(rows, TenantScoped(old(TreeOf(where)), ctx)) == []
    {
      var d := Shared(where);
      ScopeCompiles(schema, d.tree, ORG, ctx);
      if !Names(d.tree, ORG) {
        d.tree := Tree(d.tree.entries + [Equals(ORG, ctx)]);
      }
      var found := Query(d.tree);
      if found.Failure? {
        return Failure(found.error);
      }
      if found.value == [] {
        return Success(None);
      }
      assert found.value[0] in rows;
      var k :| 0 <= k < |rows| && rows[k] in found.value;
      rows := rows[..k] + rows[k + 1..];
      return Success(Some(k));
    }
  }

  lemma {:induction false} MatchingAppend(rows: seq<Row>, last: Row, w: Tree)
    ensures Matching(rows + [last], w) == Matching(rows, w) + if Holds(w, last) then [last] else []
  {
    if rows == [] {
      assert rows + [last] == [last];
    } else {
      assert (rows + [last])[1..] == rows[1..] + [last];
      MatchingAppend(rows[1..], last, w);
    }
  }
}
