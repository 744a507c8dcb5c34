/** Filtering and ordering the visitor log (src/modules/visitor/services.py). */
module Visitors {
  import opened Wrappers
  import opened Text
  import opened StableSort

  // Seconds since the first representable instant; `datetime.min` and `datetime.max`.
  const EARLIEST := 0
  const LATEST := 315537897599

  type Date = t: int | EARLIEST <= t <= LATEST

  datatype Visitor = Visitor(
    id: int, customer: int, name: Option<string>, status: Option<string>, engaged: Option<string>, visits: int)

  /** The creation date text of a log row: missing, unreadable, or a date. */
  datatype Created = Missing | Malformed | At(date: Date)

  datatype LogRow = LogRow(customer: int, created: Created)

  datatype Filter = Active | Inactive | Engaged | Guest | RecentlyRegistered | OtherFilter

  datatype SortBy = AtoZ | ZtoA | Newest | Oldest | MostEngaged | OtherSort

  datatype Mode = AnyFilter | AllFilters | OtherMode

  function FirstRow(data: seq<LogRow>, customer: int): Option<LogRow> {
    if data == [] then None
    else if data[0].customer == customer then Some(data[0])
    else FirstRow(data[1..], customer)
  }

  const DAY := 86400

  predicate MatchesFilter(v: Visitor, f: Filter, data: seq<LogRow>, now: int) {
    match f
    case Active => v.status == Some("Active")
    case Inactive => v.status == Some("Inactive")
    case Engaged => v.engaged == Some("YES")
    case Guest => v.name.Some? && "guest" <= v.name.value
    case RecentlyRegistered =>
      (match FirstRow(data, v.customer)
       case Some(LogRow(_, At(t))) => (now - t) / DAY <= 1
       case _ => false)
    case OtherFilter => false
  }

  predicate Wanted(v: Visitor, filters: seq<Filter>, mode: Mode, data: seq<LogRow>, now: int) {
    filters == [] ||
    match mode
    case AnyFilter => exists f | f in filters :: MatchesFilter(v, f, data, now)
    case AllFilters => forall f | f in filters :: MatchesFilter(v, f, data, now)
    case OtherMode => false
  }

  /** The wanted visitors, in their order. */
  function Filtered(vs: seq<Visitor>, filters: seq<Filter>, mode: Mode, data: seq<LogRow>, now: int): (r: seq<Visitor>)
    ensures forall v :: v in r <==> v in vs && Wanted(v, filters, mode, data, now)
  {
    if vs == [] then []
    else
      Filtered(vs[..|vs| - 1], filters, mode, data, now)
      + if Wanted(vs[|vs| - 1], filters, mode, data, now) then [vs[|vs| - 1]] else []
  }

  /** What each filter looks for. A registration is recent for two days, by the first log row
      of the customer. */
  lemma FiltersMeanTheirNames(v: Visitor, data: seq<LogRow>, now: int)
    ensures MatchesFilter(v, Active, data, now) <==> v.status == Some("Active")
    ensures MatchesFilter(v, Inactive, data, now) <==> v.status == Some("Inactive")
    ensures MatchesFilter(v, Engaged, data, now) <==> v.engaged == Some("YES")
    ensures MatchesFilter(v, Guest, data, now) <==>
            v.name.Some? && |v.name.value| >= 5 && v.name.value[..5] == "guest"
    ensures MatchesFilter(v, RecentlyRegistered, data, now) <==>
            exists k: nat :: k < |data| && IsFirstRow(data, v.customer, k)
                             && data[k].created.At? && now - data[k].created.date < 2 * 24 * 60 * 60
    ensures !MatchesFilter(v, OtherFilter, data, now)
  {
    FirstRowIsFirst(data, v.customer);
    if v.name.Some? {
      assert "guest" <= v.name.value <==> |v.name.value| >= 5 && v.name.value[..5] == "guest";
    }
    if MatchesFilter(v, RecentlyRegistered, data, now) {
      var k: nat :| k < |data| && IsFirstRow(data, v.customer, k);
      assert data[k] == FirstRow(data, v.customer).value;
    }
  }

  predicate IsFirstRow(data: seq<LogRow>, customer: int, k: nat)
    requires k < |data|
  {
    data[k].customer == customer && forall j | 0 <= j < k :: data[j].customer != customer
  }

  lemma {:induction false} FirstRowIsFirst(data: seq<LogRow>, customer: int)
    ensures forall k: nat :: k < |data| && IsFirstRow(data, customer, k) ==> FirstRow(data, customer) == Some(data[k])
    ensures FirstRow(data, customer).Some? ==> exists k: nat :: k < |data| && IsFirstRow(data, customer, k)
  {
    if data == [] {
    } else if data[0].customer == customer {
      assert IsFirstRow(data, customer, 0);
    } else {
      FirstRowIsFirst(data[1..], customer);
      forall k: nat | k < |data| && IsFirstRow(data, customer, k)
        ensures FirstRow(data, customer) == Some(data[k])
      {
        assert k > 0 && IsFirstRow(data[1..], customer, k - 1);
      }
      if FirstRow(data, customer).Some? {
        var k: nat :| k < |data[1..]| && IsFirstRow(data[1..], customer, k);
        assert forall j | 0 < j < k + 1 :: data[j] == data[1..][j - 1];
        assert IsFirstRow(data, customer, k + 1);
      }
    }
  }

  /** With no filters everyone is wanted; "or" asks for some filter, "and" for all, any other
      mode for nobody. */
  lemma WhoIsWanted(v: Visitor, filters: seq<Filter>, data: seq<LogRow>, now: int)
    requires filters != []
    ensures forall mode :: Wanted(v, [], mode, data, now)
    ensures Wanted(v, filters, AnyFilter, data, now) <==>
            exists i | 0 <= i < |filters| :: MatchesFilter(v, filters[i], data, now)
    ensures Wanted(v, filters, AllFilters, data, now) <==>
            forall i | 0 <= i < |filters| :: MatchesFilter(v, filters[i], data, now)
    ensures !Wanted(v, filters, OtherMode, data, now)
  {
  }

  /** The wanted visitors stand in their order, each as often as listed. */
  lemma {:induction false} FilteredKeepsOrder(
    a: seq<Visitor>, b: seq<Visitor>, filters: seq<Filter>, mode: Mode, data: seq<LogRow>, now: int)
    ensures Filtered(a + b, filters, mode, data, now) ==
            Filtered(a, filters, mode, data, now) + Filtered(b, filters, mode, data, now)
    ensures |a| == 1 ==>
              Filtered(a, filters, mode, data, now) == if Wanted(a[0], filters, mode, data, now) then a else []
    decreases |b|
  {
    if b == [] {
      assert a + b == a;
    } else {
      var init := b[..|b| - 1];
      assert (a + b)[..|a + b| - 1] == a + init;
      FilteredKeepsOrder(a, init, filters, mode, data, now);
    }
  }

  // ---------- keys ----------

  /** The date map: a later row of the same customer overrides an earlier one. */
  function DateOf(data: seq<LogRow>, customer: int): Option<Date> {
    if data == [] then None
    else
      var last := data[|data| - 1];
      if last.customer == customer && last.created.At? then Some(last.created.date)
      else DateOf(data[..|data| - 1], customer)
  }

  /** A customer's date is that of the last log row that has one. */
  lemma {:induction false} DateOfIsTheLast(data: seq<LogRow>, customer: int, k: nat)
    requires k < |data| && data[k].customer == customer && data[k].created.At?
    requires forall j | k < j < |data| && data[j].customer == customer :: !data[j].created.At?
    ensures DateOf(data, customer) == Some(data[k].created.date)
  {
    if k == |data| - 1 {
    } else {
      DateOfIsTheLast(data[..|data| - 1], customer, k);
    }
  }

  lemma {:induction false} NoDateWithoutARow(data: seq<LogRow>, customer: int)
    requires forall j | 0 <= j < |data| && data[j].customer == customer :: !data[j].created.At?
    ensures DateOf(data, customer) == None
  {
    if data == [] {
    } else {
      NoDateWithoutARow(data[..|data| - 1], customer);
    }
  }

  function DateOr(data: seq<LogRow>, v: Visitor, default: Date): Date {
    match DateOf(data, v.customer)
    case Some(t) => t
    case None => default
  }

  function NameOf(v: Visitor): string {
    if v.name.Some? then v.name.value else ""
  }

  /** May `a` stand before `b`? Reversed sorts compare the other way round and, like the
      forward ones, leave ties alone. */
  function OrderOf(order: SortBy, data: seq<LogRow>): (Visitor, Visitor) -> bool {
    match order
    case AtoZ => (a: Visitor, b: Visitor) => !Before(NameOf(b), NameOf(a))
    case ZtoA => (a: Visitor, b: Visitor) => !Before(NameOf(a), NameOf(b))
    case Newest => (a: Visitor, b: Visitor) => DateOr(data, a, EARLIEST) >= DateOr(data, b, EARLIEST)
    case Oldest => (a: Visitor, b: Visitor) => DateOr(data, a, LATEST) <= DateOr(data, b, LATEST)
    case MostEngaged => (a: Visitor, b: Visitor) => a.visits >= b.visits
    case OtherSort => (a: Visitor, b: Visitor) => true
  }

  lemma {:induction false} BeforeIsStrictOrder(a: string, b: string, c: string)
    ensures !(Before(a, b) && Before(b, a))
    ensures !Before(a, b) && !Before(b, c) ==> !Before(a, c)
    decreases |a| + |b| + |c|
  {
    if a != "" && b != "" {
      BeforeIsStrictOrder(a[1..], b[1..], if c == "" then c else c[1..]);
    }
  }

  lemma OrderIsTotal(order: SortBy, data: seq<LogRow>)
    ensures TotalPreorder(OrderOf(order, data))
  {
    if order == AtoZ || order == ZtoA {
      forall a: Visitor, b: Visitor, c: Visitor
        ensures !(Before(NameOf(a), NameOf(b)) && Before(NameOf(b), NameOf(a)))
        ensures !Before(NameOf(a), NameOf(b)) && !Before(NameOf(b), NameOf(c)) ==> !Before(NameOf(a), NameOf(c))
      {
        BeforeIsStrictOrder(NameOf(a), NameOf(b), NameOf(c));
      }
    }
  }

  // ---------- the result ----------

  datatype Fault = UnreadableDate

  function Outcome(
    vs: seq<Visitor>, data: seq<LogRow>, filters: seq<Filter>, order: Option<SortBy>, mode: Mode, now: int)
    : seq<Visitor>
  {
    var wanted := Filtered(vs, filters, mode, data, now);
    if order.Some? then Sort(wanted, OrderOf(order.value, data)) else wanted
  }

  /** For every list, filters and choice of order: the result is exactly the wanted
      visitors, in that order, with ties left as they were. */
  lemma ResultIsStableSort(
    vs: seq<Visitor>, data: seq<LogRow>, filters: seq<Filter>, order: SortBy, mode: Mode, now: int)
    ensures var wanted := Filtered(vs, filters, mode, data, now);
            var r := Outcome(vs, data, filters, Some(order), mode, now);
            && multiset(r) == multiset(wanted)
            && Sorted(r, OrderOf(order, data))
            && forall v :: Ties(r, OrderOf(order, data), v) == Ties(wanted, OrderOf(order, data), v)
  {
    var wanted := Filtered(vs, filters, mode, data, now);
    OrderIsTotal(order, data);
    SortSorts(wanted, OrderOf(order, data));
    forall v
      ensures Ties(Sort(wanted, OrderOf(order, data)), OrderOf(order, data), v) == Ties(wanted, OrderOf(order, data), v)
    {
      SortIsStable(wanted, OrderOf(order, data), v);
    }
  }

  /** What each choice means to a reader of the list: of two visitors, the one that stands
      first is no later in the alphabet, no older, no newer, or no less engaged. */
  lemma EachOrderMeansItsName(
    vs: seq<Visitor>, data: seq<LogRow>, filters: seq<Filter>, order: SortBy, mode: Mode, now: int, i: nat, j: nat)
    requires i < j < |Outcome(vs, data, filters, Some(order), mode, now)|
    ensures var r := Outcome(vs, data, filters, Some(order), mode, now);
            var a, b := DateOf(data, r[i].customer), DateOf(data, r[j].customer);
            var x, y := r[i].name, r[j].name;
            && (order == AtoZ ==> !Before(if y.Some? then y.value else "", if x.Some? then x.value else ""))
            && (order == ZtoA ==> !Before(if x.Some? then x.value else "", if y.Some? then y.value else ""))
            && (order == Newest && a.Some? && b.Some? ==> a.value >= b.value)
            && (order == Oldest && a.Some? && b.Some? ==> a.value <= b.value)
            && (order == MostEngaged ==> r[i].visits >= r[j].visits)
  {
    ResultIsStableSort(vs, data, filters, order, mode, now);
    var r := Outcome(vs, data, filters, Some(order), mode, now);
    assert OrderOf(order, data)(r[i], r[j]);
  }

  /** A choice that names no order leaves the wanted visitors untouched. */
  lemma {:induction false} UnknownOrderChangesNothing(s: seq<Visitor>, data: seq<LogRow>)
    ensures Sort(s, OrderOf(OtherSort, data)) == s
  {
    if s == [] {
    } else {
      UnknownOrderChangesNothing(s[1..], data);
    }
  }

  /** Visitors without a creation date come last both ways round: after one, only others
      without a date, or the extreme date itself, can follow. */
  lemma UndatedComeLast(vs: seq<Visitor>, data: seq<LogRow>, filters: seq<Filter>, mode: Mode, now: int, i: nat, j: nat)
    ensures var r := Outcome(vs, data, filters, Some(Newest), mode, now);
            i < j < |r| && DateOf(data, r[i].customer).None? ==>
              DateOf(data, r[j].customer).None? || DateOf(data, r[j].customer) == Some(EARLIEST)
    ensures var r := Outcome(vs, data, filters, Some(Oldest), mode, now);
            i < j < |r| && DateOf(data, r[i].customer).None? ==>
              DateOf(data, r[j].customer).None? || DateOf(data, r[j].customer) == Some(LATEST)
  {
    ResultIsStableSort(vs, data, filters, Newest, mode, now);
    ResultIsStableSort(vs, data, filters, Oldest, mode, now);
    var newest := Outcome(vs, data, filters, Some(Newest), mode, now);
    if i < j < |newest| {
      assert OrderOf(Newest, data)(newest[i], newest[j]);
    }
    var oldest := Outcome(vs, data, filters, Some(Oldest), mode, now);
    if i < j < |oldest| {
      assert OrderOf(Oldest, data)(oldest[i], oldest[j]);
    }
  }

  /** A Python list: an object its holders share. */
  class PyList {
    var items: seq<Visitor>

    constructor (items: seq<Visitor>)
      ensures this.items == items
    {
      this.items := items;
    }
  }

  /** With no filters the caller's own list is sorted in place and returned; otherwise it
      is left alone. A date that cannot be read stops any sort before it starts. */
  method FilterAndSortVisitors(
    visitors: PyList, data: seq<LogRow>, filters: seq<Filter>, order: Option<SortBy>, mode: Mode, now: int)
    returns (r: Result<PyList, Fault>)
    modifies visitors
    ensures r.Failure? <==> order.Some? && exists row | row in data :: row.created.Malformed?
    ensures r.Success? ==> r.value.items == Outcome(old(visitors.items), data, filters, order, mode, now)
    ensures r.Success? ==> if filters == [] then r.value == visitors else fresh(r.value)
    ensures filters != [] || r.Failure? ==> visitors.items == old(visitors.items)
  {
    var list := visitors;
    if filters != [] {
      var filtered: seq<Visitor> := [];
      for i := 0 to |visitors.items|
        invariant filtered == Filtered(visitors.items[..i], filters, mode, data, now)
        invariant visitors.items == old(visitors.items)
      {
        var v := visitors.items[i];
        assert visitors.items[..i + 1][..i] == visitors.items[..i];
        if mode == AnyFilter && exists f | f in filters :: MatchesFilter(v, f, data, now) {
          filtered := filtered + [v];
        } else if mode == AllFilters && forall f | f in filters :: MatchesFilter(v, f, data, now) {
          filtered := filtered + [v];
        }
      }
      assert visitors.items[..|visitors.items|] == visitors.items;
      list := new PyList(filtered);
    } else {
      NoFiltersKeepAll(visitors.items, mode, data, now);
    }
    if order.Some? {
      if exists row | row in data :: row.created.Malformed? {
        return Failure(UnreadableDate);
      }
      match order.value {
        case OtherSort => UnknownOrderChangesNothing(list.items, data);
        case _ => list.items := Sort(list.items, OrderOf(order.value, data));
      }
    }
    return Success(list);
  }

  lemma {:induction false} NoFiltersKeepAll(vs: seq<Visitor>, mode: Mode, data: seq<LogRow>, now: int)
    ensures Filtered(vs, [], mode, data, now) == vs
  {
    if vs == [] {
    } else {
      var init, last := vs[..|vs| - 1], vs[|vs| - 1];
      NoFiltersKeepAll(init, mode, data, now);
      assert Wanted(last, [], mode, data, now);
      assert Filtered(vs, [], mode, data, now) == init + [last];
    }
  }
}
