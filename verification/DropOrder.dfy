/**
 * The order in which the local database's objects are dropped before an import: views,
 * triggers, indexes, then tables so that a table goes after the tables that refer to it, as far
 * as reference cycles allow.
 */
module DropOrder {
  import opened Sorting

  datatype Kind = View | Trigger | Index | Table

  /** `references` are the table names that the object's SQL text refers to, in order of first mention. */
  datatype D1Object = D1Object(kind: Kind, name: string, references: seq<string>)

  function Names(tables: seq<D1Object>): set<string> {
    set t | t in tables :: t.name
  }

  /** Some table named `a` refers to the listed table `b`. */
  ghost predicate Refers(tables: seq<D1Object>, a: string, b: string) {
    b in Names(tables) && exists t :: t in tables && t.name == a && b in t.references
  }

  ghost predicate IsChain(tables: seq<D1Object>, p: seq<string>) {
    p != [] && forall i :: 0 <= i < |p| - 1 ==> Refers(tables, p[i], p[i + 1])
  }

  ghost predicate ChainFromTo(tables: seq<D1Object>, p: seq<string>, a: string, b: string) {
    IsChain(tables, p) && p[0] == a && p[|p| - 1] == b
  }

  /** A chain of references, possibly empty, leads from `a` to `b`. */
  ghost predicate Leads(tables: seq<D1Object>, a: string, b: string) {
    exists p :: ChainFromTo(tables, p, a, b)
  }

  lemma LeadsToItself(tables: seq<D1Object>, a: string)
    ensures Leads(tables, a, a)
  {
    assert ChainFromTo(tables, [a], a, a);
  }

  lemma LeadsFurther(tables: seq<D1Object>, a: string, b: string, c: string)
    requires Refers(tables, a, b) && Leads(tables, b, c)
    ensures Leads(tables, a, c)
  {
    var p :| ChainFromTo(tables, p, b, c);
    assert ChainFromTo(tables, [a] + p, a, c);
  }

  ghost predicate Before<T(!new)>(s: seq<T>, a: T, b: T) {
    exists i, j :: 0 <= i < j < |s| && s[i] == a && s[j] == b
  }

  lemma BeforeInLonger<T(!new)>(s: seq<T>, s': seq<T>, a: T, b: T)
    requires Before(s, a, b) && s <= s'
    ensures Before(s', a, b)
  {
    var i, j :| 0 <= i < j < |s| && s[i] == a && s[j] == b;
    assert s'[i] == a && s'[j] == b;
  }

  /** Every table in `order` comes after its referrers, except those it leads back to. */
  ghost predicate ReferrersFirst(tables: seq<D1Object>, order: seq<string>) {
    forall a, b :: b in order && Refers(tables, a, b) ==> Before(order, a, b) || Leads(tables, b, a)
  }

  /** `t` is the last table of that name, as a map built from the list keeps it. */
  ghost predicate IsLastNamed(tables: seq<D1Object>, name: string, t: D1Object) {
    exists i :: 0 <= i < |tables| && tables[i] == t && t.name == name
                && forall j :: i < j < |tables| ==> tables[j].name != name
  }

  lemma LastNamedGrows(tables: seq<D1Object>, name: string, t: D1Object, last: D1Object)
    ensures IsLastNamed(tables, name, t) && last.name != name ==> IsLastNamed(tables + [last], name, t)
    ensures IsLastNamed(tables + [last], last.name, last)
  {
    var more := tables + [last];
    if IsLastNamed(tables, name, t) && last.name != name {
      var i :| 0 <= i < |tables| && tables[i] == t && t.name == name && forall j :: i < j < |tables| ==> tables[j].name != name;
      assert more[i] == t && forall j :: i < j < |more| ==> more[j].name != name;
    }
    assert more[|tables|] == last;
  }

  function LastNamed(tables: seq<D1Object>): (m: map<string, D1Object>)
    ensures m.Keys == Names(tables)
    ensures forall n :: n in m ==> m[n] in tables && m[n].name == n
    ensures forall n :: n in m ==> IsLastNamed(tables, n, m[n])
  {
    if tables == [] then map[]
    else
      var last := tables[|tables| - 1];
      assert tables == tables[..|tables| - 1] + [last];
      var earlier := LastNamed(tables[..|tables| - 1]);
      var m := earlier[last.name := last];
      assert forall n :: n in m ==> IsLastNamed(tables, n, m[n]) by {
        forall n | n in m ensures IsLastNamed(tables, n, m[n]) {
          LastNamedGrows(tables[..|tables| - 1], n, m[n], last);
        }
      }
      m
  }

  ghost predicate Dependents(tables: seq<D1Object>, m: map<string, seq<string>>) {
    forall a, b :: Refers(tables, a, b) <==> b in m && a in m[b]
  }

  function NamesInOrder(ordered: seq<D1Object>): (r: seq<string>)
    ensures |r| == |ordered| && forall i :: 0 <= i < |r| ==> r[i] == ordered[i].name
  {
    seq(|ordered|, i requires 0 <= i < |ordered| => ordered[i].name)
  }

  /** What has been emitted so far: the visited tables, each once, referrers first. */
  ghost predicate Emitted(tables: seq<D1Object>, ordered: seq<D1Object>, visited: set<string>) {
    && visited <= Names(tables)
    && (forall n :: n in visited <==> n in NamesInOrder(ordered))
    && NoDuplicates(NamesInOrder(ordered))
    && (forall i :: 0 <= i < |ordered| ==>
          ordered[i].name in Names(tables) && ordered[i] == LastNamed(tables)[ordered[i].name])
    && ReferrersFirst(tables, NamesInOrder(ordered))
  }

  lemma EmitKeepsOrder(tables: seq<D1Object>, order: seq<string>, name: string)
    requires ReferrersFirst(tables, order) && name !in order
    requires forall a :: Refers(tables, a, name) ==> a in order || Leads(tables, name, a)
    ensures ReferrersFirst(tables, order + [name])
  {
    var order' := order + [name];
    forall a, b | b in order' && Refers(tables, a, b) ensures Before(order', a, b) || Leads(tables, b, a) {
      if b == name {
        if a in order {
          var i :| 0 <= i < |order| && order[i] == a;
          assert order'[i] == a && order'[|order|] == name;
        }
      } else if Before(order, a, b) {
        BeforeInLonger(order, order', a, b);
      }
    }
  }

  lemma EmitKeepsEmitted(tables: seq<D1Object>, ordered: seq<D1Object>, visited: set<string>, name: string)
    requires Emitted(tables, ordered, visited) && name in Names(tables) && name !in visited
    requires forall a :: Refers(tables, a, name) ==> a in visited || Leads(tables, name, a)
    ensures Emitted(tables, ordered + [LastNamed(tables)[name]], visited + {name})
  {
    hide Refers, Leads, ReferrersFirst, NamesInOrder, LastNamed, Names;
    var order := NamesInOrder(ordered);
    var ordered' := ordered + [LastNamed(tables)[name]];
    assert NamesInOrder(ordered') == order + [name];
    assert name !in order;
    EmitKeepsOrder(tables, order, name);
    forall i | 0 <= i < |ordered'|
      ensures ordered'[i].name in Names(tables) && ordered'[i] == LastNamed(tables)[ordered'[i].name]
    {
    }
  }

  /** The depth-first search of one ordering run. */
  class TableOrder {
    const tables: seq<D1Object>
    const dependentsByTable: map<string, seq<string>>
    var ordered: seq<D1Object>
    var visiting: set<string>
    var visited: set<string>

    ghost predicate Valid()
      reads this
    {
      && Dependents(tables, dependentsByTable)
      && visiting <= Names(tables) && visited !! visiting
      && Emitted(tables, ordered, visited)
    }

    constructor (tables: seq<D1Object>, dependentsByTable: map<string, seq<string>>)
      requires Dependents(tables, dependentsByTable)
      ensures Valid() && this.tables == tables && this.dependentsByTable == dependentsByTable
      ensures ordered == [] && visiting == {} && visited == {}
    {
      this.tables, this.dependentsByTable := tables, dependentsByTable;
      ordered, visiting, visited := [], {}, {};
    }

    method Visit(name: string)
      requires Valid() && name in Names(tables)
      requires forall w :: w in visiting ==> Leads(tables, name, w)
      modifies this
      ensures Valid()
      ensures visiting == old(visiting) && old(visited) <= visited
      ensures old(ordered) <= ordered
      ensures name in visited + visiting
      decreases Names(tables) - visited - visiting
    {
      hide Emitted, Refers, Leads, Names;
      if name in visited {
        return;
      }
      if name in visiting {
        return;
      }
      visiting := visiting + {name};
      LeadsToItself(tables, name);
      var dependents := if name in dependentsByTable then dependentsByTable[name] else [];
      for i := 0 to |dependents|
        invariant Valid()
        invariant visiting == old(visiting) + {name} && old(visited) <= visited
        invariant old(ordered) <= ordered
        invariant forall j :: 0 <= j < i ==> dependents[j] in visited + visiting
      {
        var dependent := dependents[i];
        assert Refers(tables, dependent, name);
        ReferrersAreListed(tables, dependent, name);
        forall w | w in visiting ensures Leads(tables, dependent, w) {
          LeadsFurther(tables, dependent, name, w);
        }
        Visit(dependent);
      }
      EmitKeepsEmitted(tables, ordered, visited, name);
      visiting := visiting - {name};
      visited := visited + {name};
      ordered := ordered + [LastNamed(tables)[name]];
    }
  }

  lemma ReferrersAreListed(tables: seq<D1Object>, a: string, b: string)
    requires Refers(tables, a, b)
    ensures a in Names(tables) && b in Names(tables)
  {
  }

  // ----- the dependents map

  /** A pair of the map: `a` is a dependent of `b`. */
  predicate IsDependent(m: map<string, seq<string>>, a: string, b: string) {
    b in m && a in m[b]
  }

  function AddDependent(m: map<string, seq<string>>, a: string, b: string): (m': map<string, seq<string>>)
    ensures forall x, y :: IsDependent(m', x, y) <==> IsDependent(m, x, y) || (x == a && y == b)
  {
    if IsDependent(m, a, b) then m
    else if b in m then m[b := m[b] + [a]]
    else m[b := [a]]
  }

  /** One of the first `k` tables is named `a` and refers to the listed table `b`. */
  ghost predicate RefersAmong(tables: seq<D1Object>, k: nat, a: string, b: string)
    requires k <= |tables|
  {
    b in Names(tables) && exists i :: 0 <= i < k && tables[i].name == a && b in tables[i].references
  }

  method BuildDependents(tables: seq<D1Object>) returns (m: map<string, seq<string>>)
    ensures Dependents(tables, m)
  {
    hide Names;
    m := map[];
    for k := 0 to |tables|
      invariant forall a, b :: IsDependent(m, a, b) <==> RefersAmong(tables, k, a, b)
    {
      var table := tables[k];
      for j := 0 to |table.references|
        invariant forall a, b :: IsDependent(m, a, b) <==>
          RefersAmong(tables, k, a, b)
          || (a == table.name && b in table.references[..j] && b in Names(tables))
      {
        if table.references[j] in Names(tables) {
          m := AddDependent(m, table.name, table.references[j]);
        }
      }
      assert table.references[..|table.references|] == table.references;
      forall a, b ensures RefersAmong(tables, k + 1, a, b) <==>
        RefersAmong(tables, k, a, b) || (a == table.name && b in table.references && b in Names(tables))
      {
        assert tables[k] == table;
      }
    }
    forall a, b ensures Refers(tables, a, b) <==> b in m && a in m[b] {
      assert IsDependent(m, a, b) <==> RefersAmong(tables, |tables|, a, b);
    }
  }

  // ----- the whole ordering

  function ByName(nameLe: (string, string) -> bool): (D1Object, D1Object) -> bool {
    (x: D1Object, y: D1Object) => nameLe(x.name, y.name)
  }

  /** A table list with every name once is emitted as a permutation of itself. */
  lemma DistinctNamesPermute(tables: seq<D1Object>, ordered: seq<D1Object>)
    requires NoDuplicates(NamesInOrder(tables)) && NoDuplicates(NamesInOrder(ordered))
    requires forall n :: n in NamesInOrder(ordered) <==> n in Names(tables)
    requires forall t :: t in ordered ==> t in tables
    ensures multiset(ordered) == multiset(tables)
  {
    DistinctTables(tables);
    DistinctTables(ordered);
    forall t ensures multiset(ordered)[t] == multiset(tables)[t] {
      OccursOnce(tables, t);
      OccursOnce(ordered, t);
      if t in tables && t !in ordered {
        assert t.name in NamesInOrder(ordered);
        var i :| 0 <= i < |ordered| && NamesInOrder(ordered)[i] == t.name;
        assert ordered[i] in tables;
        SameNameSameTable(tables, ordered[i], t);
      }
    }
  }

  lemma SameNameSameTable(tables: seq<D1Object>, t: D1Object, u: D1Object)
    requires NoDuplicates(NamesInOrder(tables)) && t in tables && u in tables && t.name == u.name
    ensures t == u
  {
    var i :| 0 <= i < |tables| && tables[i] == t;
    var j :| 0 <= j < |tables| && tables[j] == u;
    assert NamesInOrder(tables)[i] == NamesInOrder(tables)[j];
  }

  lemma DistinctTables(tables: seq<D1Object>)
    requires NoDuplicates(NamesInOrder(tables))
    ensures NoDuplicates(tables)
  {
    assert forall i :: 0 <= i < |tables| ==> NamesInOrder(tables)[i] == tables[i].name;
  }

  ghost predicate IsDropOrder(tables: seq<D1Object>, ordered: seq<D1Object>) {
    && NoDuplicates(NamesInOrder(ordered))
    && (forall n :: n in NamesInOrder(ordered) <==> n in Names(tables))
    && (forall t :: t in ordered ==> t in tables)
    && (forall t :: t in ordered ==> IsLastNamed(tables, t.name, t))
    && (forall a, b :: Refers(tables, a, b) ==> Before(NamesInOrder(ordered), a, b) || Leads(tables, b, a))
    && (NoDuplicates(NamesInOrder(tables)) ==> multiset(ordered) == multiset(tables))
  }

  lemma CompleteOrder(tables: seq<D1Object>, ordered: seq<D1Object>, visited: set<string>)
    requires Emitted(tables, ordered, visited) && Names(tables) <= visited
    ensures IsDropOrder(tables, ordered)
  {
    hide Leads;
    forall a, b | Refers(tables, a, b) ensures Before(NamesInOrder(ordered), a, b) || Leads(tables, b, a) {
      ReferrersAreListed(tables, a, b);
    }
    if NoDuplicates(NamesInOrder(tables)) {
      DistinctNamesPermute(tables, ordered);
    }
  }

  lemma RootIsListed(tables: seq<D1Object>, le: (D1Object, D1Object) -> bool, i: nat)
    requires i < |tables|
    ensures Sort(tables, le)[i].name in Names(tables)
  {
    SortKeepsMembers(tables, le, Sort(tables, le)[i]);
  }

  lemma RootsCoverAll(tables: seq<D1Object>, le: (D1Object, D1Object) -> bool, visited: set<string>)
    requires forall t :: t in Sort(tables, le) ==> t.name in visited
    ensures Names(tables) <= visited
  {
    forall t | t in tables ensures t.name in visited {
      SortKeepsMembers(tables, le, t);
    }
  }

  /**
   * For any reference graph, cyclic or not: each table name is emitted exactly once, and a table
   * precedes every table it refers to unless the two lie on a common reference cycle.
   */
  method OrderTablesForDrop(tables: seq<D1Object>, nameLe: (string, string) -> bool) returns (ordered: seq<D1Object>)
    ensures IsDropOrder(tables, ordered)
  {
    hide Leads, Refers, ByName, Emitted, NoDuplicates, Names;
    var dependents := BuildDependents(tables);
    var search := new TableOrder(tables, dependents);
    var roots := Sort(tables, ByName(nameLe));
    for i := 0 to |roots|
      invariant search.Valid() && search.tables == tables && search.visiting == {}
      invariant forall j :: 0 <= j < i ==> roots[j].name in search.visited
    {
      RootIsListed(tables, ByName(nameLe), i);
      search.Visit(roots[i].name);
    }
    ordered := search.ordered;
    RootsCoverAll(tables, ByName(nameLe), search.visited);
    CompleteOrder(tables, ordered, search.visited);
  }

  function KindIs(kind: Kind): D1Object -> bool {
    (o: D1Object) => o.kind == kind
  }

  function OfKind(objects: seq<D1Object>, kind: Kind): seq<D1Object> {
    Filter(objects, KindIs(kind))
  }

  ghost predicate AllOfKind(xs: seq<D1Object>, kind: Kind) {
    forall o :: o in xs ==> o.kind == kind
  }

  lemma OfKindIsUniform(objects: seq<D1Object>, kind: Kind)
    ensures AllOfKind(OfKind(objects, kind), kind)
  {
    forall o | o in OfKind(objects, kind) ensures o.kind == kind {
      FilterMembers(objects, KindIs(kind), o);
    }
  }

  lemma SortOfKind(objects: seq<D1Object>, kind: Kind, le: (D1Object, D1Object) -> bool)
    ensures AllOfKind(Sort(OfKind(objects, kind), le), kind)
  {
    hide Filter;
    OfKindIsUniform(objects, kind);
    forall o | o in Sort(OfKind(objects, kind), le) ensures o.kind == kind {
      SortKeepsMembers(OfKind(objects, kind), le, o);
    }
  }

  lemma KindsPartition(objects: seq<D1Object>)
    ensures multiset(objects) == multiset(OfKind(objects, View)) + multiset(OfKind(objects, Trigger))
                                 + multiset(OfKind(objects, Index)) + multiset(OfKind(objects, Table))
  {
    hide Filter;
    forall o ensures multiset(objects)[o] == multiset(OfKind(objects, View))[o] + multiset(OfKind(objects, Trigger))[o]
                                             + multiset(OfKind(objects, Index))[o] + multiset(OfKind(objects, Table))[o]
    {
      FilterCount(objects, KindIs(View), o);
      FilterCount(objects, KindIs(Trigger), o);
      FilterCount(objects, KindIs(Index), o);
      FilterCount(objects, KindIs(Table), o);
    }
  }

  lemma PartsOf(views: seq<D1Object>, triggers: seq<D1Object>, indexes: seq<D1Object>, tables: seq<D1Object>, kind: Kind)
    requires AllOfKind(views, View) && AllOfKind(triggers, Trigger) && AllOfKind(indexes, Index) && AllOfKind(tables, Table)
    ensures OfKind(views + triggers + indexes + tables, kind)
         == match kind case View => views case Trigger => triggers case Index => indexes case Table => tables
  {
    hide Filter;
    FilterConcat(views + triggers + indexes, tables, KindIs(kind));
    FilterConcat(views + triggers, indexes, KindIs(kind));
    FilterConcat(views, triggers, KindIs(kind));
    FilterOfUniform(views, KindIs(kind), kind == View);
    FilterOfUniform(triggers, KindIs(kind), kind == Trigger);
    FilterOfUniform(indexes, KindIs(kind), kind == Index);
    FilterOfUniform(tables, KindIs(kind), kind == Table);
  }

  lemma NameOrderIsTotal(nameLe: (string, string) -> bool)
    requires TotalPreorder(nameLe)
    ensures TotalPreorder(ByName(nameLe))
  {
    var le := ByName(nameLe);
    assert forall x, y :: le(x, y) <==> nameLe(x.name, y.name);
    forall x, y ensures le(x, y) || le(y, x) {
      assert nameLe(x.name, y.name) || nameLe(y.name, x.name);
    }
  }

  lemma SortedByName(objects: seq<D1Object>, kind: Kind, nameLe: (string, string) -> bool)
    requires TotalPreorder(nameLe)
    ensures IsSorted(Sort(OfKind(objects, kind), ByName(nameLe)), ByName(nameLe))
  {
    hide OfKind, Sort, TotalPreorder;
    NameOrderIsTotal(nameLe);
    SortSorts(OfKind(objects, kind), ByName(nameLe));
  }

  /**
   * Views, triggers, indexes and tables in that order; the first three keep all their objects,
   * sorted by name, and the tables are in a drop order. Nothing is lost or invented when table names
   * are distinct.
   */
  ghost predicate IsObjectOrder(objects: seq<D1Object>, nameLe: (string, string) -> bool, ordered: seq<D1Object>) {
    && ordered == OfKind(ordered, View) + OfKind(ordered, Trigger) + OfKind(ordered, Index) + OfKind(ordered, Table)
    && (forall kind :: kind != Table ==> multiset(OfKind(ordered, kind)) == multiset(OfKind(objects, kind)))
    && (TotalPreorder(nameLe) ==>
          forall kind, i, j :: kind != Table && 0 <= i < j < |OfKind(ordered, kind)| ==>
            nameLe(OfKind(ordered, kind)[i].name, OfKind(ordered, kind)[j].name))
    && IsDropOrder(OfKind(objects, Table), OfKind(ordered, Table))
    && (NoDuplicates(NamesInOrder(OfKind(objects, Table))) ==> multiset(ordered) == multiset(objects))
  }

  lemma SortedMeansByName(xs: seq<D1Object>, nameLe: (string, string) -> bool)
    requires IsSorted(xs, ByName(nameLe))
    ensures forall i, j :: 0 <= i < j < |xs| ==> nameLe(xs[i].name, xs[j].name)
  {
    assert forall x, y :: ByName(nameLe)(x, y) <==> nameLe(x.name, y.name);
  }

  method OrderObjectsForDrop(objects: seq<D1Object>, nameLe: (string, string) -> bool) returns (ordered: seq<D1Object>)
    ensures IsObjectOrder(objects, nameLe, ordered)
  {
    hide IsDropOrder, NoDuplicates, OfKind, Sort, IsSorted, TotalPreorder, AllOfKind, ByName;
    var le := ByName(nameLe);
    var views := Sort(OfKind(objects, View), le);
    var triggers := Sort(OfKind(objects, Trigger), le);
    var indexes := Sort(OfKind(objects, Index), le);
    var tables := OrderTablesForDrop(OfKind(objects, Table), nameLe);
    SortOfKind(objects, View, le);
    SortOfKind(objects, Trigger, le);
    SortOfKind(objects, Index, le);
    assert AllOfKind(OfKind(objects, Table), Table) by { OfKindIsUniform(objects, Table); }
    DroppedTables(OfKind(objects, Table), tables);
    forall kind ensures OfKind(views + triggers + indexes + tables, kind)
      == match kind case View => views case Trigger => triggers case Index => indexes case Table => tables
    {
      PartsOf(views, triggers, indexes, tables, kind);
    }
    if TotalPreorder(nameLe) {
      SortedByName(objects, View, nameLe);
      SortedByName(objects, Trigger, nameLe);
      SortedByName(objects, Index, nameLe);
      SortedMeansByName(views, nameLe);
      SortedMeansByName(triggers, nameLe);
      SortedMeansByName(indexes, nameLe);
    }
    if NoDuplicates(NamesInOrder(OfKind(objects, Table))) {
      KindsPermute(objects, views, triggers, indexes, tables);
    }
    ordered := views + triggers + indexes + tables;
  }

  lemma KindsPermute(objects: seq<D1Object>, views: seq<D1Object>, triggers: seq<D1Object>, indexes: seq<D1Object>, tables: seq<D1Object>)
    requires multiset(views) == multiset(OfKind(objects, View)) && multiset(triggers) == multiset(OfKind(objects, Trigger))
    requires multiset(indexes) == multiset(OfKind(objects, Index)) && multiset(tables) == multiset(OfKind(objects, Table))
    ensures multiset(views + triggers + indexes + tables) == multiset(objects)
  {
    hide OfKind;
    KindsPartition(objects);
  }

  lemma DroppedTables(tables: seq<D1Object>, ordered: seq<D1Object>)
    requires IsDropOrder(tables, ordered) && AllOfKind(tables, Table)
    ensures AllOfKind(ordered, Table)
    ensures NoDuplicates(NamesInOrder(tables)) ==> multiset(ordered) == multiset(tables)
  {
    hide Refers, Before, Leads, Names, NoDuplicates;
  }
}
