/**
 * The canonical form behind payload fingerprints: every object's entries sorted by key. The host
 * comparison of keys is a parameter: `le(x, y)` stands for "x compared with y is not positive".
 */
module CanonicalJson {
  import opened Decimals
  import opened Json
  import opened Sorting

  /** Property names that the host enumerates first, in numeric order. */
  predicate IsIndex(key: string) {
    IsDecimal(key) && DecimalValue(key) < 0xFFFF_FFFF
  }

  /** The host's array indices: canonical numerals below 2^32 - 1. */
  lemma IndexIff(key: string)
    ensures IsIndex(key) <==> IsDecimal(key) && NumeralLess(key, "4294967295")
  {
    ValueOf32BitMaximum();
    if IsDecimal(key) {
      ValueOrder(key, "4294967295");
    }
  }

  function IndexIs(index: bool): Field -> bool {
    (f: Field) => IsIndex(f.key) == index
  }

  function Pick(fs: seq<Field>, index: bool): seq<Field> {
    Filter(fs, IndexIs(index))
  }

  function IndexOf(key: string): nat {
    if IsDecimal(key) then DecimalValue(key) else 0
  }

  function ByIndex(): (Field, Field) -> bool {
    (x: Field, y: Field) => IndexOf(x.key) <= IndexOf(y.key)
  }

  function ByKey(le: (string, string) -> bool): (Field, Field) -> bool {
    (x: Field, y: Field) => le(x.key, y.key)
  }

  /** The enumeration order of an object created from `fs`. */
  function FromEntries(fs: seq<Field>): seq<Field> {
    Sort(Pick(fs, true), ByIndex()) + Pick(fs, false)
  }

  /** Sorting looks at keys only, so it commutes with making the values canonical. */
  function StableValue(le: (string, string) -> bool, v: Json): Json
    decreases v
  {
    match v
    case Arr(items) => Arr(seq(|items|, i requires 0 <= i < |items| => StableValue(le, items[i])))
    case Obj(fields) => Obj(FromEntries(Sort(StableFields(le, fields), ByKey(le))))
    case _ => v
  }

  function StableFields(le: (string, string) -> bool, fs: seq<Field>): (r: seq<Field>)
    decreases fs
    ensures |r| == |fs|
    ensures forall i :: 0 <= i < |fs| ==> r[i] == Field(fs[i].key, StableValue(le, fs[i].value))
  {
    seq(|fs|, i requires 0 <= i < |fs| => Field(fs[i].key, StableValue(le, fs[i].value)))
  }

  /** Equal up to the order of object keys, at every depth. */
  ghost predicate SameUpToKeyOrder(a: Json, b: Json)
    decreases a
  {
    match (a, b)
    case (Arr(xs), Arr(ys)) => |xs| == |ys| && forall i :: 0 <= i < |xs| ==> SameUpToKeyOrder(xs[i], ys[i])
    case (Obj(fs), Obj(gs)) =>
      && (forall i :: 0 <= i < |fs| ==> IsAmong(fs[i], gs))
      && (forall j :: 0 <= j < |gs| ==> HasAmong(fs, gs[j]))
    case _ => a == b
  }

  /** Some entry of `gs` has the key of `f` and the same value up to key order. */
  ghost predicate IsAmong(f: Field, gs: seq<Field>)
    decreases f
  {
    exists j :: 0 <= j < |gs| && gs[j].key == f.key && SameUpToKeyOrder(f.value, gs[j].value)
  }

  ghost predicate HasAmong(fs: seq<Field>, g: Field)
    decreases fs
  {
    exists i :: 0 <= i < |fs| && fs[i].key == g.key && SameUpToKeyOrder(fs[i].value, g.value)
  }

  // ----- enumeration order

  lemma PickCount(fs: seq<Field>, index: bool, f: Field)
    ensures multiset(Pick(fs, index))[f] == if IsIndex(f.key) == index then multiset(fs)[f] else 0
  {
    FilterCount(fs, IndexIs(index), f);
  }

  lemma PickMembers(fs: seq<Field>, index: bool, f: Field)
    ensures f in Pick(fs, index) <==> f in fs && IsIndex(f.key) == index
  {
    FilterMembers(fs, IndexIs(index), f);
  }

  lemma PickRespectsMultiset(fs: seq<Field>, gs: seq<Field>, index: bool)
    requires multiset(fs) == multiset(gs)
    ensures multiset(Pick(fs, index)) == multiset(Pick(gs, index))
  {
    hide IsIndex, Pick;
    forall f ensures multiset(Pick(fs, index))[f] == multiset(Pick(gs, index))[f] {
      PickCount(fs, index, f);
      PickCount(gs, index, f);
    }
  }

  lemma FromEntriesPermutes(fs: seq<Field>)
    ensures multiset(FromEntries(fs)) == multiset(fs)
  {
    hide IsIndex, Pick;
    forall f ensures multiset(FromEntries(fs))[f] == multiset(fs)[f] {
      PickCount(fs, true, f);
      PickCount(fs, false, f);
    }
  }

  // ----- ties

  /** Two property names that the sort leaves in the order in which they came. */
  predicate Tie(le: (string, string) -> bool, x: string, y: string) {
    x != y && !IsIndex(x) && !IsIndex(y) && le(x, y) && le(y, x)
  }

  /** No two names among these entries tie. */
  ghost predicate NamesDiffer(le: (string, string) -> bool, fs: seq<Field>) {
    forall f, g :: f in fs && g in fs ==> !Tie(le, f.key, g.key)
  }

  /** Entries with the same key are the same entry. */
  ghost predicate OnePerKey(fs: seq<Field>) {
    forall f, g :: f in fs && g in fs && f.key == g.key ==> f == g
  }

  lemma DistinctIsOnePerKey(fs: seq<Field>)
    requires DistinctKeys(fs)
    ensures OnePerKey(fs)
  {
    forall f, g | f in fs && g in fs && f.key == g.key ensures f == g {
      var i :| 0 <= i < |fs| && fs[i] == f;
      var j :| 0 <= j < |fs| && fs[j] == g;
    }
  }

  lemma KeyOrderIsTotal(le: (string, string) -> bool)
    requires TotalPreorder(le)
    ensures TotalPreorder(ByKey(le)) && TotalPreorder(ByIndex())
  {
    forall x: Field, y: Field ensures ByKey(le)(x, y) || ByKey(le)(y, x) {
      assert le(x.key, y.key) || le(y.key, x.key);
    }
    forall x: Field, y: Field, z: Field | ByKey(le)(x, y) && ByKey(le)(y, z) ensures ByKey(le)(x, z) {
      assert le(x.key, y.key) && le(y.key, z.key);
    }
  }

  lemma NamedHaveNoTies(fs: seq<Field>, le: (string, string) -> bool)
    requires NamesDiffer(le, fs) && OnePerKey(fs)
    ensures Antisymmetric(Pick(fs, false), ByKey(le))
  {
    forall x, y | x in Pick(fs, false) && y in Pick(fs, false) && ByKey(le)(x, y) && ByKey(le)(y, x) ensures x == y {
      PickMembers(fs, false, x);
      PickMembers(fs, false, y);
      assert !Tie(le, x.key, y.key);
    }
  }

  lemma IndicesHaveNoTies(fs: seq<Field>)
    requires OnePerKey(fs)
    ensures Antisymmetric(Pick(fs, true), ByIndex())
  {
    forall x, y | x in Pick(fs, true) && y in Pick(fs, true) && ByIndex()(x, y) && ByIndex()(y, x) ensures x == y {
      PickMembers(fs, true, x);
      PickMembers(fs, true, y);
      DecimalValueIsInjective(x.key, y.key);
    }
  }

  lemma SortedIndicesAgree(fs: seq<Field>, gs: seq<Field>)
    requires multiset(fs) == multiset(gs) && OnePerKey(fs) && TotalPreorder(ByIndex())
    ensures Sort(Pick(fs, true), ByIndex()) == Sort(Pick(gs, true), ByIndex())
  {
    hide Pick, Sort, TotalPreorder;
    var xs, ys := Sort(Pick(fs, true), ByIndex()), Sort(Pick(gs, true), ByIndex());
    SortSorts(Pick(fs, true), ByIndex());
    SortSorts(Pick(gs, true), ByIndex());
    PickRespectsMultiset(fs, gs, true);
    IndicesHaveNoTies(fs);
    forall x ensures x in xs <==> x in Pick(fs, true) {
      SortKeepsMembers(Pick(fs, true), ByIndex(), x);
    }
    SortedIsUnique(xs, ys, ByIndex());
  }

  lemma SortedNamesAgree(fs: seq<Field>, gs: seq<Field>, le: (string, string) -> bool)
    requires multiset(fs) == multiset(gs) && OnePerKey(fs) && NamesDiffer(le, fs) && TotalPreorder(ByKey(le))
    requires IsSorted(fs, ByKey(le)) && IsSorted(gs, ByKey(le))
    ensures Pick(fs, false) == Pick(gs, false)
  {
    hide Filter, TotalPreorder;
    PickRespectsMultiset(fs, gs, false);
    FilterKeepsSorted(fs, IndexIs(false), ByKey(le));
    FilterKeepsSorted(gs, IndexIs(false), ByKey(le));
    NamedHaveNoTies(fs, le);
    SortedIsUnique(Pick(fs, false), Pick(gs, false), ByKey(le));
  }

  /** The same entries in any order give the same object. */
  lemma SameEntriesSameObject(fs: seq<Field>, gs: seq<Field>, le: (string, string) -> bool)
    requires multiset(fs) == multiset(gs) && OnePerKey(fs) && NamesDiffer(le, fs) && TotalPreorder(le)
    ensures FromEntries(Sort(fs, ByKey(le))) == FromEntries(Sort(gs, ByKey(le)))
  {
    hide Pick, Sort, TotalPreorder, Tie;
    KeyOrderIsTotal(le);
    var xs, ys := Sort(fs, ByKey(le)), Sort(gs, ByKey(le));
    SortSorts(fs, ByKey(le));
    SortSorts(gs, ByKey(le));
    assert OnePerKey(xs) && NamesDiffer(le, xs) by {
      forall x | x in xs ensures x in fs {
        SortKeepsMembers(fs, ByKey(le), x);
      }
    }
    SortedNamesAgree(xs, ys, le);
    SortedIndicesAgree(xs, ys);
  }

  // ----- the canonical form decides equality up to key order

  lemma DistinctEntries(fs: seq<Field>)
    requires DistinctKeys(fs)
    ensures NoDuplicates(fs)
  {
  }

  lemma SameMembersSameMultiset(fs: seq<Field>, gs: seq<Field>)
    requires DistinctKeys(fs) && DistinctKeys(gs) && forall f :: f in fs <==> f in gs
    ensures multiset(fs) == multiset(gs)
  {
    DistinctEntries(fs);
    DistinctEntries(gs);
    forall f ensures multiset(fs)[f] == multiset(gs)[f] {
      OccursOnce(fs, f);
      OccursOnce(gs, f);
    }
  }

  lemma ArrayForm(le: (string, string) -> bool, xs: seq<Json>)
    ensures var a := StableValue(le, Arr(xs));
            a.Arr? && |a.items| == |xs| && forall i :: 0 <= i < |xs| ==> a.items[i] == StableValue(le, xs[i])
  {
  }

  lemma ObjectForm(le: (string, string) -> bool, fs: seq<Field>)
    ensures StableValue(le, Obj(fs)) == Obj(FromEntries(Sort(StableFields(le, fs), ByKey(le))))
  {
    hide FromEntries, Sort;
  }

  lemma SameArrays(le: (string, string) -> bool, xs: seq<Json>, ys: seq<Json>)
    requires |xs| == |ys| && forall i :: 0 <= i < |xs| ==> StableValue(le, xs[i]) == StableValue(le, ys[i])
    ensures StableValue(le, Arr(xs)) == StableValue(le, Arr(ys))
  {
    hide StableValue;
    ArrayForm(le, xs);
    ArrayForm(le, ys);
    assert StableValue(le, Arr(xs)).items == StableValue(le, Arr(ys)).items;
  }

  /** Entry for entry, equality up to key order implies equal canonical entries. */
  ghost predicate AgreeOn(le: (string, string) -> bool, fs: seq<Field>, gs: seq<Field>) {
    forall i, j :: 0 <= i < |fs| && 0 <= j < |gs| && SameUpToKeyOrder(fs[i].value, gs[j].value) ==>
      StableValue(le, fs[i].value) == StableValue(le, gs[j].value)
  }

  lemma StableIsAmong(le: (string, string) -> bool, fs: seq<Field>, gs: seq<Field>, i: nat)
    requires i < |fs| && IsAmong(fs[i], gs) && AgreeOn(le, fs, gs)
    ensures StableFields(le, fs)[i] in StableFields(le, gs)
  {
    hide SameUpToKeyOrder, StableValue;
    var j :| 0 <= j < |gs| && gs[j].key == fs[i].key && SameUpToKeyOrder(fs[i].value, gs[j].value);
    assert StableFields(le, gs)[j] == StableFields(le, fs)[i];
  }

  lemma StableHasAmong(le: (string, string) -> bool, fs: seq<Field>, gs: seq<Field>, j: nat)
    requires j < |gs| && HasAmong(fs, gs[j]) && AgreeOn(le, fs, gs)
    ensures StableFields(le, gs)[j] in StableFields(le, fs)
  {
    hide SameUpToKeyOrder, StableValue;
    var i :| 0 <= i < |fs| && fs[i].key == gs[j].key && SameUpToKeyOrder(fs[i].value, gs[j].value);
    assert StableFields(le, fs)[i] == StableFields(le, gs)[j];
  }

  lemma SameStableMembers(le: (string, string) -> bool, fs: seq<Field>, gs: seq<Field>)
    requires forall i :: 0 <= i < |fs| ==> IsAmong(fs[i], gs)
    requires forall j :: 0 <= j < |gs| ==> HasAmong(fs, gs[j])
    requires AgreeOn(le, fs, gs)
    ensures forall f :: f in StableFields(le, fs) <==> f in StableFields(le, gs)
  {
    hide AgreeOn, IsAmong, HasAmong, StableFields, StableValue;
    forall f | f in StableFields(le, fs) ensures f in StableFields(le, gs) {
      var i :| 0 <= i < |fs| && StableFields(le, fs)[i] == f;
      StableIsAmong(le, fs, gs, i);
    }
    forall f | f in StableFields(le, gs) ensures f in StableFields(le, fs) {
      var j :| 0 <= j < |gs| && StableFields(le, gs)[j] == f;
      StableHasAmong(le, fs, gs, j);
    }
  }

  lemma SameObjects(le: (string, string) -> bool, fs: seq<Field>, gs: seq<Field>)
    requires TotalPreorder(le) && NamesDiffer(le, fs) && DistinctKeys(fs) && DistinctKeys(gs)
    requires forall i :: 0 <= i < |fs| ==> IsAmong(fs[i], gs)
    requires forall j :: 0 <= j < |gs| ==> HasAmong(fs, gs[j])
    requires AgreeOn(le, fs, gs)
    ensures StableValue(le, Obj(fs)) == StableValue(le, Obj(gs))
  {
    hide TotalPreorder, Tie, FromEntries, Sort, StableValue, IsAmong, HasAmong, AgreeOn;
    SameStableMembers(le, fs, gs);
    var xs, ys := StableFields(le, fs), StableFields(le, gs);
    assert NamesDiffer(le, xs);
    SameMembersSameMultiset(xs, ys);
    DistinctIsOnePerKey(xs);
    SameEntriesSameObject(xs, ys, le);
    ObjectForm(le, fs);
    ObjectForm(le, gs);
  }

  /** No object in the value, at any depth, holds two names that tie. */
  predicate NoTies(le: (string, string) -> bool, v: Json) {
    match v
    case Arr(items) => forall i :: 0 <= i < |items| ==> NoTies(le, items[i])
    case Obj(fields) =>
      && (forall i, j :: 0 <= i < |fields| && 0 <= j < |fields| ==> !Tie(le, fields[i].key, fields[j].key))
      && (forall i :: 0 <= i < |fields| ==> NoTies(le, fields[i].value))
    case _ => true
  }

  lemma {:induction false} CanonicalIfSame(le: (string, string) -> bool, a: Json, b: Json)
    requires TotalPreorder(le) && NoTies(le, a)
    requires WellFormed(a) && WellFormed(b) && SameUpToKeyOrder(a, b)
    ensures StableValue(le, a) == StableValue(le, b)
    decreases a
  {
    hide TotalPreorder, Tie, StableValue, IsAmong, HasAmong;
    if a.Arr? {
      var xs, ys := a.items, b.items;
      forall i | 0 <= i < |xs| ensures StableValue(le, xs[i]) == StableValue(le, ys[i]) {
        CanonicalIfSame(le, xs[i], ys[i]);
      }
      SameArrays(le, xs, ys);
    } else if a.Obj? {
      var fs, gs := a.fields, b.fields;
      forall i, j | 0 <= i < |fs| && 0 <= j < |gs| && SameUpToKeyOrder(fs[i].value, gs[j].value)
        ensures StableValue(le, fs[i].value) == StableValue(le, gs[j].value)
      {
        CanonicalIfSame(le, fs[i].value, gs[j].value);
      }
      SameObjects(le, fs, gs);
    }
  }

  lemma SameObjectSameEntries(fs: seq<Field>, gs: seq<Field>, le: (string, string) -> bool)
    requires FromEntries(Sort(fs, ByKey(le))) == FromEntries(Sort(gs, ByKey(le)))
    ensures forall f :: f in fs <==> f in gs
  {
    hide FromEntries, Sort;
    FromEntriesPermutes(Sort(fs, ByKey(le)));
    FromEntriesPermutes(Sort(gs, ByKey(le)));
    forall f ensures f in fs <==> f in gs {
      assert f in fs <==> f in multiset(fs);
      assert f in gs <==> f in multiset(gs);
    }
  }

  lemma CanonicalKeepsShape(le: (string, string) -> bool, a: Json)
    ensures var c := StableValue(le, a);
            (c.Arr? <==> a.Arr?) && (c.Obj? <==> a.Obj?) && (!a.Arr? && !a.Obj? ==> c == a)
  {
    hide FromEntries, Sort;
  }

  lemma {:induction false} SameIfCanonical(le: (string, string) -> bool, a: Json, b: Json)
    requires StableValue(le, a) == StableValue(le, b)
    ensures SameUpToKeyOrder(a, b)
    decreases a
  {
    hide StableValue, FromEntries, Sort;
    CanonicalKeepsShape(le, a);
    CanonicalKeepsShape(le, b);
    if a.Arr? {
      ArrayForm(le, a.items);
      ArrayForm(le, b.items);
      forall i | 0 <= i < |a.items| ensures SameUpToKeyOrder(a.items[i], b.items[i]) {
        SameIfCanonical(le, a.items[i], b.items[i]);
      }
    } else if a.Obj? {
      var fs, gs := a.fields, b.fields;
      ObjectForm(le, fs);
      ObjectForm(le, gs);
      var sf, sg := StableFields(le, fs), StableFields(le, gs);
      SameObjectSameEntries(sf, sg, le);
      forall i | 0 <= i < |fs| ensures IsAmong(fs[i], gs) {
        assert sf[i] in sg;
        var j :| 0 <= j < |sg| && sg[j] == sf[i];
        SameIfCanonical(le, fs[i].value, gs[j].value);
      }
      forall j | 0 <= j < |gs| ensures HasAmong(fs, gs[j]) {
        assert sg[j] in sf;
        var i :| 0 <= i < |sf| && sf[i] == sg[j];
        SameIfCanonical(le, fs[i].value, gs[j].value);
      }
    }
  }

  /** Two payloads share a canonical form exactly when they differ in key order only. */
  lemma CanonicalIffSame(le: (string, string) -> bool, a: Json, b: Json)
    requires TotalPreorder(le) && NoTies(le, a) && WellFormed(a) && WellFormed(b)
    ensures StableValue(le, a) == StableValue(le, b) <==> SameUpToKeyOrder(a, b)
  {
    hide StableValue, SameUpToKeyOrder, TotalPreorder, NoTies;
    if StableValue(le, a) == StableValue(le, b) {
      SameIfCanonical(le, a, b);
    }
    if SameUpToKeyOrder(a, b) {
      CanonicalIfSame(le, a, b);
    }
  }

  // ----- a canonical form is its own canonical form

  lemma SameFromEntries(fs: seq<Field>, le: (string, string) -> bool)
    ensures var gs := FromEntries(Sort(fs, ByKey(le))); multiset(gs) == multiset(fs)
  {
    FromEntriesPermutes(Sort(fs, ByKey(le)));
  }

  lemma OccursTwice(fs: seq<Field>, i: nat, j: nat)
    requires i < j < |fs| && fs[i] == fs[j]
    ensures multiset(fs)[fs[i]] >= 2
  {
    assert fs == fs[..i] + [fs[i]] + fs[i + 1..j] + [fs[j]] + fs[j + 1..];
  }

  lemma PermutedKeysStayDistinct(fs: seq<Field>, gs: seq<Field>)
    requires DistinctKeys(fs) && multiset(fs) == multiset(gs)
    ensures DistinctKeys(gs)
  {
    DistinctIsOnePerKey(fs);
    DistinctEntries(fs);
    forall i, j | 0 <= i < j < |gs| ensures gs[i].key != gs[j].key {
      assert gs[i] in multiset(fs) && gs[j] in multiset(fs);
      OccursOnce(fs, gs[i]);
      if gs[i] == gs[j] {
        OccursTwice(gs, i, j);
      }
    }
  }

  lemma {:induction false} CanonicalIsWellFormedAndSame(le: (string, string) -> bool, a: Json)
    requires WellFormed(a)
    ensures WellFormed(StableValue(le, a)) && SameUpToKeyOrder(a, StableValue(le, a))
    decreases a
  {
    hide StableValue, FromEntries, Sort;
    CanonicalKeepsShape(le, a);
    if a.Arr? {
      ArrayForm(le, a.items);
      forall i | 0 <= i < |a.items|
        ensures WellFormed(StableValue(le, a.items[i])) && SameUpToKeyOrder(a.items[i], StableValue(le, a.items[i]))
      {
        CanonicalIsWellFormedAndSame(le, a.items[i]);
      }
    } else if a.Obj? {
      var fs, sf := a.fields, StableFields(le, a.fields);
      var gs := FromEntries(Sort(sf, ByKey(le)));
      ObjectForm(le, fs);
      SameFromEntries(sf, le);
      forall i | 0 <= i < |fs| ensures WellFormed(sf[i].value) && SameUpToKeyOrder(fs[i].value, sf[i].value) {
        CanonicalIsWellFormedAndSame(le, fs[i].value);
      }
      PermutedObjectIsSame(fs, sf, gs);
    }
  }

  /** Replacing values by equal ones and permuting the entries keeps an object the same. */
  lemma PermutedObjectIsSame(fs: seq<Field>, sf: seq<Field>, gs: seq<Field>)
    requires DistinctKeys(fs) && |sf| == |fs| && multiset(gs) == multiset(sf)
    requires forall i :: 0 <= i < |fs| ==> sf[i].key == fs[i].key
    requires forall i :: 0 <= i < |fs| ==> WellFormed(sf[i].value) && SameUpToKeyOrder(fs[i].value, sf[i].value)
    ensures WellFormed(Obj(gs)) && SameUpToKeyOrder(Obj(fs), Obj(gs))
  {
    PermutedKeysStayDistinct(sf, gs);
    forall i | 0 <= i < |fs| ensures IsAmong(fs[i], gs) {
      assert sf[i] in multiset(gs) && sf[i] in gs;
      var j :| 0 <= j < |gs| && gs[j] == sf[i];
    }
    forall j | 0 <= j < |gs| ensures HasAmong(fs, gs[j]) && WellFormed(gs[j].value) {
      assert gs[j] in multiset(sf) && gs[j] in sf;
      var i :| 0 <= i < |sf| && sf[i] == gs[j];
    }
  }

  lemma EntriesAgain(fs: seq<Field>, le: (string, string) -> bool)
    requires TotalPreorder(le) && DistinctKeys(fs)
    ensures var gs := FromEntries(Sort(fs, ByKey(le))); FromEntries(Sort(gs, ByKey(le))) == gs
  {
    hide Sort, Filter, TotalPreorder;
    KeyOrderIsTotal(le);
    var xs := Sort(fs, ByKey(le));
    var gs := FromEntries(xs);
    SameFromEntries(fs, le);
    PickOfEntries(xs);
    SortSorts(fs, ByKey(le));
    FilterKeepsSorted(xs, IndexIs(false), ByKey(le));
    FilterOfSort(gs, IndexIs(false), ByKey(le));
    SortOfSorted(Pick(xs, false), ByKey(le));
    assert OnePerKey(xs) by {
      DistinctIsOnePerKey(fs);
      forall x ensures x in xs <==> x in fs {
        SortKeepsMembers(fs, ByKey(le), x);
      }
    }
    SortedIndicesAgree(xs, Sort(gs, ByKey(le)));
  }

  lemma PickOfEntries(xs: seq<Field>)
    ensures Pick(FromEntries(xs), false) == Pick(xs, false)
  {
    hide Filter, Sort, IsIndex;
    var first, last := Sort(Pick(xs, true), ByIndex()), Pick(xs, false);
    forall x | x in first ensures IsIndex(x.key) {
      SortKeepsMembers(Pick(xs, true), ByIndex(), x);
      PickMembers(xs, true, x);
    }
    forall x | x in last ensures !IsIndex(x.key) {
      PickMembers(xs, false, x);
    }
    FilterConcat(first, last, IndexIs(false));
    FilterOfUniform(first, IndexIs(false), false);
    FilterOfUniform(last, IndexIs(false), true);
  }

  /**
   * The canonical form of a canonical form is itself. Ties do no harm: a stable sort leaves tied
   * names as they stand.
   */
  lemma {:induction false} CanonicalIsIdempotent(le: (string, string) -> bool, a: Json)
    requires TotalPreorder(le) && WellFormed(a)
    ensures StableValue(le, StableValue(le, a)) == StableValue(le, a)
    decreases a
  {
    hide StableValue, TotalPreorder, FromEntries, Sort;
    CanonicalKeepsShape(le, a);
    var c := StableValue(le, a);
    if a.Arr? {
      ArrayForm(le, a.items);
      forall i | 0 <= i < |a.items| ensures StableValue(le, c.items[i]) == c.items[i] {
        CanonicalIsIdempotent(le, a.items[i]);
      }
      ArrayForm(le, c.items);
      assert StableValue(le, c).items == c.items;
    } else if a.Obj? {
      var fs, sf := a.fields, StableFields(le, a.fields);
      ObjectForm(le, fs);
      EntriesAgain(sf, le);
      SameFromEntries(sf, le);
      var gs := c.fields;
      forall j | 0 <= j < |gs| ensures StableValue(le, gs[j].value) == gs[j].value {
        assert gs[j] in multiset(sf) && gs[j] in sf;
        var i :| 0 <= i < |sf| && sf[i] == gs[j];
        CanonicalIsIdempotent(le, fs[i].value);
      }
      assert StableFields(le, gs) == gs;
      ObjectForm(le, gs);
    }
  }

  // ----- the order of a canonical form

  /** Indices come first and ascend; the other names follow in the order of the comparison. */
  ghost predicate KeysInOrder(le: (string, string) -> bool, fs: seq<Field>) {
    forall i, j :: 0 <= i < j < |fs| ==>
      if IsIndex(fs[i].key) && IsIndex(fs[j].key) then NumeralLess(fs[i].key, fs[j].key)
      else !IsIndex(fs[j].key) && (!IsIndex(fs[i].key) ==> le(fs[i].key, fs[j].key))
  }

  ghost predicate InKeyOrder(le: (string, string) -> bool, v: Json) {
    match v
    case Arr(items) => forall i :: 0 <= i < |items| ==> InKeyOrder(le, items[i])
    case Obj(fields) => KeysInOrder(le, fields) && forall i :: 0 <= i < |fields| ==> InKeyOrder(le, fields[i].value)
    case _ => true
  }

  lemma AscendingIndices(fs: seq<Field>, i: nat, j: nat)
    requires DistinctKeys(fs) && i < j < |fs| && IsIndex(fs[i].key) && IsIndex(fs[j].key) && ByIndex()(fs[i], fs[j])
    ensures NumeralLess(fs[i].key, fs[j].key)
  {
    hide DecimalValue, NumeralLess;
    ValueOrder(fs[i].key, fs[j].key);
    if DecimalValue(fs[i].key) == DecimalValue(fs[j].key) {
      DecimalValueIsInjective(fs[i].key, fs[j].key);
    }
  }

  lemma EntriesInOrder(fs: seq<Field>, le: (string, string) -> bool)
    requires TotalPreorder(le) && DistinctKeys(fs)
    ensures KeysInOrder(le, FromEntries(Sort(fs, ByKey(le))))
  {
    hide Sort, Filter, TotalPreorder, IsIndex, NumeralLess;
    KeyOrderIsTotal(le);
    var xs := Sort(fs, ByKey(le));
    var first, last := Sort(Pick(xs, true), ByIndex()), Pick(xs, false);
    var gs := FromEntries(xs);
    SameFromEntries(fs, le);
    PermutedKeysStayDistinct(fs, gs);
    SortSorts(fs, ByKey(le));
    FilterKeepsSorted(xs, IndexIs(false), ByKey(le));
    SortSorts(Pick(xs, true), ByIndex());
    forall x | x in first ensures IsIndex(x.key) {
      SortKeepsMembers(Pick(xs, true), ByIndex(), x);
      PickMembers(xs, true, x);
    }
    forall x | x in last ensures !IsIndex(x.key) {
      PickMembers(xs, false, x);
    }
    forall i: nat, j: nat | i < j < |gs|
      ensures if IsIndex(gs[i].key) && IsIndex(gs[j].key) then NumeralLess(gs[i].key, gs[j].key)
              else !IsIndex(gs[j].key) && (!IsIndex(gs[i].key) ==> le(gs[i].key, gs[j].key))
    {
      assert gs[i] == if i < |first| then first[i] else last[i - |first|];
      assert gs[j] == if j < |first| then first[j] else last[j - |first|];
      if j < |first| {
        AscendingIndices(gs, i, j);
      }
    }
  }

  /** At every depth, a canonical form lists indices in ascending order and then the names as compared. */
  lemma {:induction false} CanonicalIsInKeyOrder(le: (string, string) -> bool, a: Json)
    requires TotalPreorder(le) && WellFormed(a)
    ensures InKeyOrder(le, StableValue(le, a))
    decreases a
  {
    hide StableValue, TotalPreorder, FromEntries, Sort, KeysInOrder;
    CanonicalKeepsShape(le, a);
    var c := StableValue(le, a);
    if a.Arr? {
      ArrayForm(le, a.items);
      forall i | 0 <= i < |a.items| ensures InKeyOrder(le, c.items[i]) {
        CanonicalIsInKeyOrder(le, a.items[i]);
      }
    } else if a.Obj? {
      var fs, sf := a.fields, StableFields(le, a.fields);
      ObjectForm(le, fs);
      EntriesInOrder(sf, le);
      SameFromEntries(sf, le);
      var gs := c.fields;
      forall j | 0 <= j < |gs| ensures InKeyOrder(le, gs[j].value) {
        assert gs[j] in multiset(sf) && gs[j] in sf;
        var i :| 0 <= i < |sf| && sf[i] == gs[j];
        CanonicalIsInKeyOrder(le, fs[i].value);
      }
    }
  }

  // ----- exactly which payloads are canonical whatever their key order

  ghost predicate KeyOrderIsImmaterial(le: (string, string) -> bool, a: Json) {
    forall b :: WellFormed(b) && SameUpToKeyOrder(a, b) ==> StableValue(le, a) == StableValue(le, b)
  }

  lemma {:induction false} SameAsItself(a: Json)
    ensures SameUpToKeyOrder(a, a)
    decreases a
  {
    if a.Arr? {
      forall i | 0 <= i < |a.items| ensures SameUpToKeyOrder(a.items[i], a.items[i]) {
        SameAsItself(a.items[i]);
      }
    } else if a.Obj? {
      var fs := a.fields;
      forall i | 0 <= i < |fs| ensures IsAmong(fs[i], fs) && HasAmong(fs, fs[i]) {
        SameAsItself(fs[i].value);
        assert fs[i].key == fs[i].key && SameUpToKeyOrder(fs[i].value, fs[i].value);
      }
    }
  }

  function KeyIn(x: string, y: string): Field -> bool {
    (f: Field) => f.key == x || f.key == y
  }

  lemma FilterPair(fs: seq<Field>, i: nat, j: nat)
    requires i < j < |fs| && DistinctKeys(fs)
    ensures Filter(fs, KeyIn(fs[i].key, fs[j].key)) == [fs[i], fs[j]]
    ensures Filter(fs, KeyIn(fs[j].key, fs[i].key)) == [fs[i], fs[j]]
  {
    FilterPairBy(fs, i, j, KeyIn(fs[i].key, fs[j].key));
    FilterPairBy(fs, i, j, KeyIn(fs[j].key, fs[i].key));
  }

  lemma {:induction false} FilterPairBy(fs: seq<Field>, i: nat, j: nat, keep: Field -> bool)
    requires i < j < |fs| && forall k :: 0 <= k < |fs| ==> (keep(fs[k]) <==> k == i || k == j)
    ensures Filter(fs, keep) == [fs[i], fs[j]]
  {
    if i == 0 {
      FilterOne(fs[1..], j - 1, keep);
    } else {
      FilterPairBy(fs[1..], i - 1, j - 1, keep);
    }
  }

  lemma {:induction false} FilterOne(fs: seq<Field>, j: nat, keep: Field -> bool)
    requires j < |fs| && forall k :: 0 <= k < |fs| ==> (keep(fs[k]) <==> k == j)
    ensures Filter(fs, keep) == [fs[j]]
  {
    if j == 0 {
      FilterOfUniform(fs[1..], keep, false);
    } else {
      FilterOne(fs[1..], j - 1, keep);
    }
  }

  /** Two tied names keep the order in which they came. */
  lemma TiedNamesKeepOrder(le: (string, string) -> bool, fs: seq<Field>, i: nat, j: nat)
    requires TotalPreorder(le) && DistinctKeys(fs) && i < j < |fs| && Tie(le, fs[i].key, fs[j].key)
    ensures Filter(FromEntries(Sort(fs, ByKey(le))), KeyIn(fs[i].key, fs[j].key)) == [fs[i], fs[j]]
    ensures Filter(FromEntries(Sort(fs, ByKey(le))), KeyIn(fs[j].key, fs[i].key)) == [fs[i], fs[j]]
  {
    TiedNamesKeepOrderBy(le, fs, i, j, KeyIn(fs[i].key, fs[j].key));
    TiedNamesKeepOrderBy(le, fs, i, j, KeyIn(fs[j].key, fs[i].key));
  }

  lemma TiedNamesKeepOrderBy(le: (string, string) -> bool, fs: seq<Field>, i: nat, j: nat, keep: Field -> bool)
    requires TotalPreorder(le) && DistinctKeys(fs) && i < j < |fs| && Tie(le, fs[i].key, fs[j].key)
    requires keep == KeyIn(fs[i].key, fs[j].key) || keep == KeyIn(fs[j].key, fs[i].key)
    ensures Filter(FromEntries(Sort(fs, ByKey(le))), keep) == [fs[i], fs[j]]
  {
    hide Sort, Filter, TotalPreorder, IsIndex, FromEntries;
    KeyOrderIsTotal(le);
    NamesOfEntries(Sort(fs, ByKey(le)), keep);
    FilterOfSort(fs, keep, ByKey(le));
    FilterPair(fs, i, j);
    SortTiedPair(le, fs[i], fs[j]);
  }

  lemma SortTiedPair(le: (string, string) -> bool, f: Field, g: Field)
    requires le(f.key, g.key)
    ensures Sort([f, g], ByKey(le)) == [f, g]
  {
    hide Sort;
    SortOfSorted([f, g], ByKey(le));
  }

  lemma NamesOfEntries(xs: seq<Field>, keep: Field -> bool)
    requires forall f :: keep(f) ==> !IsIndex(f.key)
    ensures Filter(FromEntries(xs), keep) == Filter(xs, keep)
  {
    hide Sort, Filter, IsIndex;
    var first := Sort(Pick(xs, true), ByIndex());
    forall x | x in first ensures !keep(x) {
      SortKeepsMembers(Pick(xs, true), ByIndex(), x);
      PickMembers(xs, true, x);
    }
    FilterConcat(first, Pick(xs, false), keep);
    FilterOfUniform(first, keep, false);
    FilterOfPick(xs, keep);
  }

  lemma {:induction false} FilterOfPick(xs: seq<Field>, keep: Field -> bool)
    requires forall f :: keep(f) ==> !IsIndex(f.key)
    ensures Filter(Pick(xs, false), keep) == Filter(xs, keep)
  {
    hide IsIndex;
    if xs != [] {
      FilterOfPick(xs[1..], keep);
      assert IndexIs(false)(xs[0]) ==> ([xs[0]] + Pick(xs[1..], false))[1..] == Pick(xs[1..], false);
    }
  }

  function Exchanged(fs: seq<Field>, i: nat, j: nat): seq<Field>
    requires i < |fs| && j < |fs|
  {
    fs[i := fs[j]][j := fs[i]]
  }

  /** Exchanging two tied names shows in the canonical form. */
  lemma ExchangeShows(le: (string, string) -> bool, fs: seq<Field>, i: nat, j: nat)
    requires TotalPreorder(le) && DistinctKeys(fs) && i < j < |fs| && Tie(le, fs[i].key, fs[j].key)
    ensures StableValue(le, Obj(fs)) != StableValue(le, Obj(Exchanged(fs, i, j)))
  {
    hide StableValue, Sort, FromEntries, Filter, TotalPreorder, IsIndex;
    var gs := Exchanged(fs, i, j);
    var sf, sg := StableFields(le, fs), StableFields(le, gs);
    ObjectForm(le, fs);
    ObjectForm(le, gs);
    assert DistinctKeys(sg);
    TiedNamesKeepOrder(le, sf, i, j);
    TiedNamesKeepOrder(le, sg, i, j);
    assert sf[i] == sg[j] && sf[j] == sg[i];
  }

  lemma ExchangeIsSame(fs: seq<Field>, i: nat, j: nat)
    requires WellFormed(Obj(fs)) && i < j < |fs|
    ensures WellFormed(Obj(Exchanged(fs, i, j))) && SameUpToKeyOrder(Obj(fs), Obj(Exchanged(fs, i, j)))
  {
    hide SameUpToKeyOrder;
    forall k | 0 <= k < |fs| ensures SameUpToKeyOrder(fs[k].value, fs[k].value) {
      SameAsItself(fs[k].value);
    }
    PermutedObjectIsSame(fs, fs, Exchanged(fs, i, j));
  }

  lemma ArrayWith(le: (string, string) -> bool, xs: seq<Json>, i: nat, b: Json)
    requires WellFormed(Arr(xs)) && i < |xs| && WellFormed(b) && SameUpToKeyOrder(xs[i], b)
    requires StableValue(le, xs[i]) != StableValue(le, b)
    ensures var ys := xs[i := b];
            WellFormed(Arr(ys)) && SameUpToKeyOrder(Arr(xs), Arr(ys)) && StableValue(le, Arr(xs)) != StableValue(le, Arr(ys))
  {
    hide StableValue;
    var ys := xs[i := b];
    forall k | 0 <= k < |xs| ensures SameUpToKeyOrder(xs[k], ys[k]) {
      SameAsItself(xs[k]);
    }
    ArrayForm(le, xs);
    ArrayForm(le, ys);
    assert ys[i] == b;
  }

  lemma ObjectWith(le: (string, string) -> bool, fs: seq<Field>, i: nat, b: Json)
    requires WellFormed(Obj(fs)) && i < |fs| && WellFormed(b) && SameUpToKeyOrder(fs[i].value, b)
    requires StableValue(le, fs[i].value) != StableValue(le, b)
    ensures var gs := fs[i := Field(fs[i].key, b)];
            WellFormed(Obj(gs)) && SameUpToKeyOrder(Obj(fs), Obj(gs)) && StableValue(le, Obj(fs)) != StableValue(le, Obj(gs))
  {
    hide StableValue, FromEntries, Sort, SameUpToKeyOrder;
    var gs := fs[i := Field(fs[i].key, b)];
    forall k | 0 <= k < |fs| ensures WellFormed(gs[k].value) && SameUpToKeyOrder(fs[k].value, gs[k].value) {
      SameAsItself(fs[k].value);
    }
    PermutedObjectIsSame(fs, gs, gs);
    ObjectForm(le, fs);
    ObjectForm(le, gs);
    var sf, sg := StableFields(le, fs), StableFields(le, gs);
    if StableValue(le, Obj(fs)) == StableValue(le, Obj(gs)) {
      SameObjectSameEntries(sf, sg, le);
      EntryIsElsewhere(sf, sg, i);
    }
  }

  lemma EntryIsElsewhere(sf: seq<Field>, sg: seq<Field>, i: nat)
    requires |sf| == |sg| && i < |sf| && (forall k :: 0 <= k < |sf| ==> sf[k].key == sg[k].key) && DistinctKeys(sf)
    requires sf[i] in sg
    ensures sf[i] == sg[i]
  {
    var k :| 0 <= k < |sg| && sg[k] == sf[i];
    assert sf[k].key == sf[i].key;
  }

  /** A value with a tie somewhere has a twin that differs in key order only and still shows. */
  lemma {:induction false} TieShows(le: (string, string) -> bool, a: Json) returns (b: Json)
    requires TotalPreorder(le) && WellFormed(a) && !NoTies(le, a)
    ensures WellFormed(b) && SameUpToKeyOrder(a, b) && StableValue(le, a) != StableValue(le, b)
    decreases a
  {
    hide StableValue, SameUpToKeyOrder, TotalPreorder, IsIndex;
    if a.Arr? {
      var i :| 0 <= i < |a.items| && !NoTies(le, a.items[i]);
      b := TieShows(le, a.items[i]);
      ArrayWith(le, a.items, i, b);
      b := Arr(a.items[i := b]);
    } else {
      var fs := a.fields;
      if i :| 0 <= i < |fs| && !NoTies(le, fs[i].value) {
        b := TieShows(le, fs[i].value);
        ObjectWith(le, fs, i, b);
        b := Obj(fs[i := Field(fs[i].key, b)]);
      } else {
        var i, j := SomeTie(le, fs);
        ExchangeShows(le, fs, i, j);
        ExchangeIsSame(fs, i, j);
        b := Obj(Exchanged(fs, i, j));
      }
    }
  }

  lemma SomeTie(le: (string, string) -> bool, fs: seq<Field>) returns (i: nat, j: nat)
    requires exists i, j :: 0 <= i < |fs| && 0 <= j < |fs| && Tie(le, fs[i].key, fs[j].key)
    ensures i < j < |fs| && Tie(le, fs[i].key, fs[j].key)
  {
    i, j :| 0 <= i < |fs| && 0 <= j < |fs| && Tie(le, fs[i].key, fs[j].key);
    if j < i {
      i, j := j, i;
    }
  }

  /**
   * A payload has one canonical form, whatever the order of its keys, if and only if none of its
   * objects, at any depth, holds two different names that the comparison ties.
   */
  lemma KeyOrderIsDecidedIffNoTies(le: (string, string) -> bool, a: Json)
    requires TotalPreorder(le) && WellFormed(a)
    ensures KeyOrderIsImmaterial(le, a) <==> NoTies(le, a)
  {
    hide StableValue, SameUpToKeyOrder, TotalPreorder, WellFormed, NoTies;
    if NoTies(le, a) {
      forall b | WellFormed(b) && SameUpToKeyOrder(a, b) ensures StableValue(le, a) == StableValue(le, b) {
        CanonicalIfSame(le, a, b);
      }
    } else {
      var b := TieShows(le, a);
    }
  }

  /** Every payload is immune to key order if and only if the comparison ties no two names at all. */
  lemma NoPayloadHasTiesIff(le: (string, string) -> bool)
    requires TotalPreorder(le)
    ensures (forall a :: WellFormed(a) ==> KeyOrderIsImmaterial(le, a)) <==> forall x, y :: !Tie(le, x, y)
  {
    hide KeyOrderIsImmaterial, TotalPreorder, Tie;
    if forall x, y :: !Tie(le, x, y) {
      forall a | WellFormed(a) ensures KeyOrderIsImmaterial(le, a) {
        NothingTies(le, a);
        KeyOrderIsDecidedIffNoTies(le, a);
      }
    } else {
      var x, y :| Tie(le, x, y);
      TiedPair(le, x, y);
      KeyOrderIsDecidedIffNoTies(le, Pair(x, y));
    }
  }

  lemma {:induction false} NothingTies(le: (string, string) -> bool, a: Json)
    requires forall x, y :: !Tie(le, x, y)
    ensures NoTies(le, a)
    decreases a
  {
    hide Tie;
    if a.Arr? {
      forall i | 0 <= i < |a.items| ensures NoTies(le, a.items[i]) {
        NothingTies(le, a.items[i]);
      }
    } else if a.Obj? {
      forall i | 0 <= i < |a.fields| ensures NoTies(le, a.fields[i].value) {
        NothingTies(le, a.fields[i].value);
      }
    }
  }

  function Pair(x: string, y: string): Json { Obj([Field(x, Null), Field(y, Bool(true))]) }

  lemma TiedPair(le: (string, string) -> bool, x: string, y: string)
    requires Tie(le, x, y)
    ensures WellFormed(Pair(x, y)) && !NoTies(le, Pair(x, y))
  {
    hide IsIndex;
    var fs := Pair(x, y).fields;
    assert Tie(le, fs[0].key, fs[1].key);
  }

  /**
   * The accented letter and the letter with a combining accent are one name to a locale-aware
   * comparison: `{"\u00E9": null, "e\u0301": true}` and the same entries the other way round have
   * different canonical forms.
   */
  lemma AccentShowsKeyOrder(le: (string, string) -> bool)
    requires TotalPreorder(le) && le("\U{E9}", "e\U{301}") && le("e\U{301}", "\U{E9}")
    ensures var a := Obj([Field("\U{E9}", Null), Field("e\U{301}", Bool(true))]);
            var b := Obj([Field("e\U{301}", Bool(true)), Field("\U{E9}", Null)]);
            WellFormed(a) && WellFormed(b) && SameUpToKeyOrder(a, b) && StableValue(le, a) != StableValue(le, b)
  {
    hide StableValue, SameUpToKeyOrder, TotalPreorder;
    var x, y := "\U{E9}", "e\U{301}";
    assert |x| != |y| && !IsDigit(x[0]) && !IsDigit(y[0]);
    assert Tie(le, x, y);
    TiedPair(le, x, y);
    var fs := Pair(x, y).fields;
    ExchangeShows(le, fs, 0, 1);
    ExchangeIsSame(fs, 0, 1);
    assert Exchanged(fs, 0, 1) == [Field(y, Bool(true)), Field(x, Null)];
  }
}
