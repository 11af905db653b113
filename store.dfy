/** The record store of the table: the ordered `dataSource` list, the `count`
    key counter and the four handlers that change them. The list operations
    are pure functions below; `RecordStore` holds the two state cells and its
    methods update them. */
module Store {
  import opened Records

  datatype StoreError = NotFound | NotInMenu

  datatype Result<T> = Ok(value: T) | Err(error: StoreError) {
    function GetOr(default: T): T {
      if Ok? then value else default
    }
  }

  // ---------------------------------------------------------------------
  // handleDelete: `dataSource.filter((item) => item.key !== key)`

  /** The rows of `ds` whose key differs from `k`, in their order in `ds`. */
  function Without(ds: seq<SectorRecord>, k: Key): (r: seq<SectorRecord>)
    ensures |r| <= |ds|
    ensures forall x :: x in r <==> x in ds && x.key != k
    decreases |ds|
  {
    if ds == [] then []
    else if ds[0].key != k then [ds[0]] + Without(ds[1..], k)
    else Without(ds[1..], k)
  }

  /** Filtering distributes over concatenation: the kept rows stay in order. */
  lemma {:induction false} WithoutConcat(a: seq<SectorRecord>, b: seq<SectorRecord>, k: Key)
    ensures Without(a + b, k) == Without(a, k) + Without(b, k)
    decreases |a|
  {
    if a == [] {
      assert a + b == b;
    } else {
      assert (a + b)[0] == a[0];
      assert (a + b)[1..] == a[1..] + b;
      WithoutConcat(a[1..], b, k);
    }
  }

  /** Deleting a key no row carries leaves the list as it was. */
  lemma {:induction false} WithoutAbsent(ds: seq<SectorRecord>, k: Key)
    requires !HasKey(ds, k)
    ensures Without(ds, k) == ds
    decreases |ds|
  {
    if ds != [] {
      assert ds[0].key != k;
      assert !HasKey(ds[1..], k) by {
        forall i | 0 <= i < |ds[1..]| ensures ds[1..][i].key != k {
          assert ds[1..][i] == ds[i + 1];
        }
      }
      WithoutAbsent(ds[1..], k);
      assert [ds[0]] + ds[1..] == ds;
    }
  }

  /** With distinct keys, deleting the key of row `i` removes exactly that row
      and keeps all the others in their order. */
  lemma WithoutRemovesOne(ds: seq<SectorRecord>, i: int)
    requires UniqueKeys(ds) && 0 <= i < |ds|
    ensures Without(ds, ds[i].key) == ds[..i] + ds[i + 1..]
    ensures |Without(ds, ds[i].key)| == |ds| - 1
  {
    var k := ds[i].key;
    assert ds == ds[..i] + ([ds[i]] + ds[i + 1..]);
    WithoutConcat(ds[..i], [ds[i]] + ds[i + 1..], k);
    WithoutConcat([ds[i]], ds[i + 1..], k);
    assert !HasKey(ds[..i], k) by {
      forall j | 0 <= j < i ensures ds[..i][j].key != k {
        assert ds[..i][j] == ds[j];
      }
    }
    var after := ds[i + 1..];
    assert !HasKey(after, k) by {
      forall j | 0 <= j < |after| ensures after[j].key != k {
        assert after[j] == ds[i + 1 + j];
      }
    }
    WithoutAbsent(ds[..i], k);
    WithoutAbsent(ds[i + 1..], k);
    assert Without([ds[i]], k) == [] by {
      assert [ds[i]][1..] == [];
    }
  }

  /** Deleting twice deletes no more than deleting once. */
  lemma WithoutIdempotent(ds: seq<SectorRecord>, k: Key)
    ensures Without(Without(ds, k), k) == Without(ds, k)
  {
    var r := Without(ds, k);
    assert !HasKey(r, k) by {
      forall i | 0 <= i < |r| ensures r[i].key != k {
        assert r[i] in r;
      }
    }
    WithoutAbsent(r, k);
  }

  /** Filtering keeps the keys distinct. */
  lemma {:induction false} WithoutUnique(ds: seq<SectorRecord>, k: Key)
    requires UniqueKeys(ds)
    ensures UniqueKeys(Without(ds, k))
    decreases |ds|
  {
    if ds != [] {
      var tail := ds[1..];
      assert UniqueKeys(tail) by {
        forall i, j | 0 <= i < j < |tail| ensures tail[i].key != tail[j].key {
          assert tail[i] == ds[i + 1] && tail[j] == ds[j + 1];
        }
      }
      WithoutUnique(tail, k);
      if ds[0].key != k {
        var rest := Without(tail, k);
        forall j | 0 <= j < |rest| ensures rest[j].key != ds[0].key {
          assert rest[j] in tail;
          var m :| 0 <= m < |tail| && tail[m] == rest[j];
          assert tail[m] == ds[m + 1];
        }
        var r := [ds[0]] + rest;
        forall i, j | 0 <= i < j < |r| ensures r[i].key != r[j].key {
          assert r[j] == rest[j - 1];
          if i > 0 {
            assert r[i] == rest[i - 1];
          }
        }
      }
    }
  }

  // ---------------------------------------------------------------------
  // findIndex: the first position whose key is `k`, or -1

  /** The index `Array.prototype.findIndex` returns for the key test. */
  function IndexOf(ds: seq<SectorRecord>, k: Key): (i: int)
    ensures -1 <= i < |ds|
    ensures i == -1 <==> !HasKey(ds, k)
    ensures i >= 0 ==> ds[i].key == k && forall j :: 0 <= j < i ==> ds[j].key != k
    decreases |ds|
  {
    if ds == [] then -1
    else if ds[0].key == k then 0
    else
      var i := IndexOf(ds[1..], k);
      if i == -1 then -1 else i + 1
  }

  /** With distinct keys, the row found is the only row with that key. */
  lemma IndexOfUnique(ds: seq<SectorRecord>, i: int)
    requires UniqueKeys(ds) && 0 <= i < |ds|
    ensures IndexOf(ds, ds[i].key) == i
  {
  }

  /** The search itself, as a loop over the copied list. */
  method FindIndex(ds: seq<SectorRecord>, k: Key) returns (index: int)
    ensures index == IndexOf(ds, k)
  {
    index := 0;
    while index < |ds| && ds[index].key != k
      invariant 0 <= index <= |ds|
      invariant forall j :: 0 <= j < index ==> ds[j].key != k
    {
      index := index + 1;
    }
    if index == |ds| {
      index := -1;
    }
  }

  // ---------------------------------------------------------------------
  // handleAdd: `[...dataSource, newData]`

  /** The list with the templated row for counter value `count` appended. */
  function Appended(ds: seq<SectorRecord>, count: nat): (r: seq<SectorRecord>)
    ensures |r| == |ds| + 1 && r[..|ds|] == ds
    ensures r[|ds|].key == NumKey(count)
    ensures r[|ds|].availabilityOfRet == No && r[|ds|].typeOfBSAntennas == "32"
  {
    ds + [NewRecord(count)]
  }

  // ---------------------------------------------------------------------
  // handleSave: `{...item, ...row}` written at the index of `row.key`

  /** The list with the row keyed `row.key` replaced by the merge of `row`
      over it, or `NotFound` when no row has that key. */
  function Replaced(ds: seq<SectorRecord>, row: Patch): (r: Result<seq<SectorRecord>>)
    ensures r.Err? <==> !HasKey(ds, row.key)
    ensures r.Err? ==> r.error == NotFound
    ensures r.Ok? ==> |r.value| == |ds|
    ensures r.Ok? ==> forall j :: 0 <= j < |ds| ==> r.value[j].key == ds[j].key
  {
    var i := IndexOf(ds, row.key);
    if i == -1 then Err(NotFound) else Ok(ds[i := Merge(ds[i], row)])
  }

  /** With distinct keys, replacing at row `i` writes the merge there and
      leaves every other row as it was. */
  lemma ReplacedAt(ds: seq<SectorRecord>, row: Patch, i: int)
    requires UniqueKeys(ds) && 0 <= i < |ds| && ds[i].key == row.key
    ensures Replaced(ds, row) == Ok(ds[i := Merge(ds[i], row)])
    ensures Merge(ds[i], row).key == ds[i].key
  {
    IndexOfUnique(ds, i);
  }

  /** Replacing with the field values a row already has leaves the list as it
      was: a save that changes nothing is invisible. */
  lemma ReplacedWithSelf(ds: seq<SectorRecord>, i: int)
    requires UniqueKeys(ds) && 0 <= i < |ds|
    ensures Replaced(ds, PatchOf(ds[i])) == Ok(ds)
  {
    ReplacedAt(ds, PatchOf(ds[i]), i);
    MergeComplete(ds[i], ds[i]);
    assert ds[i := ds[i]] == ds;
  }

  // ---------------------------------------------------------------------
  // handleMenuClick: `{...item, availabilityOfRet: e.key}` at `record.key`

  /** The list with `availabilityOfRet` of the row keyed `record.key` set to
      the value the menu item `menuKey` selects. A key outside the menu is
      `NotInMenu`, a missing row `NotFound`; either leaves nothing written. */
  function RetSet(ds: seq<SectorRecord>, record: SectorRecord, menuKey: string): (r: Result<seq<SectorRecord>>)
    ensures ParseMenuKey(menuKey).None? ==> r == Err(NotInMenu)
    ensures ParseMenuKey(menuKey).Some? ==> (r.Err? <==> !HasKey(ds, record.key))
    ensures r.Ok? ==> |r.value| == |ds|
    ensures r.Ok? ==> forall j :: 0 <= j < |ds| ==> r.value[j].key == ds[j].key
  {
    match ParseMenuKey(menuKey)
    case None => Err(NotInMenu)
    case Some(v) =>
      var i := IndexOf(ds, record.key);
      if i == -1 then Err(NotFound)
      else Ok(ds[i := ds[i].(availabilityOfRet := v)])
  }

  /** A menu click is the replace of handleSave with an object that holds
      only the key and `availabilityOfRet`. */
  lemma RetSetIsReplace(ds: seq<SectorRecord>, record: SectorRecord, v: Ret)
    ensures RetSet(ds, record, MenuKey(v)) == Replaced(ds, Patch(record.key, map[], Some(v)))
  {
    var i := IndexOf(ds, record.key);
    if i != -1 {
      var p := Patch(record.key, map[], Some(v));
      SameFields(Merge(ds[i], p), ds[i].(availabilityOfRet := v));
    }
  }

  /** With distinct keys, a menu click on row `i` changes that row's
      `availabilityOfRet` to the chosen value and nothing else. */
  lemma RetSetAt(ds: seq<SectorRecord>, record: SectorRecord, v: Ret, i: int)
    requires UniqueKeys(ds) && 0 <= i < |ds| && ds[i].key == record.key
    ensures RetSet(ds, record, MenuKey(v)) == Ok(ds[i := ds[i].(availabilityOfRet := v)])
  {
    IndexOfUnique(ds, i);
  }

  // ---------------------------------------------------------------------
  // The handlers as transitions of the two state cells

  /** The pair of state cells: `dataSource` and `count`. */
  datatype Table = Table(dataSource: seq<SectorRecord>, count: nat)

  /** An event delivered to one of the four handlers. */
  datatype Event =
    | Add
    | Delete(key: Key)
    | Save(row: Patch)
    | MenuClick(record: SectorRecord, menuKey: string)

  /** The state of the table when it is first rendered. */
  function Initial(): Table {
    Table(Seed(), InitialCount())
  }

  /** The state after one handler runs to completion. A rejected replace
      writes nothing. */
  function Step(t: Table, e: Event): (r: Table)
    ensures r.count == if e.Add? then t.count + 1 else t.count
    ensures e.Add? ==> |r.dataSource| == |t.dataSource| + 1
    ensures e.Delete? ==> |r.dataSource| <= |t.dataSource|
    ensures e.Save? || e.MenuClick? ==> |r.dataSource| == |t.dataSource|
  {
    match e
    case Add => Table(Appended(t.dataSource, t.count), t.count + 1)
    case Delete(k) => Table(Without(t.dataSource, k), t.count)
    case Save(row) => Table(Replaced(t.dataSource, row).GetOr(t.dataSource), t.count)
    case MenuClick(record, menuKey) => Table(RetSet(t.dataSource, record, menuKey).GetOr(t.dataSource), t.count)
  }

  /** The state after the events run in order. */
  function Run(t: Table, es: seq<Event>): (r: Table)
    ensures r.count >= t.count
    decreases |es|
  {
    if es == [] then t else Run(Step(t, es[0]), es[1..])
  }

  function AddCount(es: seq<Event>): nat
    decreases |es|
  {
    if es == [] then 0 else (if es[0].Add? then 1 else 0) + AddCount(es[1..])
  }

  /** The invariant of the table: keys are pairwise distinct, and every
      numeric key is below the counter, so the next key is fresh. */
  ghost predicate Inv(t: Table) {
    && UniqueKeys(t.dataSource)
    && forall x :: x in t.dataSource && x.key.NumKey? ==> x.key.n < t.count
  }

  lemma InitialInv()
    ensures Inv(Initial())
  {
  }

  /** The key handleAdd hands out is carried by no row of a valid table. */
  lemma NextKeyFresh(t: Table)
    requires Inv(t)
    ensures !HasKey(t.dataSource, NumKey(t.count))
  {
    forall i | 0 <= i < |t.dataSource| ensures t.dataSource[i].key != NumKey(t.count) {
      assert t.dataSource[i] in t.dataSource;
    }
  }

  /** Every handler keeps the invariant. */
  lemma StepInv(t: Table, e: Event)
    requires Inv(t)
    ensures Inv(Step(t, e))
  {
    var ds := t.dataSource;
    match e
    case Add =>
      NextKeyFresh(t);
      var r := Appended(ds, t.count);
      forall i, j | 0 <= i < j < |r| ensures r[i].key != r[j].key {
        assert r[i] == ds[i];
        if j < |ds| {
          assert r[j] == ds[j];
        }
      }
      forall x | x in r && x.key.NumKey? ensures x.key.n < t.count + 1 {
        if x != r[|ds|] {
          var m :| 0 <= m < |r| && r[m] == x;
          assert r[m] == ds[m];
        }
      }
    case Delete(k) =>
      WithoutUnique(ds, k);
    case Save(row) =>
      var r := Replaced(ds, row).GetOr(ds);
      forall x | x in r && x.key.NumKey? ensures x.key.n < t.count {
        var m :| 0 <= m < |r| && r[m] == x;
        assert ds[m] in ds;
      }
    case MenuClick(record, menuKey) =>
      var r := RetSet(ds, record, menuKey).GetOr(ds);
      forall x | x in r && x.key.NumKey? ensures x.key.n < t.count {
        var m :| 0 <= m < |r| && r[m] == x;
        assert ds[m] in ds;
      }
  }

  /** Keys stay pairwise distinct under any sequence of handler calls from
      the initial table. */
  lemma {:induction false} RunInv(t: Table, es: seq<Event>)
    requires Inv(t)
    ensures Inv(Run(t, es))
    decreases |es|
  {
    if es != [] {
      StepInv(t, es[0]);
      RunInv(Step(t, es[0]), es[1..]);
    }
  }

  lemma KeysAlwaysUnique(es: seq<Event>)
    ensures UniqueKeys(Run(Initial(), es).dataSource)
  {
    InitialInv();
    RunInv(Initial(), es);
  }

  /** Only handleAdd moves the counter, by exactly one per call. */
  lemma {:induction false} RunCount(t: Table, es: seq<Event>)
    ensures Run(t, es).count == t.count + AddCount(es)
    decreases |es|
  {
    if es != [] {
      RunCount(Step(t, es[0]), es[1..]);
    }
  }

  /** Two adds on the seed table append keys 2 and 3 after "0" and "1". */
  lemma TwoAdds()
    ensures var ds := Run(Initial(), [Add, Add]).dataSource;
      |ds| == 4 && ds[0].key == StrKey("0") && ds[1].key == StrKey("1")
      && ds[2].key == NumKey(2) && ds[3].key == NumKey(3)
  {
    var t1 := Step(Initial(), Add);
    var t2 := Step(t1, Add);
    assert Run(Initial(), [Add, Add]) == Run(t1, [Add]) == Run(t2, []) == t2;
  }

  /** Deleting the string key "0" leaves the seed row "1" alone; deleting the
      number 0 deletes nothing, since no row carries it. */
  lemma DeleteSeed()
    ensures Step(Initial(), Delete(StrKey("0"))).dataSource == [SeedRow("1")]
    ensures Step(Initial(), Delete(NumKey(0))).dataSource == Seed()
  {
    WithoutRemovesOne(Seed(), 0);
    WithoutAbsent(Seed(), NumKey(0));
  }

  // ---------------------------------------------------------------------
  // The replace as the source writes it, without a not-found guard

  /** `Array.prototype.splice(start, 1, x)`: a negative start counts from the
      end, clamped at 0; at most one element is removed; `x` is inserted. */
  function Splice(s: seq<SectorRecord>, start: int, x: SectorRecord): (r: seq<SectorRecord>)
    ensures 0 <= start < |s| ==> r == s[start := x]
    ensures start == -1 && s != [] ==> r == s[..|s| - 1] + [x]
  {
    var at := if start < 0 then (if |s| + start < 0 then 0 else |s| + start)
              else if start > |s| then |s| else start;
    var removed := if |s| - at < 1 then |s| - at else 1;
    s[..at] + [x] + s[at + removed..]
  }

  /** handleSave as written, for the complete row the cell passes it: when
      `findIndex` gives -1, `newData[-1]` is undefined and the spread yields
      `row` alone, which splice writes over the last row. */
  function SaveAsWritten(ds: seq<SectorRecord>, row: SectorRecord): (r: seq<SectorRecord>)
    ensures ds != [] ==> |r| == |ds|
    ensures ds == [] ==> r == [row]
  {
    var i := IndexOf(ds, row.key);
    var merged := if i >= 0 then Merge(ds[i], PatchOf(row)) else row;
    Splice(ds, i, merged)
  }

  /** Where the key is present the written and the guarded replace agree. */
  lemma SaveAsWrittenAgrees(ds: seq<SectorRecord>, row: SectorRecord)
    requires HasKey(ds, row.key)
    ensures Replaced(ds, PatchOf(row)) == Ok(SaveAsWritten(ds, row))
  {
  }

  /** Where the key is missing, the written replace drops the last row and
      puts `row` in its place, while the guarded one changes nothing. */
  lemma SaveAsWrittenClobbersLast(ds: seq<SectorRecord>, row: SectorRecord)
    requires ds != [] && !HasKey(ds, row.key)
    ensures SaveAsWritten(ds, row) == ds[..|ds| - 1] + [row]
    ensures SaveAsWritten(ds, row)[|ds| - 1] != ds[|ds| - 1]
    ensures Step(Table(ds, 0), Save(PatchOf(row))).dataSource == ds
  {
    assert ds[|ds| - 1].key != row.key;
  }

  /** A concrete instance: saving a row keyed 7 on the seed table loses the
      seed row "1". */
  lemma SaveAsWrittenExample()
    ensures SaveAsWritten(Seed(), NewRecord(7)) == [SeedRow("0"), NewRecord(7)]
  {
    assert !HasKey(Seed(), NumKey(7));
    SaveAsWrittenClobbersLast(Seed(), NewRecord(7));
  }

  // ---------------------------------------------------------------------
  // The component's state cells

  /** The `dataSource` and `count` state of the table component. */
  class RecordStore {
    var dataSource: seq<SectorRecord>
    var count: nat

    function State(): Table
      reads this
    {
      Table(dataSource, count)
    }

    ghost predicate Valid()
      reads this
    {
      Inv(State())
    }

    /** `useState([...seed rows])` and `useState(2)`. */
    constructor ()
      ensures State() == Initial() && Valid()
    {
      dataSource := Seed();
      count := InitialCount();
      InitialInv();
    }

    /** Appends the templated row keyed by the current counter, then
        increments the counter. */
    method HandleAdd()
      requires Valid()
      modifies this
      ensures Valid()
      ensures dataSource == old(dataSource) + [NewRecord(old(count))]
      ensures count == old(count) + 1
      ensures State() == Step(old(State()), Add)
    {
      StepInv(State(), Add);
      dataSource := Appended(dataSource, count);
      count := count + 1;
    }

    /** Keeps the rows whose key differs from `key`. */
    method HandleDelete(key: Key)
      requires Valid()
      modifies this
      ensures Valid()
      ensures dataSource == Without(old(dataSource), key)
      ensures count == old(count)
      ensures State() == Step(old(State()), Delete(key))
    {
      StepInv(State(), Delete(key));
      dataSource := Without(dataSource, key);
    }

    /** Copies the list, finds the row keyed `row.key`, and writes the merge
        of `row` over it at that index; a missing key writes nothing. */
    method HandleSave(row: Patch) returns (found: bool)
      requires Valid()
      modifies this
      ensures Valid()
      ensures found <==> HasKey(old(dataSource), row.key)
      ensures found ==> dataSource == Replaced(old(dataSource), row).value
      ensures !found ==> dataSource == old(dataSource)
      ensures count == old(count)
      ensures State() == Step(old(State()), Save(row))
    {
      StepInv(State(), Save(row));
      var ds := dataSource;
      var newData := new SectorRecord[|ds|](j requires 0 <= j < |ds| => ds[j]);
      assert newData[..] == ds;
      var index := FindIndex(newData[..], row.key);
      found := index != -1;
      if found {
        var item := newData[index];
        newData[index] := Merge(item, row);
        dataSource := newData[..];
      }
    }

    /** Copies the list, finds the row keyed `record.key`, and sets its
        `availabilityOfRet` to the value of the menu item `menuKey`. */
    method HandleMenuClick(record: SectorRecord, menuKey: string) returns (r: Result<seq<SectorRecord>>)
      requires Valid()
      modifies this
      ensures Valid()
      ensures r == RetSet(old(dataSource), record, menuKey)
      ensures dataSource == r.GetOr(old(dataSource))
      ensures count == old(count)
      ensures State() == Step(old(State()), MenuClick(record, menuKey))
    {
      StepInv(State(), MenuClick(record, menuKey));
      var choice := ParseMenuKey(menuKey);
      if choice.None? {
        return Err(NotInMenu);
      }
      var ds := dataSource;
      var newData := new SectorRecord[|ds|](j requires 0 <= j < |ds| => ds[j]);
      assert newData[..] == ds;
      var index := FindIndex(newData[..], record.key);
      if index == -1 {
        return Err(NotFound);
      }
      var item := newData[index];
      newData[index] := item.(availabilityOfRet := choice.value);
      dataSource := newData[..];
      r := Ok(dataSource);
    }
  }
}
