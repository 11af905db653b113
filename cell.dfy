/** The edit session of one editable cell: the `editing` flag, the form's
    working value for the cell's field, the `required` rule, and the commit of
    a validated value to the record store. */
module Cell {
  import opened Records
  import opened Store

  /** The form item's only rule, `required: true`: no value, or the empty
      string, fails; any other string passes, whitespace-only included. */
  predicate Required(working: Option<string>): (ok: bool)
    ensures ok <==> working.Some? && |working.value| > 0
  {
    working.Some? && working.value != ""
  }

  /** `form.validateFields()` for the cell's field: the values object, which
      holds exactly that field and the value typed, or a rejection. */
  function ValidateFields(f: TextField, working: Option<string>): (r: Option<map<TextField, string>>)
    ensures r.Some? <==> Required(working)
    ensures r.Some? ==> r.value.Keys == {f} && r.value[f] == working.value
  {
    if Required(working) then Some(map[f := working.value]) else None
  }

  /** `{...record, ...values}`: the row a cell passes to handleSave, built
      from the record it was rendered with. */
  function CommitRow(record: SectorRecord, values: map<TextField, string>): (p: Patch)
    ensures p.key == record.key && p.ret == Some(record.availabilityOfRet)
    ensures forall f :: f in p.text
  {
    PatchOfComplete(record);
    var full := PatchOf(record);
    Patch(full.key, full.text + values, full.ret)
  }

  /** Merging the committed row over any stored row gives the rendered record
      with the one edited field replaced: the stored row is overwritten whole. */
  lemma CommitMerge(item: SectorRecord, record: SectorRecord, f: TextField, v: string)
    ensures Merge(item, CommitRow(record, map[f := v])) == record.With(f, v)
  {
    PatchOfComplete(record);
    SameFields(Merge(item, CommitRow(record, map[f := v])), record.With(f, v));
  }

  /** A commit from a cell rendered with row `i`'s key writes that row's
      rendered record with field `f` set to `v`; when the rendered record is
      the stored one, field `f` of row `i` is the only change to the list. */
  lemma CommitAt(ds: seq<SectorRecord>, record: SectorRecord, i: int, f: TextField, v: string)
    requires UniqueKeys(ds) && 0 <= i < |ds| && ds[i].key == record.key
    ensures Replaced(ds, CommitRow(record, map[f := v])) == Ok(ds[i := record.With(f, v)])
    ensures ds[i] == record ==> Replaced(ds, CommitRow(record, map[f := v])) == Ok(ds[i := ds[i].With(f, v)])
  {
    ReplacedAt(ds, CommitRow(record, map[f := v]), i);
    CommitMerge(ds[i], record, f, v);
  }

  /** Whatever the save leads to. */
  datatype SaveOutcome =
    | Invalid    // the required rule failed; nothing happened
    | Committed  // the row was written back
    | RowGone    // validation passed but no row has the cell's key any more

  /** One editable cell: a row's record as rendered, the field it edits,
      the `editing` state and the form's value for that field. */
  class EditableCell {
    const dataIndex: TextField
    var record: SectorRecord
    var editing: bool
    var working: Option<string>

    /** A cell starts out displaying; its form field holds no value yet. */
    constructor (dataIndex: TextField, record: SectorRecord)
      ensures this.dataIndex == dataIndex && this.record == record
      ensures !editing && working == None
    {
      this.dataIndex := dataIndex;
      this.record := record;
      editing := false;
      working := None;
    }

    /** Flips `editing` and seeds the form with the committed value. */
    method ToggleEdit()
      modifies this
      ensures editing == !old(editing)
      ensures working == Some(record.Get(dataIndex))
      ensures record == old(record)
    {
      editing := !editing;
      working := Some(record.Get(dataIndex));
    }

    /** The user types into the input: the form value changes, nothing else. */
    method EnterValue(v: string)
      modifies this
      ensures working == Some(v)
      ensures editing == old(editing) && record == old(record)
    {
      working := Some(v);
    }

    /** The table renders again and hands the cell the row's current record. */
    method Receive(r: SectorRecord)
      modifies this
      ensures record == r
      ensures editing == old(editing) && working == old(working)
    {
      record := r;
    }

    /** Runs the required rule. On failure nothing changes. On success it
        toggles out of editing (reseeding the form from the record) and
        hands `{...record, ...values}` to the store's handleSave. */
    method Save(store: RecordStore) returns (outcome: SaveOutcome)
      requires store.Valid()
      modifies this, store
      ensures store.Valid()
      ensures record == old(record)
      ensures outcome == Invalid <==> !Required(old(working))
      ensures outcome == Invalid ==>
        editing == old(editing) && working == old(working) && store.State() == old(store.State())
      ensures outcome != Invalid ==>
        && editing == !old(editing)
        && working == Some(record.Get(dataIndex))
        && store.State() == Step(old(store.State()), Event.Save(CommitRow(record, map[dataIndex := old(working).value])))
      ensures outcome == RowGone <==> outcome != Invalid && !HasKey(old(store.dataSource), record.key)
    {
      var values := ValidateFields(dataIndex, working);
      if values.None? {
        return Invalid;
      }
      ToggleEdit();
      var found := store.HandleSave(CommitRow(record, values.value));
      outcome := if found then Committed else RowGone;
    }
  }

  /** An edit of the seed row "1": an empty value is refused and leaves the
      table alone; a non-empty value is written to that row's `sector`. */
  method EditSeedRow() returns (first: SaveOutcome, second: SaveOutcome, table: seq<SectorRecord>)
    ensures first == Invalid && second == Committed
    ensures table == [SeedRow("0"), SeedRow("1").(sector := "North-32")]
  {
    var store := new RecordStore();
    var cell := new EditableCell(Sector, SeedRow("1"));
    cell.ToggleEdit();
    assert SeedRow("1").Get(Sector) == "Test 1";
    assert cell.editing && cell.working == Some("Test 1");

    cell.EnterValue("");
    first := cell.Save(store);
    assert first == Invalid && cell.editing && store.dataSource == Seed();

    cell.EnterValue("North-32");
    second := cell.Save(store);
    CommitAt(Seed(), SeedRow("1"), 1, Sector, "North-32");
    assert !cell.editing;
    table := store.dataSource;
  }
}
