/** Values of the sector table: row keys, the record shape, partial rows
    (the objects spread over a record) and the seed data. */
module Records {

  datatype Option<T> = None | Some(value: T)

  /** A row key. The two seed rows carry the strings "0" and "1"; rows added
      later carry the number `count`. JavaScript's `===` and `!==` never equate
      a string with a number, so the tag is part of the key's identity. */
  datatype Key = StrKey(s: string) | NumKey(n: int)

  /** The closed enumeration of `availabilityOfRet`. */
  datatype Ret = Yes | No

  /** The free-text fields of a record, named as the table's `dataIndex`es. */
  datatype TextField =
    | Sector
    | TypeOfBSAntennas
    | Quantity
    | Azimuth
    | AngleOfInclination
    | TypeOfRemoteUnit

  /** One row of the table: an antenna-sector configuration entry. */
  datatype SectorRecord = SectorRecord(
    key: Key,
    sector: string,
    typeOfBSAntennas: string,
    quantity: string,
    azimuth: string,
    angleOfInclination: string,
    availabilityOfRet: Ret,
    typeOfRemoteUnit: string)
  {
    /** `record[dataIndex]` for a text field: the value the record, seen as
        an object, holds under that field's name. */
    function Get(f: TextField): (v: string)
      ensures f in PatchOf(this).text && v == PatchOf(this).text[f]
    {
      match f
      case Sector => sector
      case TypeOfBSAntennas => typeOfBSAntennas
      case Quantity => quantity
      case Azimuth => azimuth
      case AngleOfInclination => angleOfInclination
      case TypeOfRemoteUnit => typeOfRemoteUnit
    }

    /** `{...record, [f]: v}`: the record with one text field replaced. */
    function With(f: TextField, v: string): (r: SectorRecord)
      ensures r.key == key && r.availabilityOfRet == availabilityOfRet
      ensures r.Get(f) == v
      ensures forall g :: g != f ==> r.Get(g) == Get(g)
    {
      match f
      case Sector => this.(sector := v)
      case TypeOfBSAntennas => this.(typeOfBSAntennas := v)
      case Quantity => this.(quantity := v)
      case Azimuth => this.(azimuth := v)
      case AngleOfInclination => this.(angleOfInclination := v)
      case TypeOfRemoteUnit => this.(typeOfRemoteUnit := v)
    }
  }

  /** Two records are equal when their key, their enumerated field and every
      text field agree: the record shape is fixed. */
  lemma {:induction false} SameFields(a: SectorRecord, b: SectorRecord)
    requires a.key == b.key && a.availabilityOfRet == b.availabilityOfRet
    requires forall f :: a.Get(f) == b.Get(f)
    ensures a == b
  {
    assert a.sector == a.Get(Sector) == b.Get(Sector) == b.sector;
    assert a.typeOfBSAntennas == a.Get(TypeOfBSAntennas) == b.Get(TypeOfBSAntennas) == b.typeOfBSAntennas;
    assert a.quantity == a.Get(Quantity) == b.Get(Quantity) == b.quantity;
    assert a.azimuth == a.Get(Azimuth) == b.Get(Azimuth) == b.azimuth;
    assert a.angleOfInclination == a.Get(AngleOfInclination) == b.Get(AngleOfInclination) == b.angleOfInclination;
    assert a.typeOfRemoteUnit == a.Get(TypeOfRemoteUnit) == b.Get(TypeOfRemoteUnit) == b.typeOfRemoteUnit;
  }

  /** A JavaScript object spread over a record: a key, some of the text
      fields, and possibly the enumerated field. Fields it lacks are absent. */
  datatype Patch = Patch(key: Key, text: map<TextField, string>, ret: Option<Ret>)

  /** The record as an object with every one of its fields present. */
  function PatchOf(r: SectorRecord): (p: Patch)
    ensures p.key == r.key && p.ret == Some(r.availabilityOfRet)
  {
    var text := map[
      Sector := r.sector,
      TypeOfBSAntennas := r.typeOfBSAntennas,
      Quantity := r.quantity,
      Azimuth := r.azimuth,
      AngleOfInclination := r.angleOfInclination,
      TypeOfRemoteUnit := r.typeOfRemoteUnit];
    Patch(r.key, text, Some(r.availabilityOfRet))
  }

  /** That object holds every text field, with the record's value. */
  lemma {:induction false} PatchOfComplete(r: SectorRecord)
    ensures forall f :: f in PatchOf(r).text && PatchOf(r).text[f] == r.Get(f)
  {
    forall f ensures f in PatchOf(r).text && PatchOf(r).text[f] == r.Get(f) {
      match f
      case Sector =>
      case TypeOfBSAntennas =>
      case Quantity =>
      case Azimuth =>
      case AngleOfInclination =>
      case TypeOfRemoteUnit =>
    }
  }

  function Pick(item: SectorRecord, row: Patch, f: TextField): string {
    if f in row.text then row.text[f] else item.Get(f)
  }

  /** `{...item, ...row}`: every field present in `row` overrides the same
      field of `item`; the fields `row` lacks keep `item`'s values. */
  function Merge(item: SectorRecord, row: Patch): (r: SectorRecord)
    ensures r.key == row.key
    ensures forall f :: f in row.text ==> r.Get(f) == row.text[f]
    ensures forall f :: f !in row.text ==> r.Get(f) == item.Get(f)
    ensures row.ret.Some? ==> r.availabilityOfRet == row.ret.value
    ensures row.ret.None? ==> r.availabilityOfRet == item.availabilityOfRet
  {
    SectorRecord(
      row.key,
      Pick(item, row, Sector),
      Pick(item, row, TypeOfBSAntennas),
      Pick(item, row, Quantity),
      Pick(item, row, Azimuth),
      Pick(item, row, AngleOfInclination),
      if row.ret.Some? then row.ret.value else item.availabilityOfRet,
      Pick(item, row, TypeOfRemoteUnit))
  }

  /** Spreading a complete record over any record yields that complete record. */
  lemma MergeComplete(item: SectorRecord, r: SectorRecord)
    ensures Merge(item, PatchOf(r)) == r
  {
    PatchOfComplete(r);
    SameFields(Merge(item, PatchOf(r)), r);
  }

  // ---------------------------------------------------------------------
  // Decimal rendering of the counter, as in the template `Test ${count}`

  function Digit(d: nat): (c: char)
    requires d < 10
    ensures '0' <= c <= '9' && c as int - '0' as int == d
  {
    ('0' as int + d) as char
  }

  /** The decimal digits of `n`, most significant first, without leading zeros. */
  function DecimalString(n: nat): (s: string)
    ensures |s| >= 1
    ensures forall i :: 0 <= i < |s| ==> '0' <= s[i] <= '9'
    ensures n >= 10 ==> s[0] != '0'
    decreases n
  {
    if n < 10 then [Digit(n)] else DecimalString(n / 10) + [Digit(n % 10)]
  }

  /** The number a string of decimal digits denotes. */
  function DecimalValue(s: string): nat
    requires forall i :: 0 <= i < |s| ==> '0' <= s[i] <= '9'
    decreases |s|
  {
    if s == [] then 0
    else DecimalValue(s[..|s| - 1]) * 10 + (s[|s| - 1] as int - '0' as int)
  }

  /** Reading back the rendered counter gives the counter. */
  lemma {:induction false} DecimalRoundTrip(n: nat)
    ensures DecimalValue(DecimalString(n)) == n
    decreases n
  {
    var s := DecimalString(n);
    if n >= 10 {
      DecimalRoundTrip(n / 10);
      assert s[..|s| - 1] == DecimalString(n / 10);
    }
  }

  // ---------------------------------------------------------------------
  // Seed rows and the row that handleAdd appends

  /** A seed row: key the string `suffix`, every text field "Test " and the
      suffix except `typeOfBSAntennas`, which is "32", and Ret `No`. */
  function SeedRow(suffix: string): (r: SectorRecord)
    ensures r.key == StrKey(suffix) && r.availabilityOfRet == No
    ensures r.Get(TypeOfBSAntennas) == "32"
    ensures forall f :: f != TypeOfBSAntennas ==> r.Get(f) == "Test " + suffix
  {
    SectorRecord(StrKey(suffix), "Test " + suffix, "32", "Test " + suffix,
                 "Test " + suffix, "Test " + suffix, No, "Test " + suffix)
  }

  /** The initial `dataSource`: two rows with the string keys "0" and "1". */
  function Seed(): (ds: seq<SectorRecord>)
    ensures |ds| == 2 && ds[0].key == StrKey("0") && ds[1].key == StrKey("1")
    ensures forall i :: 0 <= i < |ds| ==> ds[i].availabilityOfRet == No
    ensures ds[0].Get(Sector) == "Test 0" && ds[1].Get(Sector) == "Test 1"
  {
    [SeedRow("0"), SeedRow("1")]
  }

  /** The initial value of `count`: the number of seed rows, so it is above
      every seed position. */
  function InitialCount(): (n: nat)
    ensures n == |Seed()|
  {
    2
  }

  /** The row handleAdd appends when the counter reads `count`: key the
      number `count`, labels embedding the counter in decimal (the `sector`
      label with two spaces, as in the template it models), "32" antennas
      and Ret `No`. */
  function NewRecord(count: nat): (r: SectorRecord)
    ensures r.key == NumKey(count) && r.availabilityOfRet == No
    ensures r.Get(TypeOfBSAntennas) == "32"
    ensures r.Get(Sector) == "Test  " + DecimalString(count)
    ensures forall f :: f != Sector && f != TypeOfBSAntennas ==>
      r.Get(f) == "Test " + DecimalString(count)
  {
    var n := DecimalString(count);
    SectorRecord(NumKey(count), "Test  " + n, "32", "Test " + n,
                 "Test " + n, "Test " + n, No, "Test " + n)
  }

  // ---------------------------------------------------------------------
  // The Ret drop-down menu

  /** The menu item key of each enumerated value. */
  function MenuKey(v: Ret): string {
    match v
    case Yes => "yes"
    case No => "no"
  }

  /** The enumerated value a menu item key selects; the menu offers only
      "yes" and "no", any other key selects nothing. */
  function ParseMenuKey(k: string): (r: Option<Ret>)
    ensures r.Some? <==> k == "yes" || k == "no"
  {
    if k == "yes" then Some(Yes) else if k == "no" then Some(No) else None
  }

  /** Menu keys and enumerated values correspond one to one. */
  lemma MenuKeyRoundTrip(v: Ret, k: string)
    ensures ParseMenuKey(MenuKey(v)) == Some(v)
    ensures ParseMenuKey(k) == Some(v) ==> MenuKey(v) == k
  {
  }

  /** The label the cell shows: "да" for Yes, "нет" for anything else. */
  function RetLabel(v: Ret): (s: string)
    ensures s == "да" <==> v == Yes
    ensures v == No ==> s == "нет"
  {
    if v == Yes then "да" else "нет"
  }

  // ---------------------------------------------------------------------
  // Keys of a collection

  /** Some row of `ds` has key `k`. */
  predicate HasKey(ds: seq<SectorRecord>, k: Key) {
    exists i :: 0 <= i < |ds| && ds[i].key == k
  }

  /** The keys of `ds` are pairwise distinct. */
  predicate UniqueKeys(ds: seq<SectorRecord>) {
    forall i, j :: 0 <= i < j < |ds| ==> ds[i].key != ds[j].key
  }
}
