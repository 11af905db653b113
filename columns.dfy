/** The table's column list and the mapping that attaches the edit
    behaviour of a cell to the editable columns only. */
module Columns {
  import opened Records

  /** What a column displays: a text field, the Ret drop-down, or the
      delete button. */
  datatype ColumnIndex = TextColumn(field: TextField) | RetColumn | OperationColumn

  datatype Column = Column(title: string, dataIndex: ColumnIndex, editable: bool)

  /** `defaultColumns`, in display order. */
  function DefaultColumns(): (cols: seq<Column>)
    ensures |cols| == 8
    ensures forall i :: 0 <= i < |cols| ==> (cols[i].editable <==> cols[i].dataIndex.TextColumn?)
  {
    [ Column("Сектор", TextColumn(Sector), true),
      Column("Тип антенн БС", TextColumn(TypeOfBSAntennas), true),
      Column("Количество", TextColumn(Quantity), true),
      Column("Азимут", TextColumn(Azimuth), true),
      Column("Угол наклона", TextColumn(AngleOfInclination), true),
      Column("наличие Ret", RetColumn, false),
      Column("Тип выносного блока", TextColumn(TypeOfRemoteUnit), true),
      Column("", OperationColumn, false) ]
  }

  /** A column after the mapping: as it was, or with an `onCell` that gives
      each of its cells the record, the field and handleSave. */
  datatype BoundColumn = Plain(column: Column) | WithOnCell(column: Column)

  /** The props `onCell` gives the cell of a bound column. */
  datatype CellProps = CellProps(record: SectorRecord, editable: bool, dataIndex: ColumnIndex, title: string)

  /** `defaultColumns.map(...)`: a column that is not editable is returned as
      it is; an editable one keeps its fields and gains `onCell`. */
  function Bind(cols: seq<Column>): (r: seq<BoundColumn>)
    ensures |r| == |cols|
    ensures forall i :: 0 <= i < |cols| ==> r[i].column == cols[i]
    ensures forall i :: 0 <= i < |cols| ==> (r[i].WithOnCell? <==> cols[i].editable)
  {
    seq(|cols|, i requires 0 <= i < |cols| =>
      if !cols[i].editable then Plain(cols[i]) else WithOnCell(cols[i]))
  }

  /** The props a cell of the bound column receives for `record`; a plain
      column's cell receives none, so it renders its content as it is. */
  function OnCell(b: BoundColumn, record: SectorRecord): (p: Option<CellProps>)
    ensures p.Some? <==> b.WithOnCell?
    ensures p.Some? ==> p.value.record == record && p.value.editable == b.column.editable
    ensures p.Some? ==> p.value.dataIndex == b.column.dataIndex && p.value.title == b.column.title
  {
    match b
    case Plain(_) => None
    case WithOnCell(col) => Some(CellProps(record, col.editable, col.dataIndex, col.title))
  }

  /** Of the table's columns, exactly the text columns carry the edit
      behaviour, each text field has such a column, and their cells are
      told they are editable; the Ret drop-down and the delete button do not. */
  lemma {:induction false} EditBehaviourOnTextColumns(record: SectorRecord)
    ensures forall i :: 0 <= i < |DefaultColumns()| ==>
      (OnCell(Bind(DefaultColumns())[i], record).Some? <==> DefaultColumns()[i].dataIndex.TextColumn?)
    ensures forall i :: 0 <= i < |DefaultColumns()| && OnCell(Bind(DefaultColumns())[i], record).Some? ==>
      OnCell(Bind(DefaultColumns())[i], record).value.editable
    ensures forall f :: exists i ::
      && 0 <= i < |DefaultColumns()|
      && DefaultColumns()[i].dataIndex == TextColumn(f)
      && OnCell(Bind(DefaultColumns())[i], record).Some?
  {
    var cols := DefaultColumns();
    forall f ensures exists i ::
      && 0 <= i < |cols|
      && cols[i].dataIndex == TextColumn(f)
      && OnCell(Bind(cols)[i], record).Some?
    {
      var i := match f
        case Sector => 0
        case TypeOfBSAntennas => 1
        case Quantity => 2
        case Azimuth => 3
        case AngleOfInclination => 4
        case TypeOfRemoteUnit => 6;
      assert cols[i].dataIndex == TextColumn(f);
    }
  }
}
