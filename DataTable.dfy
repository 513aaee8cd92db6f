/**
 The DataTable component: its props, the description of what one render
 produces, and the component instance whose state is the list of selected
 rows.

 Markup and CSS classes are not modelled; a render produces either the
 loading placeholder or a table described by its header labels and, per data
 row, the row itself and the state of its checkbox (absent when the table is
 not selectable). Cell contents are not modelled.
 */
module DataTable {
  import opened Selection

  datatype Option<T> = None | Some(value: T)

  /** A column descriptor. `sortable` is accepted but never read by the
      component. */
  datatype Column = Column(key: string, title: string, dataIndex: string, sortable: bool)

  /** One body row: the data row it shows and its checkbox, `Some(checked)`
      when the table is selectable, `None` otherwise. */
  datatype BodyRow<T> = BodyRow(row: T, checkbox: Option<bool>)

  /** What a render returns: the loading placeholder, or a table. */
  datatype View<T> = Loading | Table(headers: seq<string>, body: seq<BodyRow<T>>)

  /** The label of the extra header cell of a selectable table. */
  const SelectHeader: string := "Select"

  /** The header labels: one per column, in column order. */
  function Titles(columns: seq<Column>): (t: seq<string>)
    ensures |t| == |columns|
    ensures forall i :: 0 <= i < |columns| ==> t[i] == columns[i].title
  {
    if columns == [] then [] else [columns[0].title] + Titles(columns[1..])
  }

  /** The header row, with the "Select" cell first when the table is
      selectable. */
  function HeaderCells(columns: seq<Column>, selectable: bool): (h: seq<string>)
    ensures |h| == |columns| + (if selectable then 1 else 0)
    ensures selectable ==> h[0] == SelectHeader
    ensures forall i :: 0 <= i < |columns| ==>
      h[i + (if selectable then 1 else 0)] == columns[i].title
  {
    (if selectable then [SelectHeader] else []) + Titles(columns)
  }

  /** The body rows: one per data row, in the order of `data`; each
      checkbox is checked exactly when its row is in `selected`. */
  function BodyRows<T(==)>(data: seq<T>, selectable: bool, selected: seq<T>): (b: seq<BodyRow<T>>)
    ensures |b| == |data|
    ensures forall i :: 0 <= i < |data| ==> b[i].row == data[i]
    ensures forall i :: 0 <= i < |data| ==>
      b[i].checkbox == (if selectable then Some(data[i] in selected) else None)
  {
    if data == [] then []
    else
      [BodyRow(data[0], if selectable then Some(data[0] in selected) else None)]
      + BodyRows(data[1..], selectable, selected)
  }

  /** One render of the component for the given props and selection. */
  function RenderView<T(==)>(data: seq<T>, columns: seq<Column>, loading: bool,
                             selectable: bool, selected: seq<T>): (v: View<T>)
    ensures loading <==> v.Loading?
    ensures v.Table? ==> |v.headers| == |columns| + (if selectable then 1 else 0)
    ensures v.Table? ==> |v.body| == |data|
  {
    if loading then Loading
    else Table(HeaderCells(columns, selectable), BodyRows(data, selectable, selected))
  }

  /** The data rows a view shows, in display order (none while loading). */
  function ShownRows<T>(v: View<T>): (rows: seq<T>)
    ensures v.Table? ==> |rows| == |v.body|
    ensures v.Table? ==> forall i :: 0 <= i < |v.body| ==> rows[i] == v.body[i].row
    ensures v.Loading? ==> rows == []
  {
    if v.Loading? then [] else RowsOf(v.body)
  }

  function RowsOf<T>(body: seq<BodyRow<T>>): (rows: seq<T>)
    ensures |rows| == |body|
    ensures forall i :: 0 <= i < |body| ==> rows[i] == body[i].row
  {
    if body == [] then [] else [body[0].row] + RowsOf(body[1..])
  }

  /** While loading, no table and no rows are produced, whatever the data,
      columns and selection; otherwise the rows shown are exactly `data`,
      in the caller's order. */
  lemma RenderRows<T>(data: seq<T>, columns: seq<Column>, loading: bool,
                      selectable: bool, selected: seq<T>)
    ensures loading <==> RenderView(data, columns, loading, selectable, selected).Loading?
    ensures ShownRows(RenderView(data, columns, loading, selectable, selected))
            == if loading then [] else data
  {
  }

  /** In a selectable table the checkbox of a row is checked exactly when
      the row is a member of the selection; in any other table there is no
      checkbox. */
  lemma RenderChecked<T>(data: seq<T>, columns: seq<Column>, selectable: bool,
                         selected: seq<T>, i: nat)
    requires i < |data|
    ensures RenderView(data, columns, false, selectable, selected).body[i].checkbox
            == if selectable then Some(data[i] in selected) else None
  {
  }

  /** After `row` is toggled, the next render flips the checkbox of every
      occurrence of `row` in the data and leaves every other checkbox as
      it was. */
  lemma RenderAfterToggle<T>(data: seq<T>, columns: seq<Column>, selected: seq<T>,
                             row: T, i: nat)
    requires i < |data|
    ensures RenderView(data, columns, false, true, Toggled(selected, row)).body[i].checkbox
            == Some((data[i] in selected) != (data[i] == row))
  {
    ToggledMembership(selected, row, data[i]);
  }

  /** A mounted DataTable. `selectedRows` is its state, initially empty.
      `notifications` records, in order, every list passed to the
      `onRowSelect` callback. */
  class Component<T(==)> {
    var selectedRows: seq<T>
    var notifications: seq<seq<T>>

    /** The selection never lists a row twice. */
    ghost predicate Valid()
      reads this
    {
      NoDup(selectedRows)
    }

    constructor ()
      ensures Valid()
      ensures selectedRows == [] && notifications == []
    {
      selectedRows := [];
      notifications := [];
    }

    /** The checkbox handler: toggles `row`, stores the new list and hands
        that same list to `onRowSelect` once when the callback was given
        (`hasOnRowSelect`), not at all otherwise. */
    method ToggleRow(row: T, hasOnRowSelect: bool)
      requires Valid()
      modifies this
      ensures Valid()
      ensures selectedRows == Toggled(old(selectedRows), row)
      ensures notifications == old(notifications) + if hasOnRowSelect then [selectedRows] else []
    {
      var updated: seq<T>;
      if row in selectedRows {
        updated := Without(selectedRows, row);
      } else {
        updated := selectedRows + [row];
      }
      ToggleNoDup(selectedRows, row);
      selectedRows := updated;
      if hasOnRowSelect {
        notifications := notifications + [updated];
      }
    }

    /** Renders the component with the given props against its current
        selection. */
    method Render(data: seq<T>, columns: seq<Column>, loading: bool, selectable: bool)
      returns (v: View<T>)
      ensures v == RenderView(data, columns, loading, selectable, selectedRows)
      ensures loading <==> v.Loading?
      ensures ShownRows(v) == if loading then [] else data
    {
      v := RenderView(data, columns, loading, selectable, selectedRows);
      RenderRows(data, columns, loading, selectable, selectedRows);
    }
  }
}
