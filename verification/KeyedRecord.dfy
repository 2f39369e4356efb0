/**
  Stored records and the comparison by key together (src/sql_ibtree.c): the schema made for a table puts the key at
  offset 0, and there the record has its primary key.
*/
module KeyedRecord {
  import opened Bytes
  import Record
  import SchemaCompare

  /** The primary key of a record. */
  function KeyOf(table: seq<Record.Column>, record: Record.Record): Record.Value
    requires Record.PrimaryFrom(table, 0) != -1 && |record.values| == |record.columns|
    requires Record.IndexOf(record.columns, table[Record.PrimaryFrom(table, 0)].name) != -1
  {
    Record.ValueOf(record, table[Record.PrimaryFrom(table, 0)].name)
  }

  /** With a text as its primary key, the stored record begins as the comparison expects, and so does a search key. */
  lemma {:induction false} KeyIsInFront(table: seq<Record.Column>, record: Record.Record, stored: bytes)
    returns (l: SchemaCompare.Layout)
    requires Record.IsTable(table) && Record.IsStored(table, record, stored)
    requires table[Record.PrimaryFrom(table, 0)].columnType == Record.TextType
    ensures KeyOf(table, record).Text? && SchemaCompare.IsRecord(stored, l)
    ensures l.prefix == [] && l.key == KeyOf(table, record).text
    ensures Record.Encode(KeyOf(table, record)) == SchemaCompare.SearchPayload(l.key)
  {
    var primary: nat := Record.PrimaryFrom(table, 0);
    var order := Record.StoredOrder(|table|, primary);
    var vs := Record.Arranged(table, record, order);
    assert order[0] == primary && vs[0] == KeyOf(table, record);
    l := SchemaCompare.Layout([], vs[0].text, Record.EncodeAll(vs[1..]));
    TextInFront(vs[0].text, l.rest);
  }

  lemma {:induction false} TextInFront(key: bytes, rest: bytes)
    requires |key| < TWO_32
    ensures SchemaCompare.IsRecord(Record.Encode(Record.Text(key)) + rest, SchemaCompare.Layout([], key, rest))
  {
    assert [] + WriteLe32(|key|) + key + rest == WriteLe32(|key|) + key + rest;
  }

  /**
    A stored record against a search key. However the record is cut into windows, the order of its primary key comes
    out if and only if that is not a strict prefix of the search key and, unless that is empty, no window ends with the
    fourth byte of the record.
  */
  method CompareStored(
      table: seq<Record.Column>, windows: seq<bytes>, search: bytes, ghost record: Record.Record)
    returns (o: SchemaCompare.Outcome)
    requires Record.IsTable(table) && Record.IsStored(table, record, SchemaCompare.Joined(windows))
    requires table[Record.PrimaryFrom(table, 0)].columnType == Record.TextType && |search| < TWO_32
    requires forall i :: 0 <= i < |windows| ==> windows[i] != []
    ensures KeyOf(table, record).Text?
    ensures (o.Compared? && o.result == Compare(KeyOf(table, record).text, search))
      <==>
        && !SchemaCompare.StrictPrefix(KeyOf(table, record).text, search)
        && (search == [] || forall i :: 0 <= i < |windows| ==> SchemaCompare.End(windows, i) != 4)
  {
    ghost var l := KeyIsInFront(table, record, SchemaCompare.Joined(windows));
    var c := new SchemaCompare.VarKeyContext(0);
    o := SchemaCompare.CompareStream(c, windows, Record.Encode(Record.Text(search)), l, search);
  }
}
