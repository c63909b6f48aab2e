/**
 * The two preference tables (`database/member.csv`, `database/server.csv`) as
 * values, the column-name lookup that reads them and the upsert that
 * `set_default_language` performs on them.
 */
module Preferences {
  import opened Wrappers
  import opened Catalog

  /** A data row: the key (a user or server id) and its `language` cell. */
  datatype Row = Row(key: int, language: string)

  /**
   * A table file: missing, or a header `keyColumn<TAB>language` followed by
   * rows. Every writer in the source emits `language` as the second column.
   */
  datatype TableFile = Missing | Present(keyColumn: string, rows: seq<Row>)

  /** Header of the key column the user table is written with. */
  const MemberKey: string := "discordId"

  /** Header of the key column the server table is written with. */
  const ServerKey: string := "serverId"

  /** Exceptions raised while reading a table or the context. */
  datatype Fault =
    | FileNotFound          // read_csv on a missing file
    | KeyError(column: string) // selecting a column the header lacks
    | GuildIsNone           // `ctx.guild.id` when the interaction has no guild

  /** The language of the first row whose key is `id`, if any (`row["language"].iloc[0]`). */
  function FirstLanguage(rows: seq<Row>, id: int): (r: Option<string>)
    ensures r.None? <==> forall i :: 0 <= i < |rows| ==> rows[i].key != id
    ensures r.Some? ==> exists i :: 0 <= i < |rows| && rows[i].key == id && rows[i].language == r.value &&
                                    forall j :: 0 <= j < i ==> rows[j].key != id
  {
    if rows == [] then None
    else if rows[0].key == id then Some(rows[0].language)
    else
      var r := FirstLanguage(rows[1..], id);
      assert forall i :: 1 <= i < |rows| ==> rows[i] == rows[1..][i - 1];
      if r.Some? then
        var k :| 0 <= k < |rows[1..]| && rows[1..][k].key == id && rows[1..][k].language == r.value &&
                 forall j :: 0 <= j < k ==> rows[1..][j].key != id;
        assert rows[k + 1].key == id && forall j :: 0 <= j < k + 1 ==> rows[j].key != id;
        r
      else r
  }

  /** The first matching row decides, whatever rows follow it. */
  lemma FirstLanguageAt(rows: seq<Row>, id: int, i: nat)
    requires i < |rows| && rows[i].key == id
    requires forall j :: 0 <= j < i ==> rows[j].key != id
    ensures FirstLanguage(rows, id) == Some(rows[i].language)
  {
    var r := FirstLanguage(rows, id);
    var k :| 0 <= k < |rows| && rows[k].key == id && rows[k].language == r.value &&
             forall j :: 0 <= j < k ==> rows[j].key != id;
    assert k == i;
  }

  /**
   * `df.loc[df[column] == id]` followed by `["language"].iloc[0]`: selecting by
   * column NAME, so a header without that column raises `KeyError`.
   */
  function Lookup(t: TableFile, column: string, id: int): (r: Result<Option<string>, Fault>)
    ensures r.Failure? <==> t.Missing? || t.keyColumn != column
    ensures r.Success? ==> r.value == FirstLanguage(t.rows, id)
  {
    match t
    case Missing => Failure(FileNotFound)
    case Present(k, rows) => if column == k then Success(FirstLanguage(rows, id)) else Failure(KeyError(column))
  }

  /** Whether `df.query(f"{column} == {id}")` is non-empty. */
  predicate HasKey(rows: seq<Row>, id: int)
  {
    exists i :: 0 <= i < |rows| && rows[i].key == id
  }

  /** Number of rows keyed `id`. */
  function KeyCount(rows: seq<Row>, id: int): (n: nat)
    ensures n == 0 <==> !HasKey(rows, id)
    ensures n <= |rows|
  {
    if rows == [] then 0
    else
      var n := KeyCount(rows[1..], id);
      assert forall i :: 1 <= i < |rows| ==> rows[i] == rows[1..][i - 1];
      assert HasKey(rows[1..], id) ==> HasKey(rows, id);
      (if rows[0].key == id then 1 else 0) + n
  }

  /** `df.loc[df[key] == id, "language"] = code`: every matching row gets the new language. */
  function Relabel(rows: seq<Row>, id: int, code: string): (r: seq<Row>)
    ensures |r| == |rows|
    ensures forall i :: 0 <= i < |r| ==> r[i].key == rows[i].key
    ensures forall i :: 0 <= i < |r| && r[i].key == id ==> r[i].language == code
    ensures forall i :: 0 <= i < |r| && r[i].key != id ==> r[i] == rows[i]
  {
    seq(|rows|, i requires 0 <= i < |rows| => if rows[i].key == id then rows[i].(language := code) else rows[i])
  }

  /** What the `except` handler writes: the header and one row. */
  function Recreated(keyColumn: string, id: int, code: string): (r: TableFile)
    ensures r.Present? && r.keyColumn == keyColumn && |r.rows| == 1
    ensures Lookup(r, keyColumn, id) == Success(Some(code))
  {
    Present(keyColumn, [Row(id, code)])
  }

  /**
   * The table after one `set_default_language` in one scope, valid code given:
   * a missing file, or a header without the key column (the `query` fails),
   * goes to the handler; a new key is put in front
   * (`dfa.append(dataframe)`); an existing key is relabelled in place.
   */
  function Upsert(keyColumn: string, t: TableFile, id: int, code: string): (r: TableFile)
    ensures r.Present? && r.keyColumn == keyColumn && |r.rows| > 0
  {
    match t
    case Missing => Recreated(keyColumn, id, code)
    case Present(k, rows) =>
      if k != keyColumn then Recreated(keyColumn, id, code)
      else if !HasKey(rows, id) then Present(k, [Row(id, code)] + rows)
      else Present(k, Relabel(rows, id, code))
  }

  /** A new key: exactly one row more, in front, and the old rows after it in their order. */
  lemma UpsertNewKey(keyColumn: string, rows: seq<Row>, id: int, code: string)
    requires !HasKey(rows, id)
    ensures var r := Upsert(keyColumn, Present(keyColumn, rows), id, code).rows;
      |r| == |rows| + 1 && r[0] == Row(id, code) && r[1..] == rows
  {
  }

  /** An existing key: same row count, same keys, only the `language` of matching rows changes. */
  lemma UpsertExistingKey(keyColumn: string, rows: seq<Row>, id: int, code: string)
    requires HasKey(rows, id)
    ensures var r := Upsert(keyColumn, Present(keyColumn, rows), id, code).rows;
      |r| == |rows| &&
      forall i :: 0 <= i < |rows| ==>
        r[i].key == rows[i].key &&
        r[i].language == (if rows[i].key == id then code else rows[i].language)
  {
  }

  /** Any failure before the write leaves exactly the header and one row: all other rows are lost. */
  lemma UpsertRecreates(keyColumn: string, t: TableFile, id: int, code: string)
    requires t.Missing? || t.keyColumn != keyColumn
    ensures Upsert(keyColumn, t, id, code) == Present(keyColumn, [Row(id, code)])
  {
  }

  /** Reading the key just written, by the column it was written under, gives the new code. */
  lemma UpsertReadBack(keyColumn: string, t: TableFile, id: int, code: string)
    ensures Lookup(Upsert(keyColumn, t, id, code), keyColumn, id) == Success(Some(code))
  {
    var r := Upsert(keyColumn, t, id, code);
    if t.Present? && t.keyColumn == keyColumn && HasKey(t.rows, id) {
      FirstRelabelled(t.rows, id, code);
    } else {
      FirstLanguageAt(r.rows, id, 0);
    }
  }

  /** In a relabelled table the first row keyed `id` carries `code`. */
  lemma FirstRelabelled(rows: seq<Row>, id: int, code: string)
    requires HasKey(rows, id)
    ensures FirstLanguage(Relabel(rows, id, code), id) == Some(code)
  {
    var r := Relabel(rows, id, code);
    var i :| 0 <= i < |rows| && rows[i].key == id;
    assert r[i].key == id;
    var v := FirstLanguage(r, id);
    var k :| 0 <= k < |r| && r[k].key == id && r[k].language == v.value;
  }

  /** Rows of other keys read as before, when the table was well-formed. */
  lemma UpsertKeepsOthers(keyColumn: string, rows: seq<Row>, id: int, other: int, code: string)
    requires other != id
    ensures Lookup(Upsert(keyColumn, Present(keyColumn, rows), id, code), keyColumn, other) ==
            Lookup(Present(keyColumn, rows), keyColumn, other)
  {
    var r := Upsert(keyColumn, Present(keyColumn, rows), id, code).rows;
    var before := FirstLanguage(rows, other);
    if before.Some? {
      var k :| 0 <= k < |rows| && rows[k].key == other && rows[k].language == before.value &&
               forall j :: 0 <= j < k ==> rows[j].key != other;
      if HasKey(rows, id) {
        FirstLanguageAt(r, other, k);
      } else {
        FirstLanguageAt(r, other, k + 1);
      }
    }
  }

  /** Setting the same code twice is the same as setting it once: no duplicate row appears. */
  lemma UpsertIdempotent(keyColumn: string, t: TableFile, id: int, code: string)
    ensures Upsert(keyColumn, Upsert(keyColumn, t, id, code), id, code) == Upsert(keyColumn, t, id, code)
  {
    var r := Upsert(keyColumn, t, id, code);
    assert r.rows[0].key == id || HasKey(t.rows, id);
    assert HasKey(r.rows, id) by {
      if t.Present? && t.keyColumn == keyColumn && HasKey(t.rows, id) {
        var i :| 0 <= i < |t.rows| && t.rows[i].key == id;
        assert r.rows[i].key == id;
      } else {
        assert r.rows[0].key == id;
      }
    }
    assert Relabel(r.rows, id, code) == r.rows;
  }

  /** A key absent before has exactly one row after; a present key keeps its row count. */
  lemma UpsertKeyCount(keyColumn: string, t: TableFile, id: int, code: string)
    ensures KeyCount(Upsert(keyColumn, t, id, code).rows, id) ==
      if t.Present? && t.keyColumn == keyColumn && HasKey(t.rows, id) then KeyCount(t.rows, id) else 1
  {
    var r := Upsert(keyColumn, t, id, code);
    if t.Present? && t.keyColumn == keyColumn {
      if HasKey(t.rows, id) {
        RelabelKeyCount(t.rows, id, code);
      } else {
        assert r.rows[1..] == t.rows;
      }
    } else {
      assert r.rows[1..] == [];
    }
  }

  lemma {:induction false} RelabelKeyCount(rows: seq<Row>, id: int, code: string)
    ensures KeyCount(Relabel(rows, id, code), id) == KeyCount(rows, id)
  {
    if rows != [] {
      RelabelKeyCount(rows[1..], id, code);
      assert Relabel(rows, id, code)[1..] == Relabel(rows[1..], id, code);
    }
  }

  /** Every stored language is a code of the index (or the file is missing). */
  predicate AllValid(index: Index, t: TableFile)
  {
    t.Present? ==> forall i :: 0 <= i < |t.rows| ==> LangExists(index, t.rows[i].language)
  }

  /** Validating before writing keeps every stored language a code of the index. */
  lemma UpsertKeepsValid(index: Index, keyColumn: string, t: TableFile, id: int, code: string)
    requires AllValid(index, t) && LangExists(index, code)
    ensures AllValid(index, Upsert(keyColumn, t, id, code))
  {
    var r := Upsert(keyColumn, t, id, code);
    if t.Present? && t.keyColumn == keyColumn && !HasKey(t.rows, id) {
      assert forall i :: 1 <= i < |r.rows| ==> r.rows[i] == t.rows[i - 1];
    }
  }
}
