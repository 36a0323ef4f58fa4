/** The master table: the column headers of the reference sheet are
    normalised, the code and description columns are selected by name, and
    the rows are folded into a lookup map from code to description. */
module MasterData {
  import opened Text
  import opened Wrappers

  const CodeColumn := "HSNCode"
  const DescriptionColumn := "Description"

  /** One header name: stripped, then every space removed. */
  function NormalizeHeader(h: string): (r: string)
    ensures ' ' !in r
    ensures IsTrimmed(r)
  {
    TrimSpec(h);
    RemoveSpacesSpec(Trim(h));
    RemoveSpacesKeepsTrimmed(Trim(h));
    RemoveSpaces(Trim(h))
  }

  lemma RemoveSpacesKeepsTrimmed(s: string)
    requires IsTrimmed(s)
    ensures IsTrimmed(RemoveSpaces(s))
  {
    if |s| == 1 {
      assert IsWhitespace(' ');
      assert RemoveSpaces(s) == s;
    } else if |s| > 1 {
      var mid := s[1..|s| - 1];
      assert s == [s[0]] + mid + [s[|s| - 1]];
      assert IsWhitespace(' ');
      RemoveSpacesAppend([s[0]] + mid, [s[|s| - 1]]);
      RemoveSpacesAppend([s[0]], mid);
    }
  }

  /** Normalising a header that is already normalised changes nothing. */
  lemma NormalizeHeaderIdempotent(h: string)
    ensures NormalizeHeader(NormalizeHeader(h)) == NormalizeHeader(h)
  {
    var n := NormalizeHeader(h);
    assert [] + n + [] == n;
    TrimOfPadded([], n, []);
    RemoveSpacesNoSpace(n);
  }

  /** Whitespace around a header never affects which column it names. */
  lemma NormalizeHeaderPadding(a: string, h: string, b: string)
    requires AllWhitespace(a) && AllWhitespace(b)
    ensures NormalizeHeader(a + h + b) == NormalizeHeader(h)
  {
    TrimAbsorbsPadding(a, h, b);
  }

  lemma StripSpacedHeader(a: string, x: string, y: string, b: string)
    requires AllWhitespace(a) && AllWhitespace(b)
    requires x != [] && !IsWhitespace(x[0]) && y != [] && !IsWhitespace(y[|y| - 1])
    ensures Trim(a + x + " " + y + b) == x + " " + y
  {
    var m := x + " " + y;
    assert m[0] == x[0] && m[|m| - 1] == y[|y| - 1];
    assert a + x + " " + y + b == a + m + b;
    TrimOfPadded(a, m, b);
  }

  lemma RemoveJoiningSpace(x: string, y: string)
    requires ' ' !in x && ' ' !in y
    ensures RemoveSpaces(x + " " + y) == x + y
  {
    var sp := " ";
    assert RemoveSpaces(sp) == [] by {
      assert sp[0] == ' ' && sp[1..] == [];
    }
    RemoveSpacesAppend(x + sp, y);
    RemoveSpacesAppend(x, sp);
    RemoveSpacesNoSpace(x);
    RemoveSpacesNoSpace(y);
    assert RemoveSpaces(x + sp) == x;
  }

  /** A header made of two words joined by one space, padded with whitespace,
      normalises to the two words run together: " HSN Code " names `CodeColumn`. */
  lemma NormalizeSpacedHeader(a: string, x: string, y: string, b: string)
    requires AllWhitespace(a) && AllWhitespace(b)
    requires x != [] && y != []
    requires forall i :: 0 <= i < |x| ==> !IsWhitespace(x[i])
    requires forall i :: 0 <= i < |y| ==> !IsWhitespace(y[i])
    ensures NormalizeHeader(a + x + " " + y + b) == x + y
  {
    StripSpacedHeader(a, x, y, b);
    assert IsWhitespace(' ');
    RemoveJoiningSpace(x, y);
  }

  lemma StripDescriptionHeader()
    ensures Trim("\tDescription ") == DescriptionColumn
  {
    assert IsWhitespace(' ') && IsWhitespace('\t') && !IsWhitespace('D') && !IsWhitespace('n');
    assert "\tDescription " == "\t" + "Description" + " ";
    TrimOfPadded("\t", "Description", " ");
  }

  lemma RemoveDescriptionHeaderSpace(s: string)
    requires s == DescriptionColumn
    ensures RemoveSpaces(s) == s
  {
    assert forall i :: 0 <= i < |s| ==> s[i] != ' ';
    RemoveSpacesNoSpace(s);
  }

  /** Surrounding tabs and spaces are stripped from a header. */
  lemma DescriptionHeaderExample(h: string)
    requires h == "\tDescription "
    ensures NormalizeHeader(h) == DescriptionColumn
  {
    StripDescriptionHeader();
    RemoveDescriptionHeaderSpace(Trim(h));
  }

  // ---------------------------------------------------------------- columns

  /** The reference sheet as read: a header row and records of text cells. */
  datatype Sheet = Sheet(header: seq<string>, records: seq<seq<string>>)

  /** Every record has one cell per column. */
  predicate WellFormed(sheet: Sheet) {
    forall i :: 0 <= i < |sheet.records| ==> |sheet.records[i]| == |sheet.header|
  }

  function NormalizeHeaders(header: seq<string>): (names: seq<string>)
    ensures |names| == |header|
    ensures forall j :: 0 <= j < |header| ==> names[j] == NormalizeHeader(header[j])
  {
    seq(|header|, j requires 0 <= j < |header| => NormalizeHeader(header[j]))
  }

  /** Exactly one of the column names is `name`: selecting it gives a single
      column rather than a missing key or a frame of duplicates. */
  ghost predicate HasUniqueColumn(names: seq<string>, name: string) {
    exists j :: 0 <= j < |names| && names[j] == name
      && forall k :: 0 <= k < |names| && k != j ==> names[k] != name
  }

  /** The first position of `x` in `s`. */
  function IndexOf(s: seq<string>, x: string): (i: nat)
    requires x in s
    ensures i < |s| && s[i] == x && x !in s[..i]
  {
    if s[0] == x then 0
    else
      assert s == [s[0]] + s[1..];
      var i := IndexOf(s[1..], x);
      assert s[..i + 1] == [s[0]] + s[1..][..i];
      i + 1
  }

  lemma TwoOccurrences(s: seq<string>, x: string, j: int, k: int)
    requires 0 <= j < k < |s| && s[j] == x && s[k] == x
    ensures multiset(s)[x] >= 2
  {
    assert s == s[..k] + s[k..];
    assert s[..k][j] == x && s[k..][0] == x;
    assert x in multiset(s[..k]) && x in multiset(s[k..]);
  }

  lemma CountOneHasUniqueIndex(s: seq<string>, x: string)
    requires multiset(s)[x] == 1
    ensures exists j :: 0 <= j < |s| && s[j] == x && forall k :: 0 <= k < |s| && k != j ==> s[k] != x
  {
    assert x in multiset(s);
    var j := IndexOf(s, x);
    forall k | 0 <= k < |s| && k != j ensures s[k] != x {
      if k < j {
        assert s[..j][k] == s[k];
      } else if s[k] == x {
        TwoOccurrences(s, x, j, k);
      }
    }
  }

  lemma UniqueIndexHasCountOne(s: seq<string>, x: string, j: int)
    requires 0 <= j < |s| && s[j] == x && forall k :: 0 <= k < |s| && k != j ==> s[k] != x
    ensures multiset(s)[x] == 1
  {
    var pre, post := s[..j], s[j + 1..];
    assert s == pre + [x] + post;
    assert x !in pre by {
      forall k | 0 <= k < |pre| ensures pre[k] != x { assert pre[k] == s[k]; }
    }
    assert x !in post by {
      forall k | 0 <= k < |post| ensures post[k] != x { assert post[k] == s[j + 1 + k]; }
    }
  }

  lemma UniqueCount(s: seq<string>, x: string)
    ensures multiset(s)[x] == 1 <==>
      exists j :: 0 <= j < |s| && s[j] == x && forall k :: 0 <= k < |s| && k != j ==> s[k] != x
  {
    if multiset(s)[x] == 1 {
      CountOneHasUniqueIndex(s, x);
    } else if j :| 0 <= j < |s| && s[j] == x && forall k :: 0 <= k < |s| && k != j ==> s[k] != x {
      UniqueIndexHasCountOne(s, x, j);
    }
  }

  /** When `x` occurs once in `s`, its first position is its only one. */
  lemma UniqueIndex(s: seq<string>, x: string)
    requires multiset(s)[x] == 1
    ensures x in s
    ensures forall j :: 0 <= j < |s| && s[j] == x ==> j == IndexOf(s, x)
  {
    UniqueCount(s, x);
    var j :| 0 <= j < |s| && s[j] == x && forall k :: 0 <= k < |s| && k != j ==> s[k] != x;
    assert x in s;
  }

  /** The (code, description) pairs taken from the columns called `CodeColumn`
      and `DescriptionColumn` among `names`, or None when either is missing or
      named more than once; the source aborts at startup in that case. */
  function SelectByName(names: seq<string>, records: seq<seq<string>>): (rows: Option<seq<(string, string)>>)
    requires forall i :: 0 <= i < |records| ==> |records[i]| == |names|
    ensures rows.Some? <==> HasUniqueColumn(names, CodeColumn) && HasUniqueColumn(names, DescriptionColumn)
    ensures rows.Some? ==> |rows.value| == |records|
    ensures rows.Some? ==> forall i, j :: 0 <= i < |records| && 0 <= j < |names| ==>
      (names[j] == CodeColumn ==> rows.value[i].0 == records[i][j]) &&
      (names[j] == DescriptionColumn ==> rows.value[i].1 == records[i][j])
  {
    UniqueCount(names, CodeColumn);
    UniqueCount(names, DescriptionColumn);
    if multiset(names)[CodeColumn] != 1 || multiset(names)[DescriptionColumn] != 1 then None
    else
      UniqueIndex(names, CodeColumn);
      UniqueIndex(names, DescriptionColumn);
      var c := IndexOf(names, CodeColumn);
      var d := IndexOf(names, DescriptionColumn);
      Some(seq(|records|, i requires 0 <= i < |records| => (records[i][c], records[i][d])))
  }

  /** Normalise the header row, then select the two columns by name. */
  function SelectColumns(sheet: Sheet): (rows: Option<seq<(string, string)>>)
    requires WellFormed(sheet)
    ensures rows.Some? <==> var names := NormalizeHeaders(sheet.header);
      HasUniqueColumn(names, CodeColumn) && HasUniqueColumn(names, DescriptionColumn)
    ensures rows.Some? ==> |rows.value| == |sheet.records|
    ensures rows.Some? ==> forall i, j :: 0 <= i < |sheet.records| && 0 <= j < |sheet.header| ==>
      (NormalizeHeader(sheet.header[j]) == CodeColumn ==> rows.value[i].0 == sheet.records[i][j]) &&
      (NormalizeHeader(sheet.header[j]) == DescriptionColumn ==> rows.value[i].1 == sheet.records[i][j])
  {
    SelectByName(NormalizeHeaders(sheet.header), sheet.records)
  }

  // ------------------------------------------------------------------ table

  /** The codes the rows contribute, after stripping. */
  ghost function RowKeys(rows: seq<(string, string)>): set<string> {
    set i | 0 <= i < |rows| :: Trim(rows[i].0)
  }

  /** Row `i` is the last row whose stripped code is its own. */
  ghost predicate IsLastFor(rows: seq<(string, string)>, i: int) {
    0 <= i < |rows| && forall j :: i < j < |rows| ==> Trim(rows[j].0) != Trim(rows[i].0)
  }

  /** Inserting the rows into `acc` first to last, as building a dict from
      the zipped, stripped columns does. */
  function InsertRows(acc: map<string, string>, rows: seq<(string, string)>): map<string, string>
    decreases |rows|
  {
    if rows == [] then acc
    else InsertRows(acc[Trim(rows[0].0) := Trim(rows[0].1)], rows[1..])
  }

  lemma RowKeysCons(rows: seq<(string, string)>)
    requires rows != []
    ensures RowKeys(rows) == {Trim(rows[0].0)} + RowKeys(rows[1..])
  {
    forall k | k in RowKeys(rows) ensures k in {Trim(rows[0].0)} + RowKeys(rows[1..]) {
      var i :| 0 <= i < |rows| && Trim(rows[i].0) == k;
      if i > 0 { assert rows[1..][i - 1] == rows[i]; }
    }
    forall k | k in RowKeys(rows[1..]) ensures k in RowKeys(rows) {
      var i :| 0 <= i < |rows[1..]| && Trim(rows[1..][i].0) == k;
      assert rows[i + 1] == rows[1..][i];
    }
  }

  lemma {:induction false} InsertRowsKeys(acc: map<string, string>, rows: seq<(string, string)>)
    ensures InsertRows(acc, rows).Keys == acc.Keys + RowKeys(rows)
    decreases |rows|
  {
    if rows != [] {
      RowKeysCons(rows);
      InsertRowsKeys(acc[Trim(rows[0].0) := Trim(rows[0].1)], rows[1..]);
    }
  }

  /** Every key and every value of `m` is already stripped. */
  ghost predicate AllTrimmed(m: map<string, string>) {
    forall k :: k in m ==> IsTrimmed(k) && IsTrimmed(m[k])
  }

  lemma {:induction false} InsertRowsTrimmed(acc: map<string, string>, rows: seq<(string, string)>)
    requires AllTrimmed(acc)
    ensures AllTrimmed(InsertRows(acc, rows))
    decreases |rows|
  {
    if rows != [] {
      TrimSpec(rows[0].0);
      TrimSpec(rows[0].1);
      InsertRowsTrimmed(acc[Trim(rows[0].0) := Trim(rows[0].1)], rows[1..]);
    }
  }

  lemma {:induction false} InsertRowsUntouched(acc: map<string, string>, rows: seq<(string, string)>, k: string)
    requires k in acc && k !in RowKeys(rows)
    ensures k in InsertRows(acc, rows) && InsertRows(acc, rows)[k] == acc[k]
    decreases |rows|
  {
    if rows != [] {
      RowKeysCons(rows);
      InsertRowsUntouched(acc[Trim(rows[0].0) := Trim(rows[0].1)], rows[1..], k);
    }
  }

  lemma {:induction false} InsertRowsLast(acc: map<string, string>, rows: seq<(string, string)>, i: int)
    requires IsLastFor(rows, i)
    ensures Trim(rows[i].0) in InsertRows(acc, rows)
    ensures InsertRows(acc, rows)[Trim(rows[i].0)] == Trim(rows[i].1)
    decreases |rows|
  {
    var next := acc[Trim(rows[0].0) := Trim(rows[0].1)];
    if i == 0 {
      forall k | k in RowKeys(rows[1..]) ensures k != Trim(rows[0].0) {
        var j :| 0 <= j < |rows[1..]| && Trim(rows[1..][j].0) == k;
        assert rows[1..][j] == rows[j + 1];
      }
      InsertRowsUntouched(next, rows[1..], Trim(rows[0].0));
    } else {
      assert rows[1..][i - 1] == rows[i];
      assert IsLastFor(rows[1..], i - 1) by {
        forall j | i - 1 < j < |rows[1..]| ensures Trim(rows[1..][j].0) != Trim(rows[i].0) {
          assert rows[1..][j] == rows[j + 1];
        }
      }
      InsertRowsLast(next, rows[1..], i - 1);
    }
  }

  /** The lookup table: its keys are exactly the stripped codes of the rows,
      and every key and every description is stripped. */
  function BuildTable(rows: seq<(string, string)>): (table: map<string, string>)
    ensures table.Keys == RowKeys(rows)
    ensures AllTrimmed(table)
  {
    InsertRowsKeys(map[], rows);
    InsertRowsTrimmed(map[], rows);
    InsertRows(map[], rows)
  }

  /** A code listed more than once keeps the description of its last row. */
  lemma LastWriteWins(rows: seq<(string, string)>, i: int)
    requires IsLastFor(rows, i)
    ensures Trim(rows[i].0) in BuildTable(rows)
    ensures BuildTable(rows)[Trim(rows[i].0)] == Trim(rows[i].1)
  {
    InsertRowsLast(map[], rows, i);
  }

  /** Every entry of the table comes from the last row carrying its code. */
  lemma TableEntryOrigin(rows: seq<(string, string)>, k: string)
    requires k in BuildTable(rows)
    ensures exists i :: IsLastFor(rows, i) && Trim(rows[i].0) == k && BuildTable(rows)[k] == Trim(rows[i].1)
  {
    var i :| 0 <= i < |rows| && Trim(rows[i].0) == k;
    while !IsLastFor(rows, i)
      invariant 0 <= i < |rows| && Trim(rows[i].0) == k
      decreases |rows| - i
    {
      var j :| i < j < |rows| && Trim(rows[j].0) == k;
      i := j;
    }
    LastWriteWins(rows, i);
  }

  /** The whole startup step: select the two columns, then build the table.
      None is the source's fatal startup error. */
  function LoadTable(sheet: Sheet): (table: Option<map<string, string>>)
    requires WellFormed(sheet)
    ensures table.Some? <==> var names := NormalizeHeaders(sheet.header);
      HasUniqueColumn(names, CodeColumn) && HasUniqueColumn(names, DescriptionColumn)
    ensures table.Some? ==> AllTrimmed(table.value)
  {
    match SelectColumns(sheet)
    case None => None
    case Some(rows) => Some(BuildTable(rows))
  }

  /** Record `i` is the last record whose stripped cell in column `c` is its own. */
  ghost predicate IsLastRecord(sheet: Sheet, c: int, i: int)
    requires WellFormed(sheet) && 0 <= c < |sheet.header|
  {
    0 <= i < |sheet.records| && forall j :: i < j < |sheet.records| ==>
      Trim(sheet.records[j][c]) != Trim(sheet.records[i][c])
  }

  /** The selected pairs are the cells of columns `c` and `d`, record by record. */
  lemma SelectedCells(sheet: Sheet, c: int, d: int)
    requires WellFormed(sheet) && SelectColumns(sheet).Some?
    requires 0 <= c < |sheet.header| && NormalizeHeader(sheet.header[c]) == CodeColumn
    requires 0 <= d < |sheet.header| && NormalizeHeader(sheet.header[d]) == DescriptionColumn
    ensures |SelectColumns(sheet).value| == |sheet.records|
    ensures forall i :: 0 <= i < |sheet.records| ==>
      SelectColumns(sheet).value[i] == (sheet.records[i][c], sheet.records[i][d])
  {
  }

  lemma RowKeysOfColumn(rows: seq<(string, string)>, records: seq<seq<string>>, c: nat)
    requires |rows| == |records|
    requires forall i :: 0 <= i < |records| ==> c < |records[i]| && rows[i].0 == records[i][c]
    ensures RowKeys(rows) == set i | 0 <= i < |records| :: Trim(records[i][c])
  {
    forall k | k in RowKeys(rows) ensures exists i :: 0 <= i < |records| && Trim(records[i][c]) == k {
      var i :| 0 <= i < |rows| && Trim(rows[i].0) == k;
      assert Trim(records[i][c]) == k;
    }
    forall i | 0 <= i < |records| ensures Trim(records[i][c]) in RowKeys(rows) {
      assert Trim(rows[i].0) == Trim(records[i][c]);
    }
  }

  /** The loaded table holds what the sheet says: its keys are the stripped
      cells of the `HSNCode` column, and each code maps to the stripped
      `Description` cell of the last record carrying that code. */
  lemma LoadTableContents(sheet: Sheet, c: int, d: int)
    requires WellFormed(sheet) && LoadTable(sheet).Some?
    requires 0 <= c < |sheet.header| && NormalizeHeader(sheet.header[c]) == CodeColumn
    requires 0 <= d < |sheet.header| && NormalizeHeader(sheet.header[d]) == DescriptionColumn
    ensures LoadTable(sheet).value.Keys == set i | 0 <= i < |sheet.records| :: Trim(sheet.records[i][c])
    ensures forall i :: IsLastRecord(sheet, c, i) ==>
      LoadTable(sheet).value[Trim(sheet.records[i][c])] == Trim(sheet.records[i][d])
  {
    var rows := SelectColumns(sheet).value;
    var records := sheet.records;
    var table := LoadTable(sheet).value;
    assert table == BuildTable(rows);
    SelectedCells(sheet, c, d);
    RowKeysOfColumn(rows, records, c);
    forall i | IsLastRecord(sheet, c, i)
      ensures table[Trim(records[i][c])] == Trim(records[i][d])
    {
      assert rows[i] == (records[i][c], records[i][d]);
      assert IsLastFor(rows, i) by {
        forall j | i < j < |rows| ensures Trim(rows[j].0) != Trim(rows[i].0) {
          assert rows[j].0 == records[j][c];
        }
      }
      LastWriteWins(rows, i);
    }
  }
}
