/** The table-building rules of spreadsheet.ts: a locale store flattened to
    dot keys and laid out as sheet rows, new rows merged into an existing
    sheet, and several locale files combined into one sheet with a column per
    language present. */
module Spreadsheet {
  import opened Wrappers
  import opened JsStrings
  import opened Seqs
  import opened FlatJson

  /** A sheet row, cell by cell, and a sheet, row by row. */
  type Row = seq<string>
  type Sheet = seq<Row>

  /** A row of five empty cells. */
  const Blank: Row := ["", "", "", "", ""]

  /** The fixed header of a single-language sheet. */
  const Columns: Row := ["Key", "Korean", "English", "Chinese", "Japanese"]

  // ---------------------------------------------------------------------
  // One locale store as a sheet

  /** The column of the single-language layout that holds `language`; 0 when
      the layout has no column for it. */
  function SheetColumn(language: string): (c: nat)
    ensures c < 5
  {
    if language == "ko" then 1
    else if language == "en" then 2
    else if language == "zh" then 3
    else if language == "ja" then 4
    else 0
  }

  /** The data row of one flattened entry: the key in column 0, the value in
      the language's column and every other cell empty. */
  function DataRow(key: string, value: string, language: string): (row: Row)
    ensures |row| == 5 && row[0] == key
    ensures forall c :: 1 <= c < 5 ==> row[c] == if c == SheetColumn(language) then value else ""
  {
    var c := SheetColumn(language);
    (if c == 0 then Blank else Blank[c := value])[0 := key]
  }

  function RowFor(language: string): ((string, string)) -> Row {
    (e: (string, string)) => DataRow(e.0, e.1, language)
  }

  /** `convertJsonToSheetData(jsonData, language)`. */
  function SheetData(jsonData: Json, language: string): Sheet
    requires jsonData.Obj?
  {
    [Columns] + Map(Flatten(jsonData, ""), RowFor(language))
  }

  /** `convertJsonToSheetData` as the source runs it: the header, then a row
      pushed per flattened entry. */
  method ConvertJsonToSheetData(jsonData: Json, language: string) returns (sheetData: Sheet)
    requires jsonData.Obj?
    ensures sheetData == SheetData(jsonData, language)
  {
    sheetData := [Columns];
    var flattenedData := FlattenJson(jsonData, "");
    for i := 0 to |flattenedData|
      invariant sheetData == [Columns] + Map(flattenedData[..i], RowFor(language))
    {
      var entry := flattenedData[i];
      var key, value := entry.0, entry.1;
      var row := Blank;
      if language == "ko" {
        row := row[1 := value];
      } else if language == "en" {
        row := row[2 := value];
      } else if language == "zh" {
        row := row[3 := value];
      } else if language == "ja" {
        row := row[4 := value];
      }
      row := row[0 := key];
      DataRowCases(key, value, language);
      assert row == RowFor(language)(entry);
      MapSnoc(flattenedData[..i], entry, RowFor(language));
      assert flattenedData[..i + 1] == flattenedData[..i] + [entry];
      sheetData := sheetData + [row];
    }
    assert flattenedData[..|flattenedData|] == flattenedData;
  }

  lemma DataRowCases(key: string, value: string, language: string)
    ensures DataRow(key, value, language) == (
      if language == "ko" then Blank[1 := value]
      else if language == "en" then Blank[2 := value]
      else if language == "zh" then Blank[3 := value]
      else if language == "ja" then Blank[4 := value]
      else Blank)[0 := key]
  {
  }

  /** The sheet is the header and then one five-cell row per flattened key, no
      key twice: the key in column 0, its value in the language's column only,
      so another language leaves columns 1 to 4 empty. */
  lemma SheetDataShape(jsonData: Json, language: string)
    requires jsonData.Obj?
    ensures var s := SheetData(jsonData, language);
      var flat := Flatten(jsonData, "");
      |s| == |flat| + 1 && s[0] == Columns
      && (forall i :: 1 <= i < |s| ==> |s[i]| == 5 && s[i][0] == flat[i - 1].0)
      && (forall i, c :: 1 <= i < |s| && 1 <= c < 5 ==>
            s[i][c] == if c == SheetColumn(language) then flat[i - 1].1 else "")
      && (forall i, j :: 1 <= i < j < |s| ==> s[i][0] != s[j][0])
      && (forall key :: Get(flat, key).Some? <==> exists i :: 1 <= i < |s| && s[i][0] == key)
  {
    var s := SheetData(jsonData, language);
    var flat := Flatten(jsonData, "");
    FlattenDistinct(jsonData, "", |jsonData.members|);
    assert forall i :: 1 <= i < |s| ==> s[i] == DataRow(flat[i - 1].0, flat[i - 1].1, language);
    forall key
      ensures Get(flat, key).Some? <==> exists i :: 1 <= i < |s| && s[i][0] == key
    {
      GetFacts(flat, key);
      if Get(flat, key).Some? {
        var k :| 0 <= k < |flat| && flat[k].0 == key;
        assert s[k + 1][0] == key;
      }
    }
  }

  // ---------------------------------------------------------------------
  // Merging new rows into a sheet

  /** The column `mergeData` writes `language` into: the column a new sheet
      gives it for Korean, English, Chinese and Japanese, and the Japanese
      column 4 for any other language. */
  function MergeColumn(language: string): (c: nat)
    ensures 1 <= c <= 4
    ensures SheetColumn(language) != 0 ==> c == SheetColumn(language)
    ensures SheetColumn(language) == 0 ==> c == 4
  {
    if language == "ko" then 1 else if language == "en" then 2 else if language == "zh" then 3 else 4
  }

  /** Every row has at least the five cells of the layout. */
  predicate Wide(rows: seq<Row>) {
    forall i :: 0 <= i < |rows| ==> |rows[i]| >= 5
  }

  /** Every row after the header has at least five cells. */
  predicate WideBody(sheet: Sheet) {
    forall i :: 1 <= i < |sheet| ==> |sheet[i]| >= 5
  }

  /** The keys in column 0 of `rows`. */
  function Keys(rows: seq<Row>): set<string>
    requires Wide(rows)
  {
    set i | 0 <= i < |rows| :: rows[i][0]
  }

  /** The keys in column 0 of the rows after the header. */
  function BodyKeys(sheet: Sheet): set<string>
    requires WideBody(sheet)
  {
    set i | 1 <= i < |sheet| :: sheet[i][0]
  }

  /** `findIndex((row, index) => index > 0 && row[0] === key)`: the first row
      after the header with `key` in column 0, or -1. */
  function FindRow(sheet: Sheet, key: string): (i: int)
    requires WideBody(sheet)
    ensures i == -1 || (1 <= i < |sheet| && sheet[i][0] == key)
    ensures i == -1 <==> forall j :: 1 <= j < |sheet| ==> sheet[j][0] != key
    ensures forall j :: 1 <= j < i ==> sheet[j][0] != key
    decreases |sheet|
  {
    if |sheet| <= 1 then -1
    else
      var init := sheet[..|sheet| - 1];
      assert forall j :: 1 <= j < |init| ==> init[j] == sheet[j];
      var i := FindRow(init, key);
      if i != -1 then i
      else if sheet[|sheet| - 1][0] == key then |sheet| - 1
      else -1
  }

  /** One new row merged in: under a key found after the header only the
      language column is overwritten, any other key appends an empty row
      holding the key and the value. */
  function MergeRow(merged: Sheet, newRow: Row, column: nat): (r: Sheet)
    requires WideBody(merged) && |newRow| >= 5 && 1 <= column <= 4
    ensures WideBody(r) && |r| >= |merged|
  {
    var i := FindRow(merged, newRow[0]);
    if i > 0 then merged[i := merged[i][column := newRow[column]]]
    else merged + [Blank[0 := newRow[0]][column := newRow[column]]]
  }

  /** The rows merged in order. */
  function MergeRows(existing: Sheet, rows: seq<Row>, column: nat): (r: Sheet)
    requires WideBody(existing) && Wide(rows) && 1 <= column <= 4
    ensures WideBody(r)
    decreases |rows|
  {
    if rows == [] then existing
    else MergeRow(MergeRows(existing, rows[..|rows| - 1], column), rows[|rows| - 1], column)
  }

  /** `mergeData(existingData, newData, language)`: every row of `newData`
      after its header merged into a copy of `existingData`. */
  function Merged(existingData: Sheet, newData: Sheet, language: string): Sheet
    requires WideBody(existingData) && WideBody(newData)
  {
    if |newData| <= 1 then existingData
    else MergeRows(existingData, newData[1..], MergeColumn(language))
  }

  /** `mergeData` as the source runs it. */
  method MergeData(existingData: Sheet, newData: Sheet, language: string) returns (mergedData: Sheet)
    requires WideBody(existingData) && WideBody(newData)
    ensures mergedData == Merged(existingData, newData, language)
  {
    mergedData := existingData;
    var languageIndex := MergeColumn(language);
    if |newData| <= 1 {
      return;
    }
    var rows := newData[1..];
    for j := 0 to |rows|
      invariant mergedData == MergeRows(existingData, rows[..j], languageIndex)
    {
      var newRow := rows[j];
      var key := newRow[0];
      var value := newRow[languageIndex];
      var existingRowIndex := FindRow(mergedData, key);
      if existingRowIndex > 0 {
        mergedData := mergedData[existingRowIndex := mergedData[existingRowIndex][languageIndex := value]];
      } else {
        var newRowData := Blank;
        newRowData := newRowData[0 := key];
        newRowData := newRowData[languageIndex := value];
        mergedData := mergedData + [newRowData];
      }
      assert rows[..j + 1][..j] == rows[..j];
    }
    assert rows[..|rows|] == rows;
  }

  /** `FindRow` only looks at column 0: a sheet whose first rows carry the same
      keys, and whose further rows do not matter, finds the same row. */
  lemma FindRowAgrees(a: Sheet, b: Sheet, key: string)
    requires WideBody(a) && WideBody(b) && |a| <= |b|
    requires forall j :: 1 <= j < |a| ==> b[j][0] == a[j][0]
    requires FindRow(a, key) != -1 || forall j :: |a| <= j < |b| && j >= 1 ==> b[j][0] != key
    ensures FindRow(b, key) == FindRow(a, key)
  {
    var i := FindRow(a, key);
    if i != -1 {
      assert b[i][0] == key;
    }
  }

  /** The step of the merge as seen through one key: the row of the merged key
      keeps its place or is the appended one and holds the value; the row of
      any other key keeps its place and its cells. */
  lemma MergeRowFind(merged: Sheet, newRow: Row, column: nat, key: string)
    requires |merged| >= 1 && WideBody(merged) && |newRow| >= 5 && 1 <= column <= 4
    ensures var r := MergeRow(merged, newRow, column);
      var i := FindRow(merged, key);
      (key == newRow[0] ==>
         FindRow(r, key) == (if i >= 1 then i else |merged|) && r[FindRow(r, key)][column] == newRow[column])
      && (key != newRow[0] ==> FindRow(r, key) == i && (i >= 1 ==> r[i] == merged[i]))
  {
    var r := MergeRow(merged, newRow, column);
    var k := FindRow(merged, newRow[0]);
    assert forall j :: 1 <= j < |merged| ==> r[j][0] == merged[j][0];
    if k > 0 {
      FindRowAgrees(merged, r, key);
    } else {
      assert r[..|merged|] == merged;
      if key != newRow[0] {
        FindRowAgrees(merged, r, key);
      }
    }
  }

  lemma KeysSnoc(rows: seq<Row>, row: Row)
    requires Wide(rows) && |row| >= 5
    ensures Wide(rows + [row]) && Keys(rows + [row]) == Keys(rows) + {row[0]}
  {
    var xs := rows + [row];
    assert forall i :: 0 <= i < |rows| ==> xs[i] == rows[i];
    assert xs[|rows|] == row;
  }

  /** One step keeps the header and the keys of the rows already there, and
      adds a row exactly when the key is new after the header. */
  lemma MergeRowShape(merged: Sheet, newRow: Row, column: nat)
    requires |merged| >= 1 && WideBody(merged) && |newRow| >= 5 && 1 <= column <= 4
    ensures var r := MergeRow(merged, newRow, column);
      r[0] == merged[0]
      && BodyKeys(r) == BodyKeys(merged) + {newRow[0]}
      && |r| == (if newRow[0] in BodyKeys(merged) then |merged| else |merged| + 1)
      && (forall j :: 1 <= j < |merged| ==> |r[j]| == |merged[j]|)
      && (forall j, c :: 1 <= j < |merged| && 0 <= c < |merged[j]| && c != column ==> r[j][c] == merged[j][c])
  {
    var r := MergeRow(merged, newRow, column);
    var k := FindRow(merged, newRow[0]);
    if k > 0 {
      assert forall j :: 1 <= j < |r| ==> r[j][0] == merged[j][0];
      assert BodyKeys(r) == BodyKeys(merged);
    } else {
      assert forall j :: 1 <= j < |merged| ==> r[j] == merged[j];
      assert r[|merged|][0] == newRow[0];
      assert BodyKeys(r) == BodyKeys(merged) + {newRow[0]};
    }
  }

  /** Adding a key to `n` grows what is new against `e` by one exactly when
      the key is in neither. */
  lemma NewCountStep(e: set<string>, n: set<string>, k: string)
    ensures |(n + {k}) - e| == if k in e + n then |n - e| else |n - e| + 1
  {
    if k in e + n {
      assert (n + {k}) - e == n - e;
    } else {
      assert (n + {k}) - e == (n - e) + {k};
    }
  }

  /** The step of `MergeRowsKeys`: merging one more row into `m`, the merge
      of `init`. */
  lemma MergeKeysStep(existing: Sheet, m: Sheet, init: seq<Row>, row: Row, column: nat)
    requires |existing| >= 1 && WideBody(existing) && WideBody(m) && Wide(init) && |row| >= 5 && 1 <= column <= 4
    requires |m| == |existing| + |Keys(init) - BodyKeys(existing)|
    requires m[0] == existing[0] && BodyKeys(m) == BodyKeys(existing) + Keys(init)
    ensures var r := MergeRow(m, row, column);
      Wide(init + [row])
      && r[0] == existing[0]
      && BodyKeys(r) == BodyKeys(existing) + Keys(init + [row])
      && |r| == |existing| + |Keys(init + [row]) - BodyKeys(existing)|
  {
    var e, n, k := BodyKeys(existing), Keys(init), row[0];
    KeysSnoc(init, row);
    MergeRowShape(m, row, column);
    NewCountStep(e, n, k);
    var r := MergeRow(m, row, column);
    assert BodyKeys(r) == (e + n) + {k};
    assert |r| == |m| + (if k in e + n then 0 else 1);
  }

  /** With a header present the merge keeps it, keeps the keys already there
      and adds the new ones, and grows by the number of distinct new keys not
      already after the header. */
  lemma {:induction false} MergeRowsKeys(existing: Sheet, rows: seq<Row>, column: nat)
    requires |existing| >= 1 && WideBody(existing) && Wide(rows) && 1 <= column <= 4
    ensures var r := MergeRows(existing, rows, column);
      r[0] == existing[0]
      && BodyKeys(r) == BodyKeys(existing) + Keys(rows)
      && |r| == |existing| + |Keys(rows) - BodyKeys(existing)|
    decreases |rows|
  {
    if rows == [] {
      assert Keys(rows) == {};
    } else {
      var init := rows[..|rows| - 1];
      var row := rows[|rows| - 1];
      assert rows == init + [row];
      MergeRowsKeys(existing, init, column);
      KeysSnoc(init, row);
      MergeKeysStep(existing, MergeRows(existing, init, column), init, row, column);
    }
  }

  /** The merge changes nothing in the rows already after the header but the
      language column. */
  lemma {:induction false} MergeRowsKeepsCells(existing: Sheet, rows: seq<Row>, column: nat)
    requires |existing| >= 1 && WideBody(existing) && Wide(rows) && 1 <= column <= 4
    ensures var r := MergeRows(existing, rows, column);
      |r| >= |existing|
      && (forall j :: 1 <= j < |existing| ==> |r[j]| == |existing[j]|)
      && (forall j, c :: 1 <= j < |existing| && 0 <= c < |existing[j]| && c != column ==> r[j][c] == existing[j][c])
    decreases |rows|
  {
    if rows != [] {
      var init := rows[..|rows| - 1];
      MergeRowsKeepsCells(existing, init, column);
      MergeRowsKeys(existing, init, column);
      MergeRowShape(MergeRows(existing, init, column), rows[|rows| - 1], column);
    }
  }

  /** The language cell of the last of `rows` with `key`. */
  function LastCell(rows: seq<Row>, key: string, column: nat): Option<string>
    requires Wide(rows) && column < 5
    decreases |rows|
  {
    if rows == [] then None
    else if rows[|rows| - 1][0] == key then Some(rows[|rows| - 1][column])
    else LastCell(rows[..|rows| - 1], key, column)
  }

  /** After the merge, the row found under a merged key holds the value of the
      last new row with that key; the row found under any other key is the
      existing one, in its place. */
  lemma {:induction false} MergeRowsLastWins(existing: Sheet, rows: seq<Row>, column: nat, key: string)
    requires |existing| >= 1 && WideBody(existing) && Wide(rows) && 1 <= column <= 4
    ensures var r := MergeRows(existing, rows, column);
      var i := FindRow(r, key);
      (key in Keys(rows) ==> i >= 1 && LastCell(rows, key, column) == Some(r[i][column]))
      && (key !in Keys(rows) ==> i == FindRow(existing, key) && (i >= 1 ==> r[i] == existing[i]))
    decreases |rows|
  {
    if rows == [] {
      assert Keys(rows) == {};
    } else {
      var init := rows[..|rows| - 1];
      var row := rows[|rows| - 1];
      assert rows == init + [row];
      MergeRowsLastWins(existing, init, column, key);
      KeysSnoc(init, row);
      MergeRowsKeys(existing, init, column);
      MergeRowFind(MergeRows(existing, init, column), row, column, key);
    }
  }

  // ---------------------------------------------------------------------
  // Several locale files combined

  /** A selected locale file: its name and its content, `None` when reading
      or parsing it failed. */
  datatype LocaleFile = LocaleFile(fileName: string, content: Option<Json>)

  /** Every content that was read is a JSON object. */
  predicate ObjectFiles(files: seq<LocaleFile>) {
    forall i :: 0 <= i < |files| ==> files[i].content.Some? ==> files[i].content.value.Obj?
  }

  /** The end of the run of word characters starting at `i`. */
  function WordEnd(s: string, i: nat): (e: nat)
    requires i <= |s|
    ensures i <= e <= |s| && (e == |s| || !IsWordChar(s[e]))
    ensures forall k :: i <= k < e ==> IsWordChar(s[k])
    decreases |s| - i
  {
    if i < |s| && IsWordChar(s[i]) then WordEnd(s, i + 1) else i
  }

  /** The group of `/locales\.(\w+)\.json/` at its leftmost match from `i`.
      A `.` is no word character, so `\w+` can only end where the run of word
      characters ends. */
  function LanguageMatch(s: string, i: nat): (r: Option<string>)
    requires i <= |s|
    ensures r.Some? ==> r.value != [] && forall k :: 0 <= k < |r.value| ==> IsWordChar(r.value[k])
    decreases |s| - i
  {
    if i == |s| then None
    else if IsAt(s, i, "locales.") then
      var e := WordEnd(s, i + 8);
      if e > i + 8 && IsAt(s, e, ".json") then Some(s[i + 8..e]) else LanguageMatch(s, i + 1)
    else LanguageMatch(s, i + 1)
  }

  /** The language of a locale file: the group of the match, `ko` without one. */
  function LanguageOf(fileName: string): string {
    match LanguageMatch(fileName, 0)
    case Some(language) => language
    case None => "ko"
  }

  lemma WordEndIs(s: string, i: nat, e: nat)
    requires i <= e <= |s| && (e == |s| || !IsWordChar(s[e]))
    requires forall k :: i <= k < e ==> IsWordChar(s[k])
    ensures WordEnd(s, i) == e
    decreases e - i
  {
    if i < e {
      WordEndIs(s, i + 1, e);
    }
  }

  /** The file `locales.<lang>.json` has the language `lang`. */
  lemma LanguageOfLocaleFile(lang: string)
    requires lang != [] && forall k :: 0 <= k < |lang| ==> IsWordChar(lang[k])
    ensures LanguageOf("locales." + lang + ".json") == lang
  {
    var s := "locales." + lang + ".json";
    assert s[..8] == "locales.";
    assert s[8 + |lang|] == '.';
    WordEndIs(s, 8, 8 + |lang|);
    assert s[8 + |lang|..8 + |lang| + 5] == ".json";
    assert s[8..8 + |lang|] == lang;
  }

  /** A name without `locales.` in it counts as Korean. */
  lemma {:induction false} LanguageOfDefault(s: string, i: nat)
    requires i <= |s| && forall j :: i <= j <= |s| ==> !IsAt(s, j, "locales.")
    ensures LanguageMatch(s, i).None?
    ensures i == 0 ==> LanguageOf(s) == "ko"
    decreases |s| - i
  {
    if i < |s| {
      LanguageOfDefault(s, i + 1);
    }
  }

  /** The languages of the selected files, whether or not they were read. */
  function Languages(files: seq<LocaleFile>): set<string>
    decreases |files|
  {
    if files == [] then {}
    else Languages(files[..|files| - 1]) + {LanguageOf(files[|files| - 1].fileName)}
  }

  lemma {:induction false} LanguagesMembers(files: seq<LocaleFile>)
    ensures forall l :: l in Languages(files) <==> exists i :: 0 <= i < |files| && LanguageOf(files[i].fileName) == l
    decreases |files|
  {
    if files != [] {
      var init := files[..|files| - 1];
      LanguagesMembers(init);
      assert forall i :: 0 <= i < |init| ==> init[i] == files[i];
    }
  }

  /** The order of the language columns. */
  const LanguageOrder: seq<string> := ["ko", "en", "zh", "ja"]

  function Among(languages: set<string>): string -> bool {
    l => l in languages
  }

  /** The languages of the files that have a column, in column order. */
  function PresentLanguages(files: seq<LocaleFile>): seq<string> {
    Keep(LanguageOrder, Among(Languages(files)))
  }

  /** The header label of a language with a column. */
  function HeaderLabel(language: string): Option<string> {
    if language == "ko" then Some("Korean")
    else if language == "en" then Some("English")
    else if language == "zh" then Some("Chinese")
    else if language == "ja" then Some("Japanese")
    else None
  }

  /** `Key`, then a label per language that has one. */
  function HeaderRow(languages: seq<string>): Row
    decreases |languages|
  {
    if languages == [] then ["Key"]
    else
      var init := HeaderRow(languages[..|languages| - 1]);
      match HeaderLabel(languages[|languages| - 1])
      case Some(name) => init + [name]
      case None => init
  }

  /** With languages that all have a column the header has a label per
      language, in their order. */
  lemma {:induction false} HeaderLabels(languages: seq<string>)
    requires forall j :: 0 <= j < |languages| ==> languages[j] in LanguageOrder
    ensures |HeaderRow(languages)| == |languages| + 1 && HeaderRow(languages)[0] == "Key"
    ensures forall j :: 0 <= j < |languages| ==>
      HeaderLabel(languages[j]).Some? && HeaderRow(languages)[j + 1] == HeaderLabel(languages[j]).value
    decreases |languages|
  {
    if languages != [] {
      var init := languages[..|languages| - 1];
      HeaderLabels(init);
      assert forall j :: 0 <= j < |init| ==> init[j] == languages[j];
    }
  }

  /** The builder of the header row. */
  method BuildHeaders(languages: seq<string>) returns (headers: Row)
    ensures headers == HeaderRow(languages)
  {
    headers := ["Key"];
    for i := 0 to |languages|
      invariant headers == HeaderRow(languages[..i])
    {
      var lang := languages[i];
      if lang == "ko" {
        headers := headers + ["Korean"];
      } else if lang == "en" {
        headers := headers + ["English"];
      } else if lang == "zh" {
        headers := headers + ["Chinese"];
      } else if lang == "ja" {
        headers := headers + ["Japanese"];
      }
      assert languages[..i + 1][..i] == languages[..i];
    }
    assert languages[..|languages|] == languages;
  }

  /** What the per-file pass gathers: the keys in first-seen order and, per
      key, the value of each language seen. */
  datatype Gathered = Gathered(keys: seq<string>, data: map<string, map<string, string>>)

  /** The entries of one read file added, in order. */
  function AddEntries(acc: Gathered, language: string, flat: FlatMap): Gathered
    decreases |flat|
  {
    if flat == [] then acc
    else
      var g := AddEntries(acc, language, flat[..|flat| - 1]);
      var (key, value) := flat[|flat| - 1];
      var values := if key in g.data then g.data[key] else map[];
      Gathered(if key in g.keys then g.keys else g.keys + [key], g.data[key := values[language := value]])
  }

  /** The flattened content of a file that was read. */
  function Entries(file: LocaleFile): FlatMap
    requires file.content.Some? ==> file.content.value.Obj?
  {
    match file.content
    case Some(json) => Flatten(json, "")
    case None => []
  }

  /** The per-file pass of `combineMultipleLocales`. */
  function GatherFiles(files: seq<LocaleFile>): Gathered
    requires ObjectFiles(files)
    decreases |files|
  {
    if files == [] then Gathered([], map[])
    else
      var init := files[..|files| - 1];
      assert forall i :: 0 <= i < |init| ==> init[i] == files[i];
      var file := files[|files| - 1];
      if file.content.None? then GatherFiles(init)
      else AddEntries(GatherFiles(init), LanguageOf(file.fileName), Entries(file))
  }

  /** The cell of a language: its value when there is a non-empty one. */
  function Cell(values: map<string, string>, language: string): string {
    if language in values && values[language] != "" then values[language] else ""
  }

  /** The row of one key: the key, then a cell per language. */
  function CombinedRow(key: string, values: map<string, string>, languages: seq<string>): (row: Row)
    ensures |row| == |languages| + 1 && row[0] == key
    ensures forall j :: 0 <= j < |languages| ==> row[j + 1] == Cell(values, languages[j])
  {
    [key] + seq(|languages|, j requires 0 <= j < |languages| => Cell(values, languages[j]))
  }

  function RowOf(data: map<string, map<string, string>>, languages: seq<string>): string -> Row {
    key => CombinedRow(key, if key in data then data[key] else map[], languages)
  }

  /** `combineMultipleLocales` after the files are read. */
  function Combined(files: seq<LocaleFile>): Sheet
    requires ObjectFiles(files)
  {
    var g := GatherFiles(files);
    var languages := PresentLanguages(files);
    [HeaderRow(languages)] + Map(g.keys, RowOf(g.data, languages))
  }

  /** The pass over the entries of one read file. */
  method AddFileEntries(allKeys: seq<string>, languageData: map<string, map<string, string>>,
                        language: string, flattenedData: FlatMap)
    returns (keys: seq<string>, data: map<string, map<string, string>>)
    ensures Gathered(keys, data) == AddEntries(Gathered(allKeys, languageData), language, flattenedData)
  {
    keys, data := allKeys, languageData;
    for i := 0 to |flattenedData|
      invariant Gathered(keys, data) == AddEntries(Gathered(allKeys, languageData), language, flattenedData[..i])
    {
      var (key, value) := flattenedData[i];
      if key !in keys {
        keys := keys + [key];
      }
      if key !in data {
        data := data[key := map[]];
      }
      data := data[key := data[key][language := value]];
      assert flattenedData[..i + 1][..i] == flattenedData[..i];
    }
    assert flattenedData[..|flattenedData|] == flattenedData;
  }

  /** The builder of the row of one key, `width` cells wide. */
  method BuildRow(key: string, values: map<string, string>, languages: seq<string>, width: nat) returns (row: Row)
    requires width == |languages| + 1
    ensures row == CombinedRow(key, values, languages)
  {
    row := seq(width, _ => "");
    for index := 0 to |languages|
      invariant |row| == width && row[0] == ""
      invariant forall j :: 0 <= j < index ==> row[j + 1] == Cell(values, languages[j])
      invariant forall k :: index < k < width ==> row[k] == ""
    {
      var lang := languages[index];
      if lang in values && values[lang] != "" {
        row := row[index + 1 := values[lang]];
      }
    }
    row := row[0 := key];
    var expected := CombinedRow(key, values, languages);
    assert forall j :: 1 <= j < |row| ==> row[j] == expected[j] by {
      forall j | 1 <= j < |row| ensures row[j] == expected[j] {
        assert row[(j - 1) + 1] == expected[(j - 1) + 1];
      }
    }
  }

  /** Keys listed once, and listed exactly when they have language data. */
  ghost predicate Consistent(g: Gathered) {
    (forall i, j :: 0 <= i < j < |g.keys| ==> g.keys[i] != g.keys[j])
    && (forall k :: k in g.keys <==> k in g.data)
  }

  lemma {:induction false} AddEntriesConsistent(acc: Gathered, language: string, flat: FlatMap)
    requires Consistent(acc)
    ensures Consistent(AddEntries(acc, language, flat))
    decreases |flat|
  {
    if flat != [] {
      AddEntriesConsistent(acc, language, flat[..|flat| - 1]);
    }
  }

  lemma {:induction false} GatherConsistent(files: seq<LocaleFile>)
    requires ObjectFiles(files)
    ensures Consistent(GatherFiles(files))
    decreases |files|
  {
    if files != [] {
      var init := files[..|files| - 1];
      assert forall i :: 0 <= i < |init| ==> init[i] == files[i];
      GatherConsistent(init);
      var file := files[|files| - 1];
      if file.content.Some? {
        AddEntriesConsistent(GatherFiles(init), LanguageOf(file.fileName), Entries(file));
      }
    }
  }

  /** The pass of `combineMultipleLocales` over the files: the language of
      every file is available, the entries of every read one are gathered. */
  method GatherPass(files: seq<LocaleFile>)
    returns (allKeys: seq<string>, languageData: map<string, map<string, string>>, availableLanguages: set<string>)
    requires ObjectFiles(files)
    ensures Gathered(allKeys, languageData) == GatherFiles(files)
    ensures availableLanguages == Languages(files)
  {
    allKeys, languageData, availableLanguages := [], map[], {};
    for i := 0 to |files|
      invariant Gathered(allKeys, languageData) == GatherFiles(files[..i])
      invariant availableLanguages == Languages(files[..i])
    {
      var file := files[i];
      var language := LanguageOf(file.fileName);
      availableLanguages := availableLanguages + {language};
      if file.content.Some? {
        var flattenedData := FlattenJson(file.content.value, "");
        allKeys, languageData := AddFileEntries(allKeys, languageData, language, flattenedData);
      }
      assert files[..i + 1][..i] == files[..i];
    }
    assert files[..|files|] == files;
  }

  /** The rows of `allKeys` after the header. */
  method BuildRows(headers: Row, allKeys: seq<string>, languageData: map<string, map<string, string>>, languages: seq<string>)
    returns (combinedData: Sheet)
    requires |headers| == |languages| + 1
    requires forall k :: k in allKeys ==> k in languageData
    ensures combinedData == [headers] + Map(allKeys, RowOf(languageData, languages))
  {
    var rowOf := RowOf(languageData, languages);
    combinedData := [headers];
    for i := 0 to |allKeys|
      invariant combinedData == [headers] + Map(allKeys[..i], rowOf)
    {
      var key := allKeys[i];
      var row := BuildRow(key, languageData[key], languages, |headers|);
      MapSnoc(allKeys[..i], key, rowOf);
      assert allKeys[..i + 1] == allKeys[..i] + [key];
      combinedData := combinedData + [row];
    }
    assert allKeys[..|allKeys|] == allKeys;
  }

  /** `combineMultipleLocales` as the source runs it once the files are read:
      the pass over the files, the header of the present languages, then a
      row per key. */
  method CombineMultipleLocales(files: seq<LocaleFile>) returns (combinedData: Sheet)
    requires ObjectFiles(files)
    ensures combinedData == Combined(files)
  {
    var allKeys, languageData, availableLanguages := GatherPass(files);
    GatherConsistent(files);
    var orderedAvailableLanguages := Keep(LanguageOrder, Among(availableLanguages));
    var headers := BuildHeaders(orderedAvailableLanguages);
    KeepMembers(LanguageOrder, Among(availableLanguages));
    HeaderLabels(orderedAvailableLanguages);
    combinedData := BuildRows(headers, allKeys, languageData, orderedAvailableLanguages);
  }

  // ---------------------------------------------------------------------
  // What the combined sheet holds

  /** `xs` added to `acc` the way a `Set` keeps them: a key not yet present is
      appended, a key already present stays in its place. */
  function Extend(acc: seq<string>, xs: seq<string>): seq<string>
    decreases |xs|
  {
    if xs == [] then acc
    else
      var r := Extend(acc, xs[..|xs| - 1]);
      if xs[|xs| - 1] in r then r else r + [xs[|xs| - 1]]
  }

  lemma {:induction false} ExtendAppend(acc: seq<string>, xs: seq<string>, ys: seq<string>)
    ensures Extend(acc, xs + ys) == Extend(Extend(acc, xs), ys)
    decreases |ys|
  {
    if ys == [] {
      assert xs + ys == xs;
    } else {
      var init := ys[..|ys| - 1];
      ExtendAppend(acc, xs, init);
      assert (xs + ys)[..|xs + ys| - 1] == xs + init;
      assert (xs + ys)[|xs + ys| - 1] == ys[|ys| - 1];
    }
  }

  /** The index of the first occurrence of `x`. */
  function FirstIndex(xs: seq<string>, x: string): (i: nat)
    requires x in xs
    ensures i < |xs| && xs[i] == x && forall k :: 0 <= k < i ==> xs[k] != x
    decreases |xs|
  {
    var init := xs[..|xs| - 1];
    if x in init then FirstIndex(init, x) else |xs| - 1
  }

  /** Starting from nothing, every key of `xs` comes exactly once, and the
      keys are ordered by their first occurrence in `xs`. */
  lemma {:induction false} FirstSeen(xs: seq<string>)
    ensures var r := Extend([], xs);
      (forall i, j :: 0 <= i < j < |r| ==> r[i] != r[j])
      && (forall x :: x in r <==> x in xs)
      && (forall i, j :: 0 <= i < j < |r| ==> FirstIndex(xs, r[i]) < FirstIndex(xs, r[j]))
    decreases |xs|
  {
    if xs != [] {
      var init := xs[..|xs| - 1];
      var x := xs[|xs| - 1];
      assert xs == init + [x];
      FirstSeen(init);
      var r0 := Extend([], init);
      assert forall y :: y in init ==> FirstIndex(xs, y) == FirstIndex(init, y);
      if x !in r0 {
        assert FirstIndex(xs, x) == |xs| - 1;
      }
    }
  }

  /** The keys of a flat map, in order. */
  function EntryKeys(flat: FlatMap): (keys: seq<string>)
    ensures |keys| == |flat| && forall i :: 0 <= i < |flat| ==> keys[i] == flat[i].0
  {
    Map(flat, (e: (string, string)) => e.0)
  }

  lemma {:induction false} AddEntriesKeys(acc: Gathered, language: string, flat: FlatMap)
    ensures AddEntries(acc, language, flat).keys == Extend(acc.keys, EntryKeys(flat))
    decreases |flat|
  {
    if flat != [] {
      var init := flat[..|flat| - 1];
      AddEntriesKeys(acc, language, init);
      assert EntryKeys(flat)[..|flat| - 1] == EntryKeys(init);
    }
  }

  /** The keys of the read files, file after file. */
  function FileKeys(files: seq<LocaleFile>): seq<string>
    requires ObjectFiles(files)
    decreases |files|
  {
    if files == [] then []
    else
      var init := files[..|files| - 1];
      assert forall i :: 0 <= i < |init| ==> init[i] == files[i];
      FileKeys(init) + EntryKeys(Entries(files[|files| - 1]))
  }

  /** The gathered keys are the keys of the read files in first-seen order. */
  lemma {:induction false} GatherKeys(files: seq<LocaleFile>)
    requires ObjectFiles(files)
    ensures GatherFiles(files).keys == Extend([], FileKeys(files))
    decreases |files|
  {
    if files != [] {
      var init := files[..|files| - 1];
      assert forall i :: 0 <= i < |init| ==> init[i] == files[i];
      var file := files[|files| - 1];
      GatherKeys(init);
      ExtendAppend([], FileKeys(init), EntryKeys(Entries(file)));
      if file.content.Some? {
        AddEntriesKeys(GatherFiles(init), LanguageOf(file.fileName), Entries(file));
      } else {
        assert FileKeys(init) + EntryKeys(Entries(file)) == FileKeys(init);
      }
    }
  }

  /** A key is among those of the read files exactly when one of them has it. */
  lemma {:induction false} FileKeysMembers(files: seq<LocaleFile>, key: string)
    requires ObjectFiles(files)
    ensures key in FileKeys(files) <==> exists i :: 0 <= i < |files| && Get(Entries(files[i]), key).Some?
    decreases |files|
  {
    if files != [] {
      var init := files[..|files| - 1];
      assert forall i :: 0 <= i < |init| ==> init[i] == files[i];
      var last := Entries(files[|files| - 1]);
      FileKeysMembers(init, key);
      GetFacts(last, key);
      if Get(last, key).Some? {
        var k :| 0 <= k < |last| && last[k].0 == key;
        assert EntryKeys(last)[k] == key;
      }
    }
  }

  /** The value gathered for a key and a language, if any. */
  function Lookup(data: map<string, map<string, string>>, key: string, language: string): Option<string> {
    if key in data && language in data[key] then Some(data[key][language]) else None
  }

  lemma {:induction false} AddEntriesLookup(acc: Gathered, language: string, flat: FlatMap, key: string, l: string)
    requires DistinctKeys(flat)
    ensures Lookup(AddEntries(acc, language, flat).data, key, l)
         == if l == language && Get(flat, key).Some? then Get(flat, key) else Lookup(acc.data, key, l)
    decreases |flat|
  {
    if flat != [] {
      var init := flat[..|flat| - 1];
      var last := flat[|flat| - 1];
      assert flat == init + [last];
      AddEntriesLookup(acc, language, init, key, l);
      GetSnoc(init, last.0, last.1, key);
      if key == last.0 {
        GetFacts(init, key);
      }
    }
  }

  /** The value of the last file of `language` that has `key`: later files
      overwrite earlier ones. */
  function LastValue(files: seq<LocaleFile>, key: string, language: string): Option<string>
    requires ObjectFiles(files)
    decreases |files|
  {
    if files == [] then None
    else
      var init := files[..|files| - 1];
      assert forall i :: 0 <= i < |init| ==> init[i] == files[i];
      var file := files[|files| - 1];
      var here := if LanguageOf(file.fileName) == language then Get(Entries(file), key) else None;
      if here.Some? then here else LastValue(init, key, language)
  }

  lemma {:induction false} GatherLookup(files: seq<LocaleFile>, key: string, language: string)
    requires ObjectFiles(files)
    ensures Lookup(GatherFiles(files).data, key, language) == LastValue(files, key, language)
    decreases |files|
  {
    if files != [] {
      var init := files[..|files| - 1];
      assert forall i :: 0 <= i < |init| ==> init[i] == files[i];
      var file := files[|files| - 1];
      GatherLookup(init, key, language);
      if file.content.Some? {
        FlattenDistinct(file.content.value, "", |file.content.value.members|);
        AddEntriesLookup(GatherFiles(init), LanguageOf(file.fileName), Entries(file), key, language);
      }
    }
  }

  /** The header is `Key` and then the label of every language with a column
      that some selected file has, in column order; other languages are left
      out. */
  lemma CombinedHeader(files: seq<LocaleFile>)
    requires ObjectFiles(files)
    ensures Combined(files)[0] == HeaderRow(PresentLanguages(files))
    ensures var present := PresentLanguages(files);
      var h := HeaderRow(present);
      |h| == |present| + 1 && h[0] == "Key"
      && (forall j :: 0 <= j < |present| ==>
            HeaderLabel(present[j]).Some? && h[j + 1] == HeaderLabel(present[j]).value)
      && (forall l :: l in present <==>
            l in LanguageOrder && exists i :: 0 <= i < |files| && LanguageOf(files[i].fileName) == l)
      && Subsequence(present, LanguageOrder)
  {
    KeepMembers(LanguageOrder, Among(Languages(files)));
    KeepIsSubsequence(LanguageOrder, Among(Languages(files)));
    LanguagesMembers(files);
    HeaderLabels(PresentLanguages(files));
  }

  lemma CellIsLookup(data: map<string, map<string, string>>, key: string, language: string)
    requires key in data
    ensures Cell(data[key], language) == Lookup(data, key, language).GetOr("")
  {
  }

  /** The sheet of gathered keys and values: rows as wide as the header, the
      key in column 0, and in the column of a language the value looked up
      for the key, empty when there is none. */
  lemma TableCells(g: Gathered, present: seq<string>)
    requires Consistent(g)
    requires forall j :: 0 <= j < |present| ==> present[j] in LanguageOrder
    ensures var c := [HeaderRow(present)] + Map(g.keys, RowOf(g.data, present));
      |c| == |g.keys| + 1 && |c[0]| == |present| + 1
      && (forall i :: 1 <= i < |c| ==> |c[i]| == |present| + 1 && c[i][0] == g.keys[i - 1])
      && (forall i, j :: 1 <= i < |c| && 1 <= j <= |present| ==>
            c[i][j] == Lookup(g.data, g.keys[i - 1], present[j - 1]).GetOr(""))
  {
    HeaderLabels(present);
    var rows := Map(g.keys, RowOf(g.data, present));
    var c := [HeaderRow(present)] + rows;
    forall i | 1 <= i < |c|
      ensures c[i] == CombinedRow(g.keys[i - 1], g.data[g.keys[i - 1]], present)
    {
      assert c[i] == rows[i - 1];
    }
    forall i, j | 1 <= i < |c| && 1 <= j <= |present|
      ensures c[i][j] == Lookup(g.data, g.keys[i - 1], present[j - 1]).GetOr("")
    {
      var k := g.keys[i - 1];
      assert c[i][(j - 1) + 1] == Cell(g.data[k], present[j - 1]);
      CellIsLookup(g.data, k, present[j - 1]);
    }
  }

  /** After the header comes one row per key of the read files, in
      first-seen order and no key twice; a row is as wide as the header, has
      its key in column 0 and in the column of each language the value of
      the last file of that language that has the key, empty when none has. */
  lemma CombinedRows(files: seq<LocaleFile>)
    requires ObjectFiles(files)
    ensures var c := Combined(files);
      var keys := GatherFiles(files).keys;
      var present := PresentLanguages(files);
      |c| == |keys| + 1 && |c[0]| == |present| + 1
      && keys == Extend([], FileKeys(files))
      && (forall i :: 1 <= i < |c| ==> |c[i]| == |present| + 1 && c[i][0] == keys[i - 1])
      && (forall i, j :: 1 <= i < |c| && 1 <= j <= |present| ==>
            c[i][j] == LastValue(files, keys[i - 1], present[j - 1]).GetOr(""))
  {
    var g := GatherFiles(files);
    var present := PresentLanguages(files);
    GatherKeys(files);
    GatherConsistent(files);
    KeepMembers(LanguageOrder, Among(Languages(files)));
    forall k, l ensures Lookup(g.data, k, l) == LastValue(files, k, l) {
      GatherLookup(files, k, l);
    }
    TableCells(g, present);
  }
}
