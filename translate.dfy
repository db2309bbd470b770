/** The key translation helpers: the German/English lookup tables, the
    recursive renaming of every key of a problem instance or solution, and
    the word-by-word translation of validation messages.

    The four tables that are globals of the script are bundled in `Tables`
    and passed explicitly. */
module Translate {
  import opened Wrappers
  import opened Json
  import opened PyStr

  type Table = map<string, string>

  datatype Tables = Tables(
    ger2eng: Table,
    eng2ger: Table,
    ger2engMessage: Table,
    eng2gerMessage: Table)

  /** `table[key]`, falling back to the key itself when it is unknown. */
  function Lookup(table: Table, key: string): string {
    if key in table then table[key] else key
  }

  function TranslateToEng(tables: Tables, key: string): (r: string)
    ensures key in tables.ger2eng ==> r == tables.ger2eng[key]
    ensures key !in tables.ger2eng ==> r == key
  {
    Lookup(tables.ger2eng, key)
  }

  function TranslateToGer(tables: Tables, key: string): (r: string)
    ensures key in tables.eng2ger ==> r == tables.eng2ger[key]
    ensures key !in tables.eng2ger ==> r == key
  {
    Lookup(tables.eng2ger, key)
  }

  function TranslateMessageToEng(tables: Tables, word: string): (r: string)
    ensures word in tables.ger2engMessage ==> r == tables.ger2engMessage[word]
    ensures word !in tables.ger2engMessage ==> r == word
  {
    Lookup(tables.ger2engMessage, word)
  }

  // ---------------------------------------------------------------------
  // Building a pair of tables from the rows of a two-column file
  // ---------------------------------------------------------------------

  datatype TableError =
    | EmptyFile          // there is no header row to skip
    | BadRow(row: nat)   // this row does not have exactly two fields

  predicate GoodRow(row: seq<string>) {
    |row| == 2
  }

  /** Both dicts after the data rows `rows[1..n]`: the first of any bad rows
      among them is an error. */
  function FillTables(rows: seq<seq<string>>, n: nat): Result<(Table, Table), TableError>
    requires 1 <= n <= |rows|
  {
    if n == 1 then Success((map[], map[]))
    else
      var tables :- FillTables(rows, n - 1);
      var row := rows[n - 1];
      if !GoodRow(row) then Failure(BadRow(n - 1))
      else Success((tables.0[row[0] := row[1]], tables.1[row[1] := row[0]]))
  }

  /** German-to-English and English-to-German, from all rows but the header. */
  function TableOf(rows: seq<seq<string>>): Result<(Table, Table), TableError> {
    if |rows| == 0 then Failure(EmptyFile) else FillTables(rows, |rows|)
  }

  method SetupTranslationTable(rows: seq<seq<string>>) returns (r: Result<(Table, Table), TableError>)
    ensures r == TableOf(rows)
  {
    if |rows| == 0 {
      return Failure(EmptyFile);
    }
    var ger2eng: Table := map[];
    var eng2ger: Table := map[];
    for n := 1 to |rows|
      invariant FillTables(rows, n) == Success((ger2eng, eng2ger))
    {
      var row := rows[n];
      if |row| != 2 {
        FillTablesFails(rows, n + 1);
        return Failure(BadRow(n));
      }
      var ger, eng := row[0], row[1];
      ger2eng := ger2eng[ger := eng];
      eng2ger := eng2ger[eng := ger];
    }
    return Success((ger2eng, eng2ger));
  }

  /** Once a prefix of the rows fails, the whole file fails the same way. */
  lemma {:induction false} FillTablesFails(rows: seq<seq<string>>, n: nat)
    requires 1 <= n <= |rows| && FillTables(rows, n).Failure?
    ensures FillTables(rows, |rows|) == FillTables(rows, n)
    decreases |rows| - n
  {
    if n < |rows| {
      FillTablesFails(rows, n + 1);
    }
  }

  /** The data rows `rows[1..n]` are all well formed. */
  predicate GoodRows(rows: seq<seq<string>>, n: nat)
    requires n <= |rows|
  {
    forall j :: 1 <= j < n ==> GoodRow(rows[j])
  }

  /** Loading fails exactly on an empty file or at the first bad row. */
  lemma {:induction false} FillTablesOutcome(rows: seq<seq<string>>, n: nat)
    requires 1 <= n <= |rows|
    ensures FillTables(rows, n).Success? <==> GoodRows(rows, n)
    ensures FillTables(rows, n).Failure? ==>
      exists j :: 1 <= j < n && FillTables(rows, n).error == BadRow(j) && !GoodRow(rows[j]) && GoodRows(rows, j)
  {
    if n > 1 {
      FillTablesOutcome(rows, n - 1);
      if FillTables(rows, n - 1).Success? && !GoodRow(rows[n - 1]) {
        assert FillTables(rows, n).error == BadRow(n - 1);
      }
    }
  }

  lemma TableOutcome(rows: seq<seq<string>>)
    ensures TableOf(rows).Success? <==> |rows| > 0 && GoodRows(rows, |rows|)
    ensures |rows| == 0 ==> TableOf(rows) == Failure(EmptyFile)
    ensures |rows| > 0 && TableOf(rows).Failure? ==>
      exists j :: 1 <= j < |rows| && TableOf(rows).error == BadRow(j) && !GoodRow(rows[j]) && GoodRows(rows, j)
  {
    if |rows| > 0 {
      FillTablesOutcome(rows, |rows|);
    }
  }

  /** Row `j` is the last data row among `rows[1..n]` with German word `g`. */
  predicate LastGer(rows: seq<seq<string>>, n: nat, j: nat, g: string)
    requires n <= |rows| && GoodRows(rows, n)
  {
    1 <= j < n && rows[j][0] == g && forall j' :: j < j' < n ==> rows[j'][0] != g
  }

  predicate LastEng(rows: seq<seq<string>>, n: nat, j: nat, e: string)
    requires n <= |rows| && GoodRows(rows, n)
  {
    1 <= j < n && rows[j][1] == e && forall j' :: j < j' < n ==> rows[j'][1] != e
  }

  /** Every word of a data row is a key of its table, and nothing else is. */
  lemma {:induction false} FillTablesKeys(rows: seq<seq<string>>, n: nat)
    requires 1 <= n <= |rows| && GoodRows(rows, n)
    ensures FillTables(rows, n).Success?
    ensures FillTables(rows, n).value.0.Keys == (set j | 1 <= j < n :: rows[j][0])
    ensures FillTables(rows, n).value.1.Keys == (set j | 1 <= j < n :: rows[j][1])
  {
    FillTablesOutcome(rows, n);
    if n > 1 {
      FillTablesKeys(rows, n - 1);
      FillTablesOutcome(rows, n - 1);
      var t := FillTables(rows, n - 1).value;
      var row := rows[n - 1];
      assert FillTables(rows, n).value == (t.0[row[0] := row[1]], t.1[row[1] := row[0]]);
      assert (set j | 1 <= j < n :: rows[j][0]) == (set j | 1 <= j < n - 1 :: rows[j][0]) + {row[0]};
      assert (set j | 1 <= j < n :: rows[j][1]) == (set j | 1 <= j < n - 1 :: rows[j][1]) + {row[1]};
    }
  }

  /** A German word maps to the English word of the last row that lists it. */
  lemma {:induction false} FillTablesLastGer(rows: seq<seq<string>>, n: nat, j: nat)
    requires 1 <= n <= |rows| && GoodRows(rows, n)
    requires 1 <= j < n && LastGer(rows, n, j, rows[j][0])
    ensures FillTables(rows, n).Success?
    ensures rows[j][0] in FillTables(rows, n).value.0
    ensures FillTables(rows, n).value.0[rows[j][0]] == rows[j][1]
  {
    FillTablesOutcome(rows, n);
    FillTablesOutcome(rows, n - 1);
    var t := FillTables(rows, n - 1).value;
    var row := rows[n - 1];
    assert FillTables(rows, n).value.0 == t.0[row[0] := row[1]];
    if j < n - 1 {
      assert LastGer(rows, n - 1, j, rows[j][0]);
      FillTablesLastGer(rows, n - 1, j);
    }
  }

  /** An English word maps to the German word of the last row that lists it. */
  lemma {:induction false} FillTablesLastEng(rows: seq<seq<string>>, n: nat, j: nat)
    requires 1 <= n <= |rows| && GoodRows(rows, n)
    requires 1 <= j < n && LastEng(rows, n, j, rows[j][1])
    ensures FillTables(rows, n).Success?
    ensures rows[j][1] in FillTables(rows, n).value.1
    ensures FillTables(rows, n).value.1[rows[j][1]] == rows[j][0]
  {
    FillTablesOutcome(rows, n);
    FillTablesOutcome(rows, n - 1);
    var t := FillTables(rows, n - 1).value;
    var row := rows[n - 1];
    assert FillTables(rows, n).value.1 == t.1[row[1] := row[0]];
    if j < n - 1 {
      assert LastEng(rows, n - 1, j, rows[j][1]);
      FillTablesLastEng(rows, n - 1, j);
    }
  }

  /** No English word occurs in two data rows. */
  predicate EnglishUnique(rows: seq<seq<string>>)
    requires GoodRows(rows, |rows|)
  {
    forall j, j' :: 1 <= j < j' < |rows| ==> rows[j][1] != rows[j'][1]
  }

  predicate GermanUnique(rows: seq<seq<string>>)
    requires GoodRows(rows, |rows|)
  {
    forall j, j' :: 1 <= j < j' < |rows| ==> rows[j][0] != rows[j'][0]
  }

  /** Translating a German word to English and back gives the word again,
      provided no English word is listed twice (German repeats are harmless:
      the last one wins in both tables). */
  lemma {:induction false} GerEngRoundTrip(rows: seq<seq<string>>, n: nat)
    requires 1 <= n <= |rows| && GoodRows(rows, n)
    requires forall j, j' :: 1 <= j < j' < n ==> rows[j][1] != rows[j'][1]
    ensures FillTables(rows, n).Success?
    ensures var (g2e, e2g) := FillTables(rows, n).value;
      forall g :: g in g2e ==> g2e[g] in e2g && e2g[g2e[g]] == g
    ensures var (g2e, e2g) := FillTables(rows, n).value;
      forall g :: g in g2e ==> exists j :: 1 <= j < n && rows[j][1] == g2e[g]
  {
    FillTablesOutcome(rows, n);
    if n > 1 {
      GerEngRoundTrip(rows, n - 1);
      var (g2e, e2g) := FillTables(rows, n - 1).value;
      var row := rows[n - 1];
      var (g2e', e2g') := (g2e[row[0] := row[1]], e2g[row[1] := row[0]]);
      assert FillTables(rows, n).value == (g2e', e2g');
      forall g | g in g2e' ensures g2e'[g] in e2g' && e2g'[g2e'[g]] == g {
        if g != row[0] {
          var j :| 1 <= j < n - 1 && rows[j][1] == g2e[g];
          assert g2e[g] != row[1];
        }
      }
      forall g | g in g2e' ensures exists j :: 1 <= j < n && rows[j][1] == g2e'[g] {
        if g == row[0] {
          assert rows[n - 1][1] == g2e'[g];
        } else {
          var j :| 1 <= j < n - 1 && rows[j][1] == g2e[g];
          assert rows[j][1] == g2e'[g];
        }
      }
    }
  }

  /** The same round trip from the English side, given unique German words. */
  lemma {:induction false} EngGerRoundTrip(rows: seq<seq<string>>, n: nat)
    requires 1 <= n <= |rows| && GoodRows(rows, n)
    requires forall j, j' :: 1 <= j < j' < n ==> rows[j][0] != rows[j'][0]
    ensures FillTables(rows, n).Success?
    ensures var (g2e, e2g) := FillTables(rows, n).value;
      forall e :: e in e2g ==> e2g[e] in g2e && g2e[e2g[e]] == e
    ensures var (g2e, e2g) := FillTables(rows, n).value;
      forall e :: e in e2g ==> exists j :: 1 <= j < n && rows[j][0] == e2g[e]
  {
    FillTablesOutcome(rows, n);
    if n > 1 {
      EngGerRoundTrip(rows, n - 1);
      var (g2e, e2g) := FillTables(rows, n - 1).value;
      var row := rows[n - 1];
      var (g2e', e2g') := (g2e[row[0] := row[1]], e2g[row[1] := row[0]]);
      assert FillTables(rows, n).value == (g2e', e2g');
      forall e | e in e2g' ensures e2g'[e] in g2e' && g2e'[e2g'[e]] == e {
        if e != row[1] {
          var j :| 1 <= j < n - 1 && rows[j][0] == e2g[e];
          assert e2g[e] != row[0];
        }
      }
      forall e | e in e2g' ensures exists j :: 1 <= j < n && rows[j][0] == e2g'[e] {
        if e == row[1] {
          assert rows[n - 1][0] == e2g'[e];
        } else {
          var j :| 1 <= j < n - 1 && rows[j][0] == e2g[e];
          assert rows[j][0] == e2g'[e];
        }
      }
    }
  }

  /** Whole-file form of the two round trips. */
  lemma TableRoundTrip(rows: seq<seq<string>>)
    requires |rows| > 0 && GoodRows(rows, |rows|)
    ensures TableOf(rows).Success?
    ensures var (g2e, e2g) := TableOf(rows).value;
      EnglishUnique(rows) ==> forall g :: g in g2e ==> g2e[g] in e2g && e2g[g2e[g]] == g
    ensures var (g2e, e2g) := TableOf(rows).value;
      GermanUnique(rows) ==> forall e :: e in e2g ==> e2g[e] in g2e && g2e[e2g[e]] == e
  {
    TableOutcome(rows);
    if EnglishUnique(rows) {
      GerEngRoundTrip(rows, |rows|);
    }
    if GermanUnique(rows) {
      EngGerRoundTrip(rows, |rows|);
    }
  }

  /** Without unique English words the round trip breaks: two German words
      for "x" leave the first one unreachable. */
  lemma RepeatedEnglishBreaksRoundTrip()
    ensures var rows := [["deutsch", "english"], ["a", "x"], ["b", "x"]];
      TableOf(rows).Success? && var (g2e, e2g) := TableOf(rows).value;
      "a" in g2e && "x" in e2g && g2e["a"] == "x" && e2g["x"] == "b"
  {
    var rows := [["deutsch", "english"], ["a", "x"], ["b", "x"]];
    assert FillTables(rows, 1) == Success((map[], map[]));
    var t2 := FillTables(rows, 2);
    assert t2 == Success((map["a" := "x"], map["x" := "a"]));
    var t3 := FillTables(rows, 3);
    assert t3 == Success((t2.value.0["b" := "x"], t2.value.1["x" := "b"]));
    assert t3.value.0["a"] == "x";
  }

  // ---------------------------------------------------------------------
  // Renaming the keys of a deserialised problem instance or solution
  // ---------------------------------------------------------------------

  /** The one key whose name and value are copied as they are. */
  const PARAMETERS := "parameters"

  /** A list entry that is not a dict, met where dicts were expected. */
  datatype TranslateError = NotAMapping(value: Json)

  /** The name key `k` gets in the output. */
  function NewKey(k: string, tf: string -> string): string {
    if k == PARAMETERS then k else tf(k)
  }

  /** Whether a list is one of dicts (its first entry is one) rather than a
      "trivial" list such as `["C"]`. */
  predicate IsDictList(xs: seq<Json>) {
    |xs| > 0 && xs[0].Object?
  }

  /** The dict built from the entries `fs`, in order: each entry assigns its
      new key in the fresh dict, so a later entry whose key has the same new
      name overrides an earlier one. */
  function TranslateFields(fs: seq<Field>, tf: string -> string): (r: Result<seq<Field>, TranslateError>)
    ensures r.Success? ==> KeySet(r.value) == NewKeys(fs, tf) && UniqueKeys(r.value)
    decreases fs
  {
    if fs == [] then Success([])
    else
      var done :- TranslateFields(fs[..|fs| - 1], tf);
      var f := fs[|fs| - 1];
      assert NewKeys(fs, tf) == NewKeys(fs[..|fs| - 1], tf) + {NewKey(f.key, tf)} by {
        NewKeysSnoc(fs, tf);
      }
      if f.key == PARAMETERS then
        PutSpec(done, f.key, f.value);
        Success(Put(done, f.key, f.value))
      else
        var v :- TranslateValue(f.value, tf);
        PutSpec(done, tf(f.key), v);
        Success(Put(done, tf(f.key), v))
  }

  /** The new names of the keys of `fs`. */
  function NewKeys(fs: seq<Field>, tf: string -> string): set<string> {
    set i | 0 <= i < |fs| :: NewKey(fs[i].key, tf)
  }

  lemma NewKeysSnoc(fs: seq<Field>, tf: string -> string)
    requires fs != []
    ensures NewKeys(fs, tf) == NewKeys(fs[..|fs| - 1], tf) + {NewKey(fs[|fs| - 1].key, tf)}
  {
    var init := fs[..|fs| - 1];
    forall k | k in NewKeys(fs, tf) ensures k in NewKeys(init, tf) + {NewKey(fs[|fs| - 1].key, tf)} {
      var i :| 0 <= i < |fs| && NewKey(fs[i].key, tf) == k;
      if i < |fs| - 1 {
        assert init[i] == fs[i];
      }
    }
    forall k | k in NewKeys(init, tf) ensures k in NewKeys(fs, tf) {
      var i :| 0 <= i < |init| && NewKey(init[i].key, tf) == k;
      assert fs[i] == init[i];
    }
  }

  /** The new value of an entry whose key is not "parameters". */
  function TranslateValue(v: Json, tf: string -> string): (r: Result<Json, TranslateError>)
    ensures r.Success? ==> (r.value.Object? <==> v.Object?) && (r.value.Array? <==> v.Array?)
    ensures r.Success? && v.Array? ==> |r.value.items| == |v.items|
    ensures !v.Object? && !v.Array? ==> r == Success(v)
    ensures v.Array? && !IsDictList(v.items) ==> r == Success(v)
    decreases v
  {
    match v
    case Object(fs) =>
      var t :- TranslateFields(fs, tf);
      Success(Object(t))
    case Array(xs) =>
      if IsDictList(xs) then
        var ys :- TranslateItems(xs, tf);
        Success(Array(ys))
      else Success(v)
    case _ => Success(v)
  }

  /** Every entry of a list of dicts, each translated as a dict. */
  function TranslateItems(xs: seq<Json>, tf: string -> string): (r: Result<seq<Json>, TranslateError>)
    ensures r.Success? ==> |r.value| == |xs| && forall i :: 0 <= i < |xs| ==> xs[i].Object? && r.value[i].Object?
    decreases xs
  {
    if xs == [] then Success([])
    else
      var done :- TranslateItems(xs[..|xs| - 1], tf);
      var x := xs[|xs| - 1];
      if x.Object? then
        var t :- TranslateFields(x.fields, tf);
        Success(done + [Object(t)])
      else Failure(NotAMapping(x))
  }

  /** `translate(d, translation_function)`: a fresh dict, the input is a
      value and stays as it was. */
  method Translate(d: seq<Field>, tf: string -> string) returns (r: Result<seq<Field>, TranslateError>)
    ensures r == TranslateFields(d, tf)
    decreases Object(d), 0
  {
    var out: seq<Field> := [];
    for i := 0 to |d|
      invariant TranslateFields(d[..i], tf) == Success(out)
    {
      assert d[..i + 1][..i] == d[..i];
      var k, v := d[i].key, d[i].value;
      if k == PARAMETERS {
        out := Put(out, k, v);
        continue;
      }
      var newV := TranslateNested(v, tf);
      assert d[..i + 1][|d[..i + 1]| - 1] == d[i];
      if newV.Failure? {
        assert TranslateFields(d[..i + 1], tf) == Failure(newV.error);
        FieldsFailurePrefix(d, i + 1, tf);
        return Failure(newV.error);
      }
      assert TranslateFields(d[..i + 1], tf) == Success(Put(out, tf(k), newV.value));
      out := Put(out, tf(k), newV.value);
    }
    assert d[..|d|] == d;
    return Success(out);
  }

  /** The new value of an entry other than "parameters": dicts are
      translated, lists of dicts entry by entry, anything else is kept. */
  method TranslateNested(v: Json, tf: string -> string) returns (r: Result<Json, TranslateError>)
    ensures r == TranslateValue(v, tf)
    decreases v, 1
  {
    if v.Object? {
      var t := Translate(v.fields, tf);
      if t.Failure? {
        return Failure(t.error);
      }
      return Success(Object(t.value));
    } else if v.Array? && |v.items| > 0 && v.items[0].Object? {
      var items := TranslateList(v.items, tf);
      if items.Failure? {
        return Failure(items.error);
      }
      return Success(Array(items.value));
    }
    return Success(v);
  }

  /** The list `[translate(x, translation_function) for x in xs]`, built by
      appending. */
  method TranslateList(xs: seq<Json>, tf: string -> string) returns (r: Result<seq<Json>, TranslateError>)
    ensures r == TranslateItems(xs, tf)
    decreases Array(xs), 0
  {
    var items: seq<Json> := [];
    for j := 0 to |xs|
      invariant TranslateItems(xs[..j], tf) == Success(items)
    {
      assert xs[..j + 1][..j] == xs[..j];
      var x := xs[j];
      if !x.Object? {
        ItemsFailurePrefix(xs, j + 1, tf);
        return Failure(NotAMapping(x));
      }
      var t := Translate(x.fields, tf);
      if t.Failure? {
        ItemsFailurePrefix(xs, j + 1, tf);
        return Failure(t.error);
      }
      items := items + [Object(t.value)];
    }
    assert xs[..|xs|] == xs;
    return Success(items);
  }

  /** An error in the first `n` entries is the error of the whole dict. */
  lemma {:induction false} FieldsFailurePrefix(fs: seq<Field>, n: nat, tf: string -> string)
    requires n <= |fs| && TranslateFields(fs[..n], tf).Failure?
    ensures TranslateFields(fs, tf) == TranslateFields(fs[..n], tf)
    decreases |fs| - n
  {
    if n < |fs| {
      assert fs[..n + 1][..n] == fs[..n];
      FieldsFailurePrefix(fs, n + 1, tf);
    } else {
      assert fs[..n] == fs;
    }
  }

  lemma {:induction false} ItemsFailurePrefix(xs: seq<Json>, n: nat, tf: string -> string)
    requires n <= |xs| && TranslateItems(xs[..n], tf).Failure?
    ensures TranslateItems(xs, tf) == TranslateItems(xs[..n], tf)
    decreases |xs| - n
  {
    if n < |xs| {
      assert xs[..n + 1][..n] == xs[..n];
      ItemsFailurePrefix(xs, n + 1, tf);
    } else {
      assert xs[..n] == xs;
    }
  }

  /** The entry `fs[i]`, when no later entry gets the same new name, ends up
      under its new name: "parameters" with its value as it was, any other
      key with its value translated. */
  lemma {:induction false} TranslatedEntry(fs: seq<Field>, tf: string -> string, i: nat)
    requires TranslateFields(fs, tf).Success? && i < |fs|
    requires forall j :: i < j < |fs| ==> NewKey(fs[j].key, tf) != NewKey(fs[i].key, tf)
    ensures fs[i].key != PARAMETERS ==> TranslateValue(fs[i].value, tf).Success?
    ensures Get(TranslateFields(fs, tf).value, NewKey(fs[i].key, tf)) ==
      Some(if fs[i].key == PARAMETERS then fs[i].value else TranslateValue(fs[i].value, tf).value)
  {
    var init := fs[..|fs| - 1];
    var last := fs[|fs| - 1];
    var done := TranslateFields(init, tf).value;
    var v := if last.key == PARAMETERS then last.value else TranslateValue(last.value, tf).value;
    assert TranslateFields(fs, tf).value == Put(done, NewKey(last.key, tf), v);
    PutSpec(done, NewKey(last.key, tf), v);
    if i < |fs| - 1 {
      assert init[i] == fs[i];
      forall j | i < j < |init| ensures NewKey(init[j].key, tf) != NewKey(init[i].key, tf) {
        assert init[j] == fs[j];
      }
      TranslatedEntry(init, tf, i);
    }
  }

  /** A dict fails exactly when the value of some entry other than
      "parameters" fails. */
  lemma {:induction false} TranslatedFieldsSucceed(fs: seq<Field>, tf: string -> string)
    ensures TranslateFields(fs, tf).Success? <==>
      forall i :: 0 <= i < |fs| && fs[i].key != PARAMETERS ==> TranslateValue(fs[i].value, tf).Success?
  {
    if fs != [] {
      var init := fs[..|fs| - 1];
      TranslatedFieldsSucceed(init, tf);
      assert forall i :: 0 <= i < |init| ==> init[i] == fs[i];
    }
  }

  /** A list of dicts fails exactly when some entry is not a dict or fails
      itself. */
  lemma {:induction false} TranslatedListSucceeds(xs: seq<Json>, tf: string -> string)
    ensures TranslateItems(xs, tf).Success? <==>
      forall i :: 0 <= i < |xs| ==> xs[i].Object? && TranslateFields(xs[i].fields, tf).Success?
  {
    if xs != [] {
      var init := xs[..|xs| - 1];
      var last := xs[|xs| - 1];
      TranslatedListSucceeds(init, tf);
      assert forall i :: 0 <= i < |init| ==> init[i] == xs[i];
      var done := TranslateItems(init, tf);
      if done.Success? && last.Object? && TranslateFields(last.fields, tf).Success? {
        assert TranslateItems(xs, tf).Success?;
      } else if done.Success? && last.Object? {
        assert TranslateItems(xs, tf).Failure?;
      } else if done.Success? {
        assert TranslateItems(xs, tf) == Failure(NotAMapping(last));
      } else {
        assert TranslateItems(xs, tf) == Failure(done.error);
      }
    }
  }

  /** A list of dicts is translated entry by entry, keeping length and order. */
  lemma {:induction false} TranslatedListEntries(xs: seq<Json>, tf: string -> string, i: nat)
    requires TranslateItems(xs, tf).Success? && i < |xs|
    ensures xs[i].Object? && TranslateFields(xs[i].fields, tf).Success?
    ensures TranslateItems(xs, tf).value[i] == Object(TranslateFields(xs[i].fields, tf).value)
  {
    var init := xs[..|xs| - 1];
    var last := xs[|xs| - 1];
    var done := TranslateItems(init, tf);
    assert done.Success? && last.Object?;
    var t := TranslateFields(last.fields, tf);
    assert t.Success?;
    assert TranslateItems(xs, tf).value == done.value + [Object(t.value)];
    if i < |init| {
      assert init[i] == xs[i];
      TranslatedListEntries(init, tf, i);
    }
  }

  /** With unique keys and no other key renamed to "parameters", the output's
      "parameters" entry is the input's, untouched. */
  lemma ParametersKept(fs: seq<Field>, tf: string -> string)
    requires UniqueKeys(fs) && TranslateFields(fs, tf).Success?
    requires forall k :: k != PARAMETERS ==> tf(k) != PARAMETERS
    ensures Get(TranslateFields(fs, tf).value, PARAMETERS) == Get(fs, PARAMETERS)
  {
    match Find(fs, PARAMETERS)
    case None =>
      assert PARAMETERS !in NewKeys(fs, tf);
    case Some(i) =>
      TranslatedEntry(fs, tf, i);
  }

  // ---------------------------------------------------------------------
  // Translating there and back
  // ---------------------------------------------------------------------

  /** `g` undoes `f` on every key of the tree that gets renamed, `f` never
      produces "parameters", dicts have unique keys, and every list of dicts
      holds only dicts. */
  predicate ReversibleFields(fs: seq<Field>, f: string -> string, g: string -> string)
    decreases fs
  {
    && UniqueKeys(fs)
    && (forall i :: 0 <= i < |fs| && fs[i].key != PARAMETERS ==>
          f(fs[i].key) != PARAMETERS && g(f(fs[i].key)) == fs[i].key)
    && (forall i :: 0 <= i < |fs| && fs[i].key != PARAMETERS ==> ReversibleValue(fs[i].value, f, g))
  }

  predicate ReversibleValue(v: Json, f: string -> string, g: string -> string)
    decreases v
  {
    match v
    case Object(fs) => ReversibleFields(fs, f, g)
    case Array(xs) =>
      IsDictList(xs) ==> forall i :: 0 <= i < |xs| ==> xs[i].Object? && ReversibleFields(xs[i].fields, f, g)
    case _ => true
  }

  /** Translating with `f` and then with `g` gives the dict back. */
  lemma {:induction false} FieldsRoundTrip(fs: seq<Field>, f: string -> string, g: string -> string)
    requires ReversibleFields(fs, f, g)
    ensures TranslateFields(fs, f).Success?
    ensures TranslateFields(TranslateFields(fs, f).value, g) == Success(fs)
    decreases fs
  {
    if fs != [] {
      var init := fs[..|fs| - 1];
      var last := fs[|fs| - 1];
      ReversibleLast(fs, f, g);
      FieldsRoundTrip(init, f, g);
      var done := TranslateFields(init, f).value;
      var k' := NewKey(last.key, f);
      if last.key != PARAMETERS {
        ValueRoundTrip(last.value, f, g);
      }
      var v' := if last.key == PARAMETERS then last.value else TranslateValue(last.value, f).value;
      AppendFresh(fs, f);
      var out := done + [Field(k', v')];
      assert out[..|out| - 1] == done;
      AppendFresh(out, g);
      assert init + [last] == fs;
    }
  }

  /** What reversibility gives the last entry of a dict: it is new under
      either name, and the entries before it are reversible themselves. */
  lemma ReversibleLast(fs: seq<Field>, f: string -> string, g: string -> string)
    requires fs != [] && ReversibleFields(fs, f, g)
    ensures var init, last := fs[..|fs| - 1], fs[|fs| - 1];
      && ReversibleFields(init, f, g)
      && (last.key != PARAMETERS ==> ReversibleValue(last.value, f, g))
      && NewKey(last.key, f) !in NewKeys(init, f)
      && NewKey(NewKey(last.key, f), g) == last.key
      && last.key !in KeySet(init)
  {
    var init := fs[..|fs| - 1];
    assert forall i :: 0 <= i < |init| ==> init[i] == fs[i];
  }

  /** An entry whose new name is not taken yet goes at the end. */
  lemma AppendFresh(fs: seq<Field>, tf: string -> string)
    requires fs != [] && TranslateFields(fs[..|fs| - 1], tf).Success?
    requires NewKey(fs[|fs| - 1].key, tf) !in NewKeys(fs[..|fs| - 1], tf)
    requires fs[|fs| - 1].key != PARAMETERS ==> TranslateValue(fs[|fs| - 1].value, tf).Success?
    ensures var last := fs[|fs| - 1];
      TranslateFields(fs, tf) == Success(TranslateFields(fs[..|fs| - 1], tf).value + [Field(NewKey(last.key, tf),
        if last.key == PARAMETERS then last.value else TranslateValue(last.value, tf).value)])
  {
    var last := fs[|fs| - 1];
    var done := TranslateFields(fs[..|fs| - 1], tf).value;
    var v := if last.key == PARAMETERS then last.value else TranslateValue(last.value, tf).value;
    assert TranslateFields(fs, tf) == Success(Put(done, NewKey(last.key, tf), v));
    PutAbsent(done, NewKey(last.key, tf), v);
  }

  lemma {:induction false} ValueRoundTrip(v: Json, f: string -> string, g: string -> string)
    requires ReversibleValue(v, f, g)
    ensures TranslateValue(v, f).Success?
    ensures TranslateValue(TranslateValue(v, f).value, g) == Success(v)
    decreases v
  {
    match v
    case Object(fs) =>
      FieldsRoundTrip(fs, f, g);
    case Array(xs) =>
      if IsDictList(xs) {
        ItemsRoundTrip(xs, f, g);
      }
    case _ =>
  }

  lemma {:induction false} ItemsRoundTrip(xs: seq<Json>, f: string -> string, g: string -> string)
    requires forall i :: 0 <= i < |xs| ==> xs[i].Object? && ReversibleFields(xs[i].fields, f, g)
    ensures TranslateItems(xs, f).Success?
    ensures TranslateItems(TranslateItems(xs, f).value, g) == Success(xs)
    decreases xs
  {
    forall i | 0 <= i < |xs|
      ensures TranslateFields(xs[i].fields, f).Success?
      ensures TranslateFields(TranslateFields(xs[i].fields, f).value, g) == Success(xs[i].fields)
    {
      FieldsRoundTrip(xs[i].fields, f, g);
    }
    TranslatedListSucceeds(xs, f);
    var ys := TranslateItems(xs, f).value;
    forall i | 0 <= i < |xs| ensures ys[i] == Object(TranslateFields(xs[i].fields, f).value) {
      TranslatedListEntries(xs, f, i);
    }
    TranslatedListSucceeds(ys, g);
    var zs := TranslateItems(ys, g).value;
    forall i | 0 <= i < |xs| ensures zs[i] == xs[i] {
      TranslatedListEntries(ys, g, i);
    }
    assert zs == xs;
  }

  // ---------------------------------------------------------------------
  // Translating validation messages word by word
  // ---------------------------------------------------------------------

  const VIOLATIONS := "business_rules_violations"
  const MESSAGE := "message"
  const MESSAGE_ORIGINAL := "message_original"

  /** `message` after `message = message.replace(w, translate_message_to_eng(w))`
      for each of `words`, in order. */
  function ReplaceWords(message: string, words: seq<string>, tables: Tables): string {
    if words == [] then message
    else
      var w := words[|words| - 1];
      Replace(ReplaceWords(message, words[..|words| - 1], tables), w, TranslateMessageToEng(tables, w))
  }

  /** The translated message: each word of the original, in turn. */
  function TranslatedMessage(message: string, tables: Tables): string {
    ReplaceWords(message, Split(message), tables)
  }

  /** Words the message table does not know leave the message as it was. */
  lemma {:induction false} UnknownWordsKept(message: string, words: seq<string>, tables: Tables)
    requires forall w :: w in words ==> w !in tables.ger2engMessage
    ensures ReplaceWords(message, words, tables) == message
  {
    if words != [] {
      var w := words[|words| - 1];
      assert forall w' :: w' in words[..|words| - 1] ==> w' in words;
      UnknownWordsKept(message, words[..|words| - 1], tables);
      ReplaceSelf(message, w);
    }
  }

  lemma UntranslatableMessageKept(message: string, tables: Tables)
    requires forall w :: w in Split(message) ==> w !in tables.ger2engMessage
    ensures TranslatedMessage(message, tables) == message
  {
    UnknownWordsKept(message, Split(message), tables);
  }

  /** The inner loop over the words of the original message. */
  method ReplaceEachWord(message: string, words: seq<string>, tables: Tables) returns (r: string)
    ensures r == ReplaceWords(message, words, tables)
  {
    r := message;
    for j := 0 to |words|
      invariant r == ReplaceWords(message, words[..j], tables)
    {
      assert words[..j + 1][..j] == words[..j];
      r := Replace(r, words[j], TranslateMessageToEng(tables, words[j]));
    }
    assert words[..|words|] == words;
  }

  /** Why rewriting the messages stops: the exception Python would raise. */
  datatype MessageError =
    | MissingViolations            // the result has no "business_rules_violations"
    | ViolationsNotIterable        // it is a number, a boolean or null
    | BadViolation(index: nat)     // this entry cannot be indexed by "message"
    | MissingMessage(index: nat)   // this violation has no "message"
    | MessageNotAString(index: nat) // this message has no `split`

  /** A violation whose message can be translated. */
  predicate Translatable(x: Json) {
    x.Object? && Get(x.fields, MESSAGE).Some? && Get(x.fields, MESSAGE).value.Str?
  }

  /** One violation after its turn of the loop, and the error it raised, if
      any: "message_original" is set before the message is known to be a
      string, and "message" is only assigned when the message has a word. */
  function ViolationStep(x: Json, i: nat, tables: Tables): (Json, Option<MessageError>) {
    if !x.Object? then (x, Some(BadViolation(i)))
    else
      match Get(x.fields, MESSAGE)
      case None => (x, Some(MissingMessage(i)))
      case Some(m) =>
        var marked := Put(x.fields, MESSAGE_ORIGINAL, m);
        if !m.Str? then (Object(marked), Some(MessageNotAString(i)))
        else
          var words := Split(m.s);
          if words == [] then (Object(marked), None)
          else (Object(Put(marked, MESSAGE, Str(ReplaceWords(m.s, words, tables)))), None)
  }

  /** A turn fails exactly on a violation whose message cannot be
      translated; otherwise the violation keeps its other keys, gains
      "message_original" holding the message it had, and its "message" is
      the translated one. */
  lemma ViolationStepRaises(x: Json, i: nat, tables: Tables)
    ensures ViolationStep(x, i, tables).1.None? <==> Translatable(x)
  {
  }

  lemma ViolationStepSpec(x: Json, i: nat, tables: Tables)
    ensures Translatable(x) ==>
      var m := Get(x.fields, MESSAGE).value;
      var y := ViolationStep(x, i, tables).0;
      && y.Object?
      && Get(y.fields, MESSAGE_ORIGINAL) == Some(m)
      && Get(y.fields, MESSAGE) == Some(Str(TranslatedMessage(m.s, tables)))
      && (forall k :: k != MESSAGE && k != MESSAGE_ORIGINAL ==> Get(y.fields, k) == Get(x.fields, k))
      && KeySet(y.fields) == KeySet(x.fields) + {MESSAGE_ORIGINAL}
  {
    if Translatable(x) {
      var m := Get(x.fields, MESSAGE).value;
      var marked := Put(x.fields, MESSAGE_ORIGINAL, m);
      MarkedFields(x.fields, m);
      var words := Split(m.s);
      if words == [] {
        assert ViolationStep(x, i, tables).0 == Object(marked);
        assert TranslatedMessage(m.s, tables) == m.s;
      } else {
        var message := Str(ReplaceWords(m.s, words, tables));
        assert ViolationStep(x, i, tables).0 == Object(Put(marked, MESSAGE, message));
        RewrittenFields(marked, message);
      }
    }
  }

  /** Setting "message_original" to the message: only that key changes. */
  lemma MarkedFields(fields: seq<Field>, m: Json)
    requires Get(fields, MESSAGE) == Some(m)
    ensures var marked := Put(fields, MESSAGE_ORIGINAL, m);
      && Get(marked, MESSAGE_ORIGINAL) == Some(m)
      && (forall k :: k != MESSAGE_ORIGINAL ==> Get(marked, k) == Get(fields, k))
      && KeySet(marked) == KeySet(fields) + {MESSAGE_ORIGINAL}
  {
    PutSpec(fields, MESSAGE_ORIGINAL, m);
  }

  /** Setting "message", which is present: only that key changes. */
  lemma RewrittenFields(fields: seq<Field>, message: Json)
    requires MESSAGE in KeySet(fields)
    ensures var y := Put(fields, MESSAGE, message);
      && Get(y, MESSAGE) == Some(message)
      && (forall k :: k != MESSAGE ==> Get(y, k) == Get(fields, k))
      && KeySet(y) == KeySet(fields)
  {
    PutSpec(fields, MESSAGE, message);
  }

  /** One turn of the loop: the violation dict is updated as the loop body
      updates `validation_result['business_rules_violations'][i]`. */
  method TranslateViolation(violation: Json, i: nat, tables: Tables) returns (y: Json, error: Option<MessageError>)
    ensures (y, error) == ViolationStep(violation, i, tables)
  {
    y, error := violation, None;
    if !violation.Object? {
      return y, Some(BadViolation(i));
    }
    var message := Get(violation.fields, MESSAGE);
    if message.None? {
      return y, Some(MissingMessage(i));
    }
    var fields := Put(violation.fields, MESSAGE_ORIGINAL, message.value);
    y := Object(fields);
    if !message.value.Str? {
      return y, Some(MessageNotAString(i));
    }
    var words := Split(message.value.s);
    if words != [] {
      var translated := ReplaceEachWord(message.value.s, words, tables);
      y := Object(Put(fields, MESSAGE, Str(translated)));
    }
  }

  /** The violations list after the first `n` turns of the loop, or after
      the turn that raised. */
  datatype Pass = Pass(items: seq<Json>, error: Option<MessageError>)

  /** The body of the loop, as a function of a violation and its index. */
  type Turn = (Json, nat) -> (Json, Option<MessageError>)

  function TurnOf(tables: Tables): Turn {
    (x: Json, i: nat) => ViolationStep(x, i, tables)
  }

  /** The loop over `xs` with body `turn`, stopped by the first turn that
      raises: each turn replaces the entry it works on. */
  function Turns(xs: seq<Json>, n: nat, turn: Turn): (r: Pass)
    requires n <= |xs|
    ensures |r.items| == |xs|
  {
    if n == 0 then Pass(xs, None)
    else
      var p := Turns(xs, n - 1, turn);
      if p.error.Some? then p
      else Pass(p.items[n - 1 := turn(xs[n - 1], n - 1).0], turn(xs[n - 1], n - 1).1)
  }

  /** Once a turn raises, the loop is over. */
  lemma {:induction false} TurnsRaised(xs: seq<Json>, n: nat, turn: Turn)
    requires n <= |xs| && Turns(xs, n, turn).error.Some?
    ensures Turns(xs, |xs|, turn) == Turns(xs, n, turn)
    decreases |xs| - n
  {
    if n < |xs| {
      TurnsRaised(xs, n + 1, turn);
    }
  }

  /** The first `n` turns all pass exactly when none of them raises on its
      own entry. */
  lemma {:induction false} TurnsSucceed(xs: seq<Json>, n: nat, turn: Turn)
    requires n <= |xs|
    ensures Turns(xs, n, turn).error.None? <==> forall j :: 0 <= j < n ==> turn(xs[j], j).1.None?
  {
    if n > 0 {
      TurnsSucceed(xs, n - 1, turn);
    }
  }

  /** After `n` passing turns each of the first `n` entries has had its
      turn and the rest are untouched. */
  lemma {:induction false} TurnsItems(xs: seq<Json>, n: nat, turn: Turn)
    requires n <= |xs| && Turns(xs, n, turn).error.None?
    ensures forall j :: 0 <= j < n ==> Turns(xs, n, turn).items[j] == turn(xs[j], j).0
    ensures forall j :: n <= j < |xs| ==> Turns(xs, n, turn).items[j] == xs[j]
  {
    if n > 0 {
      TurnsItems(xs, n - 1, turn);
    }
  }

  /** The error is the one of the first turn that raises. */
  lemma {:induction false} TurnsFirstError(xs: seq<Json>, n: nat, turn: Turn)
    requires n <= |xs| && Turns(xs, n, turn).error.Some?
    ensures exists j :: (0 <= j < n && turn(xs[j], j).1.Some? &&
      (forall j' :: 0 <= j' < j ==> turn(xs[j'], j').1.None?) &&
      Turns(xs, n, turn).error == turn(xs[j], j).1)
  {
    if Turns(xs, n - 1, turn).error.Some? {
      TurnsFirstError(xs, n - 1, turn);
    } else {
      TurnsSucceed(xs, n - 1, turn);
    }
  }

  /** The whole loop over the violations. */
  function Violations(xs: seq<Json>, tables: Tables): Pass {
    Turns(xs, |xs|, TurnOf(tables))
  }

  /** The loop passes exactly when every violation is translatable; then
      each violation has had its turn. */
  lemma ViolationsSucceed(xs: seq<Json>, tables: Tables)
    ensures Violations(xs, tables).error.None? <==> forall j :: 0 <= j < |xs| ==> Translatable(xs[j])
    ensures Violations(xs, tables).error.None? ==>
      forall j :: 0 <= j < |xs| ==> Violations(xs, tables).items[j] == ViolationStep(xs[j], j, tables).0
  {
    var turn := TurnOf(tables);
    TurnsSucceed(xs, |xs|, turn);
    forall j | 0 <= j < |xs| ensures turn(xs[j], j).1.None? <==> Translatable(xs[j]) {
      ViolationStepRaises(xs[j], j, tables);
    }
    if Violations(xs, tables).error.None? {
      TurnsItems(xs, |xs|, turn);
    }
  }

  /** Otherwise the first violation that is not translatable raises. */
  lemma ViolationsFirstError(xs: seq<Json>, tables: Tables)
    requires Violations(xs, tables).error.Some?
    ensures exists j :: (0 <= j < |xs| && !Translatable(xs[j]) &&
      (forall j' :: 0 <= j' < j ==> Translatable(xs[j'])) &&
      Violations(xs, tables).error == ViolationStep(xs[j], j, tables).1)
  {
    var turn := TurnOf(tables);
    TurnsFirstError(xs, |xs|, turn);
    forall j | 0 <= j < |xs| ensures turn(xs[j], j).1.None? <==> Translatable(xs[j]) {
      ViolationStepRaises(xs[j], j, tables);
    }
  }

  /** The result body after `translate_message_word_for_word`, and the
      error that ended it, if any. Changes made before an error stay. */
  function WordForWord(body: seq<Field>, tables: Tables): (seq<Field>, Option<MessageError>) {
    match Get(body, VIOLATIONS)
    case None => (body, Some(MissingViolations))
    case Some(Array(xs)) =>
      var p := Violations(xs, tables);
      (Put(body, VIOLATIONS, Array(p.items)), p.error)
    // iterating a dict gives its keys: the first key is a str, and
    // `key['message']` raises; iterating a string gives characters, which
    // cannot be indexed by "message" either
    case Some(Object(fs)) => (body, if fs == [] then None else Some(BadViolation(0)))
    case Some(Str(s)) => (body, if s == [] then None else Some(BadViolation(0)))
    case Some(_) => (body, Some(ViolationsNotIterable))
  }

  /** On a list of violations the call succeeds exactly when every message
      is a string; then the body keeps all its keys and other values, the
      list keeps its length, and every violation has had its turn. */
  lemma WordForWordOutcome(body: seq<Field>, xs: seq<Json>, tables: Tables)
    requires Get(body, VIOLATIONS) == Some(Array(xs))
    ensures WordForWord(body, tables).1.None? <==> forall j :: 0 <= j < |xs| ==> Translatable(xs[j])
    ensures KeySet(WordForWord(body, tables).0) == KeySet(body)
    ensures forall k :: k != VIOLATIONS ==> Get(WordForWord(body, tables).0, k) == Get(body, k)
    ensures WordForWord(body, tables).1.None? ==>
      exists ys: seq<Json> :: (
        Get(WordForWord(body, tables).0, VIOLATIONS) == Some(Array(ys)) && |ys| == |xs| &&
        forall j :: 0 <= j < |xs| ==> ys[j] == ViolationStep(xs[j], j, tables).0)
  {
    var p := Violations(xs, tables);
    ViolationsSucceed(xs, tables);
    PutSpec(body, VIOLATIONS, Array(p.items));
    assert VIOLATIONS in KeySet(body);
  }

  /** Every other shape of "business_rules_violations" leaves the body as it
      was: a missing one, a scalar or a non-empty dict or string raises, an
      empty dict or string is a loop with no turns. */
  lemma WordForWordNoList(body: seq<Field>, tables: Tables)
    requires Get(body, VIOLATIONS).None? || !Get(body, VIOLATIONS).value.Array?
    ensures WordForWord(body, tables).0 == body
    ensures WordForWord(body, tables).1.None? <==>
      Get(body, VIOLATIONS) == Some(Object([])) || Get(body, VIOLATIONS) == Some(Str([]))
  {
  }

  /** A validation result returned by the validation service; the script
      rewrites its messages in place. */
  class ValidationResult {
    var body: seq<Field>

    constructor (body: seq<Field>)
      ensures this.body == body
    {
      this.body := body;
    }

    /** `translate_message_word_for_word(validation_result)`: returns the
        same object, or the exception raised part-way. */
    method TranslateMessageWordForWord(tables: Tables) returns (r: Result<ValidationResult, MessageError>)
      modifies this
      ensures body == WordForWord(old(body), tables).0
      ensures WordForWord(old(body), tables).1.None? ==> r == Success(this)
      ensures WordForWord(old(body), tables).1.Some? ==> r == Failure(WordForWord(old(body), tables).1.value)
    {
      var found := Get(body, VIOLATIONS);
      if found.None? {
        return Failure(MissingViolations);
      }
      var list := found.value;
      if list.Object? || list.Str? {
        if (list.Object? && list.fields == []) || (list.Str? && list.s == []) {
          return Success(this);
        }
        return Failure(BadViolation(0));
      }
      if !list.Array? {
        return Failure(ViolationsNotIterable);
      }
      var xs := list.items;
      var ys := xs;
      PutSame(body, VIOLATIONS, list);
      ghost var body0 := body;
      for i := 0 to |xs|
        invariant Turns(xs, i, TurnOf(tables)) == Pass(ys, None)
        invariant forall j :: i <= j < |xs| ==> ys[j] == xs[j]
        invariant body == Put(body0, VIOLATIONS, Array(ys))
      {
        var violation, error := TranslateViolation(ys[i], i, tables);
        ghost var turn := TurnOf(tables);
        assert turn(xs[i], i) == (violation, error);
        assert Turns(xs, i + 1, turn) == Pass(ys[i := violation], error);
        PutPut(body0, VIOLATIONS, Array(ys), Array(ys[i := violation]));
        ys := ys[i := violation];
        body := Put(body, VIOLATIONS, Array(ys));
        if error.Some? {
          TurnsRaised(xs, i + 1, TurnOf(tables));
          return Failure(error.value);
        }
      }
      return Success(this);
    }
  }
}
