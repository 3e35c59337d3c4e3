/**
 * The translation table built from a tokenised CSV file (src/lib.rs, `set_data`).
 *
 * Row 0 is the header: columns 0 and 1 hold the keyword and note captions,
 * columns 2.. name the languages. Every later row holds a keyword in column 0,
 * a free-text note in column 1 and one translation per language from column 2 on.
 * Both maps are built with overwriting inserts, so the last occurrence of a
 * language name or of a keyword wins.
 */
module Table {

  /** Records as the CSV tokeniser yields them: header row first, then data rows. */
  type Records = seq<seq<string>>

  /** Every data row has a keyword column and a note column (`record[2..]` does not panic). */
  ghost predicate WellFormedRows(rows: seq<seq<string>>)
  {
    forall i :: 0 <= i < |rows| ==> |rows[i]| >= 2
  }

  /** What `set_data` needs to run without panicking: a header with at least two cells, and well-formed data rows. */
  ghost predicate WellFormedRecords(records: Records)
  {
    |records| >= 1 && |records[0]| >= 2 && WellFormedRows(records[1..])
  }

  /** The language names of a header: its cells from column 2 on. */
  function LanguageNames(records: Records): seq<string>
    requires WellFormedRecords(records)
  {
    records[0][2..]
  }

  /** The data rows: every record after the header. */
  function DataRows(records: Records): seq<seq<string>>
    requires WellFormedRecords(records)
  {
    records[1..]
  }

  /** The language map built by inserting `names[i] -> i` for i = 0, 1, ... in turn. */
  function LanguagesOf(names: seq<string>): map<string, nat>
  {
    if names == [] then map[]
    else LanguagesOf(names[..|names| - 1])[names[|names| - 1] := |names| - 1]
  }

  /** The word map built by inserting `row[0] -> row[2..]` for every row in turn. */
  function WordsOf(rows: seq<seq<string>>): map<string, seq<string>>
    requires WellFormedRows(rows)
  {
    if rows == [] then map[]
    else WordsOf(rows[..|rows| - 1])[rows[|rows| - 1][0] := rows[|rows| - 1][2..]]
  }

  /** `i` is the position of the last occurrence of `name` in `names`. */
  ghost predicate IsLastIndex(names: seq<string>, name: string, i: nat)
  {
    i < |names| && names[i] == name && forall j :: i < j < |names| ==> names[j] != name
  }

  /** `i` is the last data row whose keyword is `keyword`. */
  ghost predicate IsLastRow(rows: seq<seq<string>>, keyword: string, i: nat)
    requires WellFormedRows(rows)
  {
    i < |rows| && rows[i][0] == keyword && forall j :: i < j < |rows| ==> rows[j][0] != keyword
  }

  /**
   * The language map holds exactly the header's language names, and each name
   * is mapped to the column (counted from column 2) of its last occurrence.
   */
  lemma {:induction false} LanguagesOfSpec(names: seq<string>)
    ensures forall n :: n in LanguagesOf(names) <==> n in names
    ensures forall n :: n in LanguagesOf(names) ==> IsLastIndex(names, n, LanguagesOf(names)[n])
  {
    if names != [] {
      var init, last := names[..|names| - 1], names[|names| - 1];
      LanguagesOfSpec(init);
      assert names == init + [last];
      forall n | n in LanguagesOf(names) && n != last
        ensures IsLastIndex(names, n, LanguagesOf(names)[n])
      {
        assert LanguagesOf(names)[n] == LanguagesOf(init)[n];
      }
    }
  }

  /** A language name whose last occurrence is column 2 + i is mapped to i. */
  lemma {:induction false} LanguageIndex(names: seq<string>, i: nat)
    requires i < |names| && IsLastIndex(names, names[i], i)
    ensures names[i] in LanguagesOf(names) && LanguagesOf(names)[names[i]] == i
  {
    LanguagesOfSpec(names);
    var k := LanguagesOf(names)[names[i]];
    assert IsLastIndex(names, names[i], k);
  }

  /**
   * The word map holds exactly the keywords of the data rows, and each keyword
   * is mapped to the translation columns of the last row that carries it.
   */
  lemma {:induction false} WordsOfSpec(rows: seq<seq<string>>)
    requires WellFormedRows(rows)
    ensures forall k :: k in WordsOf(rows) <==> exists i :: 0 <= i < |rows| && rows[i][0] == k
    ensures forall k :: k in WordsOf(rows) ==> exists i: nat :: IsLastRow(rows, k, i) && WordsOf(rows)[k] == rows[i][2..]
  {
    if rows != [] {
      var init, last := rows[..|rows| - 1], rows[|rows| - 1];
      assert WellFormedRows(init);
      WordsOfSpec(init);
      var w := WordsOf(rows);
      assert w == WordsOf(init)[last[0] := last[2..]];
      assert IsLastRow(rows, last[0], |rows| - 1);
      forall k | k in w
        ensures exists i :: 0 <= i < |rows| && rows[i][0] == k
        ensures exists i: nat :: IsLastRow(rows, k, i) && w[k] == rows[i][2..]
      {
        if k != last[0] {
          assert k in WordsOf(init);
          var i: nat :| IsLastRow(init, k, i) && WordsOf(init)[k] == init[i][2..];
          assert IsLastRow(rows, k, i);
        }
      }
      forall k | exists i :: 0 <= i < |rows| && rows[i][0] == k
        ensures k in w
      {
        var i :| 0 <= i < |rows| && rows[i][0] == k;
        if i < |rows| - 1 {
          assert init[i][0] == k;
          assert k in WordsOf(init);
        }
      }
    }
  }

  /** The keyword of the last row that carries it is mapped to that row's translations. */
  lemma {:induction false} RowTranslations(rows: seq<seq<string>>, i: nat)
    requires WellFormedRows(rows) && i < |rows| && IsLastRow(rows, rows[i][0], i)
    ensures rows[i][0] in WordsOf(rows) && WordsOf(rows)[rows[i][0]] == rows[i][2..]
  {
    WordsOfSpec(rows);
    var k := rows[i][0];
    var j: nat :| IsLastRow(rows, k, j) && WordsOf(rows)[k] == rows[j][2..];
  }

  /** A keyword that no data row carries is not in the word map. */
  lemma {:induction false} MissingKeyword(rows: seq<seq<string>>, keyword: string)
    requires WellFormedRows(rows)
    requires forall i :: 0 <= i < |rows| ==> rows[i][0] != keyword
    ensures keyword !in WordsOf(rows)
  {
    WordsOfSpec(rows);
  }
}
