/**
 * Properties of the `Localize` store that relate several operations: what `get`
 * returns after a table is loaded, how a language asked for before the table
 * knew it is applied by the next frame, and how a pending name outlives a later
 * successful `set_language`.
 */
module LocalizeProperties {
  import opened Wrappers
  import opened Table
  import opened Localization

  /**
   * After `set_data`, `get` of a keyword returns the cell of the keyword's last
   * row in the active language's column (2 + index), or "" when that row is too short.
   */
  lemma GetAfterLoad(l: Localize, records: Records, i: nat)
    requires WellFormedRecords(records) && l.HoldsTable(records)
    requires i < |DataRows(records)| && IsLastRow(DataRows(records), DataRows(records)[i][0], i)
    ensures var row := DataRows(records)[i];
            l.Get(row[0]) == if 2 + l.currentId < |row| then row[2 + l.currentId] else ""
  {
    RowTranslations(DataRows(records), i);
  }

  /** After `set_data`, a keyword that no data row carries translates to "" in every language. */
  lemma GetMissingKeyword(l: Localize, records: Records, keyword: string)
    requires WellFormedRecords(records) && l.HoldsTable(records)
    requires forall i :: 0 <= i < |DataRows(records)| ==> DataRows(records)[i][0] != keyword
    ensures l.Get(keyword) == ""
  {
    MissingKeyword(DataRows(records), keyword);
  }

  /**
   * Deferred selection: on an empty store with a handle set, `set_language`
   * with a name the (still empty) table does not know leaves it pending; the
   * first frame whose events create the asset loads the table and makes the
   * name's column the active language, clearing the pending name.
   */
  method DeferredSelection(h: HandleId, records: Records, name: string, i: nat)
    returns (pendingBefore: Option<string>, selected: nat, pendingAfter: Option<string>)
    requires WellFormedRecords(records)
    requires IsLastIndex(LanguageNames(records), name, i)
    ensures pendingBefore == Some(name)
    ensures selected == i && pendingAfter == None
  {
    var l := new Localize.Empty();
    l.SetHandle(h);
    l.SetLanguage(name);
    pendingBefore := l.pending;
    InitLocalizeResource(l, map[h := records], [Created(h)]);
    assert [Created(h)][0].Reloads(h);
    LanguageIndex(LanguageNames(records), i);
    selected, pendingAfter := l.currentId, l.pending;
  }

  /**
   * A pending name survives a later `set_language` with a known name: the
   * known name becomes active at once, but when a reloaded table learns the
   * pending name, the next frame switches to the pending name instead.
   */
  method StalePendingWins(h: HandleId, first: Records, second: Records, early: string, later: string)
    returns (chosen: nat, pendingKept: Option<string>, selected: nat)
    requires WellFormedRecords(first) && WellFormedRecords(second)
    requires early !in LanguageNames(first) && later in LanguageNames(first)
    requires early in LanguageNames(second)
    ensures later in LanguagesOf(LanguageNames(first)) && chosen == LanguagesOf(LanguageNames(first))[later]
    ensures pendingKept == Some(early)
    ensures early in LanguagesOf(LanguageNames(second)) && selected == LanguagesOf(LanguageNames(second))[early]
  {
    LanguagesOfSpec(LanguageNames(first));
    LanguagesOfSpec(LanguageNames(second));
    var l := new Localize.FromData(first);
    l.SetHandle(h);
    l.SetLanguage(early);
    l.SetLanguage(later);
    chosen, pendingKept := l.currentId, l.pending;
    InitLocalizeResource(l, map[h := second], [Modified(h)]);
    assert [Modified(h)][0].Reloads(h);
    selected := l.currentId;
  }

  /**
   * A frame without a matching `Created` or `Modified` event keeps the table,
   * so a name the table does not know stays pending and the index stays.
   */
  method UnrelatedEventsKeepTable(h: HandleId, other: HandleId, records: Records, name: string)
    returns (selected: nat, pendingAfter: Option<string>, languages: map<string, nat>,
             words: map<string, seq<string>>)
    requires WellFormedRecords(records) && h != other
    requires name !in LanguageNames(records)
    ensures selected == 0 && pendingAfter == Some(name)
    ensures languages == LanguagesOf(LanguageNames(records))
    ensures words == WordsOf(DataRows(records))
  {
    LanguagesOfSpec(LanguageNames(records));
    var l := new Localize.FromData(records);
    l.SetHandle(h);
    l.SetLanguage(name);
    var events := [Created(other), Modified(other), Removed(h)];
    InitLocalizeResource(l, map[], events);
    selected, pendingAfter := l.currentId, l.pending;
    languages := l.languages;
    words := l.words;
  }

  /**
   * The two-language table `kw,note,English,German` / `hello,,Hi,Hallo`:
   * "hello" reads "Hi" until German is selected, then "Hallo"; an unknown
   * keyword reads "" in both languages.
   */
  method Greeting() returns (english: string, german: string, missing: string)
    ensures english == "Hi" && german == "Hallo" && missing == ""
  {
    var records := [["kw", "note", "English", "German"], ["hello", "", "Hi", "Hallo"]];
    var l := new Localize.FromData(records);
    english := l.Get("hello");
    LanguageIndex(LanguageNames(records), 1);
    l.SetLanguage("German");
    german := l.Get("hello");
    missing := l.Get("goodbye");
  }
}
