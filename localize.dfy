/**
 * The `Localize` resource of src/lib.rs: a translation store with a pending
 * language name, the active language index, the language and word maps built
 * from a CSV table, and an optional handle of the asset the table is loaded from;
 * and the per-frame system `init_localize_resource` that reloads the table on
 * asset events and retries a pending language name.
 */
module Localization {
  import opened Wrappers
  import opened Table

  /** The identity of an asset handle; two handles are equal when their ids are. */
  type HandleId = nat

  /** The asset events the engine delivers for translation assets. */
  datatype AssetEvent = Created(handle: HandleId) | Modified(handle: HandleId) | Removed(handle: HandleId)
  {
    /** A `Created` or `Modified` event for handle `h` makes the store reload its table. */
    predicate Reloads(h: HandleId)
    {
      (Created? || Modified?) && handle == h
    }
  }

  /** Some event of the frame reloads the asset with handle `h`. */
  ghost predicate ReloadRequested(events: seq<AssetEvent>, h: HandleId)
  {
    exists i :: 0 <= i < |events| && events[i].Reloads(h)
  }

  class Localize {
    /** A language name asked for before the table knew it (`set_language` field). */
    var pending: Option<string>
    /** The index of the active language among the header's language columns. */
    var currentId: nat
    var languages: map<string, nat>
    var words: map<string, seq<string>>
    /** The asset the table is (re)loaded from, once one is set. */
    var handle: Option<HandleId>

    /** The two maps are those `set_data` builds from `records`. */
    ghost predicate HoldsTable(records: Records)
      reads this
      requires WellFormedRecords(records)
    {
      languages == LanguagesOf(LanguageNames(records)) && words == WordsOf(DataRows(records))
    }

    /** `Localize::empty`: language 0, nothing pending, no table, no handle. */
    constructor Empty()
      ensures pending == None && currentId == 0 && handle == None
      ensures languages == map[] && words == map[]
    {
      pending := None;
      currentId := 0;
      languages := map[];
      words := map[];
      handle := None;
    }

    /** `Localize::from_data`: an empty store on which `set_data` has run. */
    constructor FromData(records: Records)
      requires WellFormedRecords(records)
      ensures pending == None && currentId == 0 && handle == None
      ensures HoldsTable(records)
    {
      pending := None;
      currentId := 0;
      languages := map[];
      words := map[];
      handle := None;
      new;
      SetData(records);
    }

    /**
     * `set_data`: builds both maps from the records and replaces the old ones
     * wholesale. The selection and the handle are left as they were; in
     * particular a pending name is not resolved here.
     */
    method SetData(records: Records)
      requires WellFormedRecords(records)
      modifies this
      ensures HoldsTable(records)
      ensures pending == old(pending) && currentId == old(currentId) && handle == old(handle)
    {
      var newLanguages: map<string, nat> := map[];
      var names := records[0][2..];
      for languageId := 0 to |names|
        invariant newLanguages == LanguagesOf(names[..languageId])
      {
        assert names[..languageId + 1][..languageId] == names[..languageId];
        newLanguages := newLanguages[names[languageId] := languageId];
      }
      assert names[..|names|] == names;
      var newWords: map<string, seq<string>> := map[];
      var rows := records[1..];
      for r := 0 to |rows|
        invariant WellFormedRows(rows[..r])
        invariant newWords == WordsOf(rows[..r])
      {
        assert rows[..r + 1][..r] == rows[..r];
        newWords := newWords[rows[r][0] := rows[r][2..]];
      }
      assert rows[..|rows|] == rows;
      languages := newLanguages;
      words := newWords;
    }

    /** `set_handle`: remembers the asset handle and changes nothing else. */
    method SetHandle(h: HandleId)
      modifies this
      ensures handle == Some(h)
      ensures pending == old(pending) && currentId == old(currentId)
      ensures languages == old(languages) && words == old(words)
    {
      handle := Some(h);
    }

    /**
     * `get`: the translation of `keyword` in the active language. It is total:
     * an unknown keyword, or a row too short for the active index, gives "".
     */
    function Get(keyword: string): (r: string)
      reads this
      ensures keyword in words && currentId < |words[keyword]| ==> r == words[keyword][currentId]
      ensures keyword !in words || |words[keyword]| <= currentId ==> r == ""
    {
      if keyword in words then
        var row := words[keyword];
        if currentId < |row| then row[currentId] else ""
      else ""
    }

    /**
     * `set_language`: a known name becomes the active index at once, and an
     * earlier pending name is kept; an unknown name becomes the pending name
     * and the index stays.
     */
    method SetLanguage(name: string)
      modifies this
      ensures name in old(languages) ==> currentId == old(languages)[name] && pending == old(pending)
      ensures name !in old(languages) ==> currentId == old(currentId) && pending == Some(name)
      ensures languages == old(languages) && words == old(words) && handle == old(handle)
    {
      if name in languages {
        currentId := languages[name];
      } else {
        pending := Some(name);
      }
    }
  }

  /**
   * `init_localize_resource`, run once per frame. When the resource exists and
   * holds a handle, every `Created` or `Modified` event for that handle reloads
   * the table from the asset; other events are ignored. Afterwards a pending
   * language name that the (possibly new) table knows becomes the active index
   * and is cleared; one it does not know stays pending.
   * The asset store is `assets`, mapping a handle to the asset's tokenised records.
   */
  method InitLocalizeResource(localize: Localize?, assets: map<HandleId, Records>, events: seq<AssetEvent>)
    requires localize != null && localize.handle.Some? && ReloadRequested(events, localize.handle.value) ==>
               localize.handle.value in assets && WellFormedRecords(assets[localize.handle.value])
    modifies localize
    ensures localize != null ==> localize.handle == old(localize.handle)
    ensures localize != null && localize.handle.Some? && ReloadRequested(events, localize.handle.value) ==>
              localize.handle.value in assets && WellFormedRecords(assets[localize.handle.value]) &&
              localize.HoldsTable(assets[localize.handle.value])
    ensures localize != null && !(localize.handle.Some? && ReloadRequested(events, localize.handle.value)) ==>
              localize.languages == old(localize.languages) && localize.words == old(localize.words)
    ensures localize != null ==>
              var p := old(localize.pending);
              if p.Some? && p.value in localize.languages
              then localize.currentId == localize.languages[p.value] && localize.pending == None
              else localize.currentId == old(localize.currentId) && localize.pending == p
  {
    if localize != null {
      if localize.handle.Some? {
        var assetHandle := localize.handle.value;
        for i := 0 to |events|
          invariant localize.handle == old(localize.handle)
          invariant localize.pending == old(localize.pending) && localize.currentId == old(localize.currentId)
          invariant ReloadRequested(events[..i], assetHandle) ==>
                      assetHandle in assets && WellFormedRecords(assets[assetHandle]) &&
                      localize.HoldsTable(assets[assetHandle])
          invariant !ReloadRequested(events[..i], assetHandle) ==>
                      localize.languages == old(localize.languages) && localize.words == old(localize.words)
        {
          assert events[..i + 1] == events[..i] + [events[i]];
          if events[i].Reloads(assetHandle) {
            localize.SetData(assets[assetHandle]);
          }
        }
        assert events[..|events|] == events;
      }
      if localize.pending.Some? {
        var language := localize.pending.value;
        if language in localize.languages {
          localize.currentId := localize.languages[language];
          localize.pending := None;
        }
      }
    }
  }
}
