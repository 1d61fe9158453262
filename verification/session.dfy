/**
 The dashboard's module-level state and the handlers that change it: the mirror of
 the user's collection kept current by snapshots, the stored result of the last
 render (what "export filtered" writes), the filter, sort and search settings, the
 one-slot delete confirmation, the importers, and the exports and backup with their
 empty-collection guards. The store is represented by the log of writes the client
 issues to it.
 */
module Dashboard {
  import opened Text
  import opened Records
  import opened Projection
  import opened Ordering
  import opened Codec

  /** What the backup reads of the signed-in user. */
  datatype Principal = Principal(uid: string, displayName: string, email: string)

  /** The content of a download, before it is turned into a `Blob`. */
  datatype Payload = CsvBody(text: string) | JsonBody(value: Json)

  /** The arguments of one `downloadFile` call. */
  datatype Download = Download(filename: string, mime: string, body: Payload)

  /** An export either finds nothing to write ("No data to export.") or offers a file. */
  datatype Export = NoData | Ready(file: Download)

  /** How an import from JSON ends. */
  datatype ImportOutcome =
    | Imported(count: nat)  // one `add` per element issued
    | NotAnArray            // "Invalid JSON format. Expected an array."
    | ParseFailed           // `JSON.parse` threw
    | NothingPasted         // the paste box held only white space

  const CsvMime := "text/csv"
  const JsonMime := "application/json"
  const CsvExportName := "academic-achievements.csv"
  const JsonExportName := "academic-achievements.json"
  const FilteredExportName := "filtered-achievements.json"
  const BackupVersion := "1.0"

  /** The writes an import issues for its entries: one `add` each, in order. */
  function Adds(es: seq<Entry>): (ws: seq<Write>)
    ensures |ws| == |es|
  {
    Map(es, (e: Entry) => Add(e))
  }

  /** Issuing the writes of `a` and then one `add` of `e` issues the writes of `a + [e]`. */
  lemma LogPush(start: seq<Write>, a: seq<Entry>, e: Entry, c: seq<Entry>)
    requires c == a + [e]
    ensures start + Adds(a) + [Add(e)] == start + Adds(c)
  {
    LogStep(start, a, [e], c);
    assert Adds([e]) == [Add(e)];
  }

  /** Issuing the writes of `a` and then those of `b` issues the writes of `a + b`. */
  lemma LogStep(start: seq<Write>, a: seq<Entry>, b: seq<Entry>, c: seq<Entry>)
    requires c == a + b
    ensures start + Adds(a) + Adds(b) == start + Adds(c)
    ensures |a| + |b| == |c|
  {
    MapAppend(a, b, (e: Entry) => Add(e));
    assert start + Adds(a) + Adds(b) == start + (Adds(a) + Adds(b));
  }

  /** The backup envelope handed to `JSON.stringify`. */
  function BackupValue(user: Principal, now: string, data: seq<Record>): (b: Json)
    ensures b.JObj? && forall k :: k in b.fields <==> k in {"version", "timestamp", "user", "userId", "totalEntries", "data"}
    ensures b.fields["version"] == JStr(BackupVersion) && b.fields["timestamp"] == JStr(now)
    ensures b.fields["user"] == JStr(if user.displayName != "" then user.displayName else user.email)
    ensures b.fields["userId"] == JStr(user.uid)
    ensures b.fields["totalEntries"] == JNum(|data|) && b.fields["data"] == ToJsonArray(data)
  {
    JObj(map[
      "version" := JStr(BackupVersion),
      "timestamp" := JStr(now),
      "user" := JStr(Or(user.displayName, user.email)),
      "userId" := JStr(user.uid),
      "totalEntries" := JNum(|data|),
      "data" := ToJsonArray(data)])
  }

  /** `backup_${displayName || 'user'}_${day}.json`. */
  function BackupName(user: Principal, now: string): (name: string)
    ensures IsPrefix("backup_", name) && IsSuffix(".json", name)
    ensures user.displayName == "" ==> IsPrefix("backup_user_", name)
  {
    "backup_" + Or(user.displayName, "user") + "_" + IsoDay(now) + ".json"
  }

  class Session {
    /** The mirror of the user's collection. */
    var achievements: seq<Record>
    /** The sorted copy stored by the last render of non-empty data. */
    var filteredAchievements: seq<Record>
    var currentFilter: string
    var currentSort: string
    /** The text of the search box. */
    var search: string
    /** The id whose delete the confirmation dialog would run, if one is pending. */
    var pending: Option<string>
    /** The writes issued to the store, oldest first. */
    var issued: seq<Write>

    /** The state when the page loads. */
    constructor()
      ensures achievements == [] && filteredAchievements == []
      ensures currentFilter == AllTypes && currentSort == DateDesc && search == ""
      ensures pending == None && issued == []
    {
      achievements := [];
      filteredAchievements := [];
      currentFilter := AllTypes;
      currentSort := DateDesc;
      search := "";
      pending := None;
      issued := [];
    }

    /** `renderAchievements(data)`: empty data leaves the stored copy as it was; other
        data is copied, the copy sorted in place under the current sort, and stored. */
    method Render(data: seq<Record>)
      modifies this`filteredAchievements
      ensures data == [] ==> filteredAchievements == old(filteredAchievements)
      ensures data != [] ==> filteredAchievements == SortBy(ComparatorFor(currentSort), data)
    {
      if |data| == 0 {
        return;
      }
      var copy := new Record[|data|](i requires 0 <= i < |data| => data[i]);
      assert copy[..] == data;
      SortInPlace(copy, ComparatorFor(currentSort));
      filteredAchievements := copy[..];
    }

    /** `filterAchievements`: renders the view of the mirror under the current filter and
        search. */
    method FilterAchievements()
      modifies this`filteredAchievements
      ensures var view := FilterView(achievements, currentFilter, search);
        && (view == [] ==> filteredAchievements == old(filteredAchievements))
        && (view != [] ==> filteredAchievements == SortBy(ComparatorFor(currentSort), view))
    {
      Render(FilterView(achievements, currentFilter, search));
    }

    /** Typing in the search box. */
    method SetSearch(text: string)
      modifies this`search, this`filteredAchievements
      ensures search == text
      ensures var view := FilterView(achievements, currentFilter, text);
        && (view == [] ==> filteredAchievements == old(filteredAchievements))
        && (view != [] ==> filteredAchievements == SortBy(ComparatorFor(currentSort), view))
    {
      search := text;
      FilterAchievements();
    }

    /** Choosing a sort value. */
    method SetSort(order: string)
      modifies this`currentSort, this`filteredAchievements
      ensures currentSort == order
      ensures var view := FilterView(achievements, currentFilter, search);
        && (view == [] ==> filteredAchievements == old(filteredAchievements))
        && (view != [] ==> filteredAchievements == SortBy(ComparatorFor(order), view))
    {
      currentSort := order;
      FilterAchievements();
    }

    /** Clicking a type filter button. */
    method SetFilter(kind: string)
      modifies this`currentFilter, this`filteredAchievements
      ensures currentFilter == kind
      ensures var view := FilterView(achievements, kind, search);
        && (view == [] ==> filteredAchievements == old(filteredAchievements))
        && (view != [] ==> filteredAchievements == SortBy(ComparatorFor(currentSort), view))
    {
      currentFilter := kind;
      FilterAchievements();
    }

    /** The snapshot callback: the mirror becomes exactly the snapshot's documents, the
        whole mirror is rendered (whatever the filter and search), and the counters are
        recomputed. */
    method OnSnapshot(docs: seq<Doc>) returns (stats: Stats)
      modifies this`achievements, this`filteredAchievements
      ensures achievements == Mirror(docs)
      ensures docs == [] ==> filteredAchievements == old(filteredAchievements)
      ensures docs != [] ==> filteredAchievements == SortBy(ComparatorFor(currentSort), Mirror(docs))
      ensures stats == StatsOf(Mirror(docs))
    {
      achievements := [];
      var i := 0;
      while i < |docs|
        invariant 0 <= i <= |docs|
        invariant achievements == Mirror(docs[..i])
        invariant filteredAchievements == old(filteredAchievements)
      {
        achievements := achievements + [Record(docs[i].id, docs[i].data)];
        i := i + 1;
      }
      assert docs[..i] == docs;
      Render(achievements);
      stats := StatsOf(achievements);
    }

    /** Signing out empties the mirror; the stored render result is kept. */
    method Logout()
      modifies this`achievements
      ensures achievements == []
    {
      achievements := [];
    }

    /** `deleteAchievement(id)`: opens the confirmation with a delete of `id`, replacing
        whatever was pending. */
    method DeleteAchievement(id: string)
      modifies this`pending
      ensures pending == Some(id)
    {
      pending := Some(id);
    }

    /** `closeConfirmModal`: empties the slot without running it. */
    method CloseConfirm()
      modifies this`pending
      ensures pending == None
    {
      pending := None;
    }

    /** The confirm button: runs the pending delete, if any, then empties the slot. */
    method ConfirmDelete()
      modifies this`pending, this`issued
      ensures pending == None
      ensures old(pending).None? ==> issued == old(issued)
      ensures old(pending).Some? ==> issued == old(issued) + [Delete(old(pending).value)]
    {
      if pending.Some? {
        issued := issued + [Delete(pending.value)];
      }
      CloseConfirm();
    }

    /** `handleCsvImport` on a file read at time `now`: missing dates default to the day
        of `now`. */
    method ImportCsv(text: string, now: string) returns (imported: nat)
      modifies this`issued
      ensures issued == old(issued) + Adds(CsvEntries(text, IsoDay(now)))
      ensures imported == |CsvEntries(text, IsoDay(now))|
    {
      imported := ImportCsvText(text, IsoDay(now));
    }

    /** The importer's loop over the lines of the file: one `add` per non-blank line
        after line 0; returns the count it reports. */
    method ImportCsvText(text: string, today: string) returns (imported: nat)
      modifies this`issued
      ensures issued == old(issued) + Adds(CsvEntries(text, today))
      ensures imported == |CsvEntries(text, today)|
    {
      var lines := Split(text, '\n');
      ghost var body := lines[1..];
      ghost var start := issued;
      imported := 0;
      var i := 1;
      while i < |lines|
        invariant 1 <= i <= |lines|
        invariant issued == start + Adds(ImportPrefix(body, i - 1, today))
        invariant imported == |ImportPrefix(body, i - 1, today)|
      {
        assert body[i - 1] == lines[i];
        ghost var before := ImportPrefix(body, i - 1, today);
        var added := ImportLine(lines[i], today);
        imported := imported + added;
        LogStep(start, before, LineEntries(lines[i], today), ImportPrefix(body, i, today));
        i := i + 1;
      }
      ImportPrefixWhole(text, today);
    }

    /** One turn of the importer's loop: a line whose trim is empty is skipped; any
        other line is parsed and added, and counted. */
    method ImportLine(line: string, today: string) returns (added: nat)
      modifies this`issued
      ensures issued == old(issued) + Adds(LineEntries(line, today))
      ensures added == |LineEntries(line, today)|
    {
      if Blank(line) {
        assert Adds([]) == [];
        return 0;
      }
      var entry := ParseRow(line, today);
      issued := issued + [Add(entry)];
      added := 1;
      assert Adds([entry]) == [Add(entry)];
    }

    /** The per-element loop of both JSON importers, once `JSON.parse` has produced
        `parsed` at time `now`: a non-array is rejected with nothing written; an array
        gets one `add` per element, and its length is reported. */
    method ImportJson(parsed: Json, now: string) returns (outcome: ImportOutcome)
      requires parsed.JArr? ==> forall e :: e in parsed.items ==> Importable(e)
      modifies this`issued
      ensures !parsed.JArr? ==> outcome == NotAnArray && issued == old(issued)
      ensures parsed.JArr? ==> outcome == Imported(|parsed.items|)
      ensures parsed.JArr? ==> issued == old(issued) + Adds(JsonEntries(parsed.items, IsoDay(now)))
    {
      if !parsed.JArr? {
        return NotAnArray;
      }
      var items := parsed.items;
      var today := IsoDay(now);
      ghost var start := issued;
      var i := 0;
      while i < |items|
        invariant 0 <= i <= |items|
        invariant issued == start + Adds(JsonEntries(items[..i], today))
      {
        assert items[i] in items;
        var entry := EntryFromJson(items[i], today);
        JsonEntriesNext(items, i, today);
        LogPush(start, JsonEntries(items[..i], today), entry, JsonEntries(items[..i + 1], today));
        issued := issued + [Add(entry)];
        i := i + 1;
      }
      assert items[..i] == items;
      outcome := Imported(|items|);
    }

    /** `handleJsonImport`: `parsed` is what `JSON.parse` made of the file, `None` when it
        threw. */
    method ImportJsonFile(parsed: Option<Json>, now: string) returns (outcome: ImportOutcome)
      requires parsed.Some? && parsed.value.JArr? ==> forall e :: e in parsed.value.items ==> Importable(e)
      modifies this`issued
      ensures parsed.None? ==> outcome == ParseFailed && issued == old(issued)
      ensures parsed.Some? && !parsed.value.JArr? ==> outcome == NotAnArray && issued == old(issued)
      ensures parsed.Some? && parsed.value.JArr? ==>
        outcome == Imported(|parsed.value.items|)
        && issued == old(issued) + Adds(JsonEntries(parsed.value.items, IsoDay(now)))
    {
      if parsed.None? {
        return ParseFailed;
      }
      outcome := ImportJson(parsed.value, now);
    }

    /** `handleJsonPaste`: a box holding only white space is refused before parsing;
        otherwise as the file importer, with `parsed` what `JSON.parse` made of `text`. */
    method ImportJsonPaste(text: string, parsed: Option<Json>, now: string) returns (outcome: ImportOutcome)
      requires parsed.Some? && parsed.value.JArr? ==> forall e :: e in parsed.value.items ==> Importable(e)
      modifies this`issued
      ensures Trim(text) == "" ==> outcome == NothingPasted && issued == old(issued)
      ensures Trim(text) != "" && parsed.None? ==> outcome == ParseFailed && issued == old(issued)
      ensures Trim(text) != "" && parsed.Some? && !parsed.value.JArr? ==> outcome == NotAnArray && issued == old(issued)
      ensures Trim(text) != "" && parsed.Some? && parsed.value.JArr? ==>
        outcome == Imported(|parsed.value.items|)
        && issued == old(issued) + Adds(JsonEntries(parsed.value.items, IsoDay(now)))
    {
      if Trim(text) == "" {
        return NothingPasted;
      }
      outcome := ImportJsonFile(parsed, now);
    }

    /** `exportToCsv`: refused on an empty mirror, otherwise the CSV text of the mirror. */
    method ExportToCsv() returns (result: Export)
      ensures achievements == [] <==> result == NoData
      ensures achievements != [] ==> result == Ready(Download(CsvExportName, CsvMime, CsvBody(CsvText(achievements))))
    {
      if |achievements| == 0 {
        return NoData;
      }
      var csv := ConvertToCsv(achievements);
      result := Ready(Download(CsvExportName, CsvMime, CsvBody(csv)));
    }

    /** `exportToJson`: refused on an empty mirror, otherwise the mirror as a JSON array. */
    method ExportToJson() returns (result: Export)
      ensures achievements == [] <==> result == NoData
      ensures achievements != [] ==> result == Ready(Download(JsonExportName, JsonMime, JsonBody(ToJsonArray(achievements))))
    {
      if |achievements| == 0 {
        return NoData;
      }
      result := Ready(Download(JsonExportName, JsonMime, JsonBody(ToJsonArray(achievements))));
    }

    /** `exportFiltered`: refused when the stored render result is empty, otherwise that
        result as a JSON array. */
    method ExportFiltered() returns (result: Export)
      ensures filteredAchievements == [] <==> result == NoData
      ensures filteredAchievements != [] ==>
        result == Ready(Download(FilteredExportName, JsonMime, JsonBody(ToJsonArray(filteredAchievements))))
    {
      if |filteredAchievements| == 0 {
        return NoData;
      }
      result := Ready(Download(FilteredExportName, JsonMime, JsonBody(ToJsonArray(filteredAchievements))));
    }

    /** `createBackup` at time `now`: refused on an empty mirror, otherwise the envelope
        holding the whole mirror. */
    method CreateBackup(user: Principal, now: string) returns (result: Export)
      ensures achievements == [] <==> result == NoData
      ensures achievements != [] ==>
        result == Ready(Download(BackupName(user, now), JsonMime, JsonBody(BackupValue(user, now, achievements))))
    {
      if |achievements| == 0 {
        return NoData;
      }
      result := Ready(Download(BackupName(user, now), JsonMime, JsonBody(BackupValue(user, now, achievements))));
    }
  }

  /** The backup names its version, counts the mirror's entries, and carries them so that
      importing its `data` array gives the entries back. */
  lemma BackupCarriesMirror(user: Principal, now: string, data: seq<Record>, today: string)
    requires forall r :: r in data ==> r.data.kind != "" && r.data.title != "" && r.data.date != ""
    ensures var b := BackupValue(user, now, data);
      && b.JObj? && "version" in b.fields && b.fields["version"] == JStr("1.0")
      && "totalEntries" in b.fields && b.fields["totalEntries"] == JNum(|data|)
      && "data" in b.fields && b.fields["data"].JArr?
      && (forall e :: e in b.fields["data"].items ==> Importable(e))
      && JsonEntries(b.fields["data"].items, today) == Entries(data)
  {
    JsonExportImport(data, today);
  }

  /** The backup file is named after the user (or `user`) and the day of `now`. */
  lemma BackupNameOfTimestamp(user: Principal, day: string, time: string)
    requires 'T' !in day
    ensures BackupName(user, day + "T" + time)
         == "backup_" + (if user.displayName != "" then user.displayName else "user") + "_" + day + ".json"
  {
    IsoDayOfTimestamp(day, time);
  }
}
