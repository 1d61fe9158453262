/**
 Short sessions on concrete data, each driving the dashboard's handlers in the order
 a user would and stating what comes out: the writes issued, the stored render
 result, and what the exports offer.
 */
module Scenarios {
  import opened Text
  import opened Records
  import opened Projection
  import opened Ordering
  import opened Codec
  import opened Dashboard

  const Hackathon := Entry("achievement", "Hackathon", "Won first place", "2024-01-10", "", "", "")
  const Finals := Entry("result", "Finals", "", "2024-06-01", "A", "State University", "")

  const HackathonDoc := Doc("a1", Hackathon)
  const FinalsDoc := Doc("b1", Finals)

  /** Asking to delete and then cancelling issues no write. */
  method CancelledDeleteWritesNothing() returns (log: seq<Write>, slot: Option<string>)
    ensures log == [] && slot == None
  {
    var s := new Session();
    s.DeleteAchievement("a1");
    s.CloseConfirm();
    log, slot := s.issued, s.pending;
  }

  /** Confirming runs the pending delete once; a second confirm finds the slot empty. */
  method ConfirmRunsOnce() returns (log: seq<Write>)
    ensures log == [Delete("a1")]
  {
    var s := new Session();
    s.DeleteAchievement("a1");
    s.ConfirmDelete();
    s.ConfirmDelete();
    log := s.issued;
  }

  /** Opening a second confirmation replaces the first: only the later delete runs. */
  method SecondRequestReplacesFirst() returns (log: seq<Write>)
    ensures log == [Delete("b1")]
  {
    var s := new Session();
    s.DeleteAchievement("a1");
    s.DeleteAchievement("b1");
    s.ConfirmDelete();
    log := s.issued;
  }

  /** A snapshot of two documents: the mirror holds both, with their ids, and the
      counters see one achievement and one result. */
  method SnapshotCounts() returns (mirror: seq<Record>, stats: Stats)
    ensures mirror == [Record("a1", Hackathon), Record("b1", Finals)]
    ensures stats == Stats(2, 1, 1, 0)
  {
    var s := new Session();
    stats := s.OnSnapshot([HackathonDoc, FinalsDoc]);
    mirror := s.achievements;
    assert mirror == [Record("a1", Hackathon), Record("b1", Finals)];
    SnapshotKinds();
  }

  /** The two mirrored records split one per type. */
  lemma SnapshotKinds()
    ensures var mirror := [Record("a1", Hackathon), Record("b1", Finals)];
      && Select(mirror, TypeIs("achievement")) == [Record("a1", Hackathon)]
      && Select(mirror, TypeIs("result")) == [Record("b1", Finals)]
      && Select(mirror, TypeIs("record")) == []
  {
    var mirror := [Record("a1", Hackathon), Record("b1", Finals)];
    assert mirror[1..] == [Record("b1", Finals)];
  }

  /** Both dates parse to the expected calendar days. */
  lemma HackathonDay()
    ensures IsIsoDate(Hackathon.date)
    ensures Year(Hackathon.date) == 2024 && Month(Hackathon.date) == 1 && Day(Hackathon.date) == 10
  {
  }

  lemma FinalsDay()
    ensures IsIsoDate(Finals.date)
    ensures Year(Finals.date) == 2024 && Month(Finals.date) == 6 && Day(Finals.date) == 1
  {
  }

  /** The Finals date is the later one. */
  lemma FinalsIsLater()
    ensures DateDiff(Hackathon.date, Finals.date) < 0
  {
    HackathonDay();
    FinalsDay();
    assert DaysBeforeMonth(2024, 1) == 0;
    assert DaysBeforeMonth(2024, 6) == 152;
    assert DayNumber(2024, 1, 10) < DayNumber(2024, 6, 1);
  }

  /** Newest first: the date-descending sort puts Finals before Hackathon. */
  lemma SortTwoByDate()
    ensures SortBy(ComparatorFor(DateDesc), [Record("a1", Hackathon), Record("b1", Finals)])
         == [Record("b1", Finals), Record("a1", Hackathon)]
  {
    var a, b := Record("a1", Hackathon), Record("b1", Finals);
    var cmp := ComparatorFor(DateDesc);
    FinalsIsLater();
    assert cmp(b, a) < 0;
    assert [a, b][1..] == [b];
    assert [b][1..] == [];
    assert SortBy(cmp, [b]) == Insert(cmp, b, SortBy(cmp, [])) == [b];
    assert Insert(cmp, a, [b]) == [b] + Insert(cmp, a, []) == [b, a];
  }

  /** With the default sort (`date-desc`) the later entry is shown first. */
  method NewestFirstAfterSnapshot() returns (shown: seq<Record>)
    ensures shown == [Record("b1", Finals), Record("a1", Hackathon)]
  {
    var s := new Session();
    var _ := s.OnSnapshot([HackathonDoc, FinalsDoc]);
    shown := s.filteredAchievements;
    SortTwoByDate();
  }

  /** Of two records, only the one of type `result` passes the `result` type filter. */
  lemma OnlyTheResult(a: Record, b: Record)
    requires a.data.kind != "result" && b.data.kind == "result"
    ensures FilterView([a, b], "result", "") == [b]
  {
    var isResult := TypeIs("result");
    assert Lower("") == "";
    assert [a, b][1..] == [b] && [b][1..] == [];
    assert Select([b], isResult) == [b] + Select([], isResult);
    assert Select([a, b], isResult) == Select([b], isResult);
  }

  /** Of a snapshot of two documents, the `result` filter button shows only the one of
      type `result`. */
  method FilterByType(first: Doc, second: Doc) returns (shown: seq<Record>)
    requires first.data.kind != "result" && second.data.kind == "result"
    ensures shown == [Record(second.id, second.data)]
  {
    var s := new Session();
    var a, b := Record(first.id, first.data), Record(second.id, second.data);
    var _ := s.OnSnapshot([first, second]);
    assert s.achievements == [a, b];
    OnlyTheResult(a, b);
    s.SetFilter("result");
    shown := s.filteredAchievements;
    SortSingle(ComparatorFor(s.currentSort), b);
  }

  lemma SortSingle(cmp: Comparator, r: Record)
    ensures SortBy(cmp, [r]) == [r]
  {
    assert [r][1..] == [];
  }

  /** A CSV file holding only the header line imports nothing and issues no write. */
  method HeaderOnlyCsv(now: string) returns (imported: nat, log: seq<Write>)
    ensures imported == 0 && log == []
  {
    var s := new Session();
    HeaderOneLine();
    SingleLineImportsNothing(HeaderLine, IsoDay(now));
    imported := s.ImportCsv(HeaderLine, now);
    log := s.issued;
  }

  /** A JSON object where an array is expected is refused, and nothing is written. */
  method JsonObjectRejected(now: string) returns (outcome: ImportOutcome, log: seq<Write>)
    ensures outcome == NotAnArray && log == []
  {
    var s := new Session();
    outcome := s.ImportJsonFile(Some(JObj(map["type" := JStr("achievement")])), now);
    log := s.issued;
  }

  /** Pasting only white space is refused before parsing. */
  method BlankPasteRejected(now: string) returns (outcome: ImportOutcome, log: seq<Write>)
    ensures outcome == NothingPasted && log == []
  {
    var s := new Session();
    outcome := s.ImportJsonPaste(" \n", None, now);
    log := s.issued;
  }

  /** A JSON array of one empty object imports one entry made of the defaults. */
  method JsonDefaults(now: string) returns (outcome: ImportOutcome, log: seq<Write>)
    ensures outcome == Imported(1)
    ensures log == [Add(Entry("achievement", "Untitled", "", IsoDay(now), "", "", ""))]
  {
    var s := new Session();
    var empty := JObj(map[]);
    assert Importable(empty);
    outcome := s.ImportJson(JArr([empty]), now);
    log := s.issued;
    MapAt(JsonEntries([empty], IsoDay(now)), (e: Entry) => Add(e), 0);
  }

  /** After signing out, the mirror is empty and the exports refuse, but a later empty
      snapshot does not clear the stored render result: the filtered export still offers
      the records of the previous session. */
  method StaleFilteredExportAfterLogout() returns (full: Export, filtered: Export)
    ensures full == NoData
    ensures filtered.Ready? && filtered.file.body == JsonBody(ToJsonArray([Record("a1", Hackathon)]))
  {
    var s := new Session();
    var _ := s.OnSnapshot([HackathonDoc]);
    assert s.filteredAchievements == [Record("a1", Hackathon)];
    s.Logout();
    var _ := s.OnSnapshot([]);
    full := s.ExportToJson();
    filtered := s.ExportFiltered();
  }

  /** Exporting the mirror to CSV and importing the file issues one `add` per record,
      carrying the record's entry, when no field holds a comma, a quote or a line break. */
  method CsvExportReimports(docs: seq<Doc>, now: string) returns (log: seq<Write>)
    requires docs != [] && forall d :: d in docs ==> CsvSafe(d.data)
    ensures log == Adds(Entries(Mirror(docs)))
  {
    var s := new Session();
    var _ := s.OnSnapshot(docs);
    var offered := s.ExportToCsv();
    MirrorCsvSafe(docs);
    CsvRoundTrip(Mirror(docs), IsoDay(now));
    var _ := s.ImportCsv(offered.file.body.text, now);
    log := s.issued;
  }

  lemma MirrorCsvSafe(docs: seq<Doc>)
    requires forall d :: d in docs ==> CsvSafe(d.data)
    ensures forall r :: r in Mirror(docs) ==> CsvSafe(r.data)
  {
    var recs := Mirror(docs);
    forall r | r in recs ensures CsvSafe(r.data) {
      var i :| 0 <= i < |recs| && recs[i] == r;
      assert docs[i] in docs;
    }
  }
}
