/**
 * CafeteriaReportService: the older form of the daily cafeteria report. It does
 * what AttendanceReportService does with explicit loops; the functions of
 * AttendanceReport specify its steps, and the one difference, a null excluded
 * name, is stated as a lemma.
 */
module CafeteriaReport {
  import opened Wrappers
  import opened Dto
  import opened JavaStrings
  import FaceApi
  import ReportLayout
  import CafeteriaPivot
  import opened AttendanceReport

  /** fetchListNames: the loop putting each list with an id and a name with text. */
  method FetchListNames(api: FaceApi.Remote) returns (r: Result<map<int, string>>)
    ensures r == AttendanceReport.FetchListNames(api)
  {
    var reply := api.faceLists(FaceListLimit);
    if reply.Thrown? {
      return Failure(RemoteFailure);
    }
    var names: map<int, string> := map[];
    if reply.body.Some? && reply.body.value.data.Some? {
      var lists := reply.body.value.data.value;
      ghost var es := NameEntries(lists);
      assert es[..0] == [];
      for i := 0 to |lists|
        invariant names == PutAll(es[..i])
      {
        var l := lists[i];
        assert es[..i + 1][..i] == es[..i];
        assert es[..i + 1][i] == NameEntry(l);
        if l.id.Some? && HasText(l.name) {
          names := names[l.id.value := Trim(l.name.value)];
        }
      }
      assert es[..|lists|] == es;
    }
    return Success(names);
  }

  /** The excluded names, lower-cased and trimmed; a null set, or a null name in
      it, throws. */
  function ExcludedNames(cfg: CafeteriaConfig): (r: Result<set<string>>)
    ensures r.Failure? <==> cfg.excludedListNames.None? || None in cfg.excludedListNames.value
    ensures r.Failure? ==> r.error == NullPointer
    ensures r.Success? ==> forall n :: n in r.value <==> exists s :: Some(s) in cfg.excludedListNames.value && n == Trim(ToLower(s))
  {
    match cfg.excludedListNames
    case None => Failure(NullPointer)
    case Some(names) =>
      if None in names then Failure(NullPointer)
      else Success(set s | s in names && s.Some? :: Trim(ToLower(s.value)))
  }

  /** Without a null name the exclusions agree with AttendanceReportService's; with
      one, only this service throws. */
  lemma ExcludedNamesAgree(cfg: CafeteriaConfig)
    ensures cfg.excludedListNames.Some? && None !in cfg.excludedListNames.value ==>
      ExcludedNames(cfg) == AttendanceReport.ExcludedNames(cfg)
    ensures cfg.excludedListNames.Some? && None in cfg.excludedListNames.value ==>
      ExcludedNames(cfg).Failure? && AttendanceReport.ExcludedNames(cfg).Success?
  {
    if cfg.excludedListNames.Some? && None !in cfg.excludedListNames.value {
      var mine := ExcludedNames(cfg).value;
      var theirs := AttendanceReport.ExcludedNames(cfg).value;
      forall n ensures n in mine <==> n in theirs {
        if n in theirs {
          var s :| s in cfg.excludedListNames.value && n == SafeLower(s);
          assert s.Some?;
        }
      }
      assert mine == theirs;
    }
  }

  /** The loop of queryUniqueListItemIds over one list's detections: adds each
      detection's list-item id to `into`; a null detection throws. */
  method AddItemIds(dets: seq<Option<Detection>>, into: set<int>) returns (r: Result<set<int>>)
    ensures ItemIdsOf(dets).Failure? ==> r == Failure(NullPointer)
    ensures ItemIdsOf(dets).Success? ==> r == Success(into + ItemIdsOf(dets).value)
  {
    var unique := into;
    assert dets[..0] == [];
    for i := 0 to |dets|
      invariant None !in dets[..i]
      invariant unique == into + ItemIdsOf(dets[..i]).value
    {
      var d := dets[i];
      assert dets[..i + 1] == dets[..i] + [d];
      ItemIdsSnoc(dets[..i], d);
      if d.None? {
        assert None in dets;
        return Failure(NullPointer);
      }
      if d.value.listItem.Some? && d.value.listItem.value.id.Some? {
        unique := unique + {d.value.listItem.value.id.value};
      }
    }
    assert dets[..|dets|] == dets;
    return Success(unique);
  }

  /** queryUniqueListItemIds, proved to compute what AttendanceReportService's does. */
  method QueryUniqueListItemIds(api: FaceApi.Remote, analyticsIds: Option<seq<int>>, start: int, end: int, listIds: seq<int>)
    returns (r: Result<map<int, set<int>>>)
    requires AllWindowsEnd(api, analyticsIds, listIds, start, end)
    ensures r == UniqueItemIds(api, analyticsIds, listIds, start, end)
  {
    var uniques: map<int, set<int>> := map[];
    assert listIds[..0] == [];
    for i := 0 to |listIds|
      invariant AllWindowsEnd(api, analyticsIds, listIds[..i], start, end)
      invariant UniqueItemIds(api, analyticsIds, listIds[..i], start, end) == Success(uniques)
    {
      var listId := listIds[i];
      assert listIds[..i + 1][..i] == listIds[..i];
      assert AllWindowsEnd(api, analyticsIds, listIds[..i + 1], start, end);
      assert listId in listIds[..i + 1];
      assert WindowEnds(api, analyticsIds, listId, start, end);
      ghost var base := Window(analyticsIds, listId, start, end);
      assert FaceApi.PagingEnds(api, base, DetectionPageLimit);
      assert base == FaceApi.DetectionsQuery(Some(listId), analyticsIds, Some(start), Some(end), None, None, None);
      ghost var last: nat :| FaceApi.Stops(api, base, DetectionPageLimit, last);
      FaceApi.AllDetectionsAt(api, base, DetectionPageLimit, last);
      var dets, _ := FaceApi.GetAllDetectionsInWindow(api, Some(listId), analyticsIds, Some(start), Some(end),
                                                      DetectionPageLimit, last);
      if dets.Failure? {
        UniqueItemIdsFailurePersists(api, analyticsIds, listIds, start, end, i + 1);
        return Failure(dets.error);
      }
      var unique := if listId in uniques then uniques[listId] else {};
      var grown := AddItemIds(dets.value, unique);
      if grown.Failure? {
        UniqueItemIdsFailurePersists(api, analyticsIds, listIds, start, end, i + 1);
        return Failure(grown.error);
      }
      uniques := uniques[listId := grown.value];
    }
    assert listIds[..|listIds|] == listIds;
    UniqueItemIdsMeaning(api, analyticsIds, listIds, start, end);
    // every list already has its set, so the second loop adds nothing
    for i := 0 to |listIds|
      invariant UniqueItemIds(api, analyticsIds, listIds, start, end) == Success(uniques)
    {
      var id := listIds[i];
      if id !in uniques {
        uniques := uniques[id := {}];
      }
    }
    return Success(uniques);
  }

  /** The rows of CafeteriaReportService's daily report. */
  ghost function DailyRows(api: FaceApi.Remote, cfg: CafeteriaConfig, only: Option<seq<int>>, w: MealWindows)
    : Result<seq<CafeteriaPivot.CafeteriaPivotRow>>
    requires ReportWindowsEnd(api, cfg, only, w, ExcludedNames(cfg))
  {
    DailyRowsWith(api, cfg, only, w, ExcludedNames(cfg))
  }

  /** The two services build the same rows unless an excluded name is null, which
      only this one rejects, once the list names have been read. */
  lemma DailyRowsAgree(api: FaceApi.Remote, cfg: CafeteriaConfig, only: Option<seq<int>>, w: MealWindows)
    requires ReportWindowsEnd(api, cfg, only, w, ExcludedNames(cfg))
    ensures cfg.excludedListNames.Some? && None !in cfg.excludedListNames.value ==>
      && ReportWindowsEnd(api, cfg, only, w, AttendanceReport.ExcludedNames(cfg))
      && DailyRows(api, cfg, only, w) == AttendanceReport.DailyRows(api, cfg, only, w)
    ensures AttendanceReport.FetchListNames(api).Success? && cfg.excludedListNames.Some? && None in cfg.excludedListNames.value ==>
      DailyRows(api, cfg, only, w) == Failure(NullPointer)
  {
    ExcludedNamesAgree(cfg);
  }

  /** buildSingleDayReport up to the workbook: the same steps, inline. */
  method BuildSingleDayReport(api: FaceApi.Remote, cfg: CafeteriaConfig, only: Option<seq<int>>, w: MealWindows)
    returns (r: Result<ReportLayout.Sheet>)
    requires ReportWindowsEnd(api, cfg, only, w, ExcludedNames(cfg))
    ensures DailyRows(api, cfg, only, w).Failure? ==> r == Failure(DailyRows(api, cfg, only, w).error)
    ensures DailyRows(api, cfg, only, w).Success? ==>
      r == Success(ReportLayout.Sheet(SheetName, ReportLayout.PivotRows(DailyRows(api, cfg, only, w).value), None))
  {
    var names := FetchListNames(api);
    if names.Failure? {
      return Failure(names.error);
    }
    var excluded := ExcludedNames(cfg);
    if excluded.Failure? {
      return Failure(excluded.error);
    }
    var targets := TargetListIds(only, names.value, excluded.value);
    var a := cfg.analyticsIds;
    var b := QueryUniqueListItemIds(api, a, w.breakfastStart, w.breakfastEnd, targets);
    if b.Failure? {
      return Failure(b.error);
    }
    var l := QueryUniqueListItemIds(api, a, w.lunchStart, w.lunchEnd, targets);
    if l.Failure? {
      return Failure(l.error);
    }
    var d := QueryUniqueListItemIds(api, a, w.dinnerStart, w.dinnerEnd, targets);
    if d.Failure? {
      return Failure(d.error);
    }
    var rows := PivotRows(names.value, targets, b.value, l.value, d.value);
    var sheet := ReportLayout.ExportCafeteriaPivot(SheetName, rows);
    return Success(sheet);
  }
}
