# dilijanCustomization core, modelled in Dafny

dilijanCustomization is a Spring Boot add-on to a face-recognition video platform
(the "face API"). It keeps an evacuation table in PostgreSQL that says, for each
person on each face list, whether their latest camera detection was at an entrance
stream; it builds Excel reports of who is on site and a daily cafeteria pivot of
how many distinct people were seen per list at breakfast, lunch and dinner. This
project models the core of that logic and proves what it promises.

Modules, following the Java classes:

- `EvacuationRefresh` (specification functions) and `EvacuationStatusService`
  (class `EvacuationService`): the periodic refresh (enabled lists, latest
  detection per person, built rows, saving), the manual status update and the
  active-status queries of `EvacuationStatusService`.
- `StatusRepository` (class `StatusTable`): the evacuation-status table with its
  composite key, `save`/`saveAll` as upserts, the derived query and the JPQL update
  of `EvacuationStatusRepository`.
- `FaceApi`: from `FaceApiRepository`, the query-parameter encoding, the 404 empty
  page, the pagination loop of `getAllDetectionsInWindow`, the presence report body
  and the storage URL. The remote server is a value of function fields, so every
  reply is a parameter.
- `PresenceReport` (domain/evacuation/EvacuationReportService, the presence-CSV
  version) and `PresentNamesReport` (domain/evacuation/service/EvacuationReportService,
  the present-names version): CSV parsing, who is present, and the per-list sheets.
- `ReportLayout`: the cell layout and string rules of `ReportService` (sheet-name
  sanitising, the pivot sheet with its SUM formulas, the evacuation sheets and
  their status dropdown).
- `CafeteriaPivot` (the `CafeteriaPivotRow` record with int-wrapping `total()`),
  `AttendanceReport` (`AttendanceReportService`) and `CafeteriaReport`
  (`CafeteriaReportService`, proved to agree with the former except for a null
  excluded name).
- `PostgresProps` and `UnknownListRegistry` (a class with its field).
- Helpers for the Java library behaviour the core relies on: `Wrappers` (Option,
  Result and the thrown exception kinds), `JavaStrings` (trim, isBlank,
  toLowerCase, split), `Decimal` (Long.toString, Integer.parseInt), `Sorting`
  (stable List.sort, TreeSet order) and `Dto` (the DTO records).

Java `null` is an `Option`; an exception is a `Result` failure whose error names
its kind. Methods with loops are proved against the functions that specify them.

## Model

| member | source | states |
|---|---|---|
| EvacuationRefresh.EnabledOnly | src/main/java/com/incoresoft/dilijanCustomization/domain/evacuation/service/EvacuationStatusService.java:239-242 | keeps exactly the lists whose time-attendance block is present with enabled TRUE, and never more lists than it was given |
| EvacuationRefresh.EnabledOnlySingle | src/main/java/com/incoresoft/dilijanCustomization/domain/evacuation/service/EvacuationStatusService.java:239-242 | one list is kept exactly when attendance is enabled on it |
| EvacuationRefresh.EnabledOnlyAppend | src/main/java/com/incoresoft/dilijanCustomization/domain/evacuation/service/EvacuationStatusService.java:239-242 | the filter works list by list in order: filtering a concatenation gives the concatenation of the filtered parts |
| EvacuationRefresh.ListsWithAttendanceEnabled | src/main/java/com/incoresoft/dilijanCustomization/domain/evacuation/service/EvacuationStatusService.java:233-247 | every returned list has attendance enabled; with a readable reply every enabled list of it is returned; a failed call gives no lists instead of an exception |
| EvacuationRefresh.ConfigFrom | src/main/java/com/incoresoft/dilijanCustomization/domain/evacuation/service/EvacuationStatusService.java:312-319 | the configuration is enabled exactly when attendance is on; a disabled one has no streams; an enabled one has the configured entrance and exit ids, a null id list read as empty |
| EvacuationRefresh.ArrayOf | src/main/java/com/incoresoft/dilijanCustomization/domain/evacuation/service/EvacuationStatusService.java:321-327 | the stored stream array is null exactly for an empty id list and otherwise holds the ids unchanged |
| EvacuationRefresh.AllStreams | src/main/java/com/incoresoft/dilijanCustomization/domain/evacuation/service/EvacuationStatusService.java:329-333 | the detection query's analytics ids are the entrance streams followed by the exit streams and nothing else |
| EvacuationRefresh.FetchedListsAreEnabled | src/main/java/com/incoresoft/dilijanCustomization/domain/evacuation/service/EvacuationStatusService.java:124-128 | every list the refresh fetches passes the enabled check of updateListStatuses |
| EvacuationRefresh.ResolveStartMillis | src/main/java/com/incoresoft/dilijanCustomization/domain/evacuation/service/EvacuationStatusService.java:249-253 | the window has a start exactly when lookbackDays is positive, and then it lies exactly lookbackDays times 86 400 000 ms before now |
| EvacuationRefresh.IsLaterStrict | src/main/java/com/incoresoft/dilijanCustomization/domain/evacuation/service/EvacuationStatusService.java:278-281 | isLater is a strict order: irreflexive, transitive and asymmetric |
| EvacuationRefresh.ItemIdOf | src/main/java/com/incoresoft/dilijanCustomization/domain/evacuation/service/EvacuationStatusService.java:266-269 | a detection has a person id exactly when the detection, its list item and the item's id are all non-null |
| EvacuationRefresh.LatestFoldKeys | src/main/java/com/incoresoft/dilijanCustomization/domain/evacuation/service/EvacuationStatusService.java:260-276 | the latest-per-person map has an entry for exactly the ids carried by some detection; null detections and detections without a list item or id never appear |
| EvacuationRefresh.LatestFoldChosen | src/main/java/com/incoresoft/dilijanCustomization/domain/evacuation/service/EvacuationStatusService.java:265-274 | each entry is that person's latest detection: not earlier than any of the person's detections, the first of equal timestamps, a null timestamp losing to any timestamp |
| EvacuationRefresh.FirstDetectionIsLatest | src/main/java/com/incoresoft/dilijanCustomization/domain/evacuation/service/EvacuationStatusService.java:270-272 | the first detection of a person is, so far, that person's latest |
| EvacuationRefresh.LatestMovesToLast | src/main/java/com/incoresoft/dilijanCustomization/domain/evacuation/service/EvacuationStatusService.java:271-272 | a detection later than the person's latest so far becomes the latest |
| EvacuationRefresh.LatestStays | src/main/java/com/incoresoft/dilijanCustomization/domain/evacuation/service/EvacuationStatusService.java:271-272 | a detection that is not later leaves the person's latest where it was |
| EvacuationRefresh.Lookup | src/main/java/com/incoresoft/dilijanCustomization/domain/evacuation/service/EvacuationStatusService.java:289 | latestByPerson.get throws a NullPointerException only for a null id on the immutable empty map; otherwise it gives the recorded latest detection or none |
| EvacuationRefresh.IsEntranceDetection | src/main/java/com/incoresoft/dilijanCustomization/domain/evacuation/service/EvacuationStatusService.java:304-309 | true exactly when the detection has analytics with a stream id that is one of the entrance streams, so false for an empty entrance list |
| EvacuationRefresh.BuiltStatuses | src/main/java/com/incoresoft/dilijanCustomization/domain/evacuation/service/EvacuationStatusService.java:283-302 | one row per roster item in roster order, each with the list and item ids, the configured stream arrays, status true exactly when the latest detection is an entrance one, entrance time that detection's timestamp exactly then; it throws exactly when an item id is null and there were no detections |
| EvacuationRefresh.ListItemsOf | src/main/java/com/incoresoft/dilijanCustomization/domain/evacuation/service/EvacuationStatusService.java:255-258 | one page of list items; a null reply or null data gives none and a failed call throws |
| EvacuationRefresh.SavedRows | src/main/java/com/incoresoft/dilijanCustomization/domain/evacuation/service/EvacuationStatusService.java:139-145 | the table changes only when there are rows to save, the database is up and every row has its key |
| EvacuationRefresh.PlanRowsBelongToList | src/main/java/com/incoresoft/dilijanCustomization/domain/evacuation/service/EvacuationStatusService.java:293 | every row a list's refresh saves carries that list's id |
| EvacuationRefresh.SavedRowsKeepOtherLists | src/main/java/com/incoresoft/dilijanCustomization/domain/evacuation/service/EvacuationStatusService.java:145 | saving one list's rows leaves every row of any other list as it was, present or absent |
| EvacuationRefresh.RefreshKeepsOtherLists | src/main/java/com/incoresoft/dilijanCustomization/domain/evacuation/service/EvacuationStatusService.java:79-85 | a refresh changes no row of a list it did not process, whatever exceptions the processed lists throw |
| EvacuationRefresh.SavedListOverwritesRow | src/main/java/com/incoresoft/dilijanCustomization/domain/evacuation/service/EvacuationStatusService.java:292-299 | after a list is saved each of its items' rows is the freshly built one, with the manual-override flag and exit time cleared whatever they were before |
| EvacuationStatusService.FindLatestDetections | src/main/java/com/incoresoft/dilijanCustomization/domain/evacuation/service/EvacuationStatusService.java:260-276 | the loop computes the latest detection of each person, and the immutable empty map for no detections |
| EvacuationStatusService.BuildStatuses | src/main/java/com/incoresoft/dilijanCustomization/domain/evacuation/service/EvacuationStatusService.java:283-302 | the loop computes the rows specified by BuiltStatuses, or its NullPointerException |
| EvacuationStatusService.BuiltStatusesFailurePersists | src/main/java/com/incoresoft/dilijanCustomization/domain/evacuation/service/EvacuationStatusService.java:288-289 | once building the rows of a prefix of the roster throws, building the whole roster throws |
| EvacuationStatusService.StatusSetEffect | src/main/java/com/incoresoft/dilijanCustomization/domain/evacuation/service/EvacuationStatusService.java:158-169 | updateStatus is an upsert: afterwards the key has a row with the given status and entrance time; an existing row keeps its streams, exit time and manual flag; a new row has only ids, status and entrance time; no other row changes |
| EvacuationStatusService.EvacuationService.RefreshStatuses | src/main/java/com/incoresoft/dilijanCustomization/domain/evacuation/service/EvacuationStatusService.java:70-87 | the enabled lists are processed in order and the table is the result of saving each list's rows, a list whose update throws leaving the table as it was before that list |
| EvacuationStatusService.EvacuationService.UpdateListStatuses | src/main/java/com/incoresoft/dilijanCustomization/domain/evacuation/service/EvacuationStatusService.java:123-146 | a disabled list or an empty roster writes nothing; otherwise the rows built from the latest detections are saved; it reports an exception exactly when fetching, building or saving throws |
| EvacuationStatusService.EvacuationService.UpdateStatusNow | src/main/java/com/incoresoft/dilijanCustomization/domain/evacuation/service/EvacuationStatusService.java:149-152 | the entrance time written is the current time exactly when the status is true, null otherwise |
| EvacuationStatusService.EvacuationService.UpdateStatus | src/main/java/com/incoresoft/dilijanCustomization/domain/evacuation/service/EvacuationStatusService.java:158-174 | the table afterwards is the upsert of status and entrance time for the key; with the database down or a null id nothing changes and nothing is thrown |
| EvacuationStatusService.EvacuationService.GetActiveListItemIds | src/main/java/com/incoresoft/dilijanCustomization/domain/evacuation/service/EvacuationStatusService.java:93-103 | exactly the item ids of the list's rows with status true, each once; empty when the query throws |
| EvacuationStatusService.EvacuationService.GetActiveStatuses | src/main/java/com/incoresoft/dilijanCustomization/domain/evacuation/service/EvacuationStatusService.java:110-119 | exactly the list's rows with status true, keyed by item id, each key mapped to its stored row; empty when the query throws |
| EvacuationStatusService.ActiveItems | src/main/java/com/incoresoft/dilijanCustomization/domain/evacuation/service/EvacuationStatusService.java:95-98 | the item ids of the rows the query returns are exactly the ids of the list's active rows |
| StatusRepository.Active | src/main/java/com/incoresoft/dilijanCustomization/repository/EvacuationStatusRepository.java:24 | every row findByListIdAndStatusTrue returns is a stored row of that list with status true |
| StatusRepository.ActiveIsStoredRow | src/main/java/com/incoresoft/dilijanCustomization/repository/EvacuationStatusRepository.java:16-24 | with one row per composite key, a row is returned for a list exactly when it is stored under its own key, belongs to the list and has status true |
| StatusRepository.StatusUpdated | src/main/java/com/incoresoft/dilijanCustomization/repository/EvacuationStatusRepository.java:30-35 | the JPQL update changes only the row whose two key columns both match, and only its status and entrance time; no row is added or removed |
| StatusRepository.LastWithKey | src/main/java/com/incoresoft/dilijanCustomization/repository/EvacuationStatusRepository.java:16 | the last saved record with a key is one of the records and has that key; none exists exactly when no record has it |
| StatusRepository.UpsertAt | src/main/java/com/incoresoft/dilijanCustomization/repository/EvacuationStatusRepository.java:16 | after saveAll each key holds the last saved record with that key; a key no record mentions keeps its row or stays absent |
| StatusRepository.UpsertWellKeyed | src/main/java/com/incoresoft/dilijanCustomization/repository/EvacuationStatusRepository.java:16 | saveAll keeps the table at one row per composite key, each stored under its own key |
| StatusRepository.StatusTable.FindByListIdAndStatusTrue | src/main/java/com/incoresoft/dilijanCustomization/repository/EvacuationStatusRepository.java:24 | with the database up: exactly the list's rows with status true, each once; otherwise the call throws |
| StatusRepository.StatusTable.ExistsById | src/main/java/com/incoresoft/dilijanCustomization/repository/EvacuationStatusRepository.java:16 | true exactly when both ids are set and a row is stored under that composite key; throws with the database down |
| StatusRepository.StatusTable.UpdateStatus | src/main/java/com/incoresoft/dilijanCustomization/repository/EvacuationStatusRepository.java:30-35 | with the database up the table becomes the JPQL update of it; otherwise it throws and nothing changes |
| StatusRepository.StatusTable.Save | src/main/java/com/incoresoft/dilijanCustomization/repository/EvacuationStatusRepository.java:16 | a record with both key columns replaces the row under its key; otherwise the call throws and nothing changes |
| StatusRepository.StatusTable.SaveAll | src/main/java/com/incoresoft/dilijanCustomization/repository/EvacuationStatusRepository.java:16 | all records merged in order in one transaction, or none of them when one lacks a key or the database is down |
| FaceApi.EncodeIds | src/main/java/com/incoresoft/dilijanCustomization/repository/FaceApiRepository.java:142 | the analytics_ids value is bracketed: it starts with '[' and ends with ']' |
| FaceApi.DecodeEncodeIds | src/main/java/com/incoresoft/dilijanCustomization/repository/FaceApiRepository.java:140-143 | the sent analytics_ids text reads back as exactly the ids it was made from |
| FaceApi.QueryParams | src/main/java/com/incoresoft/dilijanCustomization/repository/FaceApiRepository.java:129-144 | the query parameters come in the order the code adds them |
| FaceApi.QueryParamValues | src/main/java/com/incoresoft/dilijanCustomization/repository/FaceApiRepository.java:132-138 | limit is the given limit or 500 and sort_order the given order or "asc", in first and second place; offset, start_date, end_date and list_id carry the decimal text of their value, and the limit text reads back as the number |
| FaceApi.QueryParamsPresence | src/main/java/com/incoresoft/dilijanCustomization/repository/FaceApiRepository.java:132-144 | limit and sort_order always lead; offset, start_date, end_date and list_id are sent exactly when set; analytics_ids exactly for a non-empty list |
| FaceApi.OptionalNamesPresence | src/main/java/com/incoresoft/dilijanCustomization/repository/FaceApiRepository.java:135-144 | each optional parameter name occurs exactly when its value is set |
| FaceApi.OptionalNameIn | src/main/java/com/incoresoft/dilijanCustomization/repository/FaceApiRepository.java:132-144 | a parameter is sent exactly when it is limit or sort_order, or its value is set |
| FaceApi.AnalyticsIdsSent | src/main/java/com/incoresoft/dilijanCustomization/repository/FaceApiRepository.java:140-144 | for a non-empty id list some sent parameter is analytics_ids and its value reads back as that list |
| FaceApi.GetDetectionsFiltered | src/main/java/com/incoresoft/dilijanCustomization/repository/FaceApiRepository.java:155-161 | a 404 gives the empty page of emptyDetections (no data, total 0, pages 0, status ok); another HTTP error throws; a body is returned as it is, null included |
| FaceApi.PageData | src/main/java/com/incoresoft/dilijanCustomization/repository/FaceApiRepository.java:176 | a null page or null data counts as an empty page |
| FaceApi.StopPage | src/main/java/com/incoresoft/dilijanCustomization/repository/FaceApiRepository.java:174-180 | the loop stops at the first page from the start on that throws or holds fewer than pageLimit detections |
| FaceApi.GetAllDetectionsInWindow | src/main/java/com/incoresoft/dilijanCustomization/repository/FaceApiRepository.java:165-182 | requests offsets 0, pageLimit, 2 pageLimit, ... in turn and returns the pages' data concatenated in order up to the first short page, or the first exception; the number of requests is the stopping page plus one |
| FaceApi.FetchFromIndependent | src/main/java/com/incoresoft/dilijanCustomization/repository/FaceApiRepository.java:174-180 | the result depends only on the first stopping page, not on which later stopping page bounds the loop |
| FaceApi.AllDetectionsAt | src/main/java/com/incoresoft/dilijanCustomization/repository/FaceApiRepository.java:165-182 | whenever some page stops the loop, getAllDetectionsInWindow returns, with the result computed up to that page |
| FaceApi.SlicedFetch | src/main/java/com/incoresoft/dilijanCustomization/repository/FaceApiRepository.java:174-181 | against a server holding N items in pageLimit-sized slices the loop makes N / pageLimit + 1 requests and returns all N items once each, in order |
| FaceApi.SlicedFetchFrom | src/main/java/com/incoresoft/dilijanCustomization/repository/FaceApiRepository.java:174-181 | from any page k up to the last one the loop returns the items from offset k times pageLimit on |
| FaceApi.SlicedLastPage | src/main/java/com/incoresoft/dilijanCustomization/repository/FaceApiRepository.java:176-178 | the short remainder page of the slices stops the loop |
| FaceApi.SlicedFullPage | src/main/java/com/incoresoft/dilijanCustomization/repository/FaceApiRepository.java:177-179 | every page before the remainder is full, so the loop goes on past it |
| FaceApi.PresenceCsv | src/main/java/com/incoresoft/dilijanCustomization/repository/FaceApiRepository.java:205-206 | the presence report is the reply body as text, "" for a null body; a failed call throws |
| FaceApi.StripApiSuffix | src/main/java/com/incoresoft/dilijanCustomization/repository/FaceApiRepository.java:220 | the base URL loses a trailing "/api" or "/api/" or stays as it is |
| FaceApi.ParseHttpUrl | src/main/java/com/incoresoft/dilijanCustomization/repository/FaceApiRepository.java:223 | fromHttpUrl takes the scheme ignoring case and lower-cases it; the origin starts with http:// or https://, the rest of the text is the path followed by the query or fragment, the path is empty or starts with '/' and holds no '?' or '#'; a text that does not start with http:// or https:// is refused with IllegalArgumentException |
| FaceApi.ParseHostAndPath | src/main/java/com/incoresoft/dilijanCustomization/repository/FaceApiRepository.java:223 | "http://" + host + path, with a host free of '/', '?' and '#' and a path free of '?' and '#', parses into that origin and that path with no query |
| FaceApi.CollapseSlashes | src/main/java/com/incoresoft/dilijanCustomization/repository/FaceApiRepository.java:224-226 | build() leaves no two slashes in a row, never lengthens the path, keeps its first character and keeps every other character in order |
| FaceApi.CollapseKeepsSingleSlashes | src/main/java/com/incoresoft/dilijanCustomization/repository/FaceApiRepository.java:226 | a path without doubled slashes comes out of build() unchanged |
| FaceApi.CollapseIdempotent | src/main/java/com/incoresoft/dilijanCustomization/repository/FaceApiRepository.java:226 | sanitising a sanitised path changes nothing |
| FaceApi.CollapseDropsSlash | src/main/java/com/incoresoft/dilijanCustomization/repository/FaceApiRepository.java:226 | removing one slash of a doubled pair does not change what build() makes of the path |
| FaceApi.RelativePath | src/main/java/com/incoresoft/dilijanCustomization/repository/FaceApiRepository.java:225 | the relative part is the image path with one leading slash removed, if it has one |
| FaceApi.StoragePath | src/main/java/com/incoresoft/dilijanCustomization/repository/FaceApiRepository.java:224-226 | the built path starts with '/', has no doubled slash and consists of the base path's characters, "storage" and the relative part's characters (the part is skipped when it has no text), in that order, with a slash wherever the pieces put one or more |
| FaceApi.StorageUrl | src/main/java/com/incoresoft/dilijanCustomization/repository/FaceApiRepository.java:209-228 | no request for a null or blank path; an http or https path is used as it is; any other path is refused with IllegalArgumentException exactly when the stripped base is not an http URL, and otherwise appended to it |
| FaceApi.StorageUrlShape | src/main/java/com/incoresoft/dilijanCustomization/repository/FaceApiRepository.java:217-226 | a relative path is fetched from the base's origin, keeps the base's query, and its path has no doubled slash and holds the base path, "storage" and the relative path in that order |
| FaceApi.StorageUrlUnderApi | src/main/java/com/incoresoft/dilijanCustomization/repository/FaceApiRepository.java:217-226 | base http://host/api with path /name gives http://host/storage/name |
| FaceApi.StorageUrlDoubleSlash | src/main/java/com/incoresoft/dilijanCustomization/repository/FaceApiRepository.java:217-226 | base http://host/api with path //name also gives http://host/storage/name: the doubled slash is merged |
| FaceApi.StorageUrlTrailingSlash | src/main/java/com/incoresoft/dilijanCustomization/repository/FaceApiRepository.java:220-226 | base http://host/dir/ (dir not "api") with path name gives http://host/dir/storage/name, one slash before "storage" |
| FaceApi.StorageUrlBadBase | src/main/java/com/incoresoft/dilijanCustomization/repository/FaceApiRepository.java:223 | a base that is not an http URL makes the download throw |
| PresenceReport.NormalizeName | src/main/java/com/incoresoft/dilijanCustomization/domain/evacuation/EvacuationReportService.java:250-252 | a null name becomes ""; a name never grows |
| PresenceReport.NormalizeNameIdempotent | src/main/java/com/incoresoft/dilijanCustomization/domain/evacuation/EvacuationReportService.java:250-252 | normalising a normalised name changes nothing |
| PresenceReport.NormalizeTrimmedName | src/main/java/com/incoresoft/dilijanCustomization/domain/evacuation/EvacuationReportService.java:151-170 | a trimmed employee field with text normalises to a non-empty name already in normal form |
| PresenceReport.HeaderKeys | src/main/java/com/incoresoft/dilijanCustomization/domain/evacuation/EvacuationReportService.java:121 | each header cell is compared trimmed and lower-cased |
| PresenceReport.FirstColumn | src/main/java/com/incoresoft/dilijanCustomization/domain/evacuation/EvacuationReportService.java:120-131 | the index found is the first header cell that names the column; none is found exactly when no cell does |
| PresenceReport.ColumnChoice | src/main/java/com/incoresoft/dilijanCustomization/domain/evacuation/EvacuationReportService.java:116-135 | the column read is the first header cell naming it, or the fallback when no cell does |
| PresenceReport.FirstColumnStep | src/main/java/com/incoresoft/dilijanCustomization/domain/evacuation/EvacuationReportService.java:122-130 | one more header cell keeps an earlier match, or is the first match itself |
| PresenceReport.Columns.MaxIndex | src/main/java/com/incoresoft/dilijanCustomization/domain/evacuation/EvacuationReportService.java:137 | maxIdx is at least each of the three column indexes and equal to one of them |
| PresenceReport.UnnamedHeaderFallsBack | src/main/java/com/incoresoft/dilijanCustomization/domain/evacuation/EvacuationReportService.java:133-135 | a header naming none of the three columns reads date, employee and present from fields 0, 1 and 2 |
| PresenceReport.NoteColumn | src/main/java/com/incoresoft/dilijanCustomization/domain/evacuation/EvacuationReportService.java:122-130 | one pass of the header loop keeps each index at the first matching cell, -1 while none matched |
| PresenceReport.DetectColumns | src/main/java/com/incoresoft/dilijanCustomization/domain/evacuation/EvacuationReportService.java:116-135 | the header loop with its fallbacks yields the columns of ColumnChoice: date, employee and present with fallbacks 0, 1 and 2 |
| PresenceReport.ParseRow | src/main/java/com/incoresoft/dilijanCustomization/domain/evacuation/EvacuationReportService.java:141-173 | a data line yields a record exactly when it is not blank, has a field at every chosen column, has a name and a date with text, and the date parses |
| PresenceReport.ParseRowKept | src/main/java/com/incoresoft/dilijanCustomization/domain/evacuation/EvacuationReportService.java:150-173 | a kept row is the normalised name with its trimmed date text, the parsed time, and presence exactly when the field equals "true" ignoring case |
| PresenceReport.KeptRows | src/main/java/com/incoresoft/dilijanCustomization/domain/evacuation/EvacuationReportService.java:140-174 | the kept rows are no more than the data lines |
| PresenceReport.KeptRowsWellFormed | src/main/java/com/incoresoft/dilijanCustomization/domain/evacuation/EvacuationReportService.java:140-174 | every kept row has a non-empty normalised name and a record whose time is what its date text parses to |
| PresenceReport.RecordsOf | src/main/java/com/incoresoft/dilijanCustomization/domain/evacuation/EvacuationReportService.java:172-173 | the records of a name are no more than the rows |
| PresenceReport.RecordsOfFrom | src/main/java/com/incoresoft/dilijanCustomization/domain/evacuation/EvacuationReportService.java:172-173 | every record grouped under a name comes from a row with that name |
| PresenceReport.GroupAt | src/main/java/com/incoresoft/dilijanCustomization/domain/evacuation/EvacuationReportService.java:172-173 | a name is a key exactly when some row has it, and maps to the records of its rows in input order |
| PresenceReport.StripBom | src/main/java/com/incoresoft/dilijanCustomization/domain/evacuation/EvacuationReportService.java:106-108 | exactly one leading byte-order mark is removed, and nothing else |
| PresenceReport.PresenceRecordsOfBlankOrSingleLine | src/main/java/com/incoresoft/dilijanCustomization/domain/evacuation/EvacuationReportService.java:101-113 | a text without text, or of a single line, yields no records |
| PresenceReport.PresenceRecordsIgnoreBom | src/main/java/com/incoresoft/dilijanCustomization/domain/evacuation/EvacuationReportService.java:106-108 | a leading byte-order mark makes no difference to the records |
| PresenceReport.PresenceRecordsWellFormed | src/main/java/com/incoresoft/dilijanCustomization/domain/evacuation/EvacuationReportService.java:140-174 | every key is a non-empty normalised name with at least one record, and every record carries the time its date text parses to |
| PresenceReport.GroupWellFormed | src/main/java/com/incoresoft/dilijanCustomization/domain/evacuation/EvacuationReportService.java:172-173 | grouping well-formed rows gives non-empty normalised keys, each with records that carry their parsed times |
| PresenceReport.RowOfCsvWellFormed | src/main/java/com/incoresoft/dilijanCustomization/domain/evacuation/EvacuationReportService.java:140-174 | every kept row of a text is well formed |
| PresenceReport.PresenceRecordsOfLines | src/main/java/com/incoresoft/dilijanCustomization/domain/evacuation/EvacuationReportService.java:110-116 | for a text with more than one line the records are those of the lines after the header, read with the header's columns |
| PresenceReport.ParsePresenceCsv | src/main/java/com/incoresoft/dilijanCustomization/domain/evacuation/EvacuationReportService.java:100-176 | the parser computes the records of the text grouped by normalised name |
| PresenceReport.GroupDataLines | src/main/java/com/incoresoft/dilijanCustomization/domain/evacuation/EvacuationReportService.java:138-175 | the row loop from the second line on appends each kept row to the records of its name |
| PresenceReport.KeptRowsStep | src/main/java/com/incoresoft/dilijanCustomization/domain/evacuation/EvacuationReportService.java:140-174 | one more data line adds its row exactly when the row is kept |
| PresenceReport.GroupStep | src/main/java/com/incoresoft/dilijanCustomization/domain/evacuation/EvacuationReportService.java:172-173 | computeIfAbsent(...).add appends the record to its name's list, creating the list on first use |
| PresenceReport.LastRecordDecides | src/main/java/com/incoresoft/dilijanCustomization/domain/evacuation/EvacuationReportService.java:193-194 | the last record after the stable sort by timestamp is the deciding record: none later, and none of equal time further down |
| PresenceReport.DecidingMovesToLast | src/main/java/com/incoresoft/dilijanCustomization/domain/evacuation/EvacuationReportService.java:193 | a last record not earlier than the deciding record of the rest becomes the deciding one |
| PresenceReport.DecidingStays | src/main/java/com/incoresoft/dilijanCustomization/domain/evacuation/EvacuationReportService.java:193 | a last record earlier than the deciding record of the rest leaves it deciding |
| PresenceReport.DecidingIsUnique | src/main/java/com/incoresoft/dilijanCustomization/domain/evacuation/EvacuationReportService.java:193-194 | there is at most one deciding record |
| PresenceReport.DecidingOrder | src/main/java/com/incoresoft/dilijanCustomization/domain/evacuation/EvacuationReportService.java:193-194 | records before the deciding one are not later, and records after it are earlier |
| PresenceReport.PresentNamesDecided | src/main/java/com/incoresoft/dilijanCustomization/domain/evacuation/EvacuationReportService.java:183-200 | a name is present exactly when its deciding record says present |
| PresenceReport.AliceLeftBobStayed | src/test/java/com/incoresoft/dilijanCustomization/domain/evacuation/service/EvacuationReportServiceTest.java:79-86 | Alice present then later absent, Bob present: only Bob is on site |
| PresenceReport.SameTimeLaterRowWins | src/main/java/com/incoresoft/dilijanCustomization/domain/evacuation/EvacuationReportService.java:193-197 | of two records with the same time the one further down the file decides |
| PresenceReport.PresentAmongStep | src/main/java/com/incoresoft/dilijanCustomization/domain/evacuation/EvacuationReportService.java:189-198 | visiting one more name adds it exactly when its last sorted record is present |
| PresenceReport.PresentAmongAll | src/main/java/com/incoresoft/dilijanCustomization/domain/evacuation/EvacuationReportService.java:183-200 | after visiting every name the loop holds exactly the present names |
| PresenceReport.ResolvePresentNames | src/main/java/com/incoresoft/dilijanCustomization/domain/evacuation/EvacuationReportService.java:183-200 | the loop computes exactly the names whose deciding record is present |
| PresenceReport.ByNameIsTotalPreorder | src/main/java/com/incoresoft/dilijanCustomization/domain/evacuation/EvacuationReportService.java:68 | ordering items by lower-cased name is total and transitive, so the sort is well defined |
| PresenceReport.MatchingItems | src/main/java/com/incoresoft/dilijanCustomization/domain/evacuation/EvacuationReportService.java:65-67 | an item passes exactly when it is in the roster, its name has text and its normalised name is present |
| PresenceReport.PresentItems | src/main/java/com/incoresoft/dilijanCustomization/domain/evacuation/EvacuationReportService.java:65-69 | the present items are a permutation of the matching roster items, sorted by lower-cased name |
| PresenceReport.FirstWithId | src/main/java/com/incoresoft/dilijanCustomization/domain/evacuation/EvacuationReportService.java:82-83 | the first list with the id, or none exactly when no list has it |
| PresenceReport.FaceListMeta | src/main/java/com/incoresoft/dilijanCustomization/domain/evacuation/EvacuationReportService.java:78-84 | a found list has the requested id; a null reply or null data throws |
| PresenceReport.Put | src/main/java/com/incoresoft/dilijanCustomization/domain/evacuation/EvacuationReportService.java:71 | LinkedHashMap.put: a new key goes last, a known key keeps its place, and the key gets the new value |
| PresenceReport.SheetFor | src/main/java/com/incoresoft/dilijanCustomization/domain/evacuation/EvacuationReportService.java:49-71 | an unknown list contributes nothing; a known list contributes a sheet for exactly that list; exceptions are remote ones |
| PresenceReport.PresentItemsStable | src/main/java/com/incoresoft/dilijanCustomization/domain/evacuation/EvacuationReportService.java:65-69 | the sort is stable: items whose lower-cased names are equal keep their roster order |
| Sorting.SortByStable | src/main/java/com/incoresoft/dilijanCustomization/domain/evacuation/EvacuationReportService.java:68 | the stable sort keeps the input order of the elements that tie with any key |
| PresenceReport.SheetHoldsPresentItems | src/main/java/com/incoresoft/dilijanCustomization/domain/evacuation/EvacuationReportService.java:55-71 | a sheet holds no items when nobody is present, and otherwise exactly the roster items whose normalised name is present, in name order |
| PresenceReport.SheetsFrom | src/main/java/com/incoresoft/dilijanCustomization/domain/evacuation/EvacuationReportService.java:48-72 | the gathered sheets keep each list once, in insertion order |
| PresenceReport.SheetResults | src/main/java/com/incoresoft/dilijanCustomization/domain/evacuation/EvacuationReportService.java:48 | each id gives its own list's result |
| PresenceReport.SheetsStep | src/main/java/com/incoresoft/dilijanCustomization/domain/evacuation/EvacuationReportService.java:48-72 | one more id either ends the report with its exception, adds nothing, or puts its sheet |
| PresenceReport.SheetsSucceed | src/main/java/com/incoresoft/dilijanCustomization/domain/evacuation/EvacuationReportService.java:48-72 | the sheets are produced exactly when no id throws; otherwise the report throws what the first throwing id throws |
| PresenceReport.SheetsComeFromResults | src/main/java/com/incoresoft/dilijanCustomization/domain/evacuation/EvacuationReportService.java:59-71 | every sheet of the report is the sheet of one of the ids, with the value that id supplied |
| PresenceReport.SheetsCoverResults | src/main/java/com/incoresoft/dilijanCustomization/domain/evacuation/EvacuationReportService.java:59-71 | every id that names a list has that list's sheet |
| PresenceReport.SheetsFailurePersists | src/main/java/com/incoresoft/dilijanCustomization/domain/evacuation/EvacuationReportService.java:48-72 | once a prefix of the ids throws, the whole report throws the same |
| PresenceReport.EvacuationReportRefusesNoIds | src/main/java/com/incoresoft/dilijanCustomization/domain/evacuation/EvacuationReportService.java:37-39 | IllegalArgumentException exactly for a null or empty id list; any other exception comes from a remote call |
| PresenceReport.EvacuationReportSheets | src/main/java/com/incoresoft/dilijanCustomization/domain/evacuation/EvacuationReportService.java:48-72 | each sheet belongs to a requested id and holds what that id supplied |
| PresenceReport.EvacuationReportCoversIds | src/main/java/com/incoresoft/dilijanCustomization/domain/evacuation/EvacuationReportService.java:49-71 | every requested id whose list is known has a sheet |
| PresenceReport.SheetsAscending | src/main/java/com/incoresoft/dilijanCustomization/domain/evacuation/EvacuationReportService.java:42-48 | over ascending ids the sheets come in strictly ascending list-id order |
| PresenceReport.EvacuationReportAscending | src/main/java/com/incoresoft/dilijanCustomization/domain/evacuation/EvacuationReportService.java:42-45 | the report's sheets come in strictly ascending list-id order |
| PresenceReport.BuildEvacuationReport | src/main/java/com/incoresoft/dilijanCustomization/domain/evacuation/EvacuationReportService.java:36-72 | the gathering loop computes the report the functions specify |
| PresentNamesReport.NameColumns.MaxIndex | src/main/java/com/incoresoft/dilijanCustomization/domain/evacuation/service/EvacuationReportService.java:129 | the larger of the employee and present indexes |
| PresentNamesReport.DetectedNameColumnsMeaning | src/main/java/com/incoresoft/dilijanCustomization/domain/evacuation/service/EvacuationReportService.java:112-122 | the employee column is the first header cell containing "employee" or equal to "name", else 1; the present column the first containing "present", else 2 |
| PresentNamesReport.DetectNameColumns | src/main/java/com/incoresoft/dilijanCustomization/domain/evacuation/service/EvacuationReportService.java:112-122 | the header loop computes those columns |
| PresentNamesReport.PresentNameWellFormed | src/main/java/com/incoresoft/dilijanCustomization/domain/evacuation/service/EvacuationReportService.java:135-138 | a contributed name is non-empty and already normalised |
| PresentNamesReport.AddName | src/main/java/com/incoresoft/dilijanCustomization/domain/evacuation/service/EvacuationReportService.java:137 | LinkedHashSet.add appends a new name and leaves a known one in place |
| PresentNamesReport.Contributions | src/main/java/com/incoresoft/dilijanCustomization/domain/evacuation/service/EvacuationReportService.java:125-139 | each data line contributes what its row says, in order |
| PresentNamesReport.CollectMembers | src/main/java/com/incoresoft/dilijanCustomization/domain/evacuation/service/EvacuationReportService.java:124-140 | a name is collected exactly when some line contributes it: any present row suffices |
| PresentNamesReport.CollectDistinct | src/main/java/com/incoresoft/dilijanCustomization/domain/evacuation/service/EvacuationReportService.java:124 | the collected names are distinct |
| PresentNamesReport.CollectPrefix | src/main/java/com/incoresoft/dilijanCustomization/domain/evacuation/service/EvacuationReportService.java:124-140 | insertion order: the names of the first k lines come first, in the same order |
| PresentNamesReport.CollectStep | src/main/java/com/incoresoft/dilijanCustomization/domain/evacuation/service/EvacuationReportService.java:125-139 | one more line appends its name unless the name is already there |
| PresentNamesReport.PresentNamesOfBlankOrSingleLine | src/main/java/com/incoresoft/dilijanCustomization/domain/evacuation/service/EvacuationReportService.java:104-109 | a text without text, or of one line, yields no names |
| PresentNamesReport.PresentNamesIgnoreBom | src/main/java/com/incoresoft/dilijanCustomization/domain/evacuation/service/EvacuationReportService.java:106 | a leading byte-order mark makes no difference |
| PresentNamesReport.PresentNamesMeaning | src/main/java/com/incoresoft/dilijanCustomization/domain/evacuation/service/EvacuationReportService.java:103-141 | a name is in the result exactly when a data line contributes it: enough fields, present field "true", "1", "yes" or "да", a name that is non-empty after trim(); the names are distinct, non-empty and normalised |
| PresentNamesReport.PresentNameListOfLines | src/main/java/com/incoresoft/dilijanCustomization/domain/evacuation/service/EvacuationReportService.java:108-112 | for a text with more than one line the names are those of the lines after the header, read with the header's columns |
| PresentNamesReport.LineName | src/main/java/com/incoresoft/dilijanCustomization/domain/evacuation/service/EvacuationReportService.java:126-138 | the loop body yields exactly the name the line contributes |
| PresentNamesReport.ParseCsvPresentNames | src/main/java/com/incoresoft/dilijanCustomization/domain/evacuation/service/EvacuationReportService.java:103-141 | the parser computes the insertion-ordered present names |
| PresentNamesReport.CollectPresentNames | src/main/java/com/incoresoft/dilijanCustomization/domain/evacuation/service/EvacuationReportService.java:124-140 | the row loop computes the collected names |
| PresentNamesReport.ListMeta | src/main/java/com/incoresoft/dilijanCustomization/domain/evacuation/service/EvacuationReportService.java:88-94 | the list with the requested id, or NoSuchElementException exactly when no list among the first 100 has it |
| PresentNamesReport.SheetFor | src/main/java/com/incoresoft/dilijanCustomization/domain/evacuation/service/EvacuationReportService.java:58-82 | a sheet for exactly the requested list; exceptions are remote ones, a null reply or a missing list |
| PresentNamesReport.SheetHoldsPresentItems | src/main/java/com/incoresoft/dilijanCustomization/domain/evacuation/service/EvacuationReportService.java:63-81 | no items when nobody is present; otherwise exactly the roster items whose name has text and whose normalised name is present, in name order |
| PresentNamesReport.SheetResults | src/main/java/com/incoresoft/dilijanCustomization/domain/evacuation/service/EvacuationReportService.java:58 | each id gives its own list's result |
| PresentNamesReport.EvacuationReportRefusesNoIds | src/main/java/com/incoresoft/dilijanCustomization/domain/evacuation/service/EvacuationReportService.java:45-47 | IllegalArgumentException exactly for a null or empty id list; any other exception is remote, a null reply or a missing list |
| PresentNamesReport.UnknownListFails | src/main/java/com/incoresoft/dilijanCustomization/domain/evacuation/service/EvacuationReportService.java:60 | a requested id the face API does not know makes the whole report fail |
| PresentNamesReport.EvacuationReportSheets | src/main/java/com/incoresoft/dilijanCustomization/domain/evacuation/service/EvacuationReportService.java:58-82 | every requested id has its sheet, holding what that id supplied |
| PresentNamesReport.EvacuationReportAscending | src/main/java/com/incoresoft/dilijanCustomization/domain/evacuation/service/EvacuationReportService.java:50-51 | the sheets come in strictly ascending list-id order |
| PresentNamesReport.BuildEvacuationReport | src/main/java/com/incoresoft/dilijanCustomization/domain/evacuation/service/EvacuationReportService.java:44-82 | the gathering loop computes the report the functions specify |
| PresentNamesReport.DropdownRowsAsWritten | src/main/java/com/incoresoft/dilijanCustomization/domain/evacuation/service/EvacuationReportService.java:215 | the dropdown as written runs from row 1 to the number of data rows |
| PresentNamesReport.EmptySheetDropdownInverted | src/main/java/com/incoresoft/dilijanCustomization/domain/evacuation/service/EvacuationReportService.java:210-215 | for an empty sheet the dropdown as written ends before it starts |
| PresentNamesReport.DropdownAgreesWithCorrected | src/main/java/com/incoresoft/dilijanCustomization/domain/evacuation/service/EvacuationReportService.java:215 | with at least one data row the dropdown as written equals the corrected range |
| ReportLayout.HeaderCells | src/main/java/com/incoresoft/dilijanCustomization/domain/shared/service/ReportService.java:60-64 | one text cell per column title, in order |
| ReportLayout.Cleaned | src/main/java/com/incoresoft/dilijanCustomization/domain/shared/service/ReportService.java:235 | each of : \ / * ? [ ] becomes '_', every other character stays, and the length is kept |
| ReportLayout.SanitizeSheetName | src/main/java/com/incoresoft/dilijanCustomization/domain/shared/service/ReportService.java:234-237 | a sheet name is at most 31 characters |
| ReportLayout.SanitizedSheetName | src/main/java/com/incoresoft/dilijanCustomization/domain/shared/service/ReportService.java:234-237 | the sanitised name is the first min(31, length) characters of the name, null read as "", each forbidden one replaced, so none is left |
| ReportLayout.SanitizeKeepsSafeNames | src/main/java/com/incoresoft/dilijanCustomization/domain/shared/service/ReportService.java:236 | a safe name of at most 31 characters is kept as it is |
| ReportLayout.SanitizeIdempotent | src/main/java/com/incoresoft/dilijanCustomization/domain/evacuation/service/EvacuationReportService.java:245-248 | sanitising a sanitised name changes nothing; both report services apply this rule |
| ReportLayout.SanitizeExample | src/test/java/com/incoresoft/dilijanCustomization/domain/shared/service/ReportServiceTest.java:62-79 | "List:Unsafe*Name?" becomes "List_Unsafe_Name_" |
| ReportLayout.SheetTitle | src/main/java/com/incoresoft/dilijanCustomization/domain/shared/service/ReportService.java:118-120 | the list's name when it has text, else "List_" and the id, then sanitised |
| ReportLayout.SheetTitleExamples | src/main/java/com/incoresoft/dilijanCustomization/domain/shared/service/ReportService.java:118-120 | a list named "List:Unsafe*Name?" gets "List_Unsafe_Name_"; an unnamed list 10 gets "List_10" |
| ReportLayout.ExportCafeteriaPivot | src/main/java/com/incoresoft/dilijanCustomization/domain/shared/service/ReportService.java:49-92 | the loops write the header at row 0, input row i at row i+1 and the grand total after them, under the given sheet name |
| ReportLayout.PivotRowsShape | src/main/java/com/incoresoft/dilijanCustomization/domain/shared/service/ReportService.java:60-79 | rows: Category, Breakfast, Lunch, Dinner, Total; then one row per input row in order with its total in column E; Grand Total last |
| ReportLayout.GrandTotalCoversBody | src/main/java/com/incoresoft/dilijanCustomization/domain/shared/service/ReportService.java:77-92 | for n rows the totals are SUM formulas over spreadsheet rows 2 to n+1, exactly the body rows; with no rows they are zeros |
| ReportLayout.PivotOneRowExample | src/test/java/com/incoresoft/dilijanCustomization/domain/shared/service/ReportServiceTest.java:36-50 | one row (Alpha, 1, 2, 3): total cell 6 and grand total "SUM(E2:E2)" |
| ReportLayout.FormatEntranceTime | src/main/java/com/incoresoft/dilijanCustomization/domain/shared/service/ReportService.java:252-259 | a null time is ""; any other is formatted |
| ReportLayout.FirstImagePath | src/main/java/com/incoresoft/dilijanCustomization/domain/shared/service/ReportService.java:261-269 | the path of the first image; null without images or when the first image is null |
| ReportLayout.ValidationRange | src/main/java/com/incoresoft/dilijanCustomization/domain/shared/service/ReportService.java:196-197 | the status dropdown starts at row 1 and never ends before it starts; with data rows it ends at the last one |
| ReportLayout.EvacuationWorkbook | src/main/java/com/incoresoft/dilijanCustomization/domain/shared/service/ReportService.java:114-121 | a written workbook has one sheet per entry of the map |
| ReportLayout.WorkbookWritten | src/main/java/com/incoresoft/dilijanCustomization/domain/shared/service/ReportService.java:114-121 | the workbook is written exactly when createSheet accepts every entry's sheet title |
| ReportLayout.WorkbookSheets | src/main/java/com/incoresoft/dilijanCustomization/domain/shared/service/ReportService.java:114-121 | a written workbook holds the sheet of each entry, in the map's order |
| ReportLayout.WorkbookRefused | src/main/java/com/incoresoft/dilijanCustomization/domain/shared/service/ReportService.java:114-121 | otherwise the export throws IllegalArgumentException for the first title createSheet refuses, all earlier titles being accepted |
| ReportLayout.WorkbookFailurePersists | src/main/java/com/incoresoft/dilijanCustomization/domain/shared/service/ReportService.java:114-121 | once an entry's title is refused, the later entries change nothing |
| ReportLayout.SheetTitleAccepted | src/main/java/com/incoresoft/dilijanCustomization/domain/shared/service/ReportService.java:118-121 | a sheet title is never empty, longer than 31 characters or holding a forbidden character, so createSheet refuses it exactly when it begins or ends with an apostrophe |
| ReportLayout.QuotedNameRefused | src/main/java/com/incoresoft/dilijanCustomization/domain/shared/service/ReportService.java:118-121 | a list named "'Guests'" keeps that title after sanitising, and createSheet refuses it |
| ReportLayout.ValidationCoversDataRows | src/main/java/com/incoresoft/dilijanCustomization/domain/shared/service/ReportService.java:193-202 | the dropdown of every evacuation sheet is a proper range containing every data row, whose status cell is true |
| ReportLayout.ExportEvacuationWorkbook | src/main/java/com/incoresoft/dilijanCustomization/domain/shared/service/ReportService.java:112-203 | the loops write the sheets of the entries in order, each row by row from row 1, and throw at the first title createSheet refuses |
| ReportLayout.EvacuationSheetShape | src/main/java/com/incoresoft/dilijanCustomization/domain/shared/service/ReportService.java:143-190 | six header titles; report row i at row i+1 with status true, the formatted time, the id only when set, null-safe name and comment; dropdown over rows 1 to max(1, n) |
| CafeteriaPivot.WrapInt | src/main/java/com/incoresoft/dilijanCustomization/domain/attendance/dto/CafeteriaPivotRow.java:4 | int addition: the result is congruent to the sum modulo 2^32 and is the sum itself when that fits in an int |
| CafeteriaPivot.TotalIsSum | src/main/java/com/incoresoft/dilijanCustomization/domain/attendance/dto/CafeteriaPivotRow.java:4 | without overflow total() is breakfast + lunch + dinner |
| CafeteriaPivot.TotalBoundsCounts | src/main/java/com/incoresoft/dilijanCustomization/domain/attendance/dto/CafeteriaPivotRow.java:4 | with non-negative counts and no overflow the total is at least each count |
| CafeteriaPivot.TotalExample | src/test/java/com/incoresoft/dilijanCustomization/domain/shared/service/ReportServiceTest.java:36-46 | a row (1, 2, 3) has total 6 |
| CafeteriaPivot.TotalWraps | src/main/java/com/incoresoft/dilijanCustomization/domain/attendance/dto/CafeteriaPivotRow.java:4 | Integer.MAX_VALUE + 1 wraps to Integer.MIN_VALUE |
| AttendanceReport.NameEntry | src/main/java/com/incoresoft/dilijanCustomization/domain/attendance/service/AttendanceReportService.java:112-115 | a list contributes its id and trimmed name exactly when the id is set and the name has text |
| AttendanceReport.PutAllMeaning | src/main/java/com/incoresoft/dilijanCustomization/domain/attendance/service/AttendanceReportService.java:113-117 | a key is in the map exactly when some entry has it, with the value of the last such entry |
| AttendanceReport.ListNamesMeaning | src/main/java/com/incoresoft/dilijanCustomization/domain/attendance/service/AttendanceReportService.java:111-117 | a list id is named exactly when a list with that id has a name with text; its name is the trimmed name of the last such list |
| AttendanceReport.FetchListNames | src/main/java/com/incoresoft/dilijanCustomization/domain/attendance/service/AttendanceReportService.java:106-118 | a null reply or null data gives the empty map; a failed call throws |
| AttendanceReport.SafeLower | src/main/java/com/incoresoft/dilijanCustomization/domain/attendance/service/AttendanceReportService.java:183 | null becomes ""; otherwise lower-cased and trimmed, which equals trimmed then lower-cased |
| AttendanceReport.ExcludedNames | src/main/java/com/incoresoft/dilijanCustomization/domain/attendance/service/AttendanceReportService.java:159-161 | the excluded names, each through safeLower; a null collection throws |
| AttendanceReport.TargetListIds | src/main/java/com/incoresoft/dilijanCustomization/domain/attendance/service/AttendanceReportService.java:158-169 | strictly ascending, and an id is in it exactly when it is named, admitted by the filter (null or empty admits all) and its lower-cased name is not excluded |
| AttendanceReport.NoFilterCoversAllLists | src/main/java/com/incoresoft/dilijanCustomization/domain/attendance/service/AttendanceReportService.java:164 | with no filter and no exclusions every named list is a target |
| AttendanceReport.ExcludedListIsNoTarget | src/main/java/com/incoresoft/dilijanCustomization/domain/attendance/service/AttendanceReportService.java:159-165 | a list whose name matches an excluded name ignoring case and surrounding blanks is never a target |
| AttendanceReport.ItemIdsOf | src/main/java/com/incoresoft/dilijanCustomization/domain/attendance/service/AttendanceReportService.java:99-104 | collecting throws exactly when a detection is null |
| AttendanceReport.ItemIdsMeaning | src/main/java/com/incoresoft/dilijanCustomization/domain/attendance/service/AttendanceReportService.java:99-104 | an id is collected exactly when some detection carries a list item with that id, so repeat detections count once |
| AttendanceReport.ItemIdsSnoc | src/main/java/com/incoresoft/dilijanCustomization/domain/attendance/service/AttendanceReportService.java:100-103 | one more detection adds its item id, or throws when it is null |
| AttendanceReport.UniqueItemIdsMeaning | src/main/java/com/incoresoft/dilijanCustomization/domain/attendance/service/AttendanceReportService.java:81-97 | the query succeeds exactly when every list's window does, and then maps exactly the requested ids, each to its distinct detected item ids, including empty sets |
| AttendanceReport.UniqueItemIdsFailurePersists | src/main/java/com/incoresoft/dilijanCustomization/domain/attendance/service/AttendanceReportService.java:83-93 | once a prefix of the lists throws, the whole query throws the same |
| AttendanceReport.QueryUniqueListItemIds | src/main/java/com/incoresoft/dilijanCustomization/domain/attendance/service/AttendanceReportService.java:81-97 | the two loops compute the specified per-list sets |
| AttendanceReport.SetSize | src/main/java/com/incoresoft/dilijanCustomization/domain/attendance/service/AttendanceReportService.java:181 | Set.size(): the element count, capped at Integer.MAX_VALUE |
| AttendanceReport.SizeOf | src/main/java/com/incoresoft/dilijanCustomization/domain/attendance/service/AttendanceReportService.java:181 | 0 for a list without a set, otherwise the set's size |
| AttendanceReport.ByListNameIsTotalPreorder | src/main/java/com/incoresoft/dilijanCustomization/domain/attendance/service/AttendanceReportService.java:147 | the name comparator is total and transitive |
| AttendanceReport.DisplayName | src/main/java/com/incoresoft/dilijanCustomization/domain/attendance/service/AttendanceReportService.java:149 | the list's name, or "list_" and the id |
| AttendanceReport.RowOrder | src/main/java/com/incoresoft/dilijanCustomization/domain/attendance/service/AttendanceReportService.java:146-147 | a permutation of the targets sorted by lower-cased name |
| AttendanceReport.RowOrderStable | src/main/java/com/incoresoft/dilijanCustomization/domain/attendance/service/AttendanceReportService.java:146-147 | the row sort is stable: targets whose lower-cased names are equal keep their input order |
| AttendanceReport.TiedRowsByAscendingId | src/main/java/com/incoresoft/dilijanCustomization/domain/attendance/service/AttendanceReportService.java:146-147 | rows of resolved target lists with equal lower-cased names come in ascending id order |
| AttendanceReport.PivotRows | src/main/java/com/incoresoft/dilijanCustomization/domain/attendance/service/AttendanceReportService.java:140-156 | one row per target id |
| AttendanceReport.PivotRowsCoverTargets | src/main/java/com/incoresoft/dilijanCustomization/domain/attendance/service/AttendanceReportService.java:146-154 | every target id has its row and every row is the row of a target id |
| AttendanceReport.PivotRowsOrderedByName | src/main/java/com/incoresoft/dilijanCustomization/domain/attendance/service/AttendanceReportService.java:146-148 | rows come in the order of their lower-cased names |
| AttendanceReport.MealCountsMeaning | src/main/java/com/incoresoft/dilijanCustomization/domain/attendance/service/AttendanceReportService.java:66-71 | each meal maps each target to the distinct people detected for it in that meal's window |
| AttendanceReport.DailyRowsSteps | src/main/java/com/incoresoft/dilijanCustomization/domain/attendance/service/AttendanceReportService.java:63-73 | a report reads the names and exclusions, runs the three meal queries and builds the rows from them |
| AttendanceReport.DailyRowsMeaning | src/main/java/com/incoresoft/dilijanCustomization/domain/attendance/service/AttendanceReportService.java:58-73 | one row per named, admitted, not excluded list, counting the distinct people detected for it in each meal |
| AttendanceReport.BuildSingleDayReport | src/main/java/com/incoresoft/dilijanCustomization/domain/attendance/service/AttendanceReportService.java:58-78 | the report is the "Cafeteria" pivot sheet of the specified rows, or the first exception |
| AttendanceReport.SafeLowerExample | src/test/java/com/incoresoft/dilijanCustomization/domain/attendance/service/AttendanceReportServiceTest.java:29 | "Contractor" lower-cased and trimmed is "contractor" |
| AttendanceReport.ExcludedListNeedNotEnd | src/main/java/com/incoresoft/dilijanCustomization/domain/attendance/service/AttendanceReportService.java:63-71 | of two lists, one excluded by name, the report needs only the kept list's three meal windows to end: the excluded list is never queried |
| AttendanceReport.TwoListTargets | src/main/java/com/incoresoft/dilijanCustomization/domain/attendance/service/AttendanceReportService.java:64 | of two lists, one excluded by name, the target ids are exactly the other list's id |
| AttendanceReport.TargetsExample | src/test/java/com/incoresoft/dilijanCustomization/domain/attendance/service/AttendanceReportServiceTest.java:36-44 | lists Alpha (1) and Contractor (2) with "contractor" excluded: only list 1 is a target |
| AttendanceReport.TargetIdsExample | src/test/java/com/incoresoft/dilijanCustomization/domain/attendance/service/AttendanceReportServiceTest.java:36-44 | the same example as a set of ids: {1} |
| AttendanceReport.TargetIdsOfTwo | src/main/java/com/incoresoft/dilijanCustomization/domain/attendance/service/AttendanceReportService.java:163-168 | of two named lists the one whose lower-cased name is excluded is dropped |
| AttendanceReport.PivotExample | src/test/java/com/incoresoft/dilijanCustomization/domain/attendance/service/AttendanceReportServiceTest.java:46-74 | two people seen at every meal on Alpha give the single row Alpha 2/2/2, total 6 |
| CafeteriaReport.FetchListNames | src/main/java/com/incoresoft/dilijanCustomization/domain/attendance/service/CafeteriaReportService.java:118-129 | the loop computes the same name map as AttendanceReportService |
| CafeteriaReport.ExcludedNames | src/main/java/com/incoresoft/dilijanCustomization/domain/attendance/service/CafeteriaReportService.java:57-59 | each name lower-cased then trimmed; a null collection or a null name throws |
| CafeteriaReport.ExcludedNamesAgree | src/main/java/com/incoresoft/dilijanCustomization/domain/attendance/service/CafeteriaReportService.java:57-63 | without a null name the exclusions equal AttendanceReportService's; with one only this service throws |
| CafeteriaReport.AddItemIds | src/main/java/com/incoresoft/dilijanCustomization/domain/attendance/service/CafeteriaReportService.java:108-111 | the inner loop adds exactly the detections' item ids, or throws for a null detection |
| CafeteriaReport.QueryUniqueListItemIds | src/main/java/com/incoresoft/dilijanCustomization/domain/attendance/service/CafeteriaReportService.java:97-116 | computes what AttendanceReportService's query computes |
| CafeteriaReport.DailyRowsAgree | src/main/java/com/incoresoft/dilijanCustomization/domain/attendance/service/CafeteriaReportService.java:56-83 | both services build the same rows unless an excluded name is null, which only this one rejects once the names are read |
| CafeteriaReport.BuildSingleDayReport | src/main/java/com/incoresoft/dilijanCustomization/domain/attendance/service/CafeteriaReportService.java:46-94 | the "Cafeteria" pivot sheet of this service's rows, or the first exception |
| PostgresProps.PostgresProps.EffectiveUsername | src/main/java/com/incoresoft/dilijanCustomization/config/PostgresProps.java:41-43 | the superuser when the username is null or blank, else the username |
| PostgresProps.PostgresProps.EffectivePassword | src/main/java/com/incoresoft/dilijanCustomization/config/PostgresProps.java:44-46 | the superuser's password when the password is null or blank, else the password |
| PostgresProps.PostgresProps.ResolvePort | src/main/java/com/incoresoft/dilijanCustomization/config/PostgresProps.java:52-61 | 5432 for a null or blank port; the trimmed port when it parses as an int; 5432 otherwise; always an int |
| PostgresProps.PostgresProps.DatabaseName | src/main/java/com/incoresoft/dilijanCustomization/config/PostgresProps.java:48 | "postgres" when the database is null or blank, else the database |
| PostgresProps.NullText | src/main/java/com/incoresoft/dilijanCustomization/config/PostgresProps.java:49 | string concatenation writes a null string as "null" |
| PostgresProps.Defaults | src/main/java/com/incoresoft/dilijanCustomization/config/PostgresProps.java:32-36 | a new PostgresProps has host localhost, port "5432" and no database or credentials |
| PostgresProps.JdbcUrlParts | src/main/java/com/incoresoft/dilijanCustomization/config/PostgresProps.java:47-50 | the URL is the prefix, host, ":", a port text that parses back as the resolved port, "/" and the database |
| PostgresProps.ResolvePortOfWritten | src/main/java/com/incoresoft/dilijanCustomization/config/PostgresProps.java:56-57 | a port written as an int, with or without surrounding spaces, resolves to that int |
| PostgresProps.DefaultPortResolves | src/main/java/com/incoresoft/dilijanCustomization/config/PostgresProps.java:36 | the default port text resolves to 5432 |
| PostgresProps.DefaultsConnectLocally | src/main/java/com/incoresoft/dilijanCustomization/config/PostgresProps.java:41-50 | with superuser credentials the defaults give those credentials and jdbc:postgresql://localhost:5432/postgres |
| Decimal.ParseIntOfLongToString | src/main/java/com/incoresoft/dilijanCustomization/config/PostgresProps.java:57 | Integer.parseInt reads back every int's decimal text |
| Decimal.ParseIntOnlyNumerals | src/main/java/com/incoresoft/dilijanCustomization/config/PostgresProps.java:57-59 | Integer.parseInt accepts only a numeral (digits after an optional '-' or '+'), and a numeral exactly when its value fits in an int; anything else throws, so resolvePort falls back |
| Decimal.ParseIntRejectsEmptyAndSign | src/main/java/com/incoresoft/dilijanCustomization/config/PostgresProps.java:58-59 | samples: "", a lone sign, "12a" and " 1" do not parse |
| UnknownListRegistry.UnknownListRegistry.constructor | src/main/java/com/incoresoft/dilijanCustomization/config/UnknownListRegistry.java:11 | a new registry holds -1 and is not initialised |
| UnknownListRegistry.UnknownListRegistry.IsInitialized | src/main/java/com/incoresoft/dilijanCustomization/config/UnknownListRegistry.java:24-26 | true exactly when the stored id is positive |
| UnknownListRegistry.UnknownListRegistry.Get | src/main/java/com/incoresoft/dilijanCustomization/config/UnknownListRegistry.java:13-17 | succeeds exactly when initialised, returning the positive stored id; otherwise IllegalStateException |
| UnknownListRegistry.UnknownListRegistry.Set | src/main/java/com/incoresoft/dilijanCustomization/config/UnknownListRegistry.java:19-22 | a positive id replaces the stored one; a non-positive one is refused with IllegalArgumentException and nothing changes |
| UnknownListRegistry.FreshRegistryRefusesGet | src/test/java/com/incoresoft/dilijanCustomization/config/UnknownListRegistryTest.java:10-14 | a fresh registry is not initialised and get throws IllegalStateException |
| UnknownListRegistry.SetThenGet | src/test/java/com/incoresoft/dilijanCustomization/config/UnknownListRegistryTest.java:17-22 | after set(id) with a positive id the registry is initialised and get returns id |
| UnknownListRegistry.NonPositiveIdsRefused | src/test/java/com/incoresoft/dilijanCustomization/config/UnknownListRegistryTest.java:26-31 | a non-positive id is refused and the registry stays uninitialised |
| UnknownListRegistry.LaterSetWins | src/main/java/com/incoresoft/dilijanCustomization/config/UnknownListRegistry.java:19-22 | a later positive set replaces the earlier id and a refused set keeps it |

## Left out

- Apache POI rendering: fonts, styles, column widths, pictures and writing the file; a sheet is modelled as its name and its rows of cell values.
- Sheet-name uniqueness: `createSheet` failing on a duplicate or already-used name is not modelled. Its other checks are: 1 to 31 characters, no forbidden character, and no apostrophe at either end. These live in POI's WorkbookUtil, which is not part of this model; `ReportLayout.AcceptedSheetName` states them as POI documents them. The message text of the refusal follows POI and is not checked against its source.
- The workbook building of the present-names EvacuationReportService beyond its status dropdown, which is the only part the model keeps about it.
- Time zones, meal windows and scheduling (`resolveZone`, `buildMealWindows`, `toMillis`, `prepareOutputFile`, the `generateDaily` schedule): the meal windows and "now" are parameters.
- Date parsing (`parseHumanDateToMillis`) is a parameter of the presence-CSV parser; formatting a non-null entrance time in the server's zone is a parameter of `ReportLayout.FormatEntranceTime`.
- HTTP transport, Jackson mapping and REST templates: each remote call is a function field of `FaceApi.Remote` returning a reply or a thrown error.
- Concurrency: `synchronized`, the `AtomicLong` of `UnknownListRegistry` and the scheduler threads; every operation is modelled as running alone.
- Database bootstrap (`initializeDatabaseAndTable`, `runPsql`) and JDBC itself; the database being down is a flag of `StatusTable`.
- Reference equality: `d.getId() == listId` in the present-names service compares boxed Longs by reference; the model compares values.
- The presence-CSV EvacuationReportService passes a `Map<FaceListDto, List<ListItemDto>>` where `exportEvacuationWorkbook` takes report rows; the model keeps the sheets it gathers and lays them out with `ReportLayout.EvacuationSheet`.
- String lengths are counted in characters, not UTF-16 code units, for the 31-character sheet-name limit.
- `lookbackDays * 86 400 000` is computed without long overflow.
- Null elements inside the face-list data and inside `onlyListIds` are not modelled; null detections and null excluded names are. A null element of a list-items page (`ListItemsResponse.data`, a `seq<ListItem>` here) makes `item.getId()` (domain/evacuation/service/EvacuationStatusService.java:289) and `it.getName()` in both report filters throw NullPointerException; a null element of the list ids makes `Collections.sort` throw it (domain/evacuation/EvacuationReportService.java:43, domain/evacuation/service/EvacuationReportService.java:51). The model has no such elements, so these exceptions are not modelled.
- FaceApi.GetAllDetectionsInWindow: its loop needs a page that stops it (`PagingEnds`); a server that always returns full pages makes the Java loop run forever, which the model excludes by precondition, as do `AllWindowsEnd`, `ReportWindowsEnd` and `WindowsEnd` above it. `ReportWindowsEnd` asks this only of the target lists the report queries, once the names and exclusions are read; lists outside `onlyListIds` or excluded by name impose nothing.
- FaceApi.ParseHttpUrl: checks only that the authority is not empty; Spring's further parsing of user info, port and IPv6 brackets is not modelled, so a base such as "http://u@/x" is accepted here where fromHttpUrl refuses it; the query and fragment are kept as written.
- FaceApi.StorageUrl: the configured base URL is a string, never null; Spring's path encoding is not applied, since the URL is built without encoding.
- FaceApi.GetAllDetectionsInWindow: the offset is an unbounded integer, while the Java `int offset` wraps past 2^31 - 1, after more than two billion detections.
- Sorting.LexLe: compares strings character by character as code points, while `String.compareTo` compares UTF-16 code units; the two orders differ only for characters beyond U+FFFF.
- Decimal.ParseInt: accepts ASCII digits only, while `Integer.parseInt` also accepts other Unicode digits.
- JavaStrings.ToLower: covers ASCII, Latin-1 and basic Cyrillic letters, not the whole of Unicode.
- CafeteriaPivot.TotalIsSum: holds only without overflow; `WrapInt` models the wrap-around in general.
- AttendanceReport.SetSize: `Set.size()` is capped at `Integer.MAX_VALUE`, which only matters beyond 2^31 elements.
- Iteration order of `HashMap` and `HashSet` is left open where the code does not depend on it; `LinkedHashMap` and `LinkedHashSet` insertion order is modelled.
- The tests that no longer compile against the current services are not modelled.

## Findings

| source | as written | input that shows it | evidently intended | confidence | as-written member | corrected member |
|---|---|---|---|---|---|---|
| src/main/java/com/incoresoft/dilijanCustomization/domain/evacuation/service/EvacuationReportService.java:215 | the status dropdown is `CellRangeAddressList(1, r - 1, 0, 0)` with `r` one past the last data row | a list with nobody present: no data rows, `r = 1`, range rows 1 to 0, which POI's `CellRangeAddressList` most likely refuses with IllegalArgumentException | the range runs from row 1 to `max(1, last row)`, as ReportService.java:196-197 does | not executed; medium | PresentNamesReport.EmptySheetDropdownInverted | ReportLayout.ValidationCoversDataRows |
