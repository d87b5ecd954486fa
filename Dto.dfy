/**
 * The records the services exchange with the face API and the status table.
 * Every field that Java leaves nullable is an Option.
 */
module Dto {
  import opened Wrappers

  /** The analytics (camera stream) a detection came from. */
  datatype AnalyticsRef = AnalyticsRef(streamId: Option<int>)

  /** One reference image of a list item. */
  datatype ListImage = ListImage(path: Option<string>)

  /** A person on a face list. */
  datatype ListItem = ListItem(
    id: Option<int>,
    name: Option<string>,
    listId: Option<int>,
    comment: Option<string>,
    images: Option<seq<Option<ListImage>>>)

  /** One face detection reported by the face API. */
  datatype Detection = Detection(
    id: Option<int>,
    timestamp: Option<int>,
    analytics: Option<AnalyticsRef>,
    listItem: Option<ListItem>,
    faceImage: Option<string>)

  /** The time-attendance settings of a face list. */
  datatype TimeAttendance = TimeAttendance(
    enabled: Option<bool>,
    entranceAnalyticsIds: Option<seq<int>>,
    exitAnalyticsIds: Option<seq<int>>)

  /** A face list (roster). */
  datatype FaceList = FaceList(
    id: Option<int>,
    name: Option<string>,
    timeAttendance: Option<TimeAttendance>)

  /** One page of detections; data elements may themselves be null. */
  datatype DetectionsResponse = DetectionsResponse(
    data: Option<seq<Option<Detection>>>,
    total: Option<int>,
    pages: Option<int>,
    status: Option<string>)

  /** The answer to GET /face/lists. */
  datatype FaceListsResponse = FaceListsResponse(data: Option<seq<FaceList>>)

  /** The answer to GET /face/list_items. */
  datatype ListItemsResponse = ListItemsResponse(data: Option<seq<ListItem>>)

  /** A row of the evacuation table. */
  datatype EvacuationStatus = EvacuationStatus(
    listId: Option<int>,
    listItemId: Option<int>,
    enterStreamIds: Option<seq<int>>,
    exitStreamIds: Option<seq<int>>,
    status: Option<bool>,
    entranceTime: Option<int>,
    exitTime: Option<int>,
    manuallyUpdated: Option<bool>)

  /** The composite primary key (list_id, list_item_id) of the evacuation table. */
  datatype StatusKey = StatusKey(listId: int, listItemId: int)

  /** The key of a row, when both of its key columns are set. */
  function KeyOf(e: EvacuationStatus): (k: Option<StatusKey>)
    ensures k.Some? <==> e.listId.Some? && e.listItemId.Some?
    ensures k.Some? ==> k.value.listId == e.listId.value && k.value.listItemId == e.listItemId.value
  {
    if e.listId.Some? && e.listItemId.Some? then Some(StatusKey(e.listId.value, e.listItemId.value)) else None
  }

  /** A reply of a remote call: thrown, or a possibly null body. */
  datatype Reply<T> = Thrown | Body(body: Option<T>)
}
