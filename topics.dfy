/** The topic side of the merge: `get_dsip_topics` in fetch_and_merge.py
    turns each item of the DoD SBIR/STTR topics API response into a topic
    record with fixed defaults. The HTTP request and the JSON decoding are
    outside the model: their outcome is the parameter `fetched`, `None`
    when either raised. */
module Topics {
  import opened PyJson

  /** One topic record: the five columns of the topics table. Each holds
      whatever JSON value the API gave, or the column's default. */
  datatype Topic = Topic(
    topicId: Json,
    title: Json,
    description: Json,
    component: Json,
    status: Json)

  /** The record built from one API item (a decoded JSON object). */
  function ToTopic(item: map<string, Json>): Topic {
    Topic(
      Get(item, "topic_number", JStr("")),
      Get(item, "title", JStr("")),
      Get(item, "description", JStr("")),
      Get(item, "component", JStr("")),
      Get(item, "status", JStr("Unknown")))
  }

  /** The records for the items `data`, in order, as a left fold over the
      items; `Err(i)` when item `i` is the first that is not a JSON object
      (`item.get` raises there and the loop stops). */
  function MapItems(data: seq<Json>): Result<seq<Topic>, nat>
    decreases |data|
  {
    if data == [] then Ok([])
    else
      match MapItems(data[..|data| - 1])
      case Err(i) => Err(i)
      case Ok(topics) =>
        var item := data[|data| - 1];
        if item.JObj? then Ok(topics + [ToTopic(item.fields)]) else Err(|data| - 1)
  }

  /** What `get_dsip_topics` returns: the records, or no records at all when
      the request failed or any item was not an object (the `except` branch
      returns an empty table). */
  function DsipTopics(fetched: Option<seq<Json>>): seq<Topic> {
    match fetched
    case None => []
    case Some(data) =>
      match MapItems(data)
      case Ok(topics) => topics
      case Err(_) => []
  }

  /** The loop of `get_dsip_topics`: appends one record per item, and gives
      up with an empty result at the first item that is not an object. */
  method GetDsipTopics(fetched: Option<seq<Json>>) returns (topics: seq<Topic>)
    ensures topics == DsipTopics(fetched)
  {
    if fetched.None? {
      return [];
    }
    var data := fetched.value;
    topics := [];
    var i := 0;
    while i < |data|
      invariant 0 <= i <= |data|
      invariant MapItems(data[..i]) == Ok(topics)
    {
      var item := data[i];
      if !item.JObj? {
        MapItemsOk(data);
        return [];
      }
      assert data[..i + 1][..i] == data[..i];
      topics := topics + [ToTopic(item.fields)];
      i := i + 1;
    }
    assert data[..i] == data;
  }

  /** The mapping succeeds exactly when every item is a JSON object. */
  lemma {:induction false} MapItemsOk(data: seq<Json>)
    ensures MapItems(data).Ok? <==> forall j :: 0 <= j < |data| ==> data[j].JObj?
    decreases |data|
  {
    if data != [] {
      var init := data[..|data| - 1];
      MapItemsOk(init);
      assert forall j :: 0 <= j < |init| ==> init[j] == data[j];
    }
  }

  /** A failure names the first item that is not an object. */
  lemma {:induction false} MapItemsError(data: seq<Json>)
    requires MapItems(data).Err?
    ensures var i := MapItems(data).error;
      && i < |data| && !data[i].JObj?
      && forall j :: 0 <= j < i ==> data[j].JObj?
    decreases |data|
  {
    var init := data[..|data| - 1];
    if MapItems(init).Err? {
      MapItemsError(init);
      assert forall j :: 0 <= j < |init| ==> init[j] == data[j];
    } else {
      MapItemsOk(init);
      assert forall j :: 0 <= j < |init| ==> init[j] == data[j];
    }
  }

  /** On success there is one record per item, in item order, and record `j`
      is built from item `j` alone. */
  lemma {:induction false} MapItemsRows(data: seq<Json>)
    requires MapItems(data).Ok?
    ensures var topics := MapItems(data).value;
      && |topics| == |data|
      && forall j :: 0 <= j < |data| ==> data[j].JObj? && topics[j] == ToTopic(data[j].fields)
    decreases |data|
  {
    if data != [] {
      var init := data[..|data| - 1];
      MapItemsRows(init);
      assert forall j :: 0 <= j < |init| ==> init[j] == data[j];
    }
  }

  /** Each record copies the item's field when present (even a null) and
      otherwise takes the default: `""` for the topic id, title, description
      and component, `"Unknown"` for the status. */
  lemma TopicDefaults(data: seq<Json>, j: nat)
    requires forall k :: 0 <= k < |data| ==> data[k].JObj?
    requires j < |data|
    ensures var topics := DsipTopics(Some(data)); var item := data[j].fields;
      && |topics| == |data|
      && topics[j].topicId == (if "topic_number" in item then item["topic_number"] else JStr(""))
      && topics[j].title == (if "title" in item then item["title"] else JStr(""))
      && topics[j].description == (if "description" in item then item["description"] else JStr(""))
      && topics[j].component == (if "component" in item then item["component"] else JStr(""))
      && topics[j].status == (if "status" in item then item["status"] else JStr("Unknown"))
  {
    MapItemsOk(data);
    MapItemsRows(data);
  }

  /** The `except` branch: a failed request, or any item that is not an
      object, yields no records at all, never a partial list. */
  lemma DsipTopicsFailure(fetched: Option<seq<Json>>)
    requires fetched.None? || exists j :: 0 <= j < |fetched.value| && !fetched.value[j].JObj?
    ensures DsipTopics(fetched) == []
  {
    if fetched.Some? {
      MapItemsOk(fetched.value);
    }
  }
}
