/** The control flow of `main` in fetch_and_merge.py: fetch the topics,
    stop when there are none, fetch the awards, join, and hand the rows to
    the CSV writer. The progress messages and the CSV file itself are not
    part of the model; the rows the writer receives are. */
module Pipeline {
  import opened PyJson
  import opened Topics
  import opened Awards
  import opened Enrichment

  /** How a run ends. */
  datatype Outcome =
    | NoTopics                                // "No DSIP topics fetched." and return
    | AwardsFailed(awardError: AwardError)    // the award loop raised: the program stops
    | EnrichFailed(enrichError: EnrichError)  // a topic id could not be looked up: the program stops
    | Saved(rows: seq<EnrichedRow>)           // the rows written to the enriched CSV

  /** One run, given what the two requests returned (`None` when a request
      or its decoding raised). The awards are fetched only when there is at
      least one topic. */
  function Run(topicsFetched: Option<seq<Json>>, awardsFetched: Option<seq<Json>>): Outcome {
    var topics := DsipTopics(topicsFetched);
    if topics == [] then NoTopics
    else
      match SbirAwards(awardsFetched)
      case Err(e) => AwardsFailed(e)
      case Ok(awards) =>
        match EnrichAll(topics, awards)
        case Err(e) => EnrichFailed(e)
        case Ok(rows) => Saved(rows)
  }

  /** `main`, calling the three steps in order. */
  method MergeTopicsWithAwards(topicsFetched: Option<seq<Json>>, awardsFetched: Option<seq<Json>>)
    returns (outcome: Outcome)
    ensures outcome == Run(topicsFetched, awardsFetched)
  {
    var topics := GetDsipTopics(topicsFetched);
    if |topics| == 0 {
      return NoTopics;
    }
    var awardData := GetSbirAwards(awardsFetched);
    if awardData.Err? {
      return AwardsFailed(awardData.error);
    }
    var enriched := EnrichTopics(topics, awardData.value);
    if enriched.Err? {
      return EnrichFailed(enriched.error);
    }
    return Saved(enriched.value);
  }

  /** A saved file has one row per fetched topic, at least one, in the
      order the topics API listed them. */
  lemma SavedRowsFollowTopics(topicsFetched: Option<seq<Json>>, awardsFetched: Option<seq<Json>>)
    requires Run(topicsFetched, awardsFetched).Saved?
    ensures var rows := Run(topicsFetched, awardsFetched).rows;
      var topics := DsipTopics(topicsFetched);
      && 1 <= |rows| == |topics|
      && forall i :: 0 <= i < |rows| ==> rows[i].topic == topics[i]
  {
    var topics := DsipTopics(topicsFetched);
    EnrichRows(topics, SbirAwards(awardsFetched).value);
  }

  /** When the award request fails but topics came back and every topic id
      can be looked up, the run still saves, and every row is unmatched: its
      own status and "" in every award column. */
  lemma AwardsUnavailable(topicsFetched: Option<seq<Json>>, i: nat)
    requires DsipTopics(topicsFetched) != []
    requires forall j :: 0 <= j < |DsipTopics(topicsFetched)| ==> IsHashable(DsipTopics(topicsFetched)[j].topicId)
    requires i < |DsipTopics(topicsFetched)|
    ensures Run(topicsFetched, None).Saved?
    ensures var row := Run(topicsFetched, None).rows[i];
      && row.statusEnriched == DsipTopics(topicsFetched)[i].status
      && row.awardeeName == JStr("") && row.awardPhase == JStr("")
      && row.awardAmount == JStr("") && row.awardDate == JStr("")
      && row.awardUrl == JStr("")
  {
    EnrichOk(DsipTopics(topicsFetched), map[]);
    EnrichUnmatched(DsipTopics(topicsFetched), map[], i);
  }

  /** The run stops before fetching awards exactly when no topic came back:
      a failed topics request, an item that is not an object, or an empty
      list. */
  lemma NoTopicsWhenNoneFetched(topicsFetched: Option<seq<Json>>, awardsFetched: Option<seq<Json>>)
    ensures Run(topicsFetched, awardsFetched).NoTopics? <==>
      (topicsFetched.None?
       || |topicsFetched.value| == 0
       || exists j :: 0 <= j < |topicsFetched.value| && !topicsFetched.value[j].JObj?)
  {
    if topicsFetched.Some? {
      var data := topicsFetched.value;
      MapItemsOk(data);
      if MapItems(data).Ok? {
        MapItemsRows(data);
      }
    }
  }
}
