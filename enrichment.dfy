/** `enrich_topics` in fetch_and_merge.py: a left outer join of the topic
    records against the award dictionary. Every topic yields exactly one
    row, in order; the lookup uses the topic id exactly as it is, with no
    case folding and no trimming. */
module Enrichment {
  import opened PyJson
  import opened Topics
  import opened Awards

  /** One output row: the topic's own five columns, then the enriched status
      and the five award columns. */
  datatype EnrichedRow = EnrichedRow(
    topic: Topic,
    statusEnriched: Json,
    awardeeName: Json,
    awardPhase: Json,
    awardAmount: Json,
    awardDate: Json,
    awardUrl: Json)

  /** `award_map.get(topic_id, {})` raises `TypeError` when the topic id is a
      list or an object; the row index says where. */
  datatype EnrichError = UnhashableTopicId(index: nat)

  /** `award_map.get(topic_id, {})` for a topic id that can be looked up:
      the entry stored under that very string, if any. */
  function Lookup(awards: map<string, AwardEntry>, topicId: Json): Option<AwardEntry> {
    match KeyOf(topicId)
    case Some(k) => if k in awards then Some(awards[k]) else None
    case None => None
  }

  /** The row for one topic. A found entry is never an empty dict, so it
      always reads as true and the status becomes "Awarded". Without an
      entry the row keeps the topic's own status (the topic always has a
      status column, so the "Unknown" fallback of `row.get` is the default
      the topic mapping already applied) and every award column is "". */
  function EnrichRow(t: Topic, found: Option<AwardEntry>): EnrichedRow {
    match found
    case Some(e) =>
      EnrichedRow(t, JStr("Awarded"), e.awardeeName, e.awardPhase, e.awardAmount, e.awardDate, JStr(e.awardUrl))
    case None =>
      EnrichedRow(t, t.status, JStr(""), JStr(""), JStr(""), JStr(""), JStr(""))
  }

  /** The rows for `topics`, as a left fold over the topics, stopping at the
      first topic whose id cannot be looked up. */
  function EnrichAll(topics: seq<Topic>, awards: map<string, AwardEntry>): (r: Result<seq<EnrichedRow>, EnrichError>)
    ensures r.Ok? ==> |r.value| == |topics|
    decreases |topics|
  {
    if topics == [] then Ok([])
    else
      match EnrichAll(topics[..|topics| - 1], awards)
      case Err(e) => Err(e)
      case Ok(rows) =>
        var t := topics[|topics| - 1];
        if IsHashable(t.topicId) then Ok(rows + [EnrichRow(t, Lookup(awards, t.topicId))])
        else Err(UnhashableTopicId(|topics| - 1))
  }

  /** The loop of `enrich_topics`: appends one row per topic. */
  method EnrichTopics(topics: seq<Topic>, awards: map<string, AwardEntry>) returns (r: Result<seq<EnrichedRow>, EnrichError>)
    ensures r == EnrichAll(topics, awards)
  {
    var enriched: seq<EnrichedRow> := [];
    for i := 0 to |topics|
      invariant EnrichAll(topics[..i], awards) == Ok(enriched)
    {
      var row := topics[i];
      var topicId := row.topicId;
      assert topics[..i + 1][..i] == topics[..i];
      if !IsHashable(topicId) {
        EnrichErrorSticks(topics, awards, i + 1);
        return Err(UnhashableTopicId(i));
      }
      var awardData := Lookup(awards, topicId);
      enriched := enriched + [EnrichRow(row, awardData)];
    }
    assert topics[..|topics|] == topics;
    return Ok(enriched);
  }

  /** Once a lookup has raised, later topics change nothing. */
  lemma {:induction false} EnrichErrorSticks(topics: seq<Topic>, awards: map<string, AwardEntry>, n: nat)
    requires n <= |topics|
    requires EnrichAll(topics[..n], awards).Err?
    ensures EnrichAll(topics, awards) == EnrichAll(topics[..n], awards)
    decreases |topics|
  {
    if n < |topics| {
      var init := topics[..|topics| - 1];
      assert init[..n] == topics[..n];
      EnrichErrorSticks(init, awards, n);
    } else {
      assert topics[..n] == topics;
    }
  }

  /** The join goes through exactly when every topic id can be looked up. */
  lemma {:induction false} EnrichOk(topics: seq<Topic>, awards: map<string, AwardEntry>)
    ensures EnrichAll(topics, awards).Ok? <==> forall i :: 0 <= i < |topics| ==> IsHashable(topics[i].topicId)
    decreases |topics|
  {
    if topics != [] {
      var init := topics[..|topics| - 1];
      EnrichOk(init, awards);
      assert forall i :: 0 <= i < |init| ==> init[i] == topics[i];
    }
  }

  /** A failure names the first topic whose id is a list or an object. */
  lemma {:induction false} EnrichFirstError(topics: seq<Topic>, awards: map<string, AwardEntry>)
    requires EnrichAll(topics, awards).Err?
    ensures var i := EnrichAll(topics, awards).error.index;
      && i < |topics| && !IsHashable(topics[i].topicId)
      && forall j :: 0 <= j < i ==> IsHashable(topics[j].topicId)
    decreases |topics|
  {
    var init := topics[..|topics| - 1];
    assert forall i :: 0 <= i < |init| ==> init[i] == topics[i];
    if EnrichAll(init, awards).Err? {
      EnrichFirstError(init, awards);
    } else {
      EnrichOk(init, awards);
    }
  }

  /** Left outer join cardinality and order: one row per topic, row `i`
      built from topic `i` alone and keeping all of its columns. */
  lemma {:induction false} EnrichRows(topics: seq<Topic>, awards: map<string, AwardEntry>)
    requires EnrichAll(topics, awards).Ok?
    ensures var rows := EnrichAll(topics, awards).value;
      && |rows| == |topics|
      && forall i :: 0 <= i < |topics| ==>
           rows[i].topic == topics[i] && rows[i] == EnrichRow(topics[i], Lookup(awards, topics[i].topicId))
    decreases |topics|
  {
    if topics != [] {
      var init := topics[..|topics| - 1];
      EnrichRows(init, awards);
      assert forall i :: 0 <= i < |init| ==> init[i] == topics[i];
    }
  }

  /** A topic whose id is, as a string, exactly a key of the dictionary is
      "Awarded" and carries that entry's five fields. */
  lemma EnrichMatched(topics: seq<Topic>, awards: map<string, AwardEntry>, i: nat)
    requires EnrichAll(topics, awards).Ok?
    requires i < |topics|
    requires topics[i].topicId.JStr? && topics[i].topicId.s in awards
    ensures var row := EnrichAll(topics, awards).value[i]; var e := awards[topics[i].topicId.s];
      && row.statusEnriched == JStr("Awarded")
      && row.awardeeName == e.awardeeName
      && row.awardPhase == e.awardPhase
      && row.awardAmount == e.awardAmount
      && row.awardDate == e.awardDate
      && row.awardUrl == JStr(e.awardUrl)
  {
    EnrichRows(topics, awards);
  }

  /** A topic whose id is not a key (a different string, or not a string at
      all) keeps its own status and gets "" in all five award columns. */
  lemma EnrichUnmatched(topics: seq<Topic>, awards: map<string, AwardEntry>, i: nat)
    requires EnrichAll(topics, awards).Ok?
    requires i < |topics|
    requires !(topics[i].topicId.JStr? && topics[i].topicId.s in awards)
    ensures var row := EnrichAll(topics, awards).value[i];
      && row.statusEnriched == topics[i].status
      && row.awardeeName == JStr("")
      && row.awardPhase == JStr("")
      && row.awardAmount == JStr("")
      && row.awardDate == JStr("")
      && row.awardUrl == JStr("")
  {
    EnrichRows(topics, awards);
  }

  /** With an empty award dictionary every topic is unmatched. */
  lemma EnrichNoAwards(topics: seq<Topic>, i: nat)
    requires EnrichAll(topics, map[]).Ok?
    requires i < |topics|
    ensures var row := EnrichAll(topics, map[]).value[i];
      && row.statusEnriched == topics[i].status
      && row.awardeeName == JStr("")
      && row.awardPhase == JStr("")
      && row.awardAmount == JStr("")
      && row.awardDate == JStr("")
      && row.awardUrl == JStr("")
  {
    EnrichUnmatched(topics, map[], i);
  }

  /** A worked example of the exact lookup: with a single award stored under
      `AF24-D002`, the topic ids `af24-d002` and ` AF24-D002` find nothing,
      and only the identical id finds the entry. */
  lemma ExactKeyOnly(e: AwardEntry, status: Json)
    ensures var awards := map["AF24-D002" := e];
      var blank := JStr("");
      var topics := [
        Topic(JStr("af24-d002"), blank, blank, blank, status),
        Topic(JStr(" AF24-D002"), blank, blank, blank, status),
        Topic(JStr("AF24-D002"), blank, blank, blank, status)];
      && EnrichAll(topics, awards).Ok?
      && EnrichAll(topics, awards).value[0].statusEnriched == status
      && EnrichAll(topics, awards).value[1].statusEnriched == status
      && EnrichAll(topics, awards).value[1].awardeeName == JStr("")
      && EnrichAll(topics, awards).value[2].statusEnriched == JStr("Awarded")
      && EnrichAll(topics, awards).value[2].awardeeName == e.awardeeName
  {
    var awards := map["AF24-D002" := e];
    var blank := JStr("");
    var topics := [
      Topic(JStr("af24-d002"), blank, blank, blank, status),
      Topic(JStr(" AF24-D002"), blank, blank, blank, status),
      Topic(JStr("AF24-D002"), blank, blank, blank, status)];
    EnrichOk(topics, awards);
    assert "af24-d002" != "AF24-D002" by { assert "af24-d002"[0] != "AF24-D002"[0]; }
    assert " AF24-D002" != "AF24-D002" by { assert |" AF24-D002"| != |"AF24-D002"|; }
    EnrichUnmatched(topics, awards, 0);
    EnrichUnmatched(topics, awards, 1);
    EnrichMatched(topics, awards, 2);
  }
}
