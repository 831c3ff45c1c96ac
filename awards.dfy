/** The award side of the merge: the loop of `get_sbir_awards` in
    fetch_and_merge.py, which builds a dictionary from stripped solicitation
    topic code to a five-field award entry. The HTTP request, the clock that
    picks the award year, and the JSON decoding are outside the model: their
    outcome is the parameter `fetched`, `None` when any of them raised (the
    function then returns an empty dictionary). The loop itself runs outside
    the `try`, so an award it cannot handle stops the program: that is the
    `Err` of the model. */
module Awards {
  import opened PyText
  import opened PyJson

  /** Every award URL is this text followed by the award's id. */
  const DetailUrlPrefix := "https://www.sbir.gov/sbirsearch/detail/"

  /** The value stored under a topic code. The first four fields hold the
      JSON value the API gave (null when the field, or the firm's name, is
      missing); the URL is always a text. */
  datatype AwardEntry = AwardEntry(
    awardeeName: Json,
    awardPhase: Json,
    awardAmount: Json,
    awardDate: Json,
    awardUrl: string)

  /** Why the loop raised, and at which award. */
  datatype AwardError =
    | NotAnObject(index: nat)    // `award.get` on something that is not a dict
    | CodeNotText(index: nat)    // `.strip()` on a topic code that is not a string
    | FirmNotObject(index: nat)  // `.get("name")` on a firm that is not a dict

  /** The award's stripped topic code; `None` when the code is present but
      not a string, where `.strip()` raises. A missing code counts as `""`. */
  function TopicCode(award: map<string, Json>): Option<string> {
    match Get(award, "solicitation_topic_code", JStr(""))
    case JStr(s) => Some(Strip(s))
    case _ => None
  }

  /** The firm's name (null when missing); `None` when the firm is present
      but not an object, where the second `.get` raises. */
  function FirmName(award: map<string, Json>): Option<Json> {
    match Get(award, "firm", JObj(map[]))
    case JObj(firm) => Some(Get(firm, "name", JNull))
    case _ => None
  }

  /** The entry built from one award, in the order Python evaluates the
      dict literal: the firm's name first, so a bad firm raises before
      anything else is read. */
  function EntryOf(award: map<string, Json>): Option<AwardEntry> {
    match FirmName(award)
    case None => None
    case Some(name) =>
      Some(AwardEntry(
        name,
        Get(award, "phase", JNull),
        Get(award, "amount", JNull),
        Get(award, "award_year", JNull),
        DetailUrlPrefix + Str(Get(award, "id", JNull))))
  }

  /** An award the loop gets through without raising. */
  predicate Admissible(award: Json) {
    && award.JObj?
    && TopicCode(award.fields).Some?
    && (TopicCode(award.fields).value != "" ==> FirmName(award.fields).Some?)
  }

  /** Award `j` of `data` carries the stripped topic code `k`. */
  ghost predicate HasCode(data: seq<Json>, j: int, k: string) {
    0 <= j < |data| && data[j].JObj? && TopicCode(data[j].fields) == Some(k)
  }

  /** One pass of the loop body on the dictionary built so far: skip an
      award whose stripped code is empty, otherwise store its entry under
      the code, replacing whatever an earlier award stored there. */
  function Step(awards: map<string, AwardEntry>, award: Json, i: nat): Result<map<string, AwardEntry>, AwardError> {
    if !award.JObj? then Err(NotAnObject(i))
    else
      match TopicCode(award.fields)
      case None => Err(CodeNotText(i))
      case Some(code) =>
        if code == "" then Ok(awards)
        else
          match EntryOf(award.fields)
          case None => Err(FirmNotObject(i))
          case Some(entry) => Ok(awards[code := entry])
  }

  /** The dictionary the loop builds from `data`: a left fold of `Step`
      from the empty dictionary, stopping at the first error. */
  function Index(data: seq<Json>): Result<map<string, AwardEntry>, AwardError>
    decreases |data|
  {
    if data == [] then Ok(map[])
    else
      match Index(data[..|data| - 1])
      case Err(e) => Err(e)
      case Ok(awards) => Step(awards, data[|data| - 1], |data| - 1)
  }

  /** What `get_sbir_awards` returns: `{}` when the request failed,
      otherwise the dictionary the loop builds (or the error it raises). */
  function SbirAwards(fetched: Option<seq<Json>>): Result<map<string, AwardEntry>, AwardError> {
    match fetched
    case None => Ok(map[])
    case Some(data) => Index(data)
  }

  /** `get_sbir_awards` from the decoded response on: the loop that fills
      the `awards` dictionary in place. */
  method GetSbirAwards(fetched: Option<seq<Json>>) returns (r: Result<map<string, AwardEntry>, AwardError>)
    ensures r == SbirAwards(fetched)
  {
    if fetched.None? {
      return Ok(map[]);
    }
    var data := fetched.value;
    var awards: map<string, AwardEntry> := map[];
    for i := 0 to |data|
      invariant Index(data[..i]) == Ok(awards)
    {
      var award := data[i];
      assert data[..i + 1][..i] == data[..i];
      if !award.JObj? {
        IndexErrorSticks(data, i + 1);
        return Err(NotAnObject(i));
      }
      var code := TopicCode(award.fields);
      if code.None? {
        IndexErrorSticks(data, i + 1);
        return Err(CodeNotText(i));
      }
      var topic := code.value;
      if topic != "" {
        var entry := EntryOf(award.fields);
        if entry.None? {
          IndexErrorSticks(data, i + 1);
          return Err(FirmNotObject(i));
        }
        awards := awards[topic := entry.value];
      }
    }
    assert data[..|data|] == data;
    return Ok(awards);
  }

  /** Once the loop has raised, later awards change nothing. */
  lemma {:induction false} IndexErrorSticks(data: seq<Json>, n: nat)
    requires n <= |data|
    requires Index(data[..n]).Err?
    ensures Index(data) == Index(data[..n])
    decreases |data|
  {
    if n < |data| {
      var init := data[..|data| - 1];
      assert init[..n] == data[..n];
      IndexErrorSticks(init, n);
    } else {
      assert data[..n] == data;
    }
  }

  /** The loop runs to the end exactly when every award is admissible. */
  lemma {:induction false} IndexOk(data: seq<Json>)
    ensures Index(data).Ok? <==> forall j :: 0 <= j < |data| ==> Admissible(data[j])
    decreases |data|
  {
    if data != [] {
      var init := data[..|data| - 1];
      IndexOk(init);
      assert forall j :: 0 <= j < |init| ==> init[j] == data[j];
    }
  }

  /** An error names the first award that is not admissible, and why. */
  lemma {:induction false} IndexError(data: seq<Json>)
    requires Index(data).Err?
    ensures var e := Index(data).error;
      && e.index < |data|
      && (forall j :: 0 <= j < e.index ==> Admissible(data[j]))
      && (e.NotAnObject? <==> !data[e.index].JObj?)
      && (e.CodeNotText? ==> TopicCode(data[e.index].fields).None?)
      && (e.FirmNotObject? ==> TopicCode(data[e.index].fields).Some?
                               && TopicCode(data[e.index].fields).value != ""
                               && FirmName(data[e.index].fields).None?)
    decreases |data|
  {
    var init := data[..|data| - 1];
    assert forall j :: 0 <= j < |init| ==> init[j] == data[j];
    if Index(init).Err? {
      IndexError(init);
    } else {
      IndexOk(init);
    }
  }

  /** Award `j` is the last award of `data` whose stripped code is `k`. */
  ghost predicate LastWithCode(data: seq<Json>, j: int, k: string) {
    HasCode(data, j, k) && forall j' :: j < j' < |data| ==> !HasCode(data, j', k)
  }

  /** The dictionary after one more award: unchanged when its code is
      empty, otherwise the earlier dictionary with the award's entry stored
      under its code. */
  lemma IndexSnoc(data: seq<Json>)
    requires data != [] && Index(data).Ok?
    ensures var init := data[..|data| - 1]; var last := data[|data| - 1];
      && Index(init).Ok? && Admissible(last)
      && var code := TopicCode(last.fields).value;
      Index(data).value == if code == "" then Index(init).value
                           else Index(init).value[code := EntryOf(last.fields).value]
  {
  }

  /** No award is ever stored under the empty code. */
  lemma {:induction false} NoEmptyKey(data: seq<Json>)
    requires Index(data).Ok?
    ensures "" !in Index(data).value
    decreases |data|
  {
    if data != [] {
      IndexSnoc(data);
      NoEmptyKey(data[..|data| - 1]);
    }
  }

  /** Dropping the last award does not change what the others carry. */
  lemma HasCodeInit(data: seq<Json>, j: int, k: string)
    requires 0 <= j < |data| - 1
    ensures HasCode(data[..|data| - 1], j, k) == HasCode(data, j, k)
  {
    assert data[..|data| - 1][j] == data[j];
  }

  /** The position of the last award of `data` whose stripped code is `k`,
      or -1 when no award carries `k`. */
  ghost function LastCarrier(data: seq<Json>, k: string): (j: int)
    ensures -1 <= j < |data|
    ensures j >= 0 ==> HasCode(data, j, k)
    decreases |data|
  {
    if data == [] then -1
    else if HasCode(data, |data| - 1, k) then |data| - 1
    else
      var j := LastCarrier(data[..|data| - 1], k);
      if j >= 0 then HasCodeInit(data, j, k); j else j
  }

  /** `LastCarrier` is what its name says: -1 when no award carries `k`,
      otherwise an award carrying `k` that no later award carries. */
  lemma {:induction false} LastCarrierIsLast(data: seq<Json>, k: string)
    ensures LastCarrier(data, k) == -1 ==> forall j :: !HasCode(data, j, k)
    ensures LastCarrier(data, k) >= 0 ==> LastWithCode(data, LastCarrier(data, k), k)
    decreases |data|
  {
    if data != [] && !HasCode(data, |data| - 1, k) {
      var n := |data| - 1;
      var init := data[..n];
      LastCarrierIsLast(init, k);
      forall j | 0 <= j < n
        ensures HasCode(data, j, k) == HasCode(init, j, k)
      {
        HasCodeInit(data, j, k);
      }
    }
  }

  /** Last award wins: the entry under `k` is the one built from the last
      award whose stripped code is `k`. */
  lemma {:induction false} IndexLastWins(data: seq<Json>, k: string)
    requires Index(data).Ok?
    requires k in Index(data).value
    ensures 0 <= LastCarrier(data, k)
    ensures EntryOf(data[LastCarrier(data, k)].fields) == Some(Index(data).value[k])
    decreases |data|
  {
    var n := |data| - 1;
    var init := data[..n];
    var m := Index(data).value;
    IndexSnoc(data);
    var code := TopicCode(data[n].fields).value;
    if code == k {
      NoEmptyKey(data);
      assert HasCode(data, n, k);
    } else {
      assert !HasCode(data, n, k);
      assert m[k] == Index(init).value[k];
      IndexLastWins(init, k);
      assert init[LastCarrier(init, k)] == data[LastCarrier(init, k)];
    }
  }

  /** Every entry's URL is the detail-page prefix followed by the id of the
      last award carrying that code. */
  lemma IndexUrl(data: seq<Json>, k: string)
    requires Index(data).Ok?
    requires k in Index(data).value
    ensures 0 <= LastCarrier(data, k)
    ensures Index(data).value[k].awardUrl
         == DetailUrlPrefix + Str(Get(data[LastCarrier(data, k)].fields, "id", JNull))
  {
    IndexLastWins(data, k);
  }

  /** Every award with a non-empty stripped code leaves a key: a later
      award can replace the entry but never remove the key. */
  lemma {:induction false} CarrierIsKey(data: seq<Json>, j: int, k: string)
    requires Index(data).Ok?
    requires HasCode(data, j, k) && k != ""
    ensures k in Index(data).value
    decreases |data|
  {
    var n := |data| - 1;
    IndexSnoc(data);
    if j < n {
      HasCodeInit(data, j, k);
      CarrierIsKey(data[..n], j, k);
    }
  }

  /** The keys are exactly the non-empty stripped codes of the awards. */
  lemma IndexKeys(data: seq<Json>)
    requires Index(data).Ok?
    ensures forall k :: k in Index(data).value <==> k != "" && exists j :: HasCode(data, j, k)
  {
    NoEmptyKey(data);
    forall k
      ensures k in Index(data).value <==> k != "" && exists j :: HasCode(data, j, k)
    {
      if k in Index(data).value {
        IndexLastWins(data, k);
        assert HasCode(data, LastCarrier(data, k), k);
      }
      if k != "" && exists j :: HasCode(data, j, k) {
        var j :| HasCode(data, j, k);
        CarrierIsKey(data, j, k);
      }
    }
  }

  /** Every key is already stripped: non-empty, no whitespace at either end,
      and stripping it again leaves it as it is. */
  lemma KeysStripped(data: seq<Json>, k: string)
    requires Index(data).Ok?
    requires k in Index(data).value
    ensures k != "" && Trimmed(k) && Strip(k) == k
  {
    IndexKeys(data);
    var j :| HasCode(data, j, k);
    var raw := Get(data[j].fields, "solicitation_topic_code", JStr("")).s;
    StripShape(raw);
    StripIdempotent(raw);
  }

  /** An award whose code is missing, empty or only whitespace leaves the
      dictionary as it was. */
  lemma SkipsBlankCode(data: seq<Json>, award: Json)
    requires award.JObj?
    requires var code := Get(award.fields, "solicitation_topic_code", JStr(""));
      code.JStr? && AllSpace(code.s)
    ensures Index(data + [award]) == Index(data)
  {
    StripBlank(Get(award.fields, "solicitation_topic_code", JStr("")).s);
    assert (data + [award])[..|data|] == data;
  }

  /** A matched entry is not all-or-nothing: an award with a non-blank code
      but no firm, phase, amount or year is stored with null in those four
      fields and a full URL, under its stripped code, whatever came before. */
  lemma MissingFieldsStayNull(data: seq<Json>, award: map<string, Json>)
    requires Index(data).Ok?
    requires "solicitation_topic_code" in award && award["solicitation_topic_code"].JStr?
    requires Strip(award["solicitation_topic_code"].s) != ""
    requires "firm" !in award && "phase" !in award && "amount" !in award && "award_year" !in award
    ensures Index(data + [JObj(award)])
         == Ok(Index(data).value[Strip(award["solicitation_topic_code"].s) :=
                 AwardEntry(JNull, JNull, JNull, JNull, DetailUrlPrefix + Str(Get(award, "id", JNull)))])
  {
    assert (data + [JObj(award)])[..|data|] == data;
  }
}
