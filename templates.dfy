/**
 * Template assembly as `process_templates` performs it, as functions of the
 * registry: each template record is copied, its `content` rewritten when it
 * has one, and appended to the output; a record without `name` stops the run.
 */
module Templates {
  import opened Wrappers
  import opened Assets
  import opened Substitution

  /** A JSON field value: a string, or any other JSON value, kept as its text. */
  datatype Value = Str(s: string) | NonString(json: string)

  /** A template descriptor as parsed: a JSON object. */
  type Record = map<string, Value>

  /**
   * Why the run stops: a record without `name` (the KeyError of the log call),
   * or a `content` that is not a string while some entry would be looked for
   * in it (the TypeError of `pattern in content`).
   */
  datatype TemplateError = MissingName | ContentNotString

  /** The registry holds a stylesheet or image entry, so substitution searches the content. */
  predicate HasRewritingAsset(order: seq<string>, assets: map<string, Asset>)
    requires InRegistry(order, assets)
  {
    exists i | 0 <= i < |order| :: assets[order[i]].kind != Unknown
  }

  /** The record with its `content` rewritten, when it has one. */
  function RewriteRecord(order: seq<string>, assets: map<string, Asset>, t: Record): Result<Record, TemplateError>
    requires InRegistry(order, assets)
  {
    if "content" !in t then Ok(t)
    else
      match t["content"]
      case Str(s) => Ok(t["content" := Str(SubstituteAll(order, assets, s))])
      case NonString(_) => if HasRewritingAsset(order, assets) then Err(ContentNotString) else Ok(t)
  }

  function ProcessRecord(order: seq<string>, assets: map<string, Asset>, t: Record): Result<Record, TemplateError>
    requires InRegistry(order, assets)
  {
    match RewriteRecord(order, assets, t)
    case Err(e) => Err(e)
    case Ok(t') => if "name" in t' then Ok(t') else Err(MissingName)
  }

  /** The output list after the records `ts`, in listing order; the first failing record's error otherwise. */
  function ProcessAll(order: seq<string>, assets: map<string, Asset>, ts: seq<Record>): Result<seq<Record>, TemplateError>
    requires InRegistry(order, assets)
    decreases |ts|
  {
    if ts == [] then Ok([])
    else
      match ProcessAll(order, assets, ts[..|ts| - 1])
      case Err(e) => Err(e)
      case Ok(out) =>
        match ProcessRecord(order, assets, ts[|ts| - 1])
        case Err(e) => Err(e)
        case Ok(t) => Ok(out + [t])
  }

  /** `process_templates`: no templates directory gives an empty list. */
  function ProcessTemplatesSpec(order: seq<string>, assets: map<string, Asset>, templatesDir: Option<seq<Record>>): (r: Result<seq<Record>, TemplateError>)
    requires InRegistry(order, assets)
    ensures templatesDir.None? ==> r == Ok([])
  {
    match templatesDir
    case None => Ok([])
    case Some(ts) => ProcessAll(order, assets, ts)
  }

  /** A record goes through: it has a name, and a non-string content is never searched. */
  predicate RecordOk(order: seq<string>, assets: map<string, Asset>, t: Record)
    requires InRegistry(order, assets)
  {
    "name" in t && !("content" in t && t["content"].NonString? && HasRewritingAsset(order, assets))
  }

  /** The output record keeps every field of the input but `content`, which is rewritten when it is a string. */
  predicate RewrittenFrom(order: seq<string>, assets: map<string, Asset>, out: Record, t: Record)
    requires InRegistry(order, assets)
  {
    out.Keys == t.Keys
    && (forall k | k in t && k != "content" :: out[k] == t[k])
    && ("content" in t ==> out["content"] == RewrittenContent(order, assets, t["content"]))
  }

  function RewrittenContent(order: seq<string>, assets: map<string, Asset>, v: Value): Value
    requires InRegistry(order, assets)
  {
    match v
    case Str(s) => Str(SubstituteAll(order, assets, s))
    case NonString(_) => v
  }

  lemma ProcessRecordCases(order: seq<string>, assets: map<string, Asset>, t: Record)
    requires InRegistry(order, assets)
    ensures ProcessRecord(order, assets, t).Ok? <==> RecordOk(order, assets, t)
    ensures ProcessRecord(order, assets, t).Ok? ==> RewrittenFrom(order, assets, ProcessRecord(order, assets, t).value, t)
  {
  }

  /**
   * The run succeeds exactly when every record goes through, and then yields
   * one record per input record, in order, each rewritten from its input.
   */
  lemma {:induction false} ProcessAllOk(order: seq<string>, assets: map<string, Asset>, ts: seq<Record>)
    requires InRegistry(order, assets)
    ensures ProcessAll(order, assets, ts).Ok? <==> forall i | 0 <= i < |ts| :: RecordOk(order, assets, ts[i])
    ensures ProcessAll(order, assets, ts).Ok? ==>
      var out := ProcessAll(order, assets, ts).value;
      |out| == |ts| && forall i | 0 <= i < |ts| :: RewrittenFrom(order, assets, out[i], ts[i])
    decreases |ts|
  {
    if ts != [] {
      var init := ts[..|ts| - 1];
      var last := ts[|ts| - 1];
      ProcessAllOk(order, assets, init);
      ProcessRecordCases(order, assets, last);
      assert forall i | 0 <= i < |init| :: init[i] == ts[i];
      if ProcessAll(order, assets, ts).Ok? {
        var out := ProcessAll(order, assets, init).value;
        var t := ProcessRecord(order, assets, last).value;
        assert ProcessAll(order, assets, ts).value == out + [t];
      }
    }
  }

  /** A failed run reports the error of its first failing record. */
  lemma {:induction false} ProcessAllFirstError(order: seq<string>, assets: map<string, Asset>, ts: seq<Record>)
    requires InRegistry(order, assets) && ProcessAll(order, assets, ts).Err?
    ensures exists i | 0 <= i < |ts| ::
      ProcessRecord(order, assets, ts[i]) == Err(ProcessAll(order, assets, ts).error)
      && forall j | 0 <= j < i :: ProcessRecord(order, assets, ts[j]).Ok?
    decreases |ts|
  {
    var init := ts[..|ts| - 1];
    if ProcessAll(order, assets, init).Err? {
      ProcessAllFirstError(order, assets, init);
      var i :| 0 <= i < |init| &&
        ProcessRecord(order, assets, init[i]) == Err(ProcessAll(order, assets, init).error)
        && forall j | 0 <= j < i :: ProcessRecord(order, assets, init[j]).Ok?;
      assert forall j | 0 <= j <= i :: init[j] == ts[j];
    } else {
      ProcessAllOk(order, assets, init);
      forall j | 0 <= j < |init|
        ensures ProcessRecord(order, assets, ts[j]).Ok?
      {
        assert init[j] == ts[j];
        ProcessRecordCases(order, assets, init[j]);
      }
    }
  }

  /** Once a record fails, the records after it are not looked at. */
  lemma {:induction false} ProcessAllStopsAtError(order: seq<string>, assets: map<string, Asset>, ts: seq<Record>, i: nat)
    requires InRegistry(order, assets) && i <= |ts| && ProcessAll(order, assets, ts[..i]).Err?
    ensures ProcessAll(order, assets, ts) == ProcessAll(order, assets, ts[..i])
    decreases |ts| - i
  {
    if i < |ts| {
      assert ts[..i + 1][..i] == ts[..i];
      ProcessAllStopsAtError(order, assets, ts, i + 1);
    } else {
      assert ts[..i] == ts;
    }
  }

  /** With an empty registry every named record comes out exactly as it went in. */
  lemma {:induction false} EmptyRegistryKeepsRecords(ts: seq<Record>)
    requires forall i | 0 <= i < |ts| :: "name" in ts[i]
    ensures ProcessAll([], map[], ts) == Ok(ts)
    decreases |ts|
  {
    if ts != [] {
      var init := ts[..|ts| - 1];
      var last := ts[|ts| - 1];
      EmptyRegistryKeepsRecords(init);
      if "content" in last && last["content"].Str? {
        assert last["content" := Str(SubstituteAll([], map[], last["content"].s))] == last;
      }
      assert init + [last] == ts;
    }
  }
}
