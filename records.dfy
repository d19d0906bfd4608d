/**
 * The tracker records the bot reads, as the JSON shapes the tracker's REST API
 * returns, together with the few Python idioms (dict.get with a default,
 * f-string formatting, `x or ''`) through which the bot reads them.
 */
module Records {
  import opened Wrappers

  /** One string-valued field of a JSON object: absent, JSON null, or a string. */
  datatype JsonText = Missing | Null | Text(value: string)

  /** The `assignee` object of an issue; an empty object is `Assignee(Missing)`. */
  datatype Assignee = Assignee(displayName: JsonText)

  /** The `fields` object of an issue. `assignee == None` is a missing or null assignee. */
  datatype Fields = Fields(summary: JsonText, description: JsonText, created: JsonText, assignee: Option<Assignee>)

  /** One issue of a search response; `fields == None` when the object has no `fields` key. */
  datatype Issue = Issue(key: string, fields: Option<Fields>)

  /**
   * The decoded body of one tracker request: no response at all (the request
   * failed and `None` was returned), an empty JSON object, or a non-empty one.
   */
  datatype Fetched<T> = NoResponse | EmptyObject | Object(body: T) {
    /** Python truthiness of the response: `None` and `{}` are falsy. */
    predicate Truthy() { Object? }
  }

  /** One entry of the ranked result list. `summary == None` is Python's None. */
  datatype SimilarTask = SimilarTask(key: string, summary: Option<string>, similarity: real)

  /** `obj.get(name, default)` on a string field; JSON null reads as Python None. */
  function Get(v: JsonText, default: string): (r: Option<string>)
    ensures r.None? <==> v.Null?
    ensures v.Missing? ==> r == Some(default)
    ensures v.Text? ==> r == Some(v.value)
  {
    match v
    case Missing => Some(default)
    case Null => None
    case Text(s) => Some(s)
  }

  /** `str(v)`, as an f-string interpolation renders it. */
  function Format(v: Option<string>): (r: string)
    ensures v.Some? ==> r == v.value
    ensures v.None? ==> r == "None"
  {
    match v
    case None => "None"
    case Some(s) => s
  }

  /** `v or ''`: None and the empty string both become the empty string. */
  function OrEmpty(v: Option<string>): (r: string)
    ensures v.Some? ==> r == v.value
    ensures v.None? ==> r == ""
  {
    match v
    case None => ""
    case Some(s) => s
  }

  /**
   * `issue.get('fields', {}).get('summary', '')`: the summary string, `""` when
   * the issue has no `fields` or its `fields` no `summary`, and None when it is null.
   */
  function SummaryValue(fields: Option<Fields>): (r: Option<string>)
    ensures fields.Some? && fields.value.summary.Text? ==> r == Some(fields.value.summary.value)
    ensures fields.None? || fields.value.summary.Missing? ==> r == Some("")
    ensures r.None? <==> fields.Some? && fields.value.summary.Null?
  {
    match fields
    case None => Some("")
    case Some(f) => Get(f.summary, "")
  }

  /**
   * `issue.get('fields', {}).get('description', '') or ''`: the description
   * string when there is one, and `""` when it is missing or null.
   */
  function DescriptionText(fields: Option<Fields>): (r: string)
    ensures fields.Some? && fields.value.description.Text? ==> r == fields.value.description.value
    ensures !(fields.Some? && fields.value.description.Text?) ==> r == ""
  {
    match fields
    case None => ""
    case Some(f) => OrEmpty(Get(f.description, ""))
  }

  /**
   * The text an issue is compared by, `f"{summary} {description}"`: the
   * summary, one space and the description, where a missing, null or empty
   * description contributes nothing and a summary-less issue has an empty
   * summary.
   */
  function IssueText(fields: Option<Fields>): (r: string)
    ensures fields.None? ==> r == " "
    ensures fields.Some? && fields.value.summary.Text? && fields.value.description.Text? ==>
      r == fields.value.summary.value + " " + fields.value.description.value
    ensures fields.Some? && fields.value.summary.Text? && !fields.value.description.Text? ==>
      r == fields.value.summary.value + " "
    ensures fields.Some? && fields.value.summary.Missing? ==> r == " " + DescriptionText(fields)
    ensures fields.Some? && fields.value.summary.Null? ==> r == "None " + DescriptionText(fields)
  {
    Format(SummaryValue(fields)) + " " + DescriptionText(fields)
  }
}
