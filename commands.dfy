/**
 * The pure expressions inside the bot's command handlers that prepare an
 * issue for display: key normalisation, description truncation, creation
 * date, assignee name.
 */
module Commands {
  import opened Wrappers
  import opened Records

  /** The project every command works on (`JIRA_PROJECT`). */
  const ProjectKey: string := "NAME"

  /** The prefix of every issue key of the project. */
  const KeyPrefix: string := ProjectKey + "-"

  /** The longest description the status command shows unabridged. */
  const MaxDescription: nat := 2000

  const Ellipsis: string := "..."

  /** Shown when an issue has no assignee. */
  const Unassigned: string := "Não atribuído"

  /** Shown when an issue has no creation date. */
  const UnknownDate: string := "Data desconhecida"

  /** Shown when an issue has no description. */
  const NoDescription: string := "Sem descrição"

  /** `s.startswith(p)`. */
  predicate StartsWith(s: string, p: string)
  {
    |p| <= |s| && s[..|p|] == p
  }

  /** The key a user typed, with `NAME-` put in front unless it is already there. */
  function NormalizeKey(key: string): (r: string)
    ensures StartsWith(r, KeyPrefix)
    ensures StartsWith(key, KeyPrefix) ==> r == key
    ensures !StartsWith(key, KeyPrefix) ==> r == KeyPrefix + key
  {
    if StartsWith(key, KeyPrefix) then key else KeyPrefix + key
  }

  /** Normalising a key twice is normalising it once. */
  lemma NormalizeKeyIdempotent(key: string)
    ensures NormalizeKey(NormalizeKey(key)) == NormalizeKey(key)
  {
  }

  /** A bare issue number such as "123" becomes "NAME-123". */
  lemma NormalizeKeyOfNumber(key: string)
    requires forall i :: 0 <= i < |key| ==> '0' <= key[i] <= '9'
    ensures NormalizeKey(key) == KeyPrefix + key
  {
    if |KeyPrefix| <= |key| {
      assert key[..|KeyPrefix|][0] == key[0];
      assert '0' <= key[0] <= '9';
    }
  }

  /** `description[:2000] + ('...' if len(description) > 2000 else '')`. */
  function TruncateDescription(d: string): (r: string)
    ensures |d| <= MaxDescription ==> r == d
    ensures |d| > MaxDescription ==> |r| == MaxDescription + |Ellipsis| && r[..MaxDescription] == d[..MaxDescription] && r[MaxDescription..] == Ellipsis
    ensures |r| <= MaxDescription + |Ellipsis|
  {
    if |d| > MaxDescription then d[..MaxDescription] + Ellipsis else d
  }

  /** The truncated text starts with the shown part of the original and ends in "..." exactly when it was cut. */
  lemma TruncateDescriptionShape(d: string)
    ensures var n := if |d| <= MaxDescription then |d| else MaxDescription;
      && StartsWith(TruncateDescription(d), d[..n])
      && (TruncateDescription(d) == d[..n] + Ellipsis <==> |d| > MaxDescription)
  {
  }

  /** The part of `s` before the first `c`: `s.split(c)[0]`. */
  function UntilFirst(s: string, c: char): (r: string)
    ensures StartsWith(s, r)
    ensures c !in r
    ensures |r| < |s| ==> s[|r|] == c
  {
    if s == [] || s[0] == c then []
    else
      var rest := UntilFirst(s[1..], c);
      assert s == [s[0]] + s[1..];
      [s[0]] + rest
  }

  /** A text made of a part without `c`, then `c` or nothing, splits into that part. */
  lemma {:induction false} UntilFirstOf(part: string, rest: string, c: char)
    requires c !in part
    requires rest == [] || rest[0] == c
    ensures UntilFirst(part + rest, c) == part
    decreases |part|
  {
    if part == [] {
      assert part + rest == rest;
    } else {
      assert (part + rest)[0] == part[0];
      assert (part + rest)[1..] == part[1..] + rest;
      UntilFirstOf(part[1..], rest, c);
    }
  }

  /**
   * `fields.get('created', '').split('T')[0] if fields.get('created') else 'Data desconhecida'`:
   * the date part of the creation timestamp, or the placeholder when there is none.
   */
  function CreatedDate(created: JsonText): (r: string)
    ensures created.Text? && created.value != "" ==>
      && StartsWith(created.value, r) && 'T' !in r
      && (|r| < |created.value| ==> created.value[|r|] == 'T')
    ensures !(created.Text? && created.value != "") ==> r == UnknownDate
  {
    match created
    case Text(s) => if s != "" then UntilFirst(s, 'T') else UnknownDate
    case _ => UnknownDate
  }

  /** An ISO timestamp "date" + "T" + "time" shows as its date; a missing, null or empty one as the placeholder. */
  lemma CreatedDateOfTimestamp(date: string, time: string)
    requires 'T' !in date
    ensures CreatedDate(Text(date + "T" + time)) == date
    ensures date != "" ==> CreatedDate(Text(date)) == date
    ensures CreatedDate(Missing) == UnknownDate && CreatedDate(Null) == UnknownDate && CreatedDate(Text("")) == UnknownDate
  {
    assert date + "T" + time == date + ("T" + time);
    UntilFirstOf(date, "T" + time, 'T');
    UntilFirstOf(date, [], 'T');
    assert date + [] == date;
  }

  /**
   * `assignee.get('displayName', 'Não atribuído') if assignee else 'Não atribuído'`
   * with `assignee = fields.get('assignee', {})`: the Python value shown.
   */
  function AssigneeName(assignee: Option<Assignee>): (r: Option<string>)
    ensures assignee.None? ==> r == Some(Unassigned)
    ensures assignee.Some? && assignee.value.displayName.Text? ==> r == Some(assignee.value.displayName.value)
    ensures assignee.Some? && assignee.value.displayName.Missing? ==> r == Some(Unassigned)
    ensures r.None? <==> assignee.Some? && assignee.value.displayName.Null?
  {
    match assignee
    case None => Some(Unassigned)
    case Some(a) => Get(a.displayName, Unassigned)
  }

  /** The default name is shown exactly when no name is recorded, or the recorded name is that default. */
  lemma AssigneeNameIsRecordedOrDefault(assignee: Option<Assignee>)
    ensures AssigneeName(assignee) == Some(Unassigned) <==>
      assignee.None? || assignee.value.displayName.Missing? || assignee.value.displayName == Text(Unassigned)
  {
  }

  /**
   * The description part of the status command as written:
   * `fields.get('description', 'Sem descrição')` truncated. A JSON null
   * description reaches the slice as None, which raises TypeError; `None` here
   * stands for that exception.
   */
  function StatusDescriptionAsWritten(description: JsonText): (r: Option<string>)
    ensures r.None? <==> description.Null?
    ensures description.Missing? ==> r == Some(NoDescription)
    ensures description.Text? ==> r == Some(TruncateDescription(description.value))
  {
    match Get(description, NoDescription)
    case None => None
    case Some(d) => Some(TruncateDescription(d))
  }

  /** The description part of the status command with null read like a missing description. */
  function StatusDescription(description: JsonText): (r: string)
    ensures !description.Text? ==> r == NoDescription
    ensures description.Text? ==> r == TruncateDescription(description.value)
    ensures |r| <= MaxDescription + |Ellipsis|
  {
    match description
    case Text(d) => TruncateDescription(d)
    case _ => NoDescription
  }

  /** The corrected description agrees with the one as written wherever that does not raise. */
  lemma StatusDescriptionAgrees(description: JsonText)
    ensures StatusDescriptionAsWritten(description).Some? ==>
      StatusDescription(description) == StatusDescriptionAsWritten(description).value
    ensures StatusDescriptionAsWritten(Null).None? && StatusDescription(Null) == NoDescription
  {
  }
}
