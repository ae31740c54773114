/** The event normalizer: one raw event of the events API becomes one canonical
    activity event with a normalized `event_type`, the repository split into
    owner and name, and a best-effort issue or pull-request number and link. */
module Normalizer {
  import opened Wrappers
  import opened JsString
  import opened JsValue

  /** One element of the events API response. The payload is kept as the
      decoded JSON value; of the other members only those the normalizer reads
      are modelled. */
  datatype RawEvent = RawEvent(
    tag: string,               // `type`, such as "IssuesEvent" or "PushEvent"
    payload: Value,
    repoName: string,          // `repo.name`, normally "owner/name"
    actorLogin: string,        // `actor.login`
    orgLogin: Option<string>,  // `org.login`; None when the event has no org
    createdAt: string)         // `created_at`, the timestamp text

  /** The canonical record. Absent values (`undefined` in the source) are
      None or Undefined. */
  datatype ActivityEvent = ActivityEvent(
    rawType: string,
    eventType: string,
    createdAt: string,
    repoOwner: string,
    repoName: Option<string>,
    repo: string,
    actor: string,
    org: Option<string>,
    number: Value,
    url: Value,
    payload: Value,
    rawEvent: RawEvent)

  /** The raw event as the JavaScript object a template sees as `raw_event`. */
  function EventValue(e: RawEvent): (v: Value)
    ensures v.Obj? && "type" in v.fields && v.fields["type"] == Str(e.tag)
    ensures "payload" in v.fields && v.fields["payload"] == e.payload
    ensures "repo" in v.fields && v.fields["repo"] == Obj(map["name" := Str(e.repoName)])
    ensures "actor" in v.fields && v.fields["actor"] == Obj(map["login" := Str(e.actorLogin)])
    ensures "created_at" in v.fields && v.fields["created_at"] == Str(e.createdAt)
    ensures ("org" in v.fields) == e.orgLogin.Some?
    ensures e.orgLogin.Some? ==> v.fields["org"] == Obj(map["login" := Str(e.orgLogin.value)])
    ensures v.fields.Keys == {"type", "payload", "repo", "actor", "created_at"} + (if e.orgLogin.Some? then {"org"} else {})
  {
    var base := map[
      "type" := Str(e.tag),
      "payload" := e.payload,
      "repo" := Obj(map["name" := Str(e.repoName)]),
      "actor" := Obj(map["login" := Str(e.actorLogin)]),
      "created_at" := Str(e.createdAt)];
    match e.orgLogin
    case None => Obj(base)
    case Some(login) => Obj(base["org" := Obj(map["login" := Str(login)])])
  }

  /** The issue or pull-request number and the link of an event. */
  datatype Link = Link(number: Value, url: Value)

  /** The three overwriting `if`s: the issue sets number and url, a pull request
      overwrites both, a comment overwrites the url only. Reading a property of
      an undefined or null payload throws. */
  function Links(payload: Value): Result<Link, JsError> {
    if Nullish(payload) then Failure(TypeError)
    else
      var issue := Get(payload, "issue");
      var afterIssue :=
        if Truthy(issue) then Link(Get(issue, "number"), Get(issue, "html_url"))
        else Link(Undefined, Undefined);
      var pr := Get(payload, "pull_request");
      var afterPr :=
        if Truthy(pr) then Link(Get(pr, "number"), Get(pr, "html_url"))
        else afterIssue;
      var comment := Get(payload, "comment");
      if Truthy(comment) then Success(afterPr.(url := Get(comment, "html_url")))
      else Success(afterPr)
  }

  /** The normalized `event_type`: the nested conditional of the source, first
      match wins. `payload.pull_request.merged` is read only for a closed pull
      request, and `payload.review.state.toLowerCase()` throws unless the state
      is a string. */
  function EventType(tag: string, payload: Value): Result<string, JsError> {
    if tag == "IssuesEvent" then
      var action :- Member(payload, "action");
      Success("issues_" + ToStr(action))
    else if tag == "PullRequestEvent" then
      var action :- Member(payload, "action");
      if action == Str("closed") then
        var merged :- Member(Get(payload, "pull_request"), "merged");
        if Truthy(merged) then Success("pr_merged") else Success("pr_" + ToStr(action))
      else Success("pr_" + ToStr(action))
    else if tag == "IssueCommentEvent" then Success("issue_commented")
    else if tag == "PullRequestReviewEvent" then
      var review :- Member(payload, "review");
      var state :- Member(review, "state");
      if state.Str? then Success("pr_review_" + Lower(state.s)) else Failure(TypeError)
    else if tag == "PullRequestReviewCommentEvent" then Success("pr_review_comment")
    else Success(Lower(StripSuffix(tag, "Event")))
  }

  /** `normalize(e)`. */
  function Normalize(e: RawEvent): (r: Result<ActivityEvent, JsError>)
    ensures r.Success? ==> && r.value.rawType == e.tag && r.value.repo == e.repoName
                           && r.value.actor == e.actorLogin && r.value.createdAt == e.createdAt
                           && r.value.org == e.orgLogin && r.value.payload == e.payload
                           && r.value.rawEvent == e
    ensures r.Success? <==> Links(e.payload).Success? && EventType(e.tag, e.payload).Success?
    ensures r.Success? ==> && EventType(e.tag, e.payload) == Success(r.value.eventType)
                           && Links(e.payload) == Success(Link(r.value.number, r.value.url))
    ensures r.Success? ==> && r.value.repoOwner == Split(e.repoName, '/')[0]
                           && r.value.repoName == (if |Split(e.repoName, '/')| > 1 then Some(Split(e.repoName, '/')[1]) else None)
  {
    var parts := Split(e.repoName, '/');
    var link :- Links(e.payload);
    var eventType :- EventType(e.tag, e.payload);
    Success(ActivityEvent(
      rawType := e.tag,
      eventType := eventType,
      createdAt := e.createdAt,
      repoOwner := parts[0],
      repoName := if |parts| > 1 then Some(parts[1]) else None,
      repo := e.repoName,
      actor := e.actorLogin,
      org := e.orgLogin,
      number := link.number,
      url := link.url,
      payload := e.payload,
      rawEvent := e))
  }

  // ---------------------------------------------------------------------
  // The priority table of event types, written as data.

  datatype Guard = TagIs(tag: string) | ClosedAndMerged
  datatype Label = AfterAction(prefix: string) | Fixed(text: string) | AfterReviewState(prefix: string)
  datatype Row = Row(guard: Guard, output: Label)

  /** The rows in priority order; a raw type no row claims falls back to the
      type without a trailing "Event", lower-cased. */
  const EventTable: seq<Row> := [
    Row(TagIs("IssuesEvent"), AfterAction("issues_")),
    Row(ClosedAndMerged, Fixed("pr_merged")),
    Row(TagIs("PullRequestEvent"), AfterAction("pr_")),
    Row(TagIs("IssueCommentEvent"), Fixed("issue_commented")),
    Row(TagIs("PullRequestReviewEvent"), AfterReviewState("pr_review_")),
    Row(TagIs("PullRequestReviewCommentEvent"), Fixed("pr_review_comment"))
  ]

  function GuardHolds(g: Guard, tag: string, payload: Value): Result<bool, JsError> {
    match g
    case TagIs(t) => Success(tag == t)
    case ClosedAndMerged =>
      if tag != "PullRequestEvent" then Success(false)
      else
        var action :- Member(payload, "action");
        if action != Str("closed") then Success(false)
        else
          var merged :- Member(Get(payload, "pull_request"), "merged");
          Success(Truthy(merged))
  }

  function LabelText(l: Label, payload: Value): Result<string, JsError> {
    match l
    case AfterAction(prefix) =>
      var action :- Member(payload, "action");
      Success(prefix + ToStr(action))
    case Fixed(text) => Success(text)
    case AfterReviewState(prefix) =>
      var review :- Member(payload, "review");
      var state :- Member(review, "state");
      if state.Str? then Success(prefix + Lower(state.s)) else Failure(TypeError)
  }

  function FirstMatch(rows: seq<Row>, tag: string, payload: Value): Result<string, JsError> {
    if rows == [] then Success(Lower(StripSuffix(tag, "Event")))
    else
      var hit :- GuardHolds(rows[0].guard, tag, payload);
      if hit then LabelText(rows[0].output, payload) else FirstMatch(rows[1..], tag, payload)
  }

  const KnownTags: set<string> := {
    "IssuesEvent", "PullRequestEvent", "IssueCommentEvent",
    "PullRequestReviewEvent", "PullRequestReviewCommentEvent"}

  lemma RowMiss(rows: seq<Row>, tag: string, payload: Value)
    requires rows != [] && GuardHolds(rows[0].guard, tag, payload) == Success(false)
    ensures FirstMatch(rows, tag, payload) == FirstMatch(rows[1..], tag, payload)
  {
  }

  lemma RowHit(rows: seq<Row>, tag: string, payload: Value)
    requires rows != [] && GuardHolds(rows[0].guard, tag, payload) == Success(true)
    ensures FirstMatch(rows, tag, payload) == LabelText(rows[0].output, payload)
  {
  }

  /** The event type is the label of the first row of the table whose guard
      holds, and the stripped, lower-cased raw type when none does. */
  lemma EventTypeFollowsTable(tag: string, payload: Value)
    ensures EventType(tag, payload) == FirstMatch(EventTable, tag, payload)
  {
    var t := EventTable;
    if tag == "IssuesEvent" {
      RowHit(t, tag, payload);
    } else if tag == "PullRequestEvent" {
      if GuardHolds(t[1].guard, tag, payload) != Success(true) {
        RowMiss(t, tag, payload);
        if GuardHolds(t[1].guard, tag, payload) == Success(false) {
          RowMiss(t[1..], tag, payload);
          RowHit(t[2..], tag, payload);
        }
      } else {
        RowMiss(t, tag, payload);
        RowHit(t[1..], tag, payload);
      }
    } else {
      RowMiss(t, tag, payload);
      RowMiss(t[1..], tag, payload);
      RowMiss(t[2..], tag, payload);
      if tag == "IssueCommentEvent" {
        RowHit(t[3..], tag, payload);
      } else {
        RowMiss(t[3..], tag, payload);
        if tag == "PullRequestReviewEvent" {
          RowHit(t[4..], tag, payload);
        } else {
          RowMiss(t[4..], tag, payload);
          if tag == "PullRequestReviewCommentEvent" {
            RowHit(t[5..], tag, payload);
          } else {
            RowMiss(t[5..], tag, payload);
            assert t[5..][1..] == [];
          }
        }
      }
    }
  }

  /** A raw type outside the table loses one trailing "Event" and is
      lower-cased; it is kept whole when it has no such suffix. */
  lemma FallbackEventType(tag: string, payload: Value, base: string)
    requires tag !in KnownTags
    ensures tag == base + "Event" ==> EventType(tag, payload) == Success(Lower(base))
    ensures !EndsWith(tag, "Event") ==> EventType(tag, payload) == Success(Lower(tag))
  {
    if tag == base + "Event" {
      assert EndsWith(tag, "Event");
      assert StripSuffix(tag, "Event") + "Event" == base + "Event";
      assert StripSuffix(tag, "Event") == base;
    }
  }

  /** Stripping one trailing suffix leaves nothing only from the empty text
      and from the suffix itself. */
  lemma StripSuffixEmptyIff(tag: string, suffix: string)
    requires suffix != []
    ensures StripSuffix(tag, suffix) == [] <==> tag == [] || tag == suffix
  {
    var stripped := StripSuffix(tag, suffix);
    if EndsWith(tag, suffix) {
      assert stripped + suffix == tag;
      if stripped == [] {
        assert [] + suffix == suffix;
      }
    }
  }

  /** The normalized type is empty only for the raw types "" and "Event"; every
      other raw type gets a non-empty event type. */
  lemma EventTypeEmptyIff(tag: string, payload: Value)
    requires EventType(tag, payload).Success?
    ensures EventType(tag, payload).value == "" <==> tag == "" || tag == "Event"
  {
    var r := EventType(tag, payload).value;
    if tag == "IssuesEvent" {
      assert |tag| == 11;
      assert |r| >= 7;
    } else if tag == "PullRequestEvent" {
      assert |tag| == 16;
      assert |r| >= 3;
    } else if tag == "IssueCommentEvent" {
      assert |tag| == 17;
    } else if tag == "PullRequestReviewEvent" {
      assert |tag| == 22;
      assert |r| >= 10;
    } else if tag == "PullRequestReviewCommentEvent" {
      assert |tag| == 29;
    } else {
      assert r == Lower(StripSuffix(tag, "Event"));
      StripSuffixEmptyIff(tag, "Event");
    }
  }

  /** `normalize` throws exactly when the payload is undefined or null, when a
      closed pull-request event has no pull request, or when a review event has
      no review or a review state that is not a string. */
  lemma NormalizeFailsIff(e: RawEvent)
    ensures Normalize(e).Failure? <==>
      || Nullish(e.payload)
      || (&& e.tag == "PullRequestEvent"
          && Get(e.payload, "action") == Str("closed")
          && Nullish(Get(e.payload, "pull_request")))
      || (&& e.tag == "PullRequestReviewEvent"
          && (Nullish(Get(e.payload, "review")) || !Get(Get(e.payload, "review"), "state").Str?))
  {
  }

  /** Number and link precedence: a pull request's number and link win over an
      issue's, a comment's link wins over both, the number never comes from a
      comment, and without any of the three both are undefined. */
  lemma LinkPrecedence(payload: Value)
    requires !Nullish(payload)
    ensures Links(payload).Success?
    ensures
      var issue, pr, comment := Get(payload, "issue"), Get(payload, "pull_request"), Get(payload, "comment");
      && Links(payload).value.number ==
           (if Truthy(pr) then Get(pr, "number")
            else if Truthy(issue) then Get(issue, "number")
            else Undefined)
      && Links(payload).value.url ==
           (if Truthy(comment) then Get(comment, "html_url")
            else if Truthy(pr) then Get(pr, "html_url")
            else if Truthy(issue) then Get(issue, "html_url")
            else Undefined)
  {
  }

  /** Adding, changing or removing the comment of a payload object changes at
      most the link, never the number nor the event type. */
  lemma CommentNeverSetsNumber(fields: map<string, Value>, comment: Value, tag: string)
    ensures
      var withComment := Obj(fields["comment" := comment]);
      && Links(withComment).value.number == Links(Obj(fields)).value.number
      && EventType(tag, withComment) == EventType(tag, Obj(fields))
  {
    var p, q := Obj(fields), Obj(fields["comment" := comment]);
    assert forall k :: k != "comment" ==> Get(q, k) == Get(p, k);
  }

  /** The repository owner never contains a slash; when the repository name
      holds exactly one slash, owner, slash and name spell the full name. */
  lemma RepoSplit(e: RawEvent)
    requires Normalize(e).Success?
    ensures forall k :: 0 <= k < |Normalize(e).value.repoOwner| ==> Normalize(e).value.repoOwner[k] != '/'
    ensures Count(e.repoName, '/') == 1 ==>
      && Normalize(e).value.repoName.Some?
      && Normalize(e).value.repoOwner + "/" + Normalize(e).value.repoName.value == Normalize(e).value.repo
  {
    SplitPartsFree(e.repoName, '/');
    if Count(e.repoName, '/') == 1 {
      SplitTwo(e.repoName, '/');
    }
  }

  /** A push event's type reads `push`. */
  lemma PushExample(payload: Value)
    ensures EventType("PushEvent", payload) == Success("push")
  {
    assert "PushEvent" == "Push" + "Event";
    FallbackEventType("PushEvent", payload, "Push");
    assert Lower("Push") == "push";
  }
}
