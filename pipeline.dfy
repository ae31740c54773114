/** The activity pipeline: the raw events are normalized, dated, sorted most
    recent first, kept when the template map has a non-blank template for
    them, truncated to the maximum count, and rendered line by line into the
    block that is patched into the document. Reading the configuration,
    fetching the events and the file I/O stay outside; the template map, the
    maximum count and the host's date computations are parameters. */
module Pipeline {
  import opened Wrappers
  import opened JsString
  import opened JsValue
  import opened Normalizer
  import opened Sorting
  import opened RelativeDate
  import opened Expression
  import opened Template
  import opened DocumentPatch

  /** What the host's date library computes for a timestamp text in the
      configured time zone: the instant in milliseconds (`new Date(t)`), the
      difference in calendar days from today, and the absolute date text. */
  datatype DateHost = DateHost(millis: string -> int, dayDiff: string -> int, absoluteDate: string -> string)

  /** A normalized event with its `human_date`. */
  datatype Dated = Dated(event: ActivityEvent, humanDate: string)

  function HumanDate(host: DateHost, createdAt: string): string {
    DayLabel(host.dayDiff(createdAt), host.absoluteDate(createdAt))
  }

  /** The results of a `map` whose callback may throw: the first throw, in
      order, ends the map. */
  function Collect<T>(rs: seq<Result<T, JsError>>): (r: Result<seq<T>, JsError>)
    ensures r.Success? ==> |r.value| == |rs|
  {
    if rs == [] then Success([])
    else
      var head :- rs[0];
      var tail :- Collect(rs[1..]);
      Success([head] + tail)
  }

  /** The map succeeds exactly when every callback does ... */
  lemma {:induction false} CollectSucceeds<T>(rs: seq<Result<T, JsError>>)
    ensures Collect(rs).Success? <==> forall j :: 0 <= j < |rs| ==> rs[j].Success?
  {
    if rs != [] {
      CollectSucceeds(rs[1..]);
      if rs[0].Success? && Collect(rs[1..]).Success? {
        forall j | 0 <= j < |rs| ensures rs[j].Success? {
          if j > 0 {
            assert rs[j] == rs[1..][j - 1];
          }
        }
      }
    }
  }

  /** ... and then holds every callback's value, in order ... */
  lemma {:induction false} CollectValues<T>(rs: seq<Result<T, JsError>>, j: nat)
    requires Collect(rs).Success? && j < |rs|
    ensures rs[j] == Success(Collect(rs).value[j])
  {
    if j > 0 {
      CollectValues(rs[1..], j - 1);
      assert rs[j] == rs[1..][j - 1];
    }
  }

  lemma CollectAllValues<T>(rs: seq<Result<T, JsError>>)
    requires Collect(rs).Success?
    ensures forall j :: 0 <= j < |rs| ==> rs[j] == Success(Collect(rs).value[j])
  {
    forall j | 0 <= j < |rs| ensures rs[j] == Success(Collect(rs).value[j]) {
      CollectValues(rs, j);
    }
  }

  /** ... and otherwise fails with the error of the first callback that
      throws. */
  lemma {:induction false} CollectFirstError<T>(rs: seq<Result<T, JsError>>)
    requires Collect(rs).Failure?
    ensures exists j :: 0 <= j < |rs| && rs[j] == Failure(Collect(rs).error)
                        && forall k :: 0 <= k < j ==> rs[k].Success?
  {
    if rs[0].Success? {
      CollectFirstError(rs[1..]);
      var j :| 0 <= j < |rs[1..]| && rs[1..][j] == Failure(Collect(rs[1..]).error)
               && forall k :: 0 <= k < j ==> rs[1..][k].Success?;
      assert rs[j + 1] == rs[1..][j];
      forall k | 0 <= k < j + 1 ensures rs[k].Success? {
        if k > 0 {
          assert rs[k] == rs[1..][k - 1];
        }
      }
    } else {
      assert rs[0] == Failure(Collect(rs).error);
    }
  }

  /** Each event's normalization, by position. */
  function NormalizeEach(raws: seq<RawEvent>): (rs: seq<Result<ActivityEvent, JsError>>)
    ensures |rs| == |raws|
    ensures forall i :: 0 <= i < |raws| ==> rs[i] == Normalize(raws[i])
  {
    seq(|raws|, i requires 0 <= i < |raws| => Normalize(raws[i]))
  }

  /** `rawEvents.map(normalize)`: the first event whose normalization throws
      makes the run fail. */
  function NormalizeAll(raws: seq<RawEvent>): (r: Result<seq<ActivityEvent>, JsError>)
    ensures r.Success? <==> forall i :: 0 <= i < |raws| ==> Normalize(raws[i]).Success?
    ensures r.Success? ==> |r.value| == |raws|
    ensures r.Success? ==> forall i :: 0 <= i < |raws| ==> Normalize(raws[i]) == Success(r.value[i])
  {
    var rs := NormalizeEach(raws);
    CollectSucceeds(rs);
    if Collect(rs).Success? then CollectAllValues(rs); Collect(rs) else Collect(rs)
  }

  /** The error is that of the first event that fails to normalize. */
  lemma NormalizeAllFirstError(raws: seq<RawEvent>)
    requires NormalizeAll(raws).Failure?
    ensures exists i :: 0 <= i < |raws| && Normalize(raws[i]) == Failure(NormalizeAll(raws).error)
                        && forall j :: 0 <= j < i ==> Normalize(raws[j]).Success?
  {
    CollectFirstError(NormalizeEach(raws));
  }

  /** `.map((ev) => ({ ...ev, human_date: formatDate(ev.created_at, USER_TZ) }))` */
  function AttachDates(events: seq<ActivityEvent>, host: DateHost): (ds: seq<Dated>)
    ensures |ds| == |events|
    ensures forall i :: 0 <= i < |events| ==> ds[i].event == events[i]
    ensures forall i :: 0 <= i < |events| ==> ds[i].humanDate == HumanDate(host, events[i].createdAt)
  {
    seq(|events|, i requires 0 <= i < |events| => Dated(events[i], HumanDate(host, events[i].createdAt)))
  }

  /** The sort key: the instant of `created_at`. */
  function CreatedKey(host: DateHost): Dated -> int {
    (d: Dated) => host.millis(d.event.createdAt)
  }

  // ---------------------------------------------------------------------
  // Templates.

  /** `templateMap[ev.event_type] ?? templateMap[ev.raw_type]` */
  function TemplateFor(m: map<string, string>, ev: ActivityEvent): Option<string> {
    if ev.eventType in m then Some(m[ev.eventType])
    else if ev.rawType in m then Some(m[ev.rawType])
    else None
  }

  /** `hasTpl && hasTpl.trim() !== ""` */
  predicate HasTemplate(m: map<string, string>, ev: ActivityEvent) {
    TemplateFor(m, ev).Some? && !IsBlank(TemplateFor(m, ev).value)
  }

  /** `ev.event_type in templateMap ? ev.event_type : ev.raw_type` */
  function ChosenKey(m: map<string, string>, ev: ActivityEvent): string {
    if ev.eventType in m then ev.eventType else ev.rawType
  }

  /** An event is kept exactly when its event type has a non-blank template,
      or its event type has no entry and its raw type has a non-blank one. A
      blank entry for the event type suppresses the event even when its raw
      type has a template. */
  lemma HasTemplateIff(m: map<string, string>, ev: ActivityEvent)
    ensures HasTemplate(m, ev) <==>
      || (ev.eventType in m && exists k :: 0 <= k < |m[ev.eventType]| && !IsSpace(m[ev.eventType][k]))
      || (ev.eventType !in m && ev.rawType in m && exists k :: 0 <= k < |m[ev.rawType]| && !IsSpace(m[ev.rawType][k]))
  {
    if ev.eventType in m {
      BlankIffAllSpace(m[ev.eventType]);
    } else if ev.rawType in m {
      BlankIffAllSpace(m[ev.rawType]);
    }
  }

  /** The key the renderer picks with `in` names the very template the filter
      found with `??`, so every kept event is rendered with a non-blank
      template. */
  lemma ChosenTemplateIsFilterTemplate(m: map<string, string>, ev: ActivityEvent)
    requires HasTemplate(m, ev)
    ensures ChosenKey(m, ev) in m
    ensures Some(m[ChosenKey(m, ev)]) == TemplateFor(m, ev)
    ensures !IsBlank(m[ChosenKey(m, ev)])
  {
  }

  /** `normalized.filter(...)`. */
  function WithTemplates(ds: seq<Dated>, m: map<string, string>): (r: seq<Dated>)
    ensures |r| <= |ds|
  {
    if ds == [] then []
    else (if HasTemplate(m, ds[0].event) then [ds[0]] else []) + WithTemplates(ds[1..], m)
  }

  /** The filter keeps exactly the events that have a template. */
  lemma {:induction false} WithTemplatesMembers(ds: seq<Dated>, m: map<string, string>, d: Dated)
    ensures d in WithTemplates(ds, m) <==> d in ds && HasTemplate(m, d.event)
  {
    if ds != [] {
      WithTemplatesMembers(ds[1..], m, d);
      assert ds == [ds[0]] + ds[1..];
    }
  }

  /** The filter keeps the order of what it keeps: a sorted list stays
      sorted. */
  lemma {:induction false} WithTemplatesSorted(ds: seq<Dated>, m: map<string, string>, key: Dated -> int)
    requires NonIncreasing(ds, key)
    ensures NonIncreasing(WithTemplates(ds, m), key)
  {
    if ds != [] {
      TailNonIncreasing(ds, key);
      WithTemplatesSorted(ds[1..], m, key);
      var rest := WithTemplates(ds[1..], m);
      forall j | 0 <= j < |rest| ensures key(ds[0]) >= key(rest[j]) {
        WithTemplatesMembers(ds[1..], m, rest[j]);
        var i :| 0 <= i < |ds[1..]| && ds[1..][i] == rest[j];
        assert ds[i + 1] == rest[j];
      }
    }
  }

  /** Equal timestamps keep their order through the filter too: filtering the
      events of one instant is the same as taking the events of that instant
      from the filtered list. */
  lemma {:induction false} WithTemplatesStable(ds: seq<Dated>, m: map<string, string>, key: Dated -> int, k: int)
    ensures WithKey(WithTemplates(ds, m), key, k) == WithTemplates(WithKey(ds, key, k), m)
  {
    if ds != [] {
      WithTemplatesStable(ds[1..], m, key, k);
      var h := ds[0];
      var rest := WithTemplates(ds[1..], m);
      if HasTemplate(m, h.event) {
        assert ([h] + rest)[0] == h && ([h] + rest)[1..] == rest;
      } else {
        assert [] + rest == rest;
      }
      if key(h) == k {
        assert ([h] + WithKey(ds[1..], key, k))[0] == h;
        assert ([h] + WithKey(ds[1..], key, k))[1..] == WithKey(ds[1..], key, k);
      } else {
        assert [] + WithKey(ds[1..], key, k) == WithKey(ds[1..], key, k);
      }
    }
  }

  // ---------------------------------------------------------------------
  // Truncation.

  /** `filtered.slice(0, max)`: a negative bound counts from the end. */
  function Slice<T>(s: seq<T>, max: int): seq<T> {
    var end := if max < 0 then (if |s| + max < 0 then 0 else |s| + max) else (if max < |s| then max else |s|);
    s[..end]
  }

  /** For a non-negative bound, truncation gives the prefix of length
      `min(max, |s|)`: never more than `max` events, and exactly `max` when
      there are that many. */
  lemma TruncationBounds<T>(s: seq<T>, max: int)
    requires max >= 0
    ensures Slice(s, max) == s[..|Slice(s, max)|]
    ensures |Slice(s, max)| <= max
    ensures |s| >= max ==> |Slice(s, max)| == max
    ensures |s| < max ==> Slice(s, max) == s
  {
  }

  /** A negative bound drops that many events from the end. */
  lemma NegativeBoundDropsFromEnd<T>(s: seq<T>, max: int)
    requires max < 0
    ensures Slice(s, max) == s[..|Slice(s, max)|]
    ensures |s| + max >= 0 ==> |Slice(s, max)| == |s| + max
    ensures |s| + max < 0 ==> Slice(s, max) == []
  {
  }

  // ---------------------------------------------------------------------
  // Rendering.

  /** The names a template can use. */
  const BindingNames: set<string> := {
    "index", "total_count", "human_date", "raw_type", "event_type", "created_at", "repo_owner",
    "repo_name", "repo", "actor", "org", "number", "url", "payload", "raw_event"}

  /** `{ index: i + 1, total_count: selected.length, human_date, ...ev }`:
      every field of the event is bound, an absent one to undefined. */
  function Bindings(d: Dated, index: int, total: int): (vars: map<string, Value>)
  {
    var ev := d.event;
    map[
      "index" := Num(index),
      "total_count" := Num(total),
      "human_date" := Str(d.humanDate),
      "raw_type" := Str(ev.rawType),
      "event_type" := Str(ev.eventType),
      "created_at" := Str(ev.createdAt),
      "repo_owner" := Str(ev.repoOwner),
      "repo_name" := OptStr(ev.repoName),
      "repo" := Str(ev.repo),
      "actor" := Str(ev.actor),
      "org" := OptStr(ev.org),
      "number" := ev.number,
      "url" := ev.url,
      "payload" := ev.payload,
      "raw_event" := EventValue(ev.rawEvent)]
  }

  /** A template sees exactly these names, whatever the event. */
  lemma BindingsKeys(d: Dated, index: int, total: int)
    ensures Bindings(d, index, total).Keys == BindingNames
  {
  }

  /** The line of one selected event: its chosen template rendered with its
      bindings. A chosen key without a template renders `undefined`, whose
      `replace` throws. */
  function Line(m: map<string, string>, d: Dated, index: int, total: int): Result<string, JsError> {
    var key := ChosenKey(m, d.event);
    if key in m then Render(m[key], Bindings(d, index, total)) else Failure(TypeError)
  }

  /** The line of every selected event, by position. */
  function LineResults(sel: seq<Dated>, m: map<string, string>): (rs: seq<Result<string, JsError>>)
    ensures |rs| == |sel|
    ensures forall j :: 0 <= j < |sel| ==> rs[j] == Line(m, sel[j], j + 1, |sel|)
  {
    seq(|sel|, j requires 0 <= j < |sel| => Line(m, sel[j], j + 1, |sel|))
  }

  /** `selected.map((ev, i) => ...)`: line `j` (from 0) is rendered with
      `index` `j + 1` and `total_count` the number of selected events. */
  function RenderLines(sel: seq<Dated>, m: map<string, string>): Result<seq<string>, JsError> {
    Collect(LineResults(sel, m))
  }

  /** The lines are rendered with the chosen template of each event, with
      its position and the total, in the order of the selection. */
  lemma RenderLinesIndexing(sel: seq<Dated>, m: map<string, string>)
    requires RenderLines(sel, m).Success?
    ensures |RenderLines(sel, m).value| == |sel|
    ensures forall j :: 0 <= j < |sel| ==>
      && ChosenKey(m, sel[j].event) in m
      && Render(m[ChosenKey(m, sel[j].event)], Bindings(sel[j], j + 1, |sel|)) == Success(RenderLines(sel, m).value[j])
  {
    var rs := LineResults(sel, m);
    forall j | 0 <= j < |sel|
      ensures ChosenKey(m, sel[j].event) in m
      ensures Render(m[ChosenKey(m, sel[j].event)], Bindings(sel[j], j + 1, |sel|)) == Success(RenderLines(sel, m).value[j])
    {
      CollectValues(rs, j);
    }
  }

  /** Rendering fails exactly when some line fails, and then with the error
      of the first failing line. */
  lemma RenderLinesFailure(sel: seq<Dated>, m: map<string, string>)
    ensures RenderLines(sel, m).Failure? <==> exists j :: 0 <= j < |sel| && Line(m, sel[j], j + 1, |sel|).Failure?
    ensures RenderLines(sel, m).Failure? ==>
      exists j :: 0 <= j < |sel| && Line(m, sel[j], j + 1, |sel|) == Failure(RenderLines(sel, m).error)
                  && forall k :: 0 <= k < j ==> Line(m, sel[k], k + 1, |sel|).Success?
  {
    var rs := LineResults(sel, m);
    CollectSucceeds(rs);
    if Collect(rs).Failure? {
      CollectFirstError(rs);
    }
  }

  // ---------------------------------------------------------------------
  // The whole run.

  /** The events that are rendered: normalized, dated, sorted most recent
      first, filtered and truncated. */
  function Select(raws: seq<RawEvent>, m: map<string, string>, max: int, host: DateHost): Result<seq<Dated>, JsError> {
    var events :- NormalizeAll(raws);
    var sorted := SortByKeyDesc(AttachDates(events, host), CreatedKey(host));
    Success(Slice(WithTemplates(sorted, m), max))
  }

  /** The block the run writes into the document. */
  function Run(raws: seq<RawEvent>, m: map<string, string>, max: int, host: DateHost): Result<string, JsError> {
    var selected :- Select(raws, m, max, host);
    var lines :- RenderLines(selected, m);
    Success(Block(lines))
  }

  lemma SliceKeepsOrder<T>(s: seq<T>, max: int, key: T -> int)
    requires NonIncreasing(s, key)
    ensures NonIncreasing(Slice(s, max), key)
    ensures forall x :: x in Slice(s, max) ==> x in s
  {
    var r := Slice(s, max);
    forall i, j | 0 <= i < j < |r| ensures key(r[i]) >= key(r[j]) {
      assert r[i] == s[i] && r[j] == s[j];
    }
    forall x | x in r ensures x in s {
      var k :| 0 <= k < |r| && r[k] == x;
      assert s[k] == x;
    }
  }

  /** Before truncation: sorted, with templates, and drawn from the events. */
  lemma Candidates(events: seq<ActivityEvent>, host: DateHost, m: map<string, string>)
    ensures var f := WithTemplates(SortByKeyDesc(AttachDates(events, host), CreatedKey(host)), m);
      && NonIncreasing(f, CreatedKey(host))
      && forall d :: d in f ==> HasTemplate(m, d.event) && exists i :: 0 <= i < |events| && events[i] == d.event
  {
    var dated := AttachDates(events, host);
    var key := CreatedKey(host);
    var sorted := SortByKeyDesc(dated, key);
    var f := WithTemplates(sorted, m);
    SortSorted(dated, key);
    SortPermutation(dated, key);
    WithTemplatesSorted(sorted, m, key);
    forall d | d in f
      ensures HasTemplate(m, d.event)
      ensures exists i :: 0 <= i < |events| && events[i] == d.event
    {
      WithTemplatesMembers(sorted, m, d);
      assert d in multiset(sorted);
      assert d in multiset(dated);
      var i :| 0 <= i < |dated| && dated[i] == d;
      assert events[i] == d.event;
    }
  }

  /** What is selected: events of the input, each with a non-blank template,
      most recent first, at most `max` of them, the first ones of the sorted
      and filtered events, and exactly `max` when enough events have a
      template. */
  lemma SelectProperties(raws: seq<RawEvent>, m: map<string, string>, max: int, host: DateHost)
    requires Select(raws, m, max, host).Success? && max >= 0
    ensures var sel := Select(raws, m, max, host).value;
      && NonIncreasing(sel, CreatedKey(host))
      && |sel| <= max
      && (forall d :: d in sel ==> HasTemplate(m, d.event))
      && (forall d :: d in sel ==> exists i :: 0 <= i < |raws| && Normalize(raws[i]) == Success(d.event))
    ensures var events := NormalizeAll(raws).value;
      var filtered := WithTemplates(SortByKeyDesc(AttachDates(events, host), CreatedKey(host)), m);
      && Select(raws, m, max, host).value == filtered[..|Select(raws, m, max, host).value|]
      && (|filtered| >= max ==> |Select(raws, m, max, host).value| == max)
  {
    var events := NormalizeAll(raws).value;
    var key := CreatedKey(host);
    var filtered := WithTemplates(SortByKeyDesc(AttachDates(events, host), key), m);
    var sel := Slice(filtered, max);
    assert Select(raws, m, max, host).value == sel;
    Candidates(events, host, m);
    TruncationBounds(filtered, max);
    SliceKeepsOrder(filtered, max, key);
    forall d | d in sel ensures exists i :: 0 <= i < |raws| && Normalize(raws[i]) == Success(d.event) {
      var i :| 0 <= i < |events| && events[i] == d.event;
      assert Normalize(raws[i]) == Success(d.event);
    }
  }

  // ---------------------------------------------------------------------
  // One issue event rendered through the whole run.

  /** A template of two placeholders, each after plain text, renders each
      bound name in place. */
  lemma RenderTwoPlaceholders(lit1: string, x1: string, lit2: string, x2: string, vars: map<string, Value>)
    requires PlainText(lit1) && PlainText(lit2) && IsIdentifier(x1) && IsIdentifier(x2)
    requires x1 in vars && x2 in vars
    ensures Render(lit1 + PlaceholderText([], x1, []) + lit2 + PlaceholderText([], x2, []), vars)
         == Success(lit1 + ToStr(vars[x1]) + lit2 + ToStr(vars[x2]))
  {
    var tail := lit2 + PlaceholderText([], x2, []);
    assert AllSpace([]);
    RenderPlain([], vars);
    assert tail + [] == tail;
    var v1, v2 := ToStr(vars[x1]), ToStr(vars[x2]);
    RenderPlaceholder(lit2, [], x2, [], [], vars);
    assert lit2 + v2 + [] == lit2 + v2;
    assert Render(tail, vars) == Success(lit2 + v2);
    RenderPlaceholder(lit1, [], x1, [], tail, vars);
    assert Render(lit1 + PlaceholderText([], x1, []) + tail, vars) == Success(lit1 + v1 + (lit2 + v2));
    assert lit1 + v1 + (lit2 + v2) == lit1 + v1 + lit2 + v2;
    assert lit1 + PlaceholderText([], x1, []) + lit2 + PlaceholderText([], x2, [])
        == lit1 + PlaceholderText([], x1, []) + tail;
  }

  /** A single event that normalizes and has a template is selected on its
      own, whatever the clock says. */
  lemma SingleEventSelected(raw: RawEvent, m: map<string, string>, max: int, host: DateHost)
    requires Normalize(raw).Success? && HasTemplate(m, Normalize(raw).value) && max >= 1
    ensures Select([raw], m, max, host) == Success([Dated(Normalize(raw).value, HumanDate(host, raw.createdAt))])
  {
    var ev := Normalize(raw).value;
    assert [raw][1..] == [] && [ev] + [] == [ev];
    assert NormalizeAll([raw]) == Success([ev]);
    var d := Dated(ev, HumanDate(host, raw.createdAt));
    assert AttachDates([ev], host) == [d];
    assert SortByKeyDesc([d], CreatedKey(host)) == [d];
    assert [d][1..] == [] && [d] + [] == [d];
    assert WithTemplates([d], m) == [d];
  }

  /** A selection of one event renders to that event's line. */
  lemma SingleLine(d: Dated, m: map<string, string>, line: string)
    requires Line(m, d, 1, 1) == Success(line)
    ensures RenderLines([d], m) == Success([line])
  {
    var rs := LineResults([d], m);
    assert rs == [Success(line)];
    assert rs[1..] == [] && [line] + [] == [line];
    assert Collect(rs[1..]) == Success([]);
  }

  /** Then the run is the block of that event's line. */
  lemma SingleEventRun(raw: RawEvent, m: map<string, string>, max: int, host: DateHost, line: string)
    requires Normalize(raw).Success? && HasTemplate(m, Normalize(raw).value) && max >= 1
    requires Line(m, Dated(Normalize(raw).value, HumanDate(host, raw.createdAt)), 1, 1) == Success(line)
    ensures Run([raw], m, max, host) == Success(Block([line]))
  {
    SingleEventSelected(raw, m, max, host);
    SingleLine(Dated(Normalize(raw).value, HumanDate(host, raw.createdAt)), m, line);
  }

    /** `number` and `actor` are plain binding names. */
  lemma NumberAndActorAreNames()
    ensures IsIdentifier("number") && IsIdentifier("actor")
  {
  }

  /** The line of the template `lit1{{number}}lit2{{actor}}`. */
  lemma NumberActorLine(m: map<string, string>, d: Dated, lit1: string, lit2: string)
    requires PlainText(lit1) && PlainText(lit2)
    requires ChosenKey(m, d.event) in m
    requires m[ChosenKey(m, d.event)] == lit1 + PlaceholderText([], "number", []) + lit2 + PlaceholderText([], "actor", [])
    ensures Line(m, d, 1, 1) == Success(lit1 + ToStr(d.event.number) + lit2 + d.event.actor)
  {
    var vars := Bindings(d, 1, 1);
    assert vars["number"] == d.event.number && vars["actor"] == Str(d.event.actor);
    NumberAndActorAreNames();
    RenderTwoPlaceholders(lit1, "number", lit2, "actor", vars);
  }

  /** An issues event with action `action` on issue `n`, by `actor`. */
  function IssueEvent(action: string, n: int, url: Value, repo: string, actor: string, createdAt: string): RawEvent {
    RawEvent(
      "IssuesEvent",
      Obj(map["action" := Str(action), "issue" := Obj(map["number" := Num(n), "html_url" := url])]),
      repo, actor, None, createdAt)
  }

  lemma IssueEventNormalizes(action: string, n: int, url: Value, repo: string, actor: string, createdAt: string)
    ensures var r := Normalize(IssueEvent(action, n, url, repo, actor, createdAt));
      && r.Success?
      && r.value.eventType == "issues_" + action
      && r.value.number == Num(n) && r.value.url == url && r.value.actor == actor
  {
    var raw := IssueEvent(action, n, url, repo, actor, createdAt);
    assert Member(raw.payload, "action") == Success(Str(action));
    assert EventType(raw.tag, raw.payload) == Success("issues_" + action);
    assert Links(raw.payload) == Success(Link(Num(n), url));
  }

  /** An issue event with action `action`, issue `n` and actor `actor`,
      with the template `lit1{{number}}lit2{{actor}}` for `issues_<action>`
      as the only template and room for one item or more, gives the single
      line `lit1`, the number, `lit2`, the actor, between the markers. */
  lemma OneIssueRun(action: string, n: int, url: Value, repo: string, actor: string, createdAt: string,
                    lit1: string, lit2: string, max: int, host: DateHost)
    requires PlainText(lit1) && PlainText(lit2) && lit1 != [] && !IsSpace(lit1[0]) && max >= 1
    ensures var tpl := lit1 + PlaceholderText([], "number", []) + lit2 + PlaceholderText([], "actor", []);
            Run([IssueEvent(action, n, url, repo, actor, createdAt)], map["issues_" + action := tpl], max, host)
            == Success(Block([lit1 + IntToString(n) + lit2 + actor]))
  {
    var raw := IssueEvent(action, n, url, repo, actor, createdAt);
    var tpl := lit1 + PlaceholderText([], "number", []) + lit2 + PlaceholderText([], "actor", []);
    var m := map["issues_" + action := tpl];
    IssueEventNormalizes(action, n, url, repo, actor, createdAt);
    var ev := Normalize(raw).value;
    assert !IsBlank(tpl) by {
      BlankIffAllSpace(tpl);
      assert tpl[0] == lit1[0];
    }
    assert HasTemplate(m, ev);
    var d := Dated(ev, HumanDate(host, createdAt));
    NumberActorLine(m, d, lit1, lit2);
    SingleEventRun(raw, m, max, host, lit1 + IntToString(n) + lit2 + actor);
  }

  /** Issue 7 opened by `x`, with `#{{number}} by {{actor}}` and at most five
      items, gives the one line `#7 by x`. */
  lemma EndToEndScenario(createdAt: string, host: DateHost)
    ensures Run([IssueEvent("opened", 7, Str("u"), "a/b", "x", createdAt)],
                map["issues_opened" := "#{{number}} by {{actor}}"], 5, host)
         == Success(Block(["#7 by x"]))
  {
    ScenarioLiterals();
    OneIssueRun("opened", 7, Str("u"), "a/b", "x", createdAt, "#", " by ", 5, host);
  }

  lemma ScenarioLiterals()
    ensures "issues_" + "opened" == "issues_opened"
    ensures "#" + PlaceholderText([], "number", []) + " by " + PlaceholderText([], "actor", [])
         == "#{{number}} by {{actor}}"
    ensures "#" + IntToString(7) + " by " + "x" == "#7 by x"
    ensures PlainText("#") && PlainText(" by ")
  {
    assert IntToString(7) == "7";
  }
}
