/** The fetch of the transcript component and what it renders
    (insights/src/components/Transcript.tsx, lines 22-60 and 74-96): three
    pieces of state, a fetch that starts on mount and on every change of
    either identifier, its three kinds of completion, and the choice among
    four views. */
module Transcript {

  import opened Wrappers
  import opened Json
  import opened Segments
  import Clock
  import Decimal

  const UnknownError: string := "Unknown error"
  const FetchFailed: string := "Failed to fetch transcript."

  /** The address requested for a module and a video (line 33). The
      identifiers are pasted in without URL encoding. */
  function RequestUrl(moduleId: string, videoId: string): string {
    "/api/getTranscript?moduleId=" + moduleId + "&videoId=" + videoId
  }

  /** The first index of `c` in `s`, or `|s|` when it does not occur. */
  function IndexOf(s: string, c: char): (k: nat)
    ensures k <= |s|
    ensures k < |s| ==> s[k] == c
    ensures forall i :: 0 <= i < k ==> s[i] != c
    decreases |s|
  {
    if |s| == 0 then 0 else if s[0] == c then 0 else 1 + IndexOf(s[1..], c)
  }

  lemma IndexOfFirst(a: string, c: char, b: string)
    requires c !in a
    ensures IndexOf(a + [c] + b, c) == |a|
  {
    var s := a + [c] + b;
    var k := IndexOf(s, c);
    assert s[|a|] == c;
    assert k <= |a|;
    assert forall i :: 0 <= i < |a| ==> s[i] == a[i];
  }

  /** Identifiers without an ampersand give distinct addresses to distinct
      pairs. */
  lemma RequestUrlInjective(m1: string, v1: string, m2: string, v2: string)
    requires '&' !in m1 && '&' !in m2
    requires RequestUrl(m1, v1) == RequestUrl(m2, v2)
    ensures m1 == m2 && v1 == v2
  {
    var p := "/api/getTranscript?moduleId=";
    var u := RequestUrl(m1, v1);
    assert '&' !in p + m1 && '&' !in p + m2;
    assert u == (p + m1) + ['&'] + ("videoId=" + v1);
    assert u == (p + m2) + ['&'] + ("videoId=" + v2);
    IndexOfFirst(p + m1, '&', "videoId=" + v1);
    IndexOfFirst(p + m2, '&', "videoId=" + v2);
    assert |m1| == |m2|;
    assert m1 == u[|p|..|p| + |m1|];
    assert m2 == u[|p|..|p| + |m2|];
    assert v1 == u[|p| + |m1| + 9..];
    assert v2 == u[|p| + |m2| + 9..];
  }

  /** Without that condition two different pairs can share one address. */
  lemma RequestUrlCollision()
    ensures RequestUrl("a&videoId=b", "c") == RequestUrl("a", "b&videoId=c")
  {
  }

  /** What the network delivers: nothing (fetch rejects), or a response with
      its `ok` flag and its body, `None` when `res.json()` rejects. */
  datatype Response = NetworkFailure | Received(ok: bool, body: Option<Value>)

  /** How one run of the try block of lines 32-53 ends. */
  datatype Outcome =
    | Loaded(segments: seq<Segment>)  // setTranscript(cleanedTranscript)
    | Rejected(message: Value)        // setError(data.error || "Unknown error")
    | Crashed                         // an exception reached the catch

  /** The try/catch of lines 32-53 on one response. `parse` is JSON.parse
      on a string, `None` where it throws. */
  function Settle(resp: Response, parse: string -> Option<Value>): (o: Outcome)
    ensures o.Loaded? <==>
      && resp.Received? && resp.ok && resp.body.Some?
      && TranscriptItems(resp.body.value, parse).Some?
      && Clean(TranscriptItems(resp.body.value, parse).value).Some?
    ensures o.Loaded? ==> Some(o.segments) == Clean(TranscriptItems(resp.body.value, parse).value)
    ensures o.Rejected? <==> resp.Received? && !resp.ok && resp.body.Some? && !Nullish(resp.body.value)
    ensures o.Rejected? ==> Truthy(o.message)
    ensures o.Rejected? && Truthy(Prop(resp.body.value, "error")) ==> o.message == Prop(resp.body.value, "error")
    ensures o.Rejected? && !Truthy(Prop(resp.body.value, "error")) ==> o.message == Str(UnknownError)
  {
    match resp
    case NetworkFailure => Crashed
    case Received(ok, body) =>
      match body
      case None => Crashed
      case Some(data) =>
        if ok then
          match TranscriptItems(data, parse)
          case None => Crashed
          case Some(items) =>
            match Clean(items)
            case None => Crashed
            case Some(segs) => Loaded(segs)
        else
          match Get(data, "error")
          case None => Crashed
          case Some(e) => Rejected(Or(e, Str(UnknownError)))
  }

  /** Round trip through the network: a successful body that carries the
      records of clean segments, as an array or as a JSON string of that
      array, loads exactly those segments. */
  lemma LoadedRoundTrip(segs: seq<Segment>, text: string, parse: string -> Option<Value>)
    requires forall i :: 0 <= i < |segs| ==> Normal(segs[i])
    requires |text| > 0 && parse(text) == Some(Arr(AsRecords(segs)))
    ensures Settle(Received(true, Some(Obj(map["transcript" := Arr(AsRecords(segs))]))), parse) == Loaded(segs)
    ensures Settle(Received(true, Some(Obj(map["transcript" := Str(text)]))), parse) == Loaded(segs)
  {
    StringOrArraySame(text, AsRecords(segs), parse);
    CleanFixes(segs);
  }

  /** The component's state: `loading`, `error` (`Null` for none) and
      `transcript` (`None` for null). */
  datatype State = State(loading: bool, error: Value, transcript: Option<seq<Segment>>)

  /** The state before the first fetch (lines 23-25). */
  const Initial: State := State(true, Null, None)

  /** What every reachable state satisfies: an error is either absent or
      truthy, and every kept segment is clean. */
  ghost predicate Valid(s: State) {
    && (s.error == Null || Truthy(s.error))
    && (s.transcript.Some? ==> forall i :: 0 <= i < |s.transcript.value| ==> Normal(s.transcript.value[i]))
  }

  /** The initial state is valid, and it shows the loading notice. */
  lemma InitialValid()
    ensures Valid(Initial)
    ensures Render(Initial) == Spinner
  {
  }

  /** Once loading is over, a valid state shows an error message exactly
      when it holds one: a stored error is never a falsy value that the
      view would skip. */
  lemma ValidErrorShown(s: State)
    requires Valid(s) && !s.loading
    ensures Render(s).ErrorMessage? <==> s.error != Null
    ensures s.error != Null ==> Render(s) == ErrorMessage(s.error)
  {
  }

  /** Lines 29-30, run on mount and whenever an identifier changes: loading,
      no error, and the old transcript kept. */
  function Begin(s: State): (s': State)
    ensures s'.loading && s'.error == Null && s'.transcript == s.transcript
    ensures Valid(s) ==> Valid(s')
  {
    s.(loading := true, error := Null)
  }

  /** The end of one fetch (lines 47-55): loading always ends; only success
      replaces the transcript, and success leaves the error as it was; a
      failure sets the error and keeps the transcript. */
  function Finish(s: State, o: Outcome): (s': State)
    ensures !s'.loading
    ensures o.Loaded? ==> s'.transcript == Some(o.segments) && s'.error == s.error
    ensures !o.Loaded? ==> s'.transcript == s.transcript
    ensures o.Rejected? ==> s'.error == o.message
    ensures o.Crashed? ==> s'.error == Str(FetchFailed)
  {
    match o
    case Loaded(segs) => s.(loading := false, transcript := Some(segs))
    case Rejected(m) => s.(loading := false, error := m)
    case Crashed => s.(loading := false, error := Str(FetchFailed))
  }

  /** Every completion the try/catch can produce keeps a valid state valid. */
  lemma FinishKeepsValid(s: State, resp: Response, parse: string -> Option<Value>)
    requires Valid(s)
    ensures Valid(Finish(s, Settle(resp, parse)))
  {
    var o := Settle(resp, parse);
    if o.Loaded? {
      var segs := o.segments;
      var items := TranscriptItems(resp.body.value, parse).value;
      forall i | 0 <= i < |segs|
        ensures Normal(segs[i])
      {
        assert CleanSegment(items[i]) == Some(segs[i]);
      }
    }
  }

  /** One rendered segment: its time label and its text. */
  datatype Row = Row(time: string, text: Value)

  /** The four views of lines 77-94. */
  datatype View =
    | Spinner                       // "Loading transcript..."
    | ErrorMessage(message: Value)  // the error, in red
    | Rows(rows: seq<Row>)          // one block per segment
    | NoTranscript                  // "No transcript available."

  function RowOf(seg: Segment): Row {
    Row(Clock.FormatTime(seg.start), seg.text)
  }

  function RowsOf(segs: seq<Segment>): (rows: seq<Row>)
    ensures |rows| == |segs|
    ensures forall i :: 0 <= i < |segs| ==> rows[i] == RowOf(segs[i])
  {
    seq(|segs|, i requires 0 <= i < |segs| => RowOf(segs[i]))
  }

  /** The view of a state: loading first, then a truthy error, then a
      non-empty transcript, one row per segment in order, and the empty
      notice last. */
  function Render(s: State): (v: View)
    ensures v.Spinner? <==> s.loading
    ensures v.ErrorMessage? <==> !s.loading && Truthy(s.error)
    ensures v.ErrorMessage? ==> v.message == s.error
    ensures v.Rows? <==> !s.loading && !Truthy(s.error) && s.transcript.Some? && |s.transcript.value| > 0
    ensures v.Rows? ==> |v.rows| == |s.transcript.value|
    ensures v.Rows? ==> forall i :: 0 <= i < |v.rows| ==> v.rows[i] == RowOf(s.transcript.value[i])
  {
    if s.loading then Spinner
    else if Truthy(s.error) then ErrorMessage(s.error)
    else if s.transcript.Some? && |s.transcript.value| > 0 then Rows(RowsOf(s.transcript.value))
    else NoTranscript
  }

  /** The view after a fetch that started and then ended with `o`: nothing
      of the state before the fetch shows through. */
  lemma ViewAfterFetch(s: State, o: Outcome)
    requires o.Rejected? ==> Truthy(o.message)
    ensures Render(Finish(Begin(s), o)) == match o
      case Loaded(segs) => if |segs| > 0 then Rows(RowsOf(segs)) else NoTranscript
      case Rejected(m) => ErrorMessage(m)
      case Crashed => ErrorMessage(Str(FetchFailed))
  {
  }

  /** So two states that run the same fetch to the same end look the same. */
  lemma NoStaleView(s1: State, s2: State, resp: Response, parse: string -> Option<Value>)
    ensures Render(Finish(Begin(s1), Settle(resp, parse))) == Render(Finish(Begin(s2), Settle(resp, parse)))
  {
    var o := Settle(resp, parse);
    ViewAfterFetch(s1, o);
    ViewAfterFetch(s2, o);
  }

  /** When two fetches overlap and the older one fails after the newer one
      started, the newer one's success does not clear that error: the
      error stays on screen over the loaded segments. */
  lemma LateFailureHidesSuccess(s: State, segs: seq<Segment>)
    ensures Render(Finish(Finish(Begin(Begin(s)), Crashed), Loaded(segs))) == ErrorMessage(Str(FetchFailed))
  {
  }

  /** The time label of every rendered row reads back as the whole seconds
      of its segment's start; it is the fallback for a negative start and
      "Infinity:NaN:NaN" for an infinite one. */
  lemma RowTimes(s: State, i: nat)
    requires Render(s).Rows? && i < |Render(s).rows|
    ensures var seg := s.transcript.value[i];
      && (seg.start.Finite? && seg.start.value >= 0.0 ==>
            Clock.ParseLabel(Render(s).rows[i].time) == Some(seg.start.value.Floor))
      && (Clock.Invalid(seg.start) ==> Render(s).rows[i].time == Clock.Fallback)
      && (seg.start.PositiveInfinity? ==> Render(s).rows[i].time == "Infinity:NaN:NaN")
  {
    var seg := s.transcript.value[i];
    if seg.start.Finite? && seg.start.value >= 0.0 {
      Clock.ParseFormatTime(seg.start.value);
    }
  }

  /** A response that is not ok and carries no usable error shows
      "Unknown error"; a body that is null, or one that is not JSON, shows
      the fetch failure instead. */
  lemma ErrorMessages(parse: string -> Option<Value>)
    ensures Render(Finish(Begin(Initial), Settle(Received(false, Some(Obj(map[]))), parse)))
            == ErrorMessage(Str(UnknownError))
    ensures Render(Finish(Begin(Initial), Settle(Received(false, Some(Null)), parse)))
            == ErrorMessage(Str(FetchFailed))
    ensures Render(Finish(Begin(Initial), Settle(Received(true, None), parse)))
            == ErrorMessage(Str(FetchFailed))
  {
  }
}
