/** Choosing and cleaning the transcript segments of a successful response
    (insights/src/components/Transcript.tsx, lines 11-15 and 37-46). */
module Segments {

  import opened Wrappers
  import opened Json
  import opened Clock

  /** A cleaned segment. `text` is whatever truthy value the upstream record
      held (usually a string), or the empty string; `start` and `duration`
      are numbers, infinities included. */
  datatype Segment = Segment(text: Value, start: JsNumber, duration: JsNumber)

  /** What cleaning guarantees of every segment it produces. */
  ghost predicate Normal(seg: Segment) {
    seg.text == Str("") || Truthy(seg.text)
  }

  /** `typeof v === "number" ? v : 0`. */
  function NumberOrZero(v: Value): JsNumber {
    if v.Num? then v.n else Finite(0.0)
  }

  /** The callback of line 42 on one record: reading a property of null or
      undefined throws; otherwise a falsy text becomes "" and a
      start or duration that is not a number becomes 0, while every other
      field value is kept as it is, negative numbers included. */
  function CleanSegment(seg: Value): (r: Option<Segment>)
    ensures r.None? <==> Nullish(seg)
    ensures r.Some? ==> Normal(r.value)
    ensures r.Some? ==> (Truthy(Prop(seg, "text")) <==> r.value.text == Prop(seg, "text") && r.value.text != Str(""))
    ensures r.Some? ==> (!Truthy(Prop(seg, "text")) <==> r.value.text == Str(""))
    ensures r.Some? && Prop(seg, "start").Num? ==> r.value.start == Prop(seg, "start").n
    ensures r.Some? && !Prop(seg, "start").Num? ==> r.value.start == Finite(0.0)
    ensures r.Some? && Prop(seg, "duration").Num? ==> r.value.duration == Prop(seg, "duration").n
    ensures r.Some? && !Prop(seg, "duration").Num? ==> r.value.duration == Finite(0.0)
  {
    if Nullish(seg) then None
    else
      Some(Segment(
        Or(Prop(seg, "text"), Str("")),
        NumberOrZero(Prop(seg, "start")),
        NumberOrZero(Prop(seg, "duration"))))
  }

  /** A segment written back as the record it would be sent as. */
  ghost function AsRecord(seg: Segment): Value {
    Obj(map["text" := seg.text, "start" := Num(seg.start), "duration" := Num(seg.duration)])
  }

  /** Cleaning leaves a clean record as it is ... */
  lemma CleanSegmentFixes(seg: Segment)
    requires Normal(seg)
    ensures CleanSegment(AsRecord(seg)) == Some(seg)
  {
  }

  /** ... so cleaning twice is cleaning once. */
  lemma CleanSegmentIdempotent(v: Value)
    requires !Nullish(v)
    ensures CleanSegment(AsRecord(CleanSegment(v).value)) == CleanSegment(v)
  {
    CleanSegmentFixes(CleanSegment(v).value);
  }

  /** `items.map(...)` with the callback above: it throws as soon as one
      record is null or undefined, and otherwise cleans every record, one
      for one and in order. */
  function Clean(items: seq<Value>): (r: Option<seq<Segment>>)
    ensures r.Some? <==> forall i :: 0 <= i < |items| ==> !Nullish(items[i])
    ensures r.Some? ==> |r.value| == |items|
    ensures r.Some? ==> forall i :: 0 <= i < |items| ==> CleanSegment(items[i]) == Some(r.value[i])
    decreases |items|
  {
    if |items| == 0 then Some([])
    else
      match CleanSegment(items[0])
      case None => None
      case Some(first) =>
        match Clean(items[1..])
        case None => None
        case Some(rest) => Some([first] + rest)
  }

  ghost function AsRecords(segs: seq<Segment>): (vs: seq<Value>)
    ensures |vs| == |segs|
    ensures forall i :: 0 <= i < |segs| ==> vs[i] == AsRecord(segs[i])
  {
    seq(|segs|, i requires 0 <= i < |segs| => AsRecord(segs[i]))
  }

  /** Cleaning a list of clean records gives the same segments back. */
  lemma CleanFixes(segs: seq<Segment>)
    requires forall i :: 0 <= i < |segs| ==> Normal(segs[i])
    ensures Clean(AsRecords(segs)) == Some(segs)
  {
    var items := AsRecords(segs);
    forall i | 0 <= i < |items|
      ensures !Nullish(items[i]) && CleanSegment(items[i]) == Some(segs[i])
    {
      CleanSegmentFixes(segs[i]);
    }
    var r := Clean(items).value;
    assert r == segs by {
      forall i | 0 <= i < |segs|
        ensures r[i] == segs[i]
      {
        assert CleanSegment(items[i]) == Some(r[i]);
      }
    }
  }

  /** Cleaning works record by record: the cleaning of a concatenation is the
      concatenation of the cleanings. */
  lemma {:induction false} CleanAppend(a: seq<Value>, b: seq<Value>)
    ensures Clean(a + b).Some? <==> Clean(a).Some? && Clean(b).Some?
    ensures Clean(a + b).Some? ==> Clean(a + b).value == Clean(a).value + Clean(b).value
    decreases |a|
  {
    if |a| > 0 {
      assert (a + b)[1..] == a[1..] + b;
      assert (a + b)[0] == a[0];
      CleanAppend(a[1..], b);
    } else {
      assert a + b == b;
    }
  }

  /** Lines 38-40: the records of a response body `data`, or `None` where
      the code throws. Reading `data.transcript` throws on null. An array is
      used as it is; a falsy value stands for "[]", which parses to the empty
      array; a string goes through `parse` (JSON.parse, `None` on a syntax
      error), and a parse result that is not an array throws at `.map`. Any
      other truthy value is turned into a string that never parses to an
      array ("[object Object]", "5", "true"), so it throws as well. */
  function TranscriptItems(data: Value, parse: string -> Option<Value>): (r: Option<seq<Value>>)
    ensures Nullish(data) ==> r.None?
    ensures !Nullish(data) && Prop(data, "transcript").Arr? ==> r == Some(Prop(data, "transcript").items)
    ensures !Nullish(data) && !Truthy(Prop(data, "transcript")) ==> r == Some([])
    ensures !Nullish(data) && Prop(data, "transcript").Str? && Truthy(Prop(data, "transcript"))
            && parse(Prop(data, "transcript").s).Some? && parse(Prop(data, "transcript").s).value.Arr?
            ==> r == Some(parse(Prop(data, "transcript").s).value.items)
    ensures r.Some? ==> Prop(data, "transcript").Arr?
                        || !Truthy(Prop(data, "transcript"))
                        || (Prop(data, "transcript").Str? && parse(Prop(data, "transcript").s) == Some(Arr(r.value)))
  {
    match Get(data, "transcript")
    case None => None
    case Some(t) =>
      if t.Arr? then Some(t.items)
      else if !Truthy(t) then Some([])
      else if t.Str? then
        match parse(t.s)
        case Some(Arr(items)) => Some(items)
        case _ => None
      else None
  }

  /** A body whose `transcript` is a JSON string yields the same records as
      one that carries the array that string parses to. */
  lemma StringOrArraySame(text: string, items: seq<Value>, parse: string -> Option<Value>)
    requires |text| > 0 && parse(text) == Some(Arr(items))
    ensures TranscriptItems(Obj(map["transcript" := Str(text)]), parse)
            == TranscriptItems(Obj(map["transcript" := Arr(items)]), parse)
            == Some(items)
  {
    var asText := Obj(map["transcript" := Str(text)]);
    var asArray := Obj(map["transcript" := Arr(items)]);
    assert Prop(asText, "transcript") == Str(text);
    assert Prop(asArray, "transcript") == Arr(items);
  }
}
