/** `filter_user_content`: picking the report out of the chat transcript. */
module ChatHistory {
  import opened Wrappers
  import opened PyStr

  /** One entry of the transcript after JSON decoding. `content` is `None`
      for a JSON `null` (a message that carried only a tool call). */
  datatype Entry = Entry(role: string, content: Option<string>)

  /** Raised by Python when it evaluates `"###" in None`. */
  datatype FilterError = ContentNotText

  /** The marker that sets the report apart from the other messages. */
  const Marker: string := "###"

  /** Returned when no entry of the transcript is the report. */
  const Fallback: string := "No relevant content found."

  /** A user entry whose content holds the marker: the search returns it. */
  predicate IsReport(e: Entry)
    ensures IsReport(e) ==> e.content.Some? && |e.content.value| >= |Marker|
    ensures IsReport(e) ==> !Raises(e)
  {
    e.role == "user" && e.content.Some? && Contains(e.content.value, Marker)
  }

  /** A user entry without text: the marker test raises on it. */
  predicate Raises(e: Entry) {
    e.role == "user" && e.content.None?
  }

  /** The search ends at this entry, one way or the other. */
  predicate Stops(e: Entry) {
    IsReport(e) || Raises(e)
  }

  /** What the search yields when it ends at `e`. */
  function StopResult(e: Entry): Result<string, FilterError> {
    if e.content.Some? then Ok(e.content.value) else Err(ContentNotText)
  }

  /** `i` is the first entry of `h` at which the search ends. */
  predicate FirstStopAt(h: seq<Entry>, i: int) {
    0 <= i < |h| && Stops(h[i]) && forall j :: 0 <= j < i ==> !Stops(h[j])
  }

  /** `filter_user_content`: the content of the first user entry that holds
      the marker, the fallback text when there is none, or the error raised
      by a user entry without text met before either. Every text it returns
      is the fallback or the text of a user entry holding the marker. */
  function FilterUserContent(h: seq<Entry>): (r: Result<string, FilterError>)
    ensures r.Ok? ==> r.value == Fallback || exists i :: 0 <= i < |h| && IsReport(h[i]) && r.value == h[i].content.value
    ensures r.Err? ==> exists i :: 0 <= i < |h| && Raises(h[i])
  {
    if h == [] then Ok(Fallback)
    else if Raises(h[0]) then Err(ContentNotText)
    else if IsReport(h[0]) then Ok(h[0].content.value)
    else
      var r := FilterUserContent(h[1..]);
      assert r.Ok? && r.value != Fallback ==> exists i :: 1 <= i < |h| && IsReport(h[i]) && r.value == h[i].content.value by {
        if r.Ok? && r.value != Fallback {
          var i :| 0 <= i < |h| - 1 && IsReport(h[1..][i]) && r.value == h[1..][i].content.value;
          assert h[i + 1] == h[1..][i];
        }
      }
      assert r.Err? ==> exists i :: 1 <= i < |h| && Raises(h[i]) by {
        if r.Err? {
          var i :| 0 <= i < |h| - 1 && Raises(h[1..][i]);
          assert h[i + 1] == h[1..][i];
        }
      }
      r
  }

  /** The first entry that ends the search decides the result: a later
      report never wins over an earlier one, and a text-less user entry
      before every report makes the call raise. */
  lemma {:induction false} FirstStopDecides(h: seq<Entry>, i: int)
    requires FirstStopAt(h, i)
    ensures FilterUserContent(h) == StopResult(h[i])
  {
    if i > 0 {
      assert FirstStopAt(h[1..], i - 1) by {
        forall j | 0 <= j < i - 1
          ensures !Stops(h[1..][j])
        {
          assert h[1..][j] == h[j + 1];
        }
      }
      FirstStopDecides(h[1..], i - 1);
    }
  }

  /** The fallback text is returned exactly when no entry ends the search;
      the fallback itself holds no marker, so no report can be mistaken for it. */
  lemma {:induction false} FallbackIff(h: seq<Entry>)
    ensures FilterUserContent(h) == Ok(Fallback) <==> forall i :: 0 <= i < |h| ==> !Stops(h[i])
  {
    NotContainsWithoutFirst(Fallback, Marker);
    if h != [] {
      FallbackIff(h[1..]);
      assert forall i :: 1 <= i < |h| ==> h[i] == h[1..][i - 1];
    }
  }

  /** When the transcript holds a report and no text-less user entry, the
      result is the text of a report entry, and of the earliest one. */
  lemma ReportFound(h: seq<Entry>, i: int)
    requires 0 <= i < |h| && IsReport(h[i])
    requires forall j :: 0 <= j < |h| ==> !Raises(h[j])
    ensures exists k :: 0 <= k <= i && FirstStopAt(h, k) && FilterUserContent(h) == Ok(h[k].content.value)
  {
    var k := EarliestStop(h, i);
    FirstStopDecides(h, k);
  }

  /** The earliest entry at which the search ends, given that entry `i` ends it. */
  lemma {:induction false} EarliestStop(h: seq<Entry>, i: int) returns (k: int)
    requires 0 <= i < |h| && Stops(h[i])
    ensures 0 <= k <= i && FirstStopAt(h, k)
  {
    if forall j :: 0 <= j < i ==> !Stops(h[j]) {
      k := i;
    } else {
      var j :| 0 <= j < i && Stops(h[j]);
      k := EarliestStop(h, j);
    }
  }
}
