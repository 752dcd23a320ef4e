/** The RabbitMQ event extraction of FMCopilot/tools.py: each log entry's text
    is searched for the "Sent message" marker, the embedded message after it is
    cut out and decoded, and every decoded record except the initial-load ones
    is kept, in input order. */
module EventExtractor {
  import opened Wrappers
  import opened JsonValue
  import opened Text

  const SentMessageMarker: string := "RabbitMQ [SendMessage] -- Sent message: "
  const EndMarker: string := " to exchange:"
  const EventToExclude: string := "KPIInitialLoad"

  /** The outcome of reading the log file: `json.load` produced a document, or
      opening or decoding the file raised (file not found, malformed JSON or
      any other error). */
  datatype LoadResult = LoadFailed | Loaded(document: Json)

  /** What `filter_rabbitmq_events` ends with: the list of kept records (which
      it serialises with `json.dumps`), or an exception it does not catch. */
  datatype Extraction = Events(events: seq<Json>) | Raised

  /** `entry.get("jsonPayload", {}).get("log", "")` when that is a string;
      None when the entry or its payload is not an object (the `.get` raises
      inside the per-entry `try`) or the log is not a string (the marker test
      raises or is false, and `.find` would raise). Either way the entry adds
      nothing. */
  function LogText(entry: Json): (r: Option<string>)
    ensures r.Some? ==> entry.JObj?
  {
    match entry
    case JObj(fields) =>
      var payload := if "jsonPayload" in fields then fields["jsonPayload"] else JObj(map[]);
      (match payload
       case JObj(inner) =>
         var log := if "log" in inner then inner["log"] else JStr("");
         if log.JStr? then Some(log.s) else None
       case _ => None)
    case _ => None
  }

  /** The bounds [start, end) of the text between an `open` marker and a
      `close` marker, or None when `open` does not occur. The text starts right
      after the first `open` and ends at the first `close` found at or after
      that point, or at the end of the line when there is none. */
  function MessageBounds(text: string, open: string, close: string): Option<(nat, nat)> {
    match Find(text, open, 0)
    case None => None
    case Some(at) =>
      var start := at + |open|;
      match Find(text, close, start)
      case None => Some((start, |text|))
      case Some(end) => Some((start, end))
  }

  /** What `MessageBounds` finds: None exactly when `open` never occurs;
      otherwise a start right after the first `open`, and an end at the first
      `close` from there on, or at the end of the line. */
  lemma MessageBoundsFirst(text: string, open: string, close: string)
    ensures var r := MessageBounds(text, open, close);
      && (r.None? <==> forall i :: !OccursAt(text, open, i))
      && (r.Some? ==>
        var (start, end) := r.value;
        && |open| <= start <= end <= |text|
        && OccursAt(text, open, start - |open|)
        && (forall i :: 0 <= i < start - |open| ==> !OccursAt(text, open, i))
        && (forall i :: start <= i < end ==> !OccursAt(text, close, i))
        && (end == |text| || OccursAt(text, close, end)))
  {
    FindSpec(text, open, 0);
    var at := Find(text, open, 0);
    if at.Some? {
      FindSpec(text, close, at.value + |open|);
    }
  }

  /** The bounds of the embedded message in a log line (lines 46-52). */
  function PayloadBounds(text: string): Option<(nat, nat)> {
    MessageBounds(text, SentMessageMarker, EndMarker)
  }

  /** The stripped text of the embedded message, or None without a start marker. */
  function MessagePayload(text: string): Option<string> {
    MessageBoundsFirst(text, SentMessageMarker, EndMarker);
    match PayloadBounds(text)
    case None => None
    case Some((start, end)) => Some(Strip(text[start..end]))
  }

  /** A decoded message is kept when it is an object (otherwise `.get` raises
      and the entry is skipped) whose EventName is not the excluded kind; an
      object without EventName is kept. */
  predicate Kept(msg: Json) {
    msg.JObj? && Lookup(msg.fields, "EventName") != Some(JStr(EventToExclude))
  }

  /** What one log entry contributes to the output: its decoded message, or
      None when the entry is skipped. */
  function ExtractOne(entry: Json, decode: string -> Option<Json>): (r: Option<Json>)
    ensures r.Some? ==> Kept(r.value)
  {
    match LogText(entry)
    case None => None
    case Some(text) =>
      match MessagePayload(text)
      case None => None
      case Some(payload) =>
        match decode(payload)
        case None => None
        case Some(msg) => if Kept(msg) then Some(msg) else None
  }

  /** The values `f` yields over `entries`, in order, skipping the entries for
      which it yields None: the shape of a loop whose body appends at most one
      value per entry and whose `except: continue` skips the rest. */
  function FilterMap(entries: seq<Json>, f: Json -> Option<Json>): seq<Json>
  {
    if entries == [] then []
    else
      FilterMap(entries[..|entries| - 1], f)
        + (match f(entries[|entries| - 1]) case Some(msg) => [msg] case None => [])
  }

  /** The records the loop collects from `entries`, in their order. */
  function ExtractAll(entries: seq<Json>, decode: string -> Option<Json>): seq<Json>
  {
    FilterMap(entries, e => ExtractOne(e, decode))
  }

  /** Lines 46-59 for one log text: the marker test, the two `find` calls and
      the slice they bound, stripped. */
  method CutPayload(text: string) returns (payload: Option<string>)
    ensures payload == MessagePayload(text)
  {
    if !Contains(text, SentMessageMarker) {
      assert PayloadBounds(text).None?;
      return None;
    }
    FindSpec(text, SentMessageMarker, 0);
    var startIndex := Find(text, SentMessageMarker, 0).value + |SentMessageMarker|;
    var endIndex := Find(text, EndMarker, startIndex);
    FindSpec(text, EndMarker, startIndex);
    if endIndex.None? {
      assert PayloadBounds(text) == Some((startIndex, |text|));
      assert text[startIndex..] == text[startIndex..|text|];
      payload := Some(Strip(text[startIndex..]));
    } else {
      assert PayloadBounds(text) == Some((startIndex, endIndex.value));
      payload := Some(Strip(text[startIndex..endIndex.value]));
    }
  }

  /** The body of the loop for one entry (lines 43-67): the record it
      appends, or None when it appends nothing. */
  method ProcessEntry(entry: Json, decode: string -> Option<Json>) returns (appended: Option<Json>)
    ensures appended == ExtractOne(entry, decode)
  {
    appended := None;
    var logContent := LogText(entry);
    if logContent.Some? {
      var messagePayload := CutPayload(logContent.value);
      if messagePayload.Some? {
        var eventMessage := decode(messagePayload.value);
        if eventMessage.Some? && Kept(eventMessage.value) {
          appended := eventMessage;
        }
      }
    }
  }

  /** `filter_rabbitmq_events`, given the outcome of loading the file. A failed
      load returns the empty list. The loop `for entry in log_data` lies
      outside the `try`: over a dictionary or a string it visits keys or
      characters, each a `str` whose `.get` raises inside the per-entry `try`,
      so nothing is kept; over a number, a boolean or null it raises
      `TypeError`, which nothing catches. */
  method FilterRabbitmqEvents(load: LoadResult, decode: string -> Option<Json>) returns (r: Extraction)
    ensures load.LoadFailed? ==> r == Events([])
    ensures load.Loaded? && load.document.JArr? ==> r == Events(ExtractAll(load.document.items, decode))
    ensures load.Loaded? && (load.document.JObj? || load.document.JStr?) ==> r == Events([])
    ensures load.Loaded? && (load.document.JInt? || load.document.JBool? || load.document.JNull?) ==> r == Raised
  {
    if load.LoadFailed? {
      return Events([]);
    }
    match load.document
    case JArr(logData) =>
      var filteredEvents: seq<Json> := [];
      for n := 0 to |logData|
        invariant filteredEvents == ExtractAll(logData[..n], decode)
      {
        assert logData[..n + 1][..n] == logData[..n];
        var appended := ProcessEntry(logData[n], decode);
        if appended.Some? {
          filteredEvents := filteredEvents + [appended.value];
        }
      }
      assert logData[..|logData|] == logData;
      return Events(filteredEvents);
    case JObj(_) => return Events([]);
    case JStr(_) => return Events([]);
    case _ => return Raised;
  }

  /** The filter-map distributes over concatenation: each entry is processed
      independently of the others. */
  lemma {:induction false} FilterMapAppend(a: seq<Json>, b: seq<Json>, f: Json -> Option<Json>)
    ensures FilterMap(a + b, f) == FilterMap(a, f) + FilterMap(b, f)
    decreases |b|
  {
    if b == [] {
      assert a + b == a;
    } else {
      var b' := b[..|b| - 1];
      assert (a + b)[..|a + b| - 1] == a + b';
      assert (a + b)[|a + b| - 1] == b[|b| - 1];
      FilterMapAppend(a, b', f);
    }
  }

  /** The indices of the entries that contribute to the output: strictly
      increasing, one per output value, and `f` yields None on every other
      entry. So the output is an order-preserving subsequence of the values
      `f` yields, at most one per entry. */
  function Origins(entries: seq<Json>, f: Json -> Option<Json>): (idx: seq<nat>)
    ensures |idx| == |FilterMap(entries, f)|
    ensures forall k :: 0 <= k < |idx| ==> idx[k] < |entries|
    ensures forall k, l :: 0 <= k < l < |idx| ==> idx[k] < idx[l]
    ensures forall k :: 0 <= k < |idx| ==> f(entries[idx[k]]) == Some(FilterMap(entries, f)[k])
    ensures forall j :: 0 <= j < |entries| && j !in idx ==> f(entries[j]).None?
  {
    if entries == [] then []
    else
      var n := |entries| - 1;
      var init := entries[..n];
      var rest := Origins(init, f);
      assert forall j :: 0 <= j < n ==> init[j] == entries[j];
      if f(entries[n]).Some? then rest + [n] else rest
  }

  /** The output never has more values than the input has entries. */
  lemma {:induction false} FilterMapLength(entries: seq<Json>, f: Json -> Option<Json>)
    ensures |FilterMap(entries, f)| <= |entries|
  {
    if entries != [] {
      FilterMapLength(entries[..|entries| - 1], f);
    }
  }

  /** An entry on which `f` yields None contributes nothing, and the entries
      around it are processed as if it were absent. */
  lemma FilterMapSkip(before: seq<Json>, entry: Json, after: seq<Json>, f: Json -> Option<Json>)
    requires f(entry).None?
    ensures FilterMap(before + [entry] + after, f) == FilterMap(before, f) + FilterMap(after, f)
  {
    assert FilterMap([entry], f) == [] by {
      assert [entry][..0] == [];
    }
    calc {
      FilterMap(before + [entry] + after, f);
      == { FilterMapAppend(before + [entry], after, f); }
      FilterMap(before + [entry], f) + FilterMap(after, f);
      == { FilterMapAppend(before, [entry], f); }
      FilterMap(before, f) + FilterMap([entry], f) + FilterMap(after, f);
    }
  }

  /** An entry that is skipped (no marker, an undecodable message, a
      non-object message, an excluded event, a malformed entry) contributes
      nothing, and the entries around it are processed as if it were absent. */
  lemma SkippedEntryIsDropped(before: seq<Json>, entry: Json, after: seq<Json>, decode: string -> Option<Json>)
    requires ExtractOne(entry, decode).None?
    ensures ExtractAll(before + [entry] + after, decode) == ExtractAll(before, decode) + ExtractAll(after, decode)
  {
    FilterMapSkip(before, entry, after, e => ExtractOne(e, decode));
  }

  /** In particular an entry whose log text lacks the start marker adds nothing. */
  lemma EntryWithoutMarkerIsDropped(before: seq<Json>, entry: Json, after: seq<Json>, decode: string -> Option<Json>)
    requires LogText(entry).Some? ==> !Contains(LogText(entry).value, SentMessageMarker)
    ensures ExtractAll(before + [entry] + after, decode) == ExtractAll(before, decode) + ExtractAll(after, decode)
  {
    assert LogText(entry).Some? ==> PayloadBounds(LogText(entry).value).None?;
    SkippedEntryIsDropped(before, entry, after, decode);
  }

  /** Every record in the output is an object whose EventName is not
      "KPIInitialLoad", and it is the decoded message of some entry. */
  lemma ExtractedAreKept(entries: seq<Json>, decode: string -> Option<Json>)
    ensures forall k :: 0 <= k < |ExtractAll(entries, decode)| ==>
              && Kept(ExtractAll(entries, decode)[k])
              && exists j :: 0 <= j < |entries| && ExtractOne(entries[j], decode) == Some(ExtractAll(entries, decode)[k])
  {
    var f := e => ExtractOne(e, decode);
    var idx := Origins(entries, f);
    var out := ExtractAll(entries, decode);
    forall k | 0 <= k < |out|
      ensures Kept(out[k])
      ensures exists j :: 0 <= j < |entries| && ExtractOne(entries[j], decode) == Some(out[k])
    {
      assert f(entries[idx[k]]) == Some(out[k]);
    }
  }

  /** The first character of `open` occurs in it only there. */
  predicate OpensOnce(open: string) {
    open != [] && forall k :: 0 < k < |open| ==> open[k] != open[0]
  }

  /** The last character of `close` occurs in it only there. */
  predicate ClosesOnce(close: string) {
    close != [] && forall j :: 0 <= j < |close| - 1 ==> close[j] != close[|close| - 1]
  }

  /** The start marker's 'R' and the end marker's ':' occur once in them. */
  lemma MarkerShapes()
    ensures OpensOnce(SentMessageMarker) && ClosesOnce(EndMarker)
  {
  }

  /** No `open` can straddle the end of an `open`-free prefix followed by
      `open`, as its first character occurs in it only once. */
  lemma NoOpenBefore(text: string, prefix: string, open: string, rest: string)
    requires text == prefix + open + rest
    requires OpensOnce(open) && !Contains(prefix, open)
    ensures forall i :: 0 <= i < |prefix| ==> !OccursAt(text, open, i)
  {
    forall i | 0 <= i < |prefix|
      ensures !OccursAt(text, open, i)
    {
      if i + |open| <= |prefix| {
        assert text[i..i + |open|] == prefix[i..i + |open|];
        assert !OccursAt(prefix, open, i);
      } else if i + |open| <= |text| {
        var k := |prefix| - i;
        assert text[i..i + |open|][k] == text[|prefix|] == open[0] != open[k];
      }
    }
  }

  /** No `close` starts inside a `close`-free message followed by nothing or
      by `close`, as its last character occurs in it only once. */
  lemma NoCloseInside(text: string, head: string, payload: string, suffix: string, close: string)
    requires text == head + payload + suffix
    requires ClosesOnce(close) && !Contains(payload, close)
    requires suffix == [] || (|close| <= |suffix| && suffix[..|close|] == close)
    ensures forall i :: |head| <= i < |head| + |payload| ==> !OccursAt(text, close, i)
  {
    var last := |close| - 1;
    forall i | |head| <= i < |head| + |payload|
      ensures !OccursAt(text, close, i)
    {
      var off := i - |head|;
      if off + |close| <= |payload| {
        assert text[i..i + |close|] == payload[off..off + |close|];
        assert !OccursAt(payload, close, off);
      } else if i + |close| <= |text| {
        var j := off + |close| - 1 - |payload|;
        assert suffix != [];
        assert text[i..i + |close|][last] == text[i + last] == suffix[..|close|][j] == close[j] != close[last];
      }
    }
  }

  /** The bounds of the message in `prefix + open + message + rest`, where the
      prefix holds no `open`, the message holds no `close` and the rest is
      empty or starts with `close`. */
  lemma BoundsBetween(text: string, prefix: string, message: string, rest: string, open: string, close: string)
    requires text == prefix + open + message + rest
    requires OpensOnce(open) && ClosesOnce(close)
    requires !Contains(prefix, open) && !Contains(message, close)
    requires rest == [] || (|close| <= |rest| && rest[..|close|] == close)
    ensures MessageBounds(text, open, close) == Some((|prefix| + |open|, |prefix| + |open| + |message|))
  {
    AppendAssoc(prefix + open, message, rest);
    FirstOpenAt(text, prefix, open, message + rest);
    FirstCloseAt(text, prefix + open, message, rest, close);
  }

  /** `find` locates `open` right after an `open`-free prefix. */
  lemma FirstOpenAt(text: string, prefix: string, open: string, tail: string)
    requires text == prefix + open + tail
    requires OpensOnce(open) && !Contains(prefix, open)
    ensures Find(text, open, 0) == Some(|prefix|)
  {
    OpenAt(text, prefix, open, tail);
    NoOpenBefore(text, prefix, open, tail);
    FindFirst(text, open, 0, |prefix|);
  }

  /** From the start of a `close`-free payload, `find` locates the `close`
      that follows it, or finds none when nothing follows it. */
  lemma FirstCloseAt(text: string, head: string, payload: string, suffix: string, close: string)
    requires text == head + payload + suffix
    requires ClosesOnce(close) && !Contains(payload, close)
    requires suffix == [] || (|close| <= |suffix| && suffix[..|close|] == close)
    ensures suffix == [] ==> Find(text, close, |head|).None?
    ensures suffix != [] ==> Find(text, close, |head|) == Some(|head| + |payload|)
  {
    NoCloseInside(text, head, payload, suffix, close);
    CloseAtEnd(text, head + payload, suffix, close);
    if suffix == [] {
      FindNone(text, close, |head|);
    } else {
      FindFirst(text, close, |head|, |head| + |payload|);
    }
  }

  /** `open` occurs right after `prefix` in `prefix + open + tail`. */
  lemma OpenAt(text: string, prefix: string, open: string, tail: string)
    requires text == prefix + open + tail
    ensures OccursAt(text, open, |prefix|)
  {
    MiddleSlice(prefix, open, tail);
  }

  /** After `head`, `head + rest` ends or has `close` when `rest` is empty or
      starts with `close`. */
  lemma CloseAtEnd(text: string, head: string, rest: string, close: string)
    requires text == head + rest && close != []
    requires rest == [] || (|close| <= |rest| && rest[..|close|] == close)
    ensures OccursAt(text, close, |head|) || (|head| == |text| && close != [])
  {
    if rest != [] {
      SliceAfter(head, rest, |close|);
    }
  }

  /** The converse of `MessageBoundsFirst`: bounds right after the first
      `open` and at the first `close` from there on, or at the end of the
      line, are the ones `MessageBounds` finds. */
  lemma BoundsAt(text: string, open: string, close: string, start: nat, end: nat)
    requires |open| <= start <= end <= |text|
    requires OccursAt(text, open, start - |open|)
    requires forall i :: 0 <= i < start - |open| ==> !OccursAt(text, open, i)
    requires forall i :: start <= i < end ==> !OccursAt(text, close, i)
    requires OccursAt(text, close, end) || (end == |text| && close != [])
    ensures MessageBounds(text, open, close) == Some((start, end))
  {
    FindFirst(text, open, 0, start - |open|);
    if OccursAt(text, close, end) {
      FindFirst(text, close, start, end);
    } else {
      FindNone(text, close, start);
    }
  }

  /** A log line `prefix + marker + message + rest`, where the prefix holds no
      start marker (it may hold end markers, which are ignored), the message
      holds no end marker and the rest is empty or starts with the end
      marker, yields exactly the stripped message. */
  lemma PayloadBetweenMarkers(line: string, prefix: string, message: string, rest: string)
    requires line == prefix + SentMessageMarker + message + rest
    requires !Contains(prefix, SentMessageMarker)
    requires !Contains(message, EndMarker)
    requires rest == [] || (|EndMarker| <= |rest| && rest[..|EndMarker|] == EndMarker)
    ensures MessagePayload(line) == Some(Strip(message))
  {
    MarkerShapes();
    BoundsBetween(line, prefix, message, rest, SentMessageMarker, EndMarker);
    MiddleSlice(prefix + SentMessageMarker, message, rest);
  }

  /** What an entry whose log text is `text` contributes, once the payload of
      `text` is known to decode to an object. */
  lemma RecordOfText(entry: Json, text: string, payload: string, decode: string -> Option<Json>, record: Json)
    requires LogText(entry) == Some(text)
    requires MessagePayload(text) == Some(payload)
    requires decode(payload) == Some(record) && record.JObj?
    ensures var r := ExtractOne(entry, decode);
            && (r.Some? <==> Lookup(record.fields, "EventName") != Some(JStr(EventToExclude)))
            && (r.Some? ==> r.value == record)
  {
  }

  /** A decoded object message found between the markers of an entry's log
      text is appended exactly when its EventName is not "KPIInitialLoad", and
      then verbatim. */
  lemma RecordBetweenMarkers(entry: Json, line: string, prefix: string, message: string, rest: string,
                             decode: string -> Option<Json>, record: Json)
    requires LogText(entry) == Some(line)
    requires line == prefix + SentMessageMarker + message + rest
    requires !Contains(prefix, SentMessageMarker)
    requires !Contains(message, EndMarker)
    requires rest == [] || (|EndMarker| <= |rest| && rest[..|EndMarker|] == EndMarker)
    requires decode(Strip(message)) == Some(record) && record.JObj?
    ensures var r := ExtractOne(entry, decode);
            && (r.Some? <==> Lookup(record.fields, "EventName") != Some(JStr(EventToExclude)))
            && (r.Some? ==> r.value == record)
  {
    PayloadBetweenMarkers(line, prefix, message, rest);
    RecordOfText(entry, line, Strip(message), decode, record);
  }

  /** `entry.get("jsonPayload", {}).get("log", "")` case by case: an entry
      that is not an object, a payload that is not an object or a log that is
      not a string give no text; a missing payload or a missing log give the
      empty text; a string log is the text. */
  lemma LogTextCases(entry: Json)
    ensures !entry.JObj? ==> LogText(entry) == None
    ensures entry.JObj? ==>
              var payload := Lookup(entry.fields, "jsonPayload");
              && (payload.None? ==> LogText(entry) == Some(""))
              && (payload.Some? && !payload.value.JObj? ==> LogText(entry) == None)
              && (payload.Some? && payload.value.JObj? ==>
                    var log := Lookup(payload.value.fields, "log");
                    && (log.None? ==> LogText(entry) == Some(""))
                    && (log.Some? && log.value.JStr? ==> LogText(entry) == Some(log.value.s))
                    && (log.Some? && !log.value.JStr? ==> LogText(entry) == None))
  {
  }
}
