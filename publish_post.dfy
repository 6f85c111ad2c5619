/**
 * The `/publishPost` handler (server.js lines 213-249): presence checks on the
 * body, the publish timestamp (UTC now plus 330 minutes, written
 * `YYYY-MM-DD HH:MM:SS`) and the parameter list of the INSERT. The clock is a
 * parameter and the database is a function from the parameter list to the
 * statement's outcome.
 */
module PublishPost {
  import opened Wrappers
  import opened Http
  import opened Text
  import opened JsValues
  import opened EcmaTime

  /** 330 minutes, the offset the handler adds to the clock. */
  const IstOffsetMs: int := 330 * 60000

  /** The columns of the INSERT at line 228, in the order of its parameters. */
  const InsertColumns: seq<string> :=
    ["post_page", "post_title", "post_published_date", "post_content", "post_content_type", "post_image_url"]

  const ContentType: string := "markup"
  const MissingFieldsMessage: string := "Missing required fields"
  const PublishedMessage: string := "Post published successfully"
  const PublishFailedMessage: string := "Failed to publish post"

  /** The message of the RangeError `toISOString` throws for a NaN date. */
  const InvalidTimeMessage: string := "Invalid time value"

  datatype StoreOutcome = Inserted | InsertFailed(message: string)

  datatype PublishBody =
    | Published(message: string)
    | PublishRejected(error: string)
    | PublishFailed(error: string, details: string)

  /** The response, and the parameter lists the handler sent to the database, in order. */
  datatype PublishResult = PublishResult(response: Response<PublishBody>, inserts: seq<seq<JsValue>>)

  /**
   * Lines 221-224: `new Date(now + 330 min).toISOString().slice(0, 19).replace('T', ' ')`;
   * None when the shifted time is out of a Date's range and `toISOString` throws.
   */
  function PublishTimestamp(nowMs: int): (ts: Option<string>)
    ensures ts.Some? <==> IsTimeValue(nowMs + IstOffsetMs)
    ensures ts.Some? ==> |ts.value| == 19
  {
    var ist := nowMs + IstOffsetMs;
    if IsTimeValue(ist) then Some(ReplaceFirst(ToIsoString(ist)[..19], 'T', ' ')) else None
  }

  /** How `YYYY-MM-DD HH:MM:SS` reads back as calendar fields (milliseconds 0). */
  function TimestampFields(ts: string): DateTime
    requires |ts| == 19
  {
    DateTime(DigitsValue(ts[0..4]), DigitsValue(ts[5..7]) - 1, DigitsValue(ts[8..10]),
             DigitsValue(ts[11..13]), DigitsValue(ts[14..16]), DigitsValue(ts[17..19]), 0)
  }

  /** `ts` has the form `YYYY-MM-DD HH:MM:SS`. */
  predicate IsSqlTimestamp(ts: string)
  {
    && |ts| == 19
    && ts[4] == '-' && ts[7] == '-' && ts[10] == ' ' && ts[13] == ':' && ts[16] == ':'
    && forall i :: 0 <= i < 19 && i != 4 && i != 7 && i != 10 && i != 13 && i != 16 ==> IsDigit(ts[i])
  }

  /** Three pieces joined by a separator character can be cut apart again. */
  lemma ThreePieces(a: string, sep: char, b: string, c: string)
    ensures var x := a + [sep] + b + [sep] + c;
            && x[..|a|] == a && x[|a|] == sep && x[|a| + 1..|a| + 1 + |b|] == b
            && x[|a| + 1 + |b|] == sep && x[|a| + 2 + |b|..] == c
  {
    var x := a + [sep] + b + [sep] + c;
    assert x == a + ([sep] + b + [sep] + c);
    assert x == (a + [sep] + b) + ([sep] + c);
  }

  /** `YYYY-MM-DD`, a space and `HH:MM:SS` make a timestamp whose pieces are those of the two parts. */
  lemma SqlTimestampOfParts(date: string, time: string)
    requires |date| == 10 && date[4] == '-' && date[7] == '-'
    requires forall i :: 0 <= i < 10 && i != 4 && i != 7 ==> IsDigit(date[i])
    requires |time| == 8 && time[2] == ':' && time[5] == ':'
    requires forall i :: 0 <= i < 8 && i != 2 && i != 5 ==> IsDigit(time[i])
    ensures var ts := date + [' '] + time;
            && IsSqlTimestamp(ts)
            && ts[0..4] == date[0..4] && ts[5..7] == date[5..7] && ts[8..10] == date[8..10]
            && ts[11..13] == time[0..2] && ts[14..16] == time[3..5] && ts[17..19] == time[6..8]
  {
    var ts := date + [' '] + time;
    forall i | 0 <= i < 19 && i != 4 && i != 7 && i != 10 && i != 13 && i != 16 ensures IsDigit(ts[i]) {
      if i < 10 {
        assert ts[i] == date[i];
      } else {
        assert ts[i] == time[i - 11];
      }
    }
  }

  /** The `YYYY-MM-DD` text of a year in 0..9999: digits, dashes at 4 and 7, and the fields' digits. */
  lemma IsoDateLayout(f: DateTime)
    requires 0 <= f.year <= 9999 && 0 <= f.month < 12 && 1 <= f.date <= 31
    ensures var date := IsoDateText(f);
            && |date| == 10 && date[4] == '-' && date[7] == '-'
            && (forall i :: 0 <= i < 10 && i != 4 && i != 7 ==> IsDigit(date[i]))
            && DigitsValue(date[0..4]) == f.year
            && DigitsValue(date[5..7]) == f.month + 1
            && DigitsValue(date[8..10]) == f.date
  {
    var y, mo, d := FixedDigits(f.year, 4), FixedDigits(f.month + 1, 2), FixedDigits(f.date, 2);
    FixedDigitsRoundTrip(f.year, 4);
    TwoDigitField(f.month + 1);
    TwoDigitField(f.date);
    ThreePieces(y, '-', mo, d);
    var date := IsoDateText(f);
    assert date == y + ['-'] + mo + ['-'] + d;
    forall i | 0 <= i < 10 && i != 4 && i != 7 ensures IsDigit(date[i]) {
      if i < 4 {
        assert date[i] == y[i];
      } else if i < 7 {
        assert date[i] == mo[i - 5];
      } else {
        assert date[i] == d[i - 8];
      }
    }
  }

  /** The `HH:mm:ss` text: digits, colons at 2 and 5, and the fields' digits. */
  lemma IsoTimeLayout(f: DateTime)
    requires 0 <= f.hours < 24 && 0 <= f.minutes < 60 && 0 <= f.seconds < 60
    ensures var time := IsoTimeText(f);
            && |time| == 8 && time[2] == ':' && time[5] == ':'
            && (forall i :: 0 <= i < 8 && i != 2 && i != 5 ==> IsDigit(time[i]))
            && DigitsValue(time[0..2]) == f.hours
            && DigitsValue(time[3..5]) == f.minutes
            && DigitsValue(time[6..8]) == f.seconds
  {
    var h, mi, s := FixedDigits(f.hours, 2), FixedDigits(f.minutes, 2), FixedDigits(f.seconds, 2);
    TwoDigitField(f.hours);
    TwoDigitField(f.minutes);
    TwoDigitField(f.seconds);
    ThreePieces(h, ':', mi, s);
    var time := IsoTimeText(f);
    assert time == h + [':'] + mi + [':'] + s;
    forall i | 0 <= i < 8 && i != 2 && i != 5 ensures IsDigit(time[i]) {
      if i < 2 {
        assert time[i] == h[i];
      } else if i < 5 {
        assert time[i] == mi[i - 3];
      } else {
        assert time[i] == s[i - 6];
      }
    }
  }

  /**
   * For publish times in years 0 to 9999, the stored timestamp has the form
   * `YYYY-MM-DD HH:MM:SS`, its fields are the UTC fields of now + 330 minutes,
   * and it denotes that instant truncated to the second.
   */
  lemma PublishTimestampDenotesShiftedNow(nowMs: int)
    requires IsTimeValue(nowMs + IstOffsetMs)
    requires 0 <= UtcFields(nowMs + IstOffsetMs).year <= 9999
    ensures var ts := PublishTimestamp(nowMs).value;
            && IsSqlTimestamp(ts)
            && TimestampFields(ts) == UtcFields(nowMs + IstOffsetMs).(ms := 0)
            && TimeFromFields(TimestampFields(ts)) == nowMs + IstOffsetMs - (nowMs + IstOffsetMs) % 1000
  {
    var ist := nowMs + IstOffsetMs;
    var f := UtcFields(ist);
    var ts := PublishTimestamp(nowMs).value;
    TimestampReadsBackFields(ist);
    assert ts == ReplaceFirst(ToIsoString(ist)[..19], 'T', ' ');
    assert IsSqlTimestamp(ts);
    assert TimestampFields(ts) == f.(ms := 0);
    TruncatedFields(ist);
  }

  /** Dropping the milliseconds field denotes the time truncated to the second. */
  lemma TruncatedFields(t: int)
    ensures TimeFromFields(UtcFields(t).(ms := 0)) == t - t % 1000
  {
    UtcFieldsRoundTrip(t);
  }

  /** The first 19 characters of the ISO string, 'T' replaced, read back as the UTC fields. */
  lemma TimestampReadsBackFields(t: int)
    requires IsTimeValue(t) && 0 <= UtcFields(t).year <= 9999
    ensures var ts := ReplaceFirst(ToIsoString(t)[..19], 'T', ' ');
            IsSqlTimestamp(ts) && TimestampFields(ts) == UtcFields(t).(ms := 0)
  {
    IsoStringPrefix(t);
    TimestampOfFields(UtcFields(t));
  }

  /** The date and time text of in-range fields, 'T' replaced, reads back as those fields. */
  lemma TimestampOfFields(f: DateTime)
    requires 0 <= f.year <= 9999 && 0 <= f.month < 12 && 1 <= f.date <= 31
    requires 0 <= f.hours < 24 && 0 <= f.minutes < 60 && 0 <= f.seconds < 60
    ensures var ts := ReplaceFirst(IsoDateTimeText(f), 'T', ' ');
            IsSqlTimestamp(ts) && TimestampFields(ts) == f.(ms := 0)
  {
    var date, time := IsoDateText(f), IsoTimeText(f);
    IsoDateLayout(f);
    IsoTimeLayout(f);
    assert 'T' !in date by {
      assert forall i :: 0 <= i < |date| ==> date[i] == '-' || IsDigit(date[i]);
    }
    ReplaceFirstOccurrence(date, 'T', ' ', time);
    SqlTimestampOfParts(date, time);
  }

  /** A field below 100 written with two digits reads back as itself. */
  lemma TwoDigitField(n: nat)
    requires n < 100
    ensures AllDigits(FixedDigits(n, 2)) && DigitsValue(FixedDigits(n, 2)) == n
  {
    assert Pow10(2) == 100;
    FixedDigitsRoundTrip(n, 2);
  }

  /** The parameter list of line 229, in the column order of `InsertColumns`. */
  function InsertValues(formData: JsValue, timestamp: string, content: JsValue, imageUrl: JsValue): seq<JsValue>
  {
    [Prop(formData, "category"), Prop(formData, "title"), JsString(timestamp), content, JsString(ContentType), imageUrl]
  }

  /** The value bound to column `name` of the INSERT. */
  function ValueFor(values: seq<JsValue>, name: string): JsValue
    requires |values| == |InsertColumns|
  {
    if name == InsertColumns[0] then values[0]
    else if name == InsertColumns[1] then values[1]
    else if name == InsertColumns[2] then values[2]
    else if name == InsertColumns[3] then values[3]
    else if name == InsertColumns[4] then values[4]
    else if name == InsertColumns[5] then values[5]
    else JsUndefined
  }

  /**
   * The handler: 500 when the body is null or undefined and cannot be
   * destructured; 400 before any query when `content` or `formData` is falsy;
   * otherwise one INSERT with the timestamp, and 200 or 500 after it.
   */
  function PublishPost(body: JsValue, nowMs: int, store: seq<JsValue> -> StoreOutcome): (r: PublishResult)
    requires IsTimeValue(nowMs)
    ensures r.response.status == 200 || r.response.status == 400 || r.response.status == 500
    ensures |r.inserts| <= 1
    ensures r.response.status == 200 <==> |r.inserts| == 1 && store(r.inserts[0]) == Inserted
    ensures r.response.status == 400 ==> r.inserts == []
  {
    if Nullish(body) then
      PublishResult(Response(500, PublishFailed(PublishFailedMessage, DestructureErrorMessage("content", "req.body", body))), [])
    else
      var content, formData, imageUrl := Prop(body, "content"), Prop(body, "formData"), Prop(body, "imageUrl");
      if Falsy(content) || Falsy(formData) then
        PublishResult(Response(400, PublishRejected(MissingFieldsMessage)), [])
      else match PublishTimestamp(nowMs)
        case None => PublishResult(Response(500, PublishFailed(PublishFailedMessage, InvalidTimeMessage)), [])
        case Some(ts) =>
          var values := InsertValues(formData, ts, content, imageUrl);
          match store(values)
          case Inserted => PublishResult(Response(200, Published(PublishedMessage)), [values])
          case InsertFailed(message) => PublishResult(Response(500, PublishFailed(PublishFailedMessage, message)), [values])
  }

  /**
   * A null or undefined body fails the destructuring at line 215 and is
   * answered 500 with the TypeError's message. Otherwise a falsy `content` or
   * `formData` is answered with 400. In both cases nothing is sent to the
   * database, whatever the database would do. Any other body, including a
   * `formData` without category or title, sends exactly one INSERT once the
   * timestamp exists.
   */
  lemma PublishValidatesBeforeQuery(body: JsValue, nowMs: int, store: seq<JsValue> -> StoreOutcome, other: seq<JsValue> -> StoreOutcome)
    requires IsTimeValue(nowMs)
    ensures Nullish(body) ==>
              PublishPost(body, nowMs, store)
                == PublishResult(Response(500, PublishFailed(PublishFailedMessage, DestructureErrorMessage("content", "req.body", body))), [])
    ensures var missing := !Nullish(body) && (Falsy(Prop(body, "content")) || Falsy(Prop(body, "formData")));
            && (missing <==> PublishPost(body, nowMs, store).response == Response(400, PublishRejected(MissingFieldsMessage)))
            && (missing || Nullish(body) ==> PublishPost(body, nowMs, store) == PublishPost(body, nowMs, other))
            && (missing || Nullish(body) ==> PublishPost(body, nowMs, store).inserts == [])
            && (!missing && !Nullish(body) && IsTimeValue(nowMs + IstOffsetMs) ==> |PublishPost(body, nowMs, store).inserts| == 1)
  {
  }

  /**
   * When both fields are present and the timestamp exists, the handler sends
   * exactly the parameter list of line 229 and its response follows the
   * database's outcome.
   */
  lemma PublishSendsInsertValues(body: JsValue, nowMs: int, store: seq<JsValue> -> StoreOutcome)
    requires IsTimeValue(nowMs) && IsTimeValue(nowMs + IstOffsetMs)
    requires !Falsy(Prop(body, "content")) && !Falsy(Prop(body, "formData"))
    ensures var r := PublishPost(body, nowMs, store);
            var values := InsertValues(Prop(body, "formData"), PublishTimestamp(nowMs).value, Prop(body, "content"), Prop(body, "imageUrl"));
            && r.inserts == [values]
            && (store(values) == Inserted ==> r.response == Response(200, Published(PublishedMessage)))
            && (store(values).InsertFailed? ==>
                  r.response == Response(500, PublishFailed(PublishFailedMessage, store(values).message)))
  {
  }

  /**
   * The parameter list binds `formData.category` to post_page, `formData.title`
   * to post_title, the timestamp to post_published_date, `content` to
   * post_content, "markup" to post_content_type and `imageUrl` (possibly
   * undefined) to post_image_url.
   */
  lemma InsertValuesBindColumns(formData: JsValue, timestamp: string, content: JsValue, imageUrl: JsValue)
    ensures var values := InsertValues(formData, timestamp, content, imageUrl);
            && |values| == |InsertColumns|
            && ValueFor(values, "post_page") == Prop(formData, "category")
            && ValueFor(values, "post_title") == Prop(formData, "title")
            && ValueFor(values, "post_published_date") == JsString(timestamp)
            && ValueFor(values, "post_content") == content
            && ValueFor(values, "post_content_type") == JsString("markup")
            && ValueFor(values, "post_image_url") == imageUrl
  {
  }
}
