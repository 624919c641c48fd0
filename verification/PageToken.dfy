/** The opaque continuation token of a paginated range query. */
module PageToken {
  import opened Types
  import opened Numerals

  const PREFIX := "v1:"

  datatype Cursor = Cursor(snapshotEventId: int, timestampMs: Int64, eventId: int)

  function Encode(c: Cursor): string {
    PREFIX + Fields(Decimal(c.snapshotEventId), Decimal(c.timestampMs), Decimal(c.eventId))
  }

  /** The text before the first ':' and the text after it. */
  function SplitField(s: string): Option<(string, string)> {
    if s == "" then None
    else if s[0] == ':' then Some(("", s[1..]))
    else
      match SplitField(s[1..])
      case None => None
      case Some((field, rest)) => Some(([s[0]] + field, rest))
  }

  predicate ValidCursor(snapshot: int, eventId: int) {
    0 < eventId <= snapshot
  }

  /** What a token means, independently of how it is scanned. */
  ghost predicate Denotes(token: string, c: Cursor) {
    && 0 < c.eventId <= c.snapshotEventId <= 0x7FFF_FFFF_FFFF_FFFF
    && exists snapshot, timestamp, event ::
         && token == "v1:" + (snapshot + ":" + (timestamp + ":" + event))
         && ':' !in snapshot && ':' !in timestamp
         && IsNumeral(snapshot, c.snapshotEventId)
         && IsNumeral(timestamp, c.timestampMs)
         && IsNumeral(event, c.eventId)
  }

  function Fields(snapshot: string, timestamp: string, event: string): string {
    snapshot + ":" + (timestamp + ":" + event)
  }

  function Interpret(snapshot: string, timestamp: string, event: string): Option<Cursor> {
    match (ParseInt64(snapshot), ParseInt64(timestamp), ParseInt64(event))
    case (Some(s), Some(t), Some(e)) => if ValidCursor(s, e) then Some(Cursor(s, t, e)) else None
    case _ => None
  }

  function Decode(token: string): Option<Cursor> {
    if !(PREFIX <= token) then None
    else
      match SplitField(token[|PREFIX|..])
      case None => None
      case Some((snapshot, rest)) =>
        match SplitField(rest)
        case None => None
        case Some((timestamp, event)) => Interpret(snapshot, timestamp, event)
  }

  /** Consumes the field in front of the next separator, as the source does on its view. */
  method TakeTokenField(token: string) returns (field: Option<string>, rest: string)
    ensures match SplitField(token)
            case None => field == None && rest == token
            case Some((f, r)) => field == Some(f) && rest == r
  {
    var separator := 0;
    assert token[0..] == token && forall f: string :: token[..0] + f == f;
    while separator < |token| && token[separator] != ':'
      invariant separator <= |token|
      invariant SplitField(token) ==
                match SplitField(token[separator..])
                case None => None
                case Some((f, r)) => Some((token[..separator] + f, r))
    {
      assert token[separator..][1..] == token[separator + 1..];
      assert forall f: string :: token[..separator] + ([token[separator]] + f) == token[..separator + 1] + f;
      separator := separator + 1;
    }
    if separator == |token| {
      return None, token;
    }
    assert token[separator..][1..] == token[separator + 1..];
    assert token[..separator] + "" == token[..separator];
    return Some(token[..separator]), token[separator + 1..];
  }

  method DecodePageToken(token: string) returns (cursor: Option<Cursor>)
    ensures cursor == Decode(token)
  {
    if !(PREFIX <= token) {
      return None;
    }
    var view := token[|PREFIX|..];
    var snapshotField, timestampField;
    snapshotField, view := TakeTokenField(view);
    timestampField, view := TakeTokenField(view);
    if snapshotField.None? || timestampField.None? {
      return None;
    }
    var snapshot, timestamp, event := ParseInt64(snapshotField.value), ParseInt64(timestampField.value), ParseInt64(view);
    if snapshot.None? || timestamp.None? || event.None? || snapshot.value <= 0 || event.value <= 0
       || event.value > snapshot.value {
      return None;
    }
    return Some(Cursor(snapshot.value, timestamp.value, event.value));
  }

  lemma {:induction false} SplitFieldExact(s: string, field: string, rest: string)
    ensures SplitField(s) == Some((field, rest)) <==> s == field + ":" + rest && ':' !in field
  {
    if s == "" {
    } else if s[0] == ':' {
      if field == "" {
        assert s == ":" + rest <==> s[1..] == rest;
      } else {
        assert s == field + ":" + rest ==> field[0] == ':';
        assert field[0] in field;
      }
    } else {
      if field == "" {
        assert s != field + ":" + rest;
      } else {
        SplitFieldExact(s[1..], field[1..], rest);
        if s == field + ":" + rest {
          assert s[1..] == field[1..] + ":" + rest;
        }
        if s[0] == field[0] && s[1..] == field[1..] + ":" + rest {
          assert s == [s[0]] + s[1..] == field + ":" + rest;
        }
        assert field == [field[0]] + field[1..];
        assert ':' !in field <==> field[0] != ':' && ':' !in field[1..];
      }
    }
  }

  lemma NumeralFields(snapshot: string, timestamp: string, event: string, c: Cursor)
    ensures Interpret(snapshot, timestamp, event) == Some(c) <==>
            && 0 < c.eventId <= c.snapshotEventId <= INT64_MAX
            && IsNumeral(snapshot, c.snapshotEventId) && IsNumeral(timestamp, c.timestampMs) && IsNumeral(event, c.eventId)
  {
    hide ParseInt64, IsNumeral;
    ParseExact(timestamp, c.timestampMs);
    if 0 < c.eventId <= c.snapshotEventId <= INT64_MAX {
      ParseExact(snapshot, c.snapshotEventId);
      ParseExact(event, c.eventId);
    }
  }

  /** Scanning accepts exactly the tokens that denote a cursor, and returns that cursor. */
  lemma DecodeExact(token: string, c: Cursor)
    ensures Decode(token) == Some(c) <==> Denotes(token, c)
  {
    hide ParseInt64, IsNumeral, Interpret;
    if Decode(token) == Some(c) {
      var body := token[|PREFIX|..];
      var (snapshot, rest) := SplitField(body).value;
      var (timestamp, event) := SplitField(rest).value;
      SplitFieldExact(body, snapshot, rest);
      SplitFieldExact(rest, timestamp, event);
      NumeralFields(snapshot, timestamp, event, c);
      assert body == snapshot + ":" + (timestamp + ":" + event);
      assert token == "v1:" + body;
    }
    if Denotes(token, c) {
      var snapshot, timestamp, event :|
        && token == "v1:" + (snapshot + ":" + (timestamp + ":" + event))
        && ':' !in snapshot && ':' !in timestamp
        && IsNumeral(snapshot, c.snapshotEventId)
        && IsNumeral(timestamp, c.timestampMs)
        && IsNumeral(event, c.eventId);
      NumeralFields(snapshot, timestamp, event, c);
      DecodeFields(snapshot, timestamp, event);
    }
  }

  lemma InterpretRoundTrip(c: Cursor)
    requires 0 < c.eventId <= c.snapshotEventId <= INT64_MAX
    ensures Interpret(Decimal(c.snapshotEventId), Decimal(c.timestampMs), Decimal(c.eventId)) == Some(c)
  {
    DecimalRoundTrip(c.snapshotEventId);
    DecimalRoundTrip(c.timestampMs);
    DecimalRoundTrip(c.eventId);
  }

  lemma DecodeFields(snapshot: string, timestamp: string, event: string)
    requires ':' !in snapshot && ':' !in timestamp
    ensures Decode(PREFIX + Fields(snapshot, timestamp, event)) == Interpret(snapshot, timestamp, event)
  {
    var token, rest := PREFIX + Fields(snapshot, timestamp, event), timestamp + ":" + event;
    assert token[|PREFIX|..] == snapshot + ":" + rest;
    SplitFieldExact(token[|PREFIX|..], snapshot, rest);
    SplitFieldExact(rest, timestamp, event);
  }

  /** Every token the store can issue decodes to the cursor it was made from. */
  lemma TokenRoundTrip(c: Cursor)
    requires 0 < c.eventId <= c.snapshotEventId <= INT64_MAX
    ensures Decode(Encode(c)) == Some(c)
  {
    var snapshot, timestamp, event := Decimal(c.snapshotEventId), Decimal(c.timestampMs), Decimal(c.eventId);
    DecimalRoundTrip(c.snapshotEventId);
    DecimalRoundTrip(c.timestampMs);
    InterpretRoundTrip(c);
    DecodeFields(snapshot, timestamp, event);
  }
}
