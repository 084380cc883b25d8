/**
 * Message serialisation (app/core/utils.py): `serialize_message` turns a
 * message into a dictionary and replaces every `datetime` value by its
 * `isoformat()` text, the complete calendar date-time representation of
 * ISO 8601:2004 section 4.3.2 (`YYYY-MM-DDThh:mm:ss`, with `.ffffff` only
 * when the microseconds are not zero; the timestamps here carry no offset).
 */
module Serialize {
  import opened Wrappers
  import opened Text

  /** A naive `datetime.datetime`, field by field. */
  datatype DateTime = DateTime(year: nat, month: nat, day: nat,
                               hour: nat, minute: nat, second: nat, microsecond: nat)

  predicate IsLeapYear(y: nat) { y % 4 == 0 && (y % 100 != 0 || y % 400 == 0) }

  function DaysInMonth(year: nat, month: nat): nat
  {
    if month == 2 then (if IsLeapYear(year) then 29 else 28)
    else if month in {4, 6, 9, 11} then 30
    else 31
  }

  /** The ranges Python's `datetime` constructor enforces. */
  predicate ValidDateTime(dt: DateTime)
  {
    && 1 <= dt.year <= 9999
    && 1 <= dt.month <= 12
    && 1 <= dt.day <= DaysInMonth(dt.year, dt.month)
    && dt.hour < 24 && dt.minute < 60 && dt.second < 60
    && dt.microsecond < 1000000
  }

  type Timestamp = dt: DateTime | ValidDateTime(dt) witness DateTime(1, 1, 1, 0, 0, 0, 0)

  /** `YYYY-MM-DD`. */
  function DatePart(dt: Timestamp): (s: string)
    ensures |s| == 10
  {
    Pad(dt.year, 4) + "-" + Pad(dt.month, 2) + "-" + Pad(dt.day, 2)
  }

  /** `hh:mm:ss`. */
  function TimePart(dt: Timestamp): (s: string)
    ensures |s| == 8
  {
    Pad(dt.hour, 2) + ":" + Pad(dt.minute, 2) + ":" + Pad(dt.second, 2)
  }

  /** The date and time of day, `YYYY-MM-DDThh:mm:ss`. */
  function IsoPrefix(dt: Timestamp): (s: string)
    ensures |s| == 19
  {
    DatePart(dt) + "T" + TimePart(dt)
  }

  /** `datetime.isoformat()` of a naive datetime. */
  function IsoFormat(dt: Timestamp): (s: string)
    ensures |s| == if dt.microsecond == 0 then 19 else 26
  {
    IsoPrefix(dt) + (if dt.microsecond == 0 then "" else "." + Pad(dt.microsecond, 6))
  }

  predicate DigitsAt(s: string, from: nat, to: nat)
  {
    from <= to <= |s| && AllDigits(s[from..to])
  }

  /** Separators and digit fields of the `YYYY-MM-DDThh:mm:ss` layout. */
  predicate DateTimeLayout(s: string)
  {
    && |s| >= 19
    && s[4] == '-' && s[7] == '-' && s[10] == 'T' && s[13] == ':' && s[16] == ':'
    && DigitsAt(s, 0, 4) && DigitsAt(s, 5, 7) && DigitsAt(s, 8, 10)
    && DigitsAt(s, 11, 13) && DigitsAt(s, 14, 16) && DigitsAt(s, 17, 19)
  }

  /** `datetime.fromisoformat` restricted to the two layouts `isoformat()` writes. */
  function ParseIsoFormat(s: string): (r: Option<Timestamp>)
    ensures r.Some? ==> |s| == 19 || |s| == 26
  {
    if && (|s| == 19 || (|s| == 26 && s[19] == '.' && DigitsAt(s, 20, 26)))
       && DateTimeLayout(s)
    then
      var dt := DateTime(DigitsValue(s[0..4]), DigitsValue(s[5..7]), DigitsValue(s[8..10]),
                         DigitsValue(s[11..13]), DigitsValue(s[14..16]), DigitsValue(s[17..19]),
                         if |s| == 19 then 0 else DigitsValue(s[20..26]));
      if ValidDateTime(dt) then Some(dt) else None
    else None
  }

  /** The pieces of `a + [x] + b + [y] + c`, for fields `a` and `b` of widths `wa` and `wb`. */
  lemma ThreeFields(a: string, x: char, b: string, y: char, c: string)
    ensures var s := a + [x] + b + [y] + c;
      && s[..|a|] == a && s[|a|] == x
      && s[|a| + 1..|a| + 1 + |b|] == b && s[|a| + 1 + |b|] == y
      && s[|a| + 2 + |b|..] == c
  {
    var s := a + [x] + b + [y] + c;
    assert s == a + ([x] + (b + ([y] + c)));
    assert s[|a| + 1..] == b + ([y] + c);
    assert s[|a| + 2 + |b|..] == ([y] + c)[1..];
  }

  /** The fields of `YYYY-MM-DD` with their values. */
  lemma DateFields(dt: Timestamp)
    ensures var s := DatePart(dt);
      && s[4] == '-' && s[7] == '-'
      && s[0..4] == Pad(dt.year, 4) && s[5..7] == Pad(dt.month, 2) && s[8..10] == Pad(dt.day, 2)
  {
    ThreeFields(Pad(dt.year, 4), '-', Pad(dt.month, 2), '-', Pad(dt.day, 2));
    assert DatePart(dt) == Pad(dt.year, 4) + ['-'] + Pad(dt.month, 2) + ['-'] + Pad(dt.day, 2);
  }

  /** The fields of `hh:mm:ss` with their values. */
  lemma TimeFields(dt: Timestamp)
    ensures var s := TimePart(dt);
      && s[2] == ':' && s[5] == ':'
      && s[0..2] == Pad(dt.hour, 2) && s[3..5] == Pad(dt.minute, 2) && s[6..8] == Pad(dt.second, 2)
  {
    ThreeFields(Pad(dt.hour, 2), ':', Pad(dt.minute, 2), ':', Pad(dt.second, 2));
    assert TimePart(dt) == Pad(dt.hour, 2) + [':'] + Pad(dt.minute, 2) + [':'] + Pad(dt.second, 2);
  }

  /** A text whose first 19 characters are the prefix of `dt` starts with its date, a `T`, and its time. */
  lemma PrefixSplits(dt: Timestamp, s: string)
    requires |s| >= 19 && s[..19] == IsoPrefix(dt)
    ensures s[..10] == DatePart(dt) && s[10] == 'T' && s[11..19] == TimePart(dt)
  {
    var d, t := DatePart(dt), TimePart(dt);
    assert s[..19] == d + ['T'] + t;
    assert s[..10] == s[..19][..10] == d;
    assert s[11..19] == s[..19][11..] == t;
  }

  /** Field `[i..j]` of `s` lies inside its first `n` characters, so it is the same field of `p`. */
  lemma SliceWithin(s: string, p: string, i: nat, j: nat)
    requires |p| <= |s| && s[..|p|] == p && i <= j <= |p|
    ensures s[i..j] == p[i..j]
  {
    forall k | 0 <= k < j - i ensures s[i..j][k] == p[i..j][k] {
      assert s[..|p|][i + k] == p[i + k];
    }
  }

  /** A field equal to `Pad(n, w)` is digits with value `n`. */
  lemma DigitsField(s: string, i: nat, j: nat, n: nat, w: nat)
    requires i <= j <= |s| && n < Pow10(w) && s[i..j] == Pad(n, w)
    ensures DigitsAt(s, i, j) && DigitsValue(s[i..j]) == n
  {
    PadValue(n, w);
  }

  /** The date half of the layout: separators and the year, month and day values. */
  lemma DateParses(dt: Timestamp, s: string)
    requires |s| >= 10 && s[..10] == DatePart(dt)
    ensures s[4] == '-' && s[7] == '-'
    ensures DigitsAt(s, 0, 4) && DigitsAt(s, 5, 7) && DigitsAt(s, 8, 10)
    ensures DigitsValue(s[0..4]) == dt.year && DigitsValue(s[5..7]) == dt.month && DigitsValue(s[8..10]) == dt.day
  {
    var d := DatePart(dt);
    DateFields(dt);
    SliceWithin(s, d, 0, 4); SliceWithin(s, d, 5, 7); SliceWithin(s, d, 8, 10);
    assert s[4] == d[4] && s[7] == d[7];
    DigitsField(s, 0, 4, dt.year, 4); DigitsField(s, 5, 7, dt.month, 2); DigitsField(s, 8, 10, dt.day, 2);
  }

  /** The time half of the layout, starting at position 11. */
  lemma TimeParses(dt: Timestamp, s: string)
    requires |s| >= 19 && s[11..19] == TimePart(dt)
    ensures s[13] == ':' && s[16] == ':'
    ensures DigitsAt(s, 11, 13) && DigitsAt(s, 14, 16) && DigitsAt(s, 17, 19)
    ensures DigitsValue(s[11..13]) == dt.hour && DigitsValue(s[14..16]) == dt.minute && DigitsValue(s[17..19]) == dt.second
  {
    var t := TimePart(dt);
    TimeFields(dt);
    var u := s[11..];
    assert u[..8] == t;
    SliceWithin(u, t, 0, 2); SliceWithin(u, t, 3, 5); SliceWithin(u, t, 6, 8);
    assert s[11..13] == u[0..2] && s[14..16] == u[3..5] && s[17..19] == u[6..8];
    assert s[13] == t[2] && s[16] == t[5];
    DigitsField(s, 11, 13, dt.hour, 2); DigitsField(s, 14, 16, dt.minute, 2); DigitsField(s, 17, 19, dt.second, 2);
  }

  /** A text that starts with the `isoformat()` prefix of `dt` has its layout and its six field values. */
  lemma PrefixParses(dt: Timestamp, s: string)
    requires |s| >= 19 && s[..19] == IsoPrefix(dt)
    ensures DateTimeLayout(s)
    ensures && DigitsValue(s[0..4]) == dt.year && DigitsValue(s[5..7]) == dt.month
            && DigitsValue(s[8..10]) == dt.day && DigitsValue(s[11..13]) == dt.hour
            && DigitsValue(s[14..16]) == dt.minute && DigitsValue(s[17..19]) == dt.second
  {
    PrefixSplits(dt, s);
    DateParses(dt, s);
    TimeParses(dt, s);
  }

  /** A text with the layout and the field values of `dt` parses to `dt`. */
  lemma ParsesTo(s: string, dt: Timestamp)
    requires DateTimeLayout(s)
    requires && DigitsValue(s[0..4]) == dt.year && DigitsValue(s[5..7]) == dt.month
             && DigitsValue(s[8..10]) == dt.day && DigitsValue(s[11..13]) == dt.hour
             && DigitsValue(s[14..16]) == dt.minute && DigitsValue(s[17..19]) == dt.second
    requires || (|s| == 19 && dt.microsecond == 0)
             || (|s| == 26 && s[19] == '.' && DigitsAt(s, 20, 26) && DigitsValue(s[20..26]) == dt.microsecond)
    ensures ParseIsoFormat(s) == Some(dt)
  {
  }

  /** What `isoformat()` writes after the first 19 characters. */
  lemma IsoFormatParts(dt: Timestamp)
    ensures IsoFormat(dt)[..19] == IsoPrefix(dt)
    ensures dt.microsecond != 0 ==> IsoFormat(dt)[19] == '.' && IsoFormat(dt)[20..26] == Pad(dt.microsecond, 6)
  {
  }

  /** Reading back what `isoformat()` wrote gives the same datetime. */
  lemma IsoFormatRoundTrip(dt: Timestamp)
    ensures ParseIsoFormat(IsoFormat(dt)) == Some(dt)
  {
    var s := IsoFormat(dt);
    IsoFormatParts(dt);
    PrefixParses(dt, s);
    if dt.microsecond != 0 {
      DigitsField(s, 20, 26, dt.microsecond, 6);
    }
    ParsesTo(s, dt);
  }

  /** Distinct datetimes serialise to distinct text. */
  lemma IsoFormatInjective(a: Timestamp, b: Timestamp)
    requires IsoFormat(a) == IsoFormat(b)
    ensures a == b
  {
    IsoFormatRoundTrip(a);
    IsoFormatRoundTrip(b);
  }

  /** The value kinds a message dictionary holds. */
  datatype Value = IntVal(i: int) | StrVal(s: string) | DateTimeVal(dt: Timestamp)

  datatype Entry = Entry(key: string, value: Value)

  /** A Python dict, as its entries in insertion order. */
  type Dict = seq<Entry>

  function KeysOf(d: Dict): (ks: seq<string>)
    ensures |ks| == |d|
    ensures forall i :: 0 <= i < |d| ==> ks[i] == d[i].key
  {
    if d == [] then [] else [d[0].key] + KeysOf(d[1..])
  }

  /** `MessageOut` (app/db/schemas.py): the outbound message record. */
  datatype MessageOut = MessageOut(id: int, chatId: int, senderId: int, content: string, timestamp: Timestamp)

  /** `message.dict()`: the fields of `MessageOut` in declaration order. */
  function MessageDict(m: MessageOut): (d: Dict)
    ensures KeysOf(d) == ["id", "chat_id", "sender_id", "content", "timestamp"]
  {
    [ Entry("id", IntVal(m.id)), Entry("chat_id", IntVal(m.chatId)),
      Entry("sender_id", IntVal(m.senderId)), Entry("content", StrVal(m.content)),
      Entry("timestamp", DateTimeVal(m.timestamp)) ]
  }

  /** What one loop step does to one value: a datetime becomes its text. */
  function SerializeValue(v: Value): Value
  {
    match v
    case DateTimeVal(dt) => StrVal(IsoFormat(dt))
    case _ => v
  }

  /** The dictionary `serialize_message` returns, entry by entry. */
  function Serialized(d: Dict): Dict
  {
    if d == [] then [] else [Entry(d[0].key, SerializeValue(d[0].value))] + Serialized(d[1..])
  }

  lemma {:induction false} SerializedAppend(d: Dict, e: Entry)
    ensures Serialized(d + [e]) == Serialized(d) + [Entry(e.key, SerializeValue(e.value))]
  {
    if d != [] {
      assert (d + [e])[1..] == d[1..] + [e];
      SerializedAppend(d[1..], e);
    }
  }

  /** Each entry keeps its key and position; only a datetime value changes, to its ISO text. */
  lemma {:induction false} SerializedAt(d: Dict, i: nat)
    requires i < |d|
    ensures |Serialized(d)| == |d|
    ensures Serialized(d)[i].key == d[i].key
    ensures d[i].value.DateTimeVal? ==> Serialized(d)[i].value == StrVal(IsoFormat(d[i].value.dt))
    ensures !d[i].value.DateTimeVal? ==> Serialized(d)[i].value == d[i].value
  {
    if i > 0 {
      SerializedAt(d[1..], i - 1);
    } else if |d| > 1 {
      SerializedAt(d[1..], 0);
    }
  }

  /** The key sequence, hence the key set, is exactly that of the input dictionary. */
  lemma {:induction false} SerializedKeys(d: Dict)
    ensures KeysOf(Serialized(d)) == KeysOf(d)
  {
    if d != [] {
      SerializedKeys(d[1..]);
    }
  }

  /** No datetime value survives serialisation. */
  lemma {:induction false} SerializedHasNoDateTime(d: Dict)
    ensures forall i :: 0 <= i < |Serialized(d)| ==> !Serialized(d)[i].value.DateTimeVal?
  {
    if d != [] {
      SerializedHasNoDateTime(d[1..]);
    }
  }

  /** Serialising an already serialised dictionary changes nothing. */
  lemma {:induction false} SerializedIdempotent(d: Dict)
    ensures Serialized(Serialized(d)) == Serialized(d)
  {
    if d != [] {
      SerializedIdempotent(d[1..]);
    }
  }

  /** The serialised record is the outbound frame `{id, chat_id, sender_id, content, timestamp}`. */
  lemma SerializedMessage(m: MessageOut)
    ensures Serialized(MessageDict(m)) ==
      [ Entry("id", IntVal(m.id)), Entry("chat_id", IntVal(m.chatId)),
        Entry("sender_id", IntVal(m.senderId)), Entry("content", StrVal(m.content)),
        Entry("timestamp", StrVal(IsoFormat(m.timestamp))) ]
  {
    var d := MessageDict(m);
    SerializedAt(d, 0); SerializedAt(d, 1); SerializedAt(d, 2);
    SerializedAt(d, 3); SerializedAt(d, 4);
  }

  /** The `for key, value in message_dict.items()` loop, overwriting values in place. */
  method SerializeDict(d: Dict) returns (r: Dict)
    ensures r == Serialized(d)
  {
    r := d;
    for i := 0 to |d|
      invariant |r| == |d|
      invariant r[..i] == Serialized(d[..i])
      invariant r[i..] == d[i..]
    {
      ghost var before := r;
      assert r[i] == d[i];
      if r[i].value.DateTimeVal? {
        r := r[i := Entry(r[i].key, StrVal(IsoFormat(r[i].value.dt)))];
      }
      assert r[i] == Entry(d[i].key, SerializeValue(d[i].value));
      assert r[..i + 1] == before[..i] + [r[i]];
      assert r[i + 1..] == before[i + 1..];
      assert d[..i + 1] == d[..i] + [d[i]];
      SerializedAppend(d[..i], d[i]);
    }
    assert d[..|d|] == d;
  }

  /** `serialize_message(message)`: `message.dict()` with datetimes rewritten. */
  method SerializeMessage(m: MessageOut) returns (r: Dict)
    ensures r == Serialized(MessageDict(m))
    ensures KeysOf(r) == KeysOf(MessageDict(m))
  {
    r := SerializeDict(MessageDict(m));
    SerializedKeys(MessageDict(m));
  }
}
