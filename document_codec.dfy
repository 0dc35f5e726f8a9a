/**
 * The mapping between a message and the Lucene document that stores it
 * (`ConvertMessageToDocument` and the per-hit decoding inside `Search`).
 *
 * A document is an ordered list of fields. Each field has a name, the Lucene field class that
 * made it, a value and a flag saying whether the value is stored. A search hit only sees the
 * stored fields, in the order they were added.
 */
module DocumentCodec {
  import opened Wrappers
  import opened Models

  /** The Lucene field classes the encoder uses. */
  datatype FieldKind = StringField | TextField | Int64Field | NumericDocValuesField

  /** A field value: a string, or a 64-bit integer held as an unbounded `int`. */
  datatype FieldValue = Str(s: string) | Num(n: int)

  datatype Field = Field(name: string, kind: FieldKind, value: FieldValue, stored: bool)

  type Document = seq<Field>

  /** Text shown for a hit whose document carries no stored `Body`. */
  const BodyPlaceholder := "[Body not stored]"

  // ---------------------------------------------------------------------------------------
  // Encoding

  function RecipientFields(recipients: seq<string>): (r: Document)
    ensures |r| == |recipients|
  {
    seq(|recipients|, i requires 0 <= i < |recipients| =>
      Field("Recipient", TextField, Str(recipients[i]), true))
  }

  /**
   * `ConvertMessageToDocument`: an untokenised stored `Id`, stored text `Sender`, `Subject` and
   * `Body`, the ticks once as a stored `Int64Field` and once as an unstored doc-values field,
   * then one stored text `Recipient` per recipient in list order.
   */
  function Encode(m: Message): (d: Document)
    ensures |d| == 6 + |m.recipients|
  {
    [ Field("Id", StringField, Str(m.id), true),
      Field("Sender", TextField, Str(m.sender), true),
      Field("Subject", TextField, Str(m.subject), true),
      Field("Body", TextField, Str(m.body), true),
      Field("TimestampTicks", Int64Field, Num(m.timestamp), true),
      Field("TimestampTicks", NumericDocValuesField, Num(m.timestamp), false) ]
    + RecipientFields(m.recipients)
  }

  // ---------------------------------------------------------------------------------------
  // Reading a document

  /** The value list one field contributes under `name`. */
  function Pick(f: Field, name: string): seq<FieldValue> {
    if f.name == name then [f.value] else []
  }

  /** The stored-field list one field contributes. */
  function Keep(f: Field): Document {
    if f.stored then [f] else []
  }

  /** The fields a searcher hands back for a hit: the stored ones, in order. */
  function Stored(d: Document): (r: Document)
    ensures |r| <= |d|
  {
    if d == [] then []
    else Keep(d[0]) + Stored(d[1..])
  }

  /** The values of the fields called `name`, in document order. */
  function Named(d: Document, name: string): (r: seq<FieldValue>)
    ensures |r| <= |d|
  {
    if d == [] then []
    else Pick(d[0], name) + Named(d[1..], name)
  }

  /** The values `ss` as string field values. */
  function StrValues(ss: seq<string>): (vs: seq<FieldValue>)
    ensures |vs| == |ss|
  {
    seq(|ss|, i requires 0 <= i < |ss| => Str(ss[i]))
  }

  /** The decimal digits of `n`. */
  function Digits(n: nat): (s: string)
    ensures |s| > 0 && '0' <= s[|s| - 1] <= '9'
  {
    var c := ('0' as int + n % 10) as char;
    if n < 10 then [c] else Digits(n / 10) + [c]
  }

  /** `Field.GetStringValue`: a string as it is, a number in decimal. */
  function Text(v: FieldValue): string {
    match v
    case Str(s) => s
    case Num(n) => if n < 0 then "-" + Digits(-n) else Digits(n)
  }

  /** The string values of `vs`, in order. */
  function Strings(vs: seq<FieldValue>): (r: seq<string>)
    ensures |r| == |vs|
  {
    if vs == [] then [] else [Text(vs[0])] + Strings(vs[1..])
  }

  /** The string value of the first of `vs`, if any. */
  function FirstString(vs: seq<FieldValue>): (r: Option<string>)
    ensures r.Some? <==> vs != []
  {
    if vs == [] then None else Some(Text(vs[0]))
  }

  /** `Document.Get(name)`: the first string value under `name`, or null. */
  function Get(d: Document, name: string): Option<string> {
    FirstString(Named(d, name))
  }

  /** `Document.GetFields(name)` mapped through `GetStringValue`. */
  function GetAll(d: Document, name: string): seq<string> {
    Strings(Named(d, name))
  }

  /** `Document.GetField(name)?.GetInt64Value() ?? 0`: the first field's number, else 0. */
  function GetNumber(d: Document, name: string): int {
    var vs := Named(d, name);
    if vs != [] && vs[0].Num? then vs[0].n else 0
  }

  // ---------------------------------------------------------------------------------------
  // Decoding

  /**
   * The per-hit block of `Search`. A tick count above `DateTime.MaxValue.Ticks` makes the
   * `DateTime` constructor throw, which is `None` here; a count of 0 or less reads as
   * `DateTime.MinValue`.
   */
  function Decode(d: Document): (r: Option<DecodedMessage>)
    ensures r.Some? ==> r.value.recipients == GetAll(d, "Recipient")
  {
    var ticks := GetNumber(d, "TimestampTicks");
    if ticks > MaxTicks then None
    else
      Some(DecodedMessage(
        Get(d, "Id"),
        Get(d, "Sender"),
        GetAll(d, "Recipient"),
        Get(d, "Subject"),
        Get(d, "Body").GetOr(BodyPlaceholder),
        if ticks > 0 then ticks else 0))
  }

  /** A `Term("Id", id)` query matches the documents with an untokenised `Id` of exactly `id`. */
  predicate IdMatches(d: Document, id: string) {
    exists i | 0 <= i < |d| :: d[i].name == "Id" && d[i].kind == StringField && d[i].value == Str(id)
  }

  // ---------------------------------------------------------------------------------------
  // Lemmas about the reading helpers

  lemma NamedCons(f: Field, d: Document, name: string)
    ensures Named([f] + d, name) == Pick(f, name) + Named(d, name)
  {
    assert ([f] + d)[1..] == d;
  }

  lemma StoredCons(f: Field, d: Document)
    ensures Stored([f] + d) == Keep(f) + Stored(d)
  {
    assert ([f] + d)[1..] == d;
  }

  lemma SeqAssoc<T>(x: seq<T>, y: seq<T>, z: seq<T>)
    ensures x + (y + z) == (x + y) + z
  {
  }

  lemma {:induction false} NamedConcat(a: Document, b: Document, name: string)
    ensures Named(a + b, name) == Named(a, name) + Named(b, name)
    decreases |a|
  {
    if a == [] {
      assert a + b == b;
    } else {
      var f, tail := a[0], a[1..];
      assert a == [f] + tail;
      assert a + b == [f] + (tail + b);
      NamedCons(f, tail + b, name);
      NamedCons(f, tail, name);
      NamedConcat(tail, b, name);
      SeqAssoc(Pick(f, name), Named(tail, name), Named(b, name));
    }
  }

  lemma {:induction false} StoredConcat(a: Document, b: Document)
    ensures Stored(a + b) == Stored(a) + Stored(b)
    decreases |a|
  {
    if a == [] {
      assert a + b == b;
    } else {
      var f, tail := a[0], a[1..];
      assert a == [f] + tail;
      assert a + b == [f] + (tail + b);
      StoredCons(f, tail + b);
      StoredCons(f, tail);
      StoredConcat(tail, b);
      SeqAssoc(Keep(f), Stored(tail), Stored(b));
    }
  }

  lemma {:induction false} NamedMissing(d: Document, name: string)
    requires forall i | 0 <= i < |d| :: d[i].name != name
    ensures Named(d, name) == []
    decreases |d|
  {
    if d != [] {
      assert d[0].name != name;
      NamedMissing(d[1..], name);
    }
  }

  lemma {:induction false} StringsOfStrings(ss: seq<string>)
    ensures Strings(StrValues(ss)) == ss
    decreases |ss|
  {
    var vs := StrValues(ss);
    if ss != [] {
      assert vs[1..] == StrValues(ss[1..]);
      StringsOfStrings(ss[1..]);
      assert [ss[0]] + ss[1..] == ss;
    }
  }

  lemma {:induction false} RecipientFieldsShape(rs: seq<string>)
    ensures Named(RecipientFields(rs), "Recipient") == StrValues(rs)
    ensures forall other: string | other != "Recipient" :: Named(RecipientFields(rs), other) == []
    ensures Stored(RecipientFields(rs)) == RecipientFields(rs)
    decreases |rs|
  {
    var d := RecipientFields(rs);
    if rs != [] {
      assert d[1..] == RecipientFields(rs[1..]);
      RecipientFieldsShape(rs[1..]);
      var vs := StrValues(rs);
      assert vs == [Str(rs[0])] + StrValues(rs[1..]);
      assert [d[0]] + d[1..] == d;
    }
  }

  // ---------------------------------------------------------------------------------------
  // What the encoder emits

  /** Reading six leading fields one at a time. */
  lemma NamedOfSix(h: Document, rest: Document, name: string)
    requires |h| == 6
    ensures Named(h + rest, name)
         == Pick(h[0], name) + (Pick(h[1], name) + (Pick(h[2], name) + (Pick(h[3], name)
            + (Pick(h[4], name) + (Pick(h[5], name) + Named(rest, name))))))
  {
    var d5 := [h[5]] + rest;
    var d4 := [h[4]] + d5;
    var d3 := [h[3]] + d4;
    var d2 := [h[2]] + d3;
    var d1 := [h[1]] + d2;
    assert h + rest == [h[0]] + d1;
    NamedCons(h[0], d1, name);
    NamedCons(h[1], d2, name);
    NamedCons(h[2], d3, name);
    NamedCons(h[3], d4, name);
    NamedCons(h[4], d5, name);
    NamedCons(h[5], rest, name);
  }

  lemma NamedOfFive(h: Document, rest: Document, name: string)
    requires |h| == 5
    ensures Named(h + rest, name)
         == Pick(h[0], name) + (Pick(h[1], name) + (Pick(h[2], name) + (Pick(h[3], name)
            + (Pick(h[4], name) + Named(rest, name)))))
  {
    var d4 := [h[4]] + rest;
    var d3 := [h[3]] + d4;
    var d2 := [h[2]] + d3;
    var d1 := [h[1]] + d2;
    assert h + rest == [h[0]] + d1;
    NamedCons(h[0], d1, name);
    NamedCons(h[1], d2, name);
    NamedCons(h[2], d3, name);
    NamedCons(h[3], d4, name);
    NamedCons(h[4], rest, name);
  }

  lemma StoredOfSix(h: Document, rest: Document)
    requires |h| == 6
    ensures Stored(h + rest)
         == Keep(h[0]) + (Keep(h[1]) + (Keep(h[2]) + (Keep(h[3])
            + (Keep(h[4]) + (Keep(h[5]) + Stored(rest))))))
  {
    var d5 := [h[5]] + rest;
    var d4 := [h[4]] + d5;
    var d3 := [h[3]] + d4;
    var d2 := [h[2]] + d3;
    var d1 := [h[1]] + d2;
    assert h + rest == [h[0]] + d1;
    StoredCons(h[0], d1);
    StoredCons(h[1], d2);
    StoredCons(h[2], d3);
    StoredCons(h[3], d4);
    StoredCons(h[4], d5);
    StoredCons(h[5], rest);
  }

  /** The six fields an encoding starts with, before the recipients. */
  function Header(m: Message): (h: Document)
    ensures |h| == 6
  {
    Encode(m)[..6]
  }

  lemma EncodeSplits(m: Message)
    ensures Encode(m) == Header(m) + RecipientFields(m.recipients)
  {
  }

  /**
   * Encoding emits exactly one `Id`, `Sender`, `Subject` and `Body` value, the ticks twice
   * (stored and doc-values), and one `Recipient` value per recipient in list order.
   */
  lemma EncodeEmitsFields(m: Message)
    ensures Named(Encode(m), "Id") == [Str(m.id)]
    ensures Named(Encode(m), "Sender") == [Str(m.sender)]
    ensures Named(Encode(m), "Subject") == [Str(m.subject)]
    ensures Named(Encode(m), "Body") == [Str(m.body)]
    ensures Named(Encode(m), "TimestampTicks") == [Num(m.timestamp), Num(m.timestamp)]
    ensures Named(Encode(m), "Recipient")
         == StrValues(m.recipients)
  {
    var h, rf := Header(m), RecipientFields(m.recipients);
    EncodeSplits(m);
    RecipientFieldsShape(m.recipients);
    NamedOfSix(h, rf, "Id");
    NamedOfSix(h, rf, "Sender");
    NamedOfSix(h, rf, "Subject");
    NamedOfSix(h, rf, "Body");
    NamedOfSix(h, rf, "TimestampTicks");
    NamedOfSix(h, rf, "Recipient");
  }

  /** What a hit sees of an encoding: everything except the doc-values copy of the ticks. */
  lemma StoredEncoding(m: Message)
    ensures Stored(Encode(m)) == Header(m)[..5] + RecipientFields(m.recipients)
  {
    var h, rf := Header(m), RecipientFields(m.recipients);
    EncodeSplits(m);
    RecipientFieldsShape(m.recipients);
    StoredOfSix(h, rf);
    assert Header(m)[..5] + rf == [h[0]] + ([h[1]] + ([h[2]] + ([h[3]] + ([h[4]] + ([] + rf))))); 
  }

  /** The stored fields of an encoding carry the encoding's values, less one copy of the ticks. */
  lemma StoredEmitsFields(m: Message)
    ensures Named(Stored(Encode(m)), "Id") == [Str(m.id)]
    ensures Named(Stored(Encode(m)), "Sender") == [Str(m.sender)]
    ensures Named(Stored(Encode(m)), "Subject") == [Str(m.subject)]
    ensures Named(Stored(Encode(m)), "Body") == [Str(m.body)]
    ensures Named(Stored(Encode(m)), "TimestampTicks") == [Num(m.timestamp)]
    ensures Named(Stored(Encode(m)), "Recipient")
         == StrValues(m.recipients)
  {
    var h, rf := Header(m)[..5], RecipientFields(m.recipients);
    StoredEncoding(m);
    RecipientFieldsShape(m.recipients);
    NamedOfFive(h, rf, "Id");
    NamedOfFive(h, rf, "Sender");
    NamedOfFive(h, rf, "Subject");
    NamedOfFive(h, rf, "Body");
    NamedOfFive(h, rf, "TimestampTicks");
    NamedOfFive(h, rf, "Recipient");
  }

  /** Round trip: a hit decoded from an encoded message gives back every field of the message. */
  lemma DecodeEncode(m: Message)
    ensures Decode(Stored(Encode(m)))
         == Some(DecodedMessage(Some(m.id), Some(m.sender), m.recipients, Some(m.subject), m.body, m.timestamp))
  {
    var d := Stored(Encode(m));
    StoredEmitsFields(m);
    StringsOfStrings(m.recipients);
    assert Get(d, "Id") == Some(m.id);
    assert Get(d, "Sender") == Some(m.sender);
    assert Get(d, "Subject") == Some(m.subject);
    assert Get(d, "Body") == Some(m.body);
    assert GetNumber(d, "TimestampTicks") == m.timestamp;
    assert GetAll(d, "Recipient") == m.recipients;
    assert Get(d, "Body").GetOr(BodyPlaceholder) == m.body;
  }

  /** A term query on `Id` selects an encoded message exactly when the ids agree. */
  lemma EncodeIdMatches(m: Message, id: string)
    ensures IdMatches(Encode(m), id) <==> id == m.id
  {
    var d := Encode(m);
    if IdMatches(d, id) {
      var i :| 0 <= i < |d| && d[i].name == "Id" && d[i].kind == StringField && d[i].value == Str(id);
      assert i == 0;
    }
    assert d[0].name == "Id" && d[0].kind == StringField && d[0].value == Str(m.id);
  }

  // ---------------------------------------------------------------------------------------
  // Decoding defaults

  /** A document without `Recipient` fields decodes to an empty recipient list. */
  lemma DecodeWithoutRecipients(d: Document)
    requires forall i | 0 <= i < |d| :: d[i].name != "Recipient"
    ensures Decode(d).Some? ==> Decode(d).value.recipients == []
  {
    NamedMissing(d, "Recipient");
  }

  /**
   * A document whose `TimestampTicks` fields are missing, or whose first one holds a count of 0
   * or less, decodes with the timestamp `DateTime.MinValue`.
   */
  lemma DecodeWithoutTimestamp(d: Document)
    requires forall i | 0 <= i < |d| :: d[i].name == "TimestampTicks" ==>
      (forall j | 0 <= j < i :: d[j].name != "TimestampTicks") ==> d[i].value.Num? ==> d[i].value.n <= 0
    ensures Decode(d).Some? && Decode(d).value.timestamp == 0
  {
    FirstNumberNonPositive(d, "TimestampTicks");
  }

  lemma {:induction false} FirstNumberNonPositive(d: Document, name: string)
    requires forall i | 0 <= i < |d| :: d[i].name == name ==>
      (forall j | 0 <= j < i :: d[j].name != name) ==> d[i].value.Num? ==> d[i].value.n <= 0
    ensures GetNumber(d, name) <= 0
    decreases |d|
  {
    if d != [] && d[0].name != name {
      forall i | 0 <= i < |d[1..]| && d[1..][i].name == name
        && (forall j | 0 <= j < i :: d[1..][j].name != name)
        ensures d[1..][i].value.Num? ==> d[1..][i].value.n <= 0
      {
        assert d[1..][i] == d[i + 1];
        forall j | 0 <= j < i + 1 ensures d[j].name != name {
          if j > 0 {
            assert d[j] == d[1..][j - 1];
          }
        }
      }
      FirstNumberNonPositive(d[1..], name);
    }
  }

  /** The first `TimestampTicks` number is the decoded timestamp when it is a valid positive count. */
  lemma DecodeKeepsTimestamp(d: Document, n: int)
    requires Named(d, "TimestampTicks") != [] && Named(d, "TimestampTicks")[0] == Num(n)
    requires 0 < n <= MaxTicks
    ensures Decode(d).Some? && Decode(d).value.timestamp == n
  {
  }

  /** A first `TimestampTicks` number beyond `DateTime.MaxValue.Ticks` makes decoding fail. */
  lemma DecodeRejectsTimestamp(d: Document, n: int)
    requires Named(d, "TimestampTicks") != [] && Named(d, "TimestampTicks")[0] == Num(n)
    requires n > MaxTicks
    ensures Decode(d).None?
  {
  }

  /** A document without a `Body` field decodes with the placeholder body. */
  lemma DecodeWithoutBody(d: Document)
    requires forall i | 0 <= i < |d| :: d[i].name != "Body"
    ensures Decode(d).Some? ==> Decode(d).value.body == BodyPlaceholder
  {
    NamedMissing(d, "Body");
  }

  /** A `Body` stored as a number decodes as that number's decimal text, not as the placeholder. */
  lemma DecodeNumericBody(d: Document, n: int)
    requires Named(d, "Body") != [] && Named(d, "Body")[0] == Num(n)
    ensures Decode(d).Some? ==> Decode(d).value.body == Text(Num(n)) != BodyPlaceholder
  {
    var t := Text(Num(n));
    assert '0' <= t[|t| - 1] <= '9';
    assert BodyPlaceholder[|BodyPlaceholder| - 1] == ']';
  }
}
