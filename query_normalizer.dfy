/**
 * The query field-name normaliser (`PreprocessQueryString` and the table of canonical
 * field names in backend/Services/SearchService.cs).
 *
 * The source rewrites the query with the case-insensitive pattern
 * `(?<=^|\s)(\b[a-zA-Z_][a-zA-Z0-9_]*\b)\s*:`. A match starts at the start of the query
 * or right after a whitespace character, takes the longest identifier there (the trailing
 * `\b` leaves no shorter choice, since `\s*:` must follow), then optional whitespace and a
 * colon. A match whose identifier is a known field name, compared ignoring case, becomes the
 * canonical name followed by `:`; any other match is kept as it is. Matches do not overlap
 * and are found from left to right.
 *
 * Here that rewrite is an explicit left-to-right scan, `Scan`, whose `boundary` flag says
 * whether the current position is the start of the query or follows whitespace.
 */
module QueryNormalizer {
  import opened Wrappers

  /** The whitespace characters `\s` accepts, restricted to ASCII. */
  predicate IsSpace(c: char) {
    c == ' ' || c == '\t' || c == '\n' || c == '\r' || c == '\U{000B}' || c == '\U{000C}'
  }

  /** `[a-zA-Z_]`: a character that may start a field identifier. */
  predicate IsIdentStart(c: char) {
    'A' <= c <= 'Z' || 'a' <= c <= 'z' || c == '_'
  }

  /** `[a-zA-Z0-9_]`: a character that may continue a field identifier. */
  predicate IsIdentChar(c: char) {
    IsIdentStart(c) || '0' <= c <= '9'
  }

  predicate IsIdentifier(s: string) {
    |s| > 0 && IsIdentStart(s[0]) && forall i | 0 <= i < |s| :: IsIdentChar(s[i])
  }

  function AsciiLower(c: char): char {
    if 'A' <= c <= 'Z' then (c as int + 32) as char else c
  }

  /** The key under which an (ASCII) identifier is looked up ignoring case. */
  function Fold(s: string): string {
    seq(|s|, i requires 0 <= i < |s| => AsciiLower(s[i]))
  }

  /** The canonical field names, keyed by their case-folded spelling. */
  const CanonicalFieldNames: map<string, string> :=
    map["sender" := "Sender", "recipient" := "Recipient", "subject" := "Subject",
        "body" := "Body", "id" := "Id"]

  /** Case-insensitive lookup in the table of canonical field names. */
  function CanonicalField(name: string): Option<string> {
    var key := Fold(name);
    if key in CanonicalFieldNames then Some(CanonicalFieldNames[key]) else None
  }

  /** Length of the identifier run at the head of `s`. */
  function IdentRun(s: string): (n: nat)
    ensures n <= |s|
    ensures n < |s| ==> !IsIdentChar(s[n])
  {
    if s != [] && IsIdentChar(s[0]) then 1 + IdentRun(s[1..]) else 0
  }

  /** Length of the whitespace run at the head of `s`. */
  function SpaceRun(s: string): (n: nat)
    ensures n <= |s|
    ensures n < |s| ==> !IsSpace(s[n])
  {
    if s != [] && IsSpace(s[0]) then 1 + SpaceRun(s[1..]) else 0
  }

  /** A field token at the head of a string: `identLen` identifier characters, then up to `len` the gap and the colon. */
  datatype FieldToken = FieldToken(identLen: nat, len: nat)

  /** The field token `identifier whitespace* :` at the head of `s`, if there is one. */
  function TokenAt(s: string): (t: Option<FieldToken>)
    ensures t.Some? ==> 0 < t.value.identLen < t.value.len <= |s|
    ensures t.Some? ==> s[t.value.len - 1] == ':'
  {
    if s == [] || !IsIdentStart(s[0]) then None
    else
      var e := IdentRun(s);
      var w := e + SpaceRun(s[e..]);
      if w < |s| && s[w] == ':' then Some(FieldToken(e, w + 1)) else None
  }

  /** The text that replaces a matched token whose identifier is `ident`. */
  function RewriteToken(ident: string, token: string): string {
    match CanonicalField(ident)
    case Some(name) => name + ":"
    case None => token
  }

  /** The rewrite of `s`, where `boundary` says whether `s` starts the query or follows whitespace. */
  function Scan(s: string, boundary: bool): string
    decreases |s|
  {
    if s == [] then []
    else if boundary && TokenAt(s).Some? then
      var t := TokenAt(s).value;
      RewriteToken(s[..t.identLen], s[..t.len]) + Scan(s[t.len..], false)
    else
      [s[0]] + Scan(s[1..], IsSpace(s[0]))
  }

  /** `PreprocessQueryString`. */
  function Normalize(query: string): string {
    Scan(query, true)
  }

  // ---------------------------------------------------------------------------------------
  // Where the source's pattern can match, stated without the scan

  /** Position `i` of `s` starts the query (when `boundary`) or follows whitespace. */
  ghost predicate Candidate(s: string, i: int, boundary: bool) {
    0 <= i < |s| && (if i == 0 then boundary else IsSpace(s[i - 1]))
  }

  /** `u` starts with a field token whose identifier is in the table. */
  ghost predicate HitToken(u: string) {
    TokenAt(u).Some? && CanonicalField(u[..TokenAt(u).value.identLen]).Some?
  }

  /** The pattern matches at `i` and its identifier is a known field name. */
  ghost predicate TableHitAt(s: string, i: int, boundary: bool) {
    Candidate(s, i, boundary) && HitToken(s[i..])
  }

  // ---------------------------------------------------------------------------------------
  // Lemmas

  /** The table maps each key to a canonical name that folds back to the key. */
  lemma CanonicalFieldKeepsSpelling(name: string)
    requires CanonicalField(name).Some?
    ensures Fold(CanonicalField(name).value) == Fold(name)
    ensures IsIdentifier(CanonicalField(name).value)
    ensures CanonicalField(CanonicalField(name).value) == CanonicalField(name)
  {
    var key := Fold(name);
    if key == "sender" {
      assert Fold("Sender") == "sender";
    } else if key == "recipient" {
      assert Fold("Recipient") == "recipient";
    } else if key == "subject" {
      assert Fold("Subject") == "subject";
    } else if key == "body" {
      assert Fold("Body") == "body";
    } else {
      assert key == "id";
      assert Fold("Id") == "id";
    }
  }

  lemma {:induction false} IdentRunConcat(a: string, y: string)
    ensures IdentRun(a + y) == if IdentRun(a) < |a| then IdentRun(a) else |a| + IdentRun(y)
    decreases |a|
  {
    if a == [] {
      assert a + y == y;
    } else {
      assert (a + y)[0] == a[0];
      if IsIdentChar(a[0]) {
        assert (a + y)[1..] == a[1..] + y;
        IdentRunConcat(a[1..], y);
      }
    }
  }

  lemma {:induction false} SpaceRunConcat(a: string, y: string)
    ensures SpaceRun(a + y) == if SpaceRun(a) < |a| then SpaceRun(a) else |a| + SpaceRun(y)
    decreases |a|
  {
    if a == [] {
      assert a + y == y;
    } else {
      assert (a + y)[0] == a[0];
      if IsSpace(a[0]) {
        assert (a + y)[1..] == a[1..] + y;
        SpaceRunConcat(a[1..], y);
      }
    }
  }

  lemma {:induction false} IdentRunOfIdentifier(a: string)
    requires forall i | 0 <= i < |a| :: IsIdentChar(a[i])
    ensures IdentRun(a) == |a|
    decreases |a|
  {
    if a != [] {
      IdentRunOfIdentifier(a[1..]);
    }
  }

  lemma {:induction false} SpaceRunOfSpaces(a: string)
    requires forall i | 0 <= i < |a| :: IsSpace(a[i])
    ensures SpaceRun(a) == |a|
    decreases |a|
  {
    if a != [] {
      SpaceRunOfSpaces(a[1..]);
    }
  }

  /** The identifier run at the head of `s` stops at the first non-identifier character. */
  lemma {:induction false} IdentRunStopsAt(s: string, k: nat)
    requires k < |s| && !IsIdentChar(s[k])
    ensures IdentRun(s) <= k
    decreases k
  {
    if k > 0 && IsIdentChar(s[0]) {
      IdentRunStopsAt(s[1..], k - 1);
    }
  }

  /** A token found in `s` is found, unchanged, in any extension of `s`. */
  lemma TokenAtExtends(s: string, x: string)
    requires TokenAt(s).Some?
    ensures TokenAt(s + x) == TokenAt(s)
  {
    var e := IdentRun(s);
    IdentRunConcat(s, x);
    assert (s + x)[e..] == s[e..] + x;
    SpaceRunConcat(s[e..], x);
  }

  /**
   * No token starts a string that ends with whitespace, and none appears when the string is
   * followed by a character that is neither whitespace nor a colon.
   */
  lemma TokenAtStaysAbsent(s: string, x: string)
    requires |s| > 0 && IsSpace(s[|s| - 1])
    requires x == [] || (!IsSpace(x[0]) && x[0] != ':')
    requires TokenAt(s).None?
    ensures TokenAt(s + x).None?
  {
    var sx := s + x;
    assert sx[0] == s[0];
    if IsIdentStart(s[0]) {
      var e := IdentRun(s);
      assert e < |s| by {
        IdentRunStopsAt(s, |s| - 1);
      }
      IdentRunConcat(s, x);
      assert IdentRun(sx) == e;
      assert sx[e..] == s[e..] + x;
      SpaceRunConcat(s[e..], x);
      var w := e + SpaceRun(s[e..]);
      if w < |s| {
        assert SpaceRun(sx[e..]) == SpaceRun(s[e..]);
        assert sx[w] == s[w] != ':';
      } else {
        assert SpaceRun(x) == 0;
        assert SpaceRun(sx[e..]) == |s| - e;
        assert w == |s|;
        assert w < |sx| ==> sx[w] == x[0];
      }
    }
  }

  /** The field token `ident gap :` at the head of a string is recognised with its exact extent. */
  lemma TokenAtFieldToken(ident: string, gap: string, rest: string)
    requires IsIdentifier(ident)
    requires forall i | 0 <= i < |gap| :: IsSpace(gap[i])
    ensures TokenAt(ident + gap + ":" + rest) == Some(FieldToken(|ident|, |ident| + |gap| + 1))
  {
    var y := gap + (":" + rest);
    var s := ident + y;
    RegroupToken(ident, gap, rest);
    IdentRunOfToken(ident, y);
    SpaceRunOfGap(gap, rest);
    assert s[|ident|..] == y;
    assert s[|ident| + |gap|] == ':';
    assert s[0] == ident[0];
  }

  lemma RegroupToken(ident: string, gap: string, rest: string)
    ensures ident + gap + ":" + rest == ident + (gap + (":" + rest))
  {
  }

  lemma IdentRunOfToken(ident: string, y: string)
    requires IsIdentifier(ident)
    requires |y| > 0 && !IsIdentChar(y[0])
    ensures IdentRun(ident + y) == |ident|
  {
    IdentRunOfIdentifier(ident);
    IdentRunConcat(ident, y);
  }

  lemma SpaceRunOfGap(gap: string, rest: string)
    requires forall i | 0 <= i < |gap| :: IsSpace(gap[i])
    ensures SpaceRun(gap + (":" + rest)) == |gap|
  {
    SpaceRunOfSpaces(gap);
    SpaceRunConcat(gap, ":" + rest);
  }

  /** Scanning a field token at a boundary rewrites it and goes on after its colon. */
  lemma ScanFieldToken(ident: string, gap: string, rest: string)
    requires IsIdentifier(ident)
    requires forall i | 0 <= i < |gap| :: IsSpace(gap[i])
    ensures Scan(ident + gap + ":" + rest, true)
         == RewriteToken(ident, ident + gap + ":") + Scan(rest, false)
  {
    var s := ident + gap + ":" + rest;
    TokenAtFieldToken(ident, gap, rest);
    var len := |ident| + |gap| + 1;
    assert s[..|ident|] == ident;
    assert s[..len] == ident + gap + ":";
    assert s[len..] == rest;
  }

  lemma ConcatAssoc(a: string, b: string, c: string)
    ensures a + (b + c) == (a + b) + c
  {
  }

  /** One step of the scan over a field token. */
  lemma ScanStepToken(s: string, boundary: bool)
    requires boundary && TokenAt(s).Some?
    ensures Scan(s, boundary)
         == RewriteToken(s[..TokenAt(s).value.identLen], s[..TokenAt(s).value.len])
            + Scan(s[TokenAt(s).value.len..], false)
  {
  }

  /** One step of the scan over a character that does not start a field token. */
  lemma ScanStepChar(s: string, boundary: bool)
    requires s != [] && !(boundary && TokenAt(s).Some?)
    ensures Scan(s, boundary) == [s[0]] + Scan(s[1..], IsSpace(s[0]))
  {
  }

  /**
   * Scanning splits after whitespace: no token reaches across the end of a prefix that ends
   * with whitespace when what follows is neither whitespace nor a colon.
   */
  lemma {:induction false} ScanSplitAfterSpace(pre: string, x: string, boundary: bool)
    requires |pre| > 0 && IsSpace(pre[|pre| - 1])
    requires x == [] || (!IsSpace(x[0]) && x[0] != ':')
    ensures Scan(pre + x, boundary) == Scan(pre, boundary) + Scan(x, true)
    decreases |pre|, 1
  {
    if boundary && TokenAt(pre).Some? {
      ScanSplitToken(pre, x);
    } else if |pre| == 1 {
      ScanSplitLastChar(pre, x, boundary);
    } else {
      ScanSplitChar(pre, x, boundary);
    }
  }

  lemma ScanSplitToken(pre: string, x: string)
    requires |pre| > 0 && IsSpace(pre[|pre| - 1])
    requires x == [] || (!IsSpace(x[0]) && x[0] != ':')
    requires TokenAt(pre).Some?
    ensures Scan(pre + x, true) == Scan(pre, true) + Scan(x, true)
    decreases |pre|, 0
  {
    var t := TokenAt(pre).value;
    var head := RewriteToken(pre[..t.identLen], pre[..t.len]);
    var mid, tail := Scan(pre[t.len..], false), Scan(x, true);
    ScanTokenLeavesSuffix(pre, x);
    assert Scan(pre, true) == head + mid by {
      ScanStepToken(pre, true);
    }
    assert Scan(pre[t.len..] + x, false) == mid + tail by {
      ScanSplitAfterSpace(pre[t.len..], x, false);
    }
    ConcatAssoc(head, mid, tail);
  }

  /** A field token found in `pre` is found unchanged in `pre + x`, and it ends inside `pre`. */
  lemma ScanTokenLeavesSuffix(pre: string, x: string)
    requires |pre| > 0 && IsSpace(pre[|pre| - 1])
    requires TokenAt(pre).Some?
    ensures TokenAt(pre).value.len < |pre|
    ensures Scan(pre + x, true)
         == RewriteToken(pre[..TokenAt(pre).value.identLen], pre[..TokenAt(pre).value.len])
            + Scan(pre[TokenAt(pre).value.len..] + x, false)
  {
    var t := TokenAt(pre).value;
    var s := pre + x;
    assert t.len < |pre| by {
      assert pre[t.len - 1] == ':';
    }
    TokenAtExtends(pre, x);
    assert s[..t.identLen] == pre[..t.identLen];
    assert s[..t.len] == pre[..t.len];
    assert s[t.len..] == pre[t.len..] + x;
    ScanStepToken(s, true);
  }

  lemma ScanSplitLastChar(pre: string, x: string, boundary: bool)
    requires |pre| == 1 && IsSpace(pre[0])
    requires x == [] || (!IsSpace(x[0]) && x[0] != ':')
    ensures Scan(pre + x, boundary) == Scan(pre, boundary) + Scan(x, true)
  {
    var s := pre + x;
    assert TokenAt(s).None? && TokenAt(pre).None? by {
      assert s[0] == pre[0];
    }
    ScanStepChar(pre, boundary);
    ScanStepChar(s, boundary);
    assert pre[1..] == [];
    assert s[1..] == x;
    assert [pre[0]] + [] == pre;
  }

  lemma ScanSplitChar(pre: string, x: string, boundary: bool)
    requires |pre| > 1 && IsSpace(pre[|pre| - 1])
    requires x == [] || (!IsSpace(x[0]) && x[0] != ':')
    requires !(boundary && TokenAt(pre).Some?)
    ensures Scan(pre + x, boundary) == Scan(pre, boundary) + Scan(x, true)
    decreases |pre|, 0
  {
    var s := pre + x;
    if boundary {
      TokenAtStaysAbsent(pre, x);
    }
    assert s[0] == pre[0];
    ScanStepChar(pre, boundary);
    ScanStepChar(s, boundary);
    assert s[1..] == pre[1..] + x;
    ScanSplitAfterSpace(pre[1..], x, IsSpace(pre[0]));
    var mid, tail := Scan(pre[1..], IsSpace(pre[0])), Scan(x, true);
    ConcatAssoc([pre[0]], mid, tail);
  }

  /** When no position holds a field token from the table, the scan returns its input. */
  lemma {:induction false} ScanWithoutTableHit(s: string, boundary: bool)
    requires forall i | 0 <= i < |s| :: !TableHitAt(s, i, boundary)
    ensures Scan(s, boundary) == s
    decreases |s|
  {
    if s == [] {
    } else if boundary && TokenAt(s).Some? {
      var t := TokenAt(s).value;
      assert s[0..] == s;
      assert !TableHitAt(s, 0, boundary);
      var rest := s[t.len..];
      forall i | 0 <= i < |rest|
        ensures !TableHitAt(rest, i, false)
      {
        assert !TableHitAt(s, i + t.len, boundary);
        assert rest[i..] == s[i + t.len..];
      }
      ScanWithoutTableHit(rest, false);
      assert s[..t.len] + rest == s;
    } else {
      var rest := s[1..];
      forall i | 0 <= i < |rest|
        ensures !TableHitAt(rest, i, IsSpace(s[0]))
      {
        assert !TableHitAt(s, i + 1, boundary);
        assert rest[i..] == s[i + 1..];
      }
      ScanWithoutTableHit(rest, IsSpace(s[0]));
      assert [s[0]] + rest == s;
    }
  }

  /** Every field token contains a colon. */
  lemma TokenHasColon(u: string)
    ensures TokenAt(u).Some? ==> ':' in u
  {
    if TokenAt(u).Some? {
      assert u[TokenAt(u).value.len - 1] == ':';
    }
  }

  // ---------------------------------------------------------------------------------------
  // The properties of `Normalize`

  /** A query in which no field token names a known field comes back unchanged. */
  lemma NormalizeWithoutTableHit(query: string)
    requires forall i | 0 <= i < |query| :: !TableHitAt(query, i, true)
    ensures Normalize(query) == query
  {
    ScanWithoutTableHit(query, true);
  }

  /** A query without a colon comes back unchanged. */
  lemma ScanWithoutColon(s: string, boundary: bool)
    requires ':' !in s
    ensures Scan(s, boundary) == s
  {
    forall i | 0 <= i < |s|
      ensures !TableHitAt(s, i, boundary)
    {
      TokenHasColon(s[i..]);
    }
    ScanWithoutTableHit(s, boundary);
  }

  lemma NormalizeWithoutColon(query: string)
    requires ':' !in query
    ensures Normalize(query) == query
  {
    ScanWithoutColon(query, true);
  }

  /**
   * Text that contains no whitespace and does not start the query is never rewritten: an
   * identifier glued to what precedes it (the `sender` of `x:sender:y`) is not a field token.
   */
  lemma ScanWithoutBoundary(s: string)
    requires forall i | 0 <= i < |s| :: !IsSpace(s[i])
    ensures Scan(s, false) == s
  {
    forall i | 0 <= i < |s|
      ensures !TableHitAt(s, i, false)
    {
    }
    ScanWithoutTableHit(s, false);
  }

  /**
   * A field token at the start of the query or after whitespace is replaced by the canonical
   * field name and a colon (the whitespace before the colon is dropped) when its identifier
   * is in the table, and kept as it is otherwise; the text before it is normalised on its
   * own and the text after its colon is scanned as text that does not follow whitespace.
   */
  lemma NormalizeRewritesFieldToken(pre: string, ident: string, gap: string, rest: string)
    requires pre == [] || IsSpace(pre[|pre| - 1])
    requires IsIdentifier(ident)
    requires forall i | 0 <= i < |gap| :: IsSpace(gap[i])
    ensures CanonicalField(ident).Some? ==>
      Normalize(pre + ident + gap + ":" + rest)
        == Normalize(pre) + (CanonicalField(ident).value + ":") + Scan(rest, false)
    ensures CanonicalField(ident).None? ==>
      Normalize(pre + ident + gap + ":" + rest)
        == Normalize(pre) + (ident + gap + ":") + Scan(rest, false)
  {
    var x := ident + gap + ":" + rest;
    var head, tail := RewriteToken(ident, ident + gap + ":"), Scan(rest, false);
    RegroupField(pre, ident, gap, rest);
    assert Scan(x, true) == head + tail by {
      ScanFieldToken(ident, gap, rest);
    }
    assert Normalize(pre + x) == Normalize(pre) + (head + tail) by {
      if pre == [] {
        assert pre + x == x;
      } else {
        assert x[0] == ident[0];
        ScanSplitAfterSpace(pre, x, true);
      }
    }
    ConcatAssoc(Normalize(pre), head, tail);
  }

  lemma RegroupField(pre: string, ident: string, gap: string, rest: string)
    ensures pre + ident + gap + ":" + rest == pre + (ident + gap + ":" + rest)
  {
  }

  // ---------------------------------------------------------------------------------------
  // Worked examples

  lemma NormalizeExampleTwoFields()
    ensures Normalize("sender:alice AND subject:kickoff") == "Sender:alice AND Subject:kickoff"
  {
    LiteralTwoFields();
    LiteralTwoFieldsResult();
    LowerCaseFieldNames();
    var middle, last := "alice AND ", "kickoff";
    var second := "subject" + "" + ":" + last;
    var rest := middle + second;
    assert Scan(second, true) == "Subject" + ":" + last by {
      ScanFieldToken("subject", "", last);
      ScanWithoutColon(last, false);
    }
    assert Scan(rest, false) == middle + Scan(second, true) by {
      ScanWithoutColon(middle, false);
      ScanSplitAfterSpace(middle, second, false);
    }
    assert Normalize("sender" + "" + ":" + rest) == "Sender" + ":" + Scan(rest, false) by {
      ScanFieldToken("sender", "", rest);
    }
  }

  lemma LiteralTwoFields()
    ensures "sender:alice AND subject:kickoff"
         == "sender" + "" + ":" + ("alice AND " + ("subject" + "" + ":" + "kickoff"))
    ensures !IsSpace('s') && 's' != ':'
  {
  }

  lemma LiteralTwoFieldsResult()
    ensures "Sender:alice AND Subject:kickoff"
         == "Sender" + ":" + ("alice AND " + ("Subject" + ":" + "kickoff"))
  {
  }

  lemma LowerCaseFieldNames()
    ensures IsIdentifier("sender") && CanonicalField("sender") == Some("Sender")
    ensures IsIdentifier("subject") && CanonicalField("subject") == Some("Subject")
  {
    assert Fold("sender") == "sender";
    assert Fold("subject") == "subject";
  }

  lemma NormalizeExampleUnknownField()
    ensures Normalize("unknownfield:x") == "unknownfield:x"
  {
    LiteralUnknownField();
    var ident, rest := "unknownfield", "x";
    assert Normalize(ident + "" + ":" + rest) == ident + "" + ":" + rest by {
      ScanFieldToken(ident, "", rest);
      ScanWithoutColon(rest, false);
    }
  }

  lemma LiteralUnknownField()
    ensures "unknownfield:x" == "unknownfield" + "" + ":" + "x"
    ensures IsIdentifier("unknownfield") && CanonicalField("unknownfield").None?
  {
    assert Fold("unknownfield") == "unknownfield";
  }

  lemma NormalizeExampleGluedField()
    ensures Normalize("x:sender:y") == "x:sender:y"
  {
    LiteralGluedField();
    var ident, rest := "x", "sender:y";
    assert Normalize(ident + "" + ":" + rest) == ident + "" + ":" + rest by {
      ScanFieldToken(ident, "", rest);
      ScanWithoutBoundary(rest);
    }
  }

  lemma LiteralGluedField()
    ensures "x:sender:y" == "x" + "" + ":" + "sender:y"
    ensures IsIdentifier("x") && CanonicalField("x").None?
    ensures forall i | 0 <= i < |"sender:y"| :: !IsSpace("sender:y"[i])
  {
    assert Fold("x") == "x";
  }

  lemma NormalizeExampleLongerIdentifier()
    ensures Normalize("sender1:x") == "sender1:x"
  {
    LiteralLongerIdentifier();
    var ident, rest := "sender1", "x";
    assert Normalize(ident + "" + ":" + rest) == ident + "" + ":" + rest by {
      ScanFieldToken(ident, "", rest);
      ScanWithoutColon(rest, false);
    }
  }

  lemma LiteralLongerIdentifier()
    ensures "sender1:x" == "sender1" + "" + ":" + "x"
    ensures IsIdentifier("sender1") && CanonicalField("sender1").None?
  {
    assert Fold("sender1") == "sender1";
  }

  lemma NormalizeExampleGapAndCase()
    ensures Normalize("SUBJECT  :hi") == "Subject:hi"
  {
    LiteralGapAndCase();
    var ident, gap, rest := "SUBJECT", "  ", "hi";
    assert Normalize(ident + gap + ":" + rest) == "Subject" + ":" + rest by {
      ScanFieldToken(ident, gap, rest);
      ScanWithoutColon(rest, false);
    }
  }

  lemma LiteralGapAndCase()
    ensures "SUBJECT  :hi" == "SUBJECT" + "  " + ":" + "hi"
    ensures IsIdentifier("SUBJECT") && CanonicalField("SUBJECT") == Some("Subject")
    ensures forall i | 0 <= i < |"  "| :: IsSpace("  "[i])
  {
    assert Fold("SUBJECT") == "subject";
  }
}
