/** The reference contestants' hand-written field extractors, against Go's printer for flat JSON objects. */
module FlatJson {
  import opened Prelude

  // ---- Searching ----

  predicate MatchAt(s: string, p: string, i: nat) {
    i + |p| <= |s| && s[i..i + |p|] == p
  }

  /** `std::string::find` and `str::find`: the first match at or after `from`. */
  function Find(s: string, p: string, from: nat): (r: Option<nat>)
    ensures r.Some? ==>
              && from <= r.value && MatchAt(s, p, r.value)
              && forall i: nat | from <= i < r.value :: !MatchAt(s, p, i)
    ensures r.None? ==> forall i: nat | from <= i :: !MatchAt(s, p, i)
    decreases |s| - from
  {
    if from + |p| > |s| then None
    else if MatchAt(s, p, from) then Some(from)
    else Find(s, p, from + 1)
  }

  lemma FindIs(s: string, p: string, from: nat, i: nat)
    requires from <= i && MatchAt(s, p, i)
    requires forall j: nat | from <= j < i :: !MatchAt(s, p, j)
    ensures Find(s, p, from) == Some(i)
  {
  }

  // ---- The extractors ----

  const QUOTE := "\""

  function KeyPattern(key: string): string {
    "\"" + key + "\":"
  }

  function StringPattern(key: string): string {
    KeyPattern(key) + QUOTE
  }

  /** Where the first match of `p` ends. */
  function EndOfFirst(json: string, p: string): (end: Option<nat>)
    ensures end.Some? ==> end.value <= |json|
  {
    match Find(json, p, 0)
    case None => None
    case Some(at) => Some(at + |p|)
  }

  /** The text from `start` up to the next quote; "" when there is none. */
  function UpToQuote(json: string, start: nat): string {
    match Find(json, QUOTE, start)
    case None => ""
    case Some(end) => json[start..end]
  }

  /** C++ `get_json_string`: from the end of the first match of the pattern up to the next quote. */
  function GetJsonString(json: string, key: string): string {
    match EndOfFirst(json, StringPattern(key))
    case None => ""
    case Some(start) => UpToQuote(json, start)
  }

  /** Rust `get_json_string`: the same over the rest of the text. */
  function GetJsonStringOfRest(json: string, key: string): string {
    match EndOfFirst(json, StringPattern(key))
    case None => ""
    case Some(start) => UpToQuote(json[start..], 0)
  }

  predicate IsNumeralChar(c: char) {
    '0' <= c <= '9' || c == '.' || c == '-'
  }

  predicate IsNumeral(s: string) {
    forall i | 0 <= i < |s| :: IsNumeralChar(s[i])
  }

  /** The longest prefix of numeral characters. */
  function NumeralPrefix(s: string): (t: string)
    ensures t <= s && IsNumeral(t)
    ensures |t| < |s| ==> !IsNumeralChar(s[|t|])
  {
    if s == "" || !IsNumeralChar(s[0]) then "" else [s[0]] + NumeralPrefix(s[1..])
  }

  /** The text the number extractors convert; "" (which both turn into 0.0) when the key is absent. */
  function NumeralText(json: string, key: string): string {
    match EndOfFirst(json, KeyPattern(key))
    case None => ""
    case Some(start) => NumeralPrefix(json[start..])
  }

  lemma SliceHead(s: string, start: nat, end: nat)
    requires start < end <= |s|
    ensures s[start..][0] == s[start] && s[start..][1..] == s[start + 1..]
    ensures s[start..end] == [s[start]] + s[start + 1..end]
  {
  }

  lemma {:induction false} NumeralRun(s: string, start: nat, end: nat)
    requires start <= end <= |s|
    requires forall k | start <= k < end :: IsNumeralChar(s[k])
    requires end < |s| ==> !IsNumeralChar(s[end])
    ensures NumeralPrefix(s[start..]) == s[start..end]
    decreases end - start
  {
    if start < end {
      NumeralRun(s, start + 1, end);
      SliceHead(s, start, end);
    }
  }

  /** C++ `get_json_number` up to the conversion: the scan loop. */
  method ScanNumeral(json: string, key: string) returns (text: string)
    ensures text == NumeralText(json, key)
  {
    var start := EndOfFirst(json, KeyPattern(key));
    if start.None? {
      return "";
    }
    var end := start.value;
    while end < |json| && IsNumeralChar(json[end])
      invariant start.value <= end <= |json|
      invariant forall k | start.value <= k < end :: IsNumeralChar(json[k])
    {
      end := end + 1;
    }
    NumeralRun(json, start.value, end);
    text := json[start.value..end];
  }

  /** Rust `get_json_f64` up to the conversion: cut the rest at the first character that is no numeral. */
  method CutNumeral(json: string, key: string) returns (text: string)
    ensures text == NumeralText(json, key)
  {
    var start := EndOfFirst(json, KeyPattern(key));
    if start.None? {
      return "";
    }
    var rest := json[start.value..];
    var end := 0;
    while end < |rest| && IsNumeralChar(rest[end])
      invariant 0 <= end <= |rest|
      invariant forall k | 0 <= k < end :: IsNumeralChar(rest[k])
    {
      end := end + 1;
    }
    NumeralRun(rest, 0, end);
    assert rest[0..] == rest && rest[0..end] == rest[..end];
    text := rest[..end];
  }

  lemma QuoteMatch(json: string, i: nat)
    requires i < |json|
    ensures MatchAt(json, QUOTE, i) <==> json[i] == '"'
  {
    assert json[i..i + 1] == [json[i]];
  }

  predicate NoQuoteIn(s: string, lo: nat, hi: nat)
    requires hi <= |s|
  {
    forall i | lo <= i < hi :: s[i] != '"'
  }

  /** The search for a quote, character by character. */
  lemma FindQuoteIs(s: string, from: nat)
    requires from <= |s|
    ensures var r := Find(s, QUOTE, from);
            && (r.Some? ==> from <= r.value < |s| && s[r.value] == '"' && NoQuoteIn(s, from, r.value))
            && (r.None? ==> NoQuoteIn(s, from, |s|))
  {
    forall i: nat | i < |s|
      ensures MatchAt(s, QUOTE, i) <==> s[i] == '"'
    {
      QuoteMatch(s, i);
    }
  }

  lemma RestChars(s: string, start: nat)
    requires start <= |s|
    ensures |s[start..]| == |s| - start
    ensures forall i | 0 <= i < |s| - start :: s[start..][i] == s[start + i]
  {
  }

  /** Two places that both hold the first quote are the same place. */
  lemma SameFirstQuote(json: string, rest: string, start: nat)
    requires start <= |json| && |rest| == |json| - start
    requires forall i | 0 <= i < |rest| :: rest[i] == json[start + i]
    ensures var here, there := Find(json, QUOTE, start), Find(rest, QUOTE, 0);
            && (here.Some? <==> there.Some?)
            && (here.Some? ==> there.value == here.value - start && here.value <= |json|)
  {
    FindQuoteIs(json, start);
    FindQuoteIs(rest, 0);
    var here, there := Find(json, QUOTE, start), Find(rest, QUOTE, 0);
    if here.Some? {
      assert rest[here.value - start] == '"';
    }
    if there.Some? {
      assert json[start + there.value] == '"';
    }
  }

  lemma QuoteSearchInRest(json: string, start: nat)
    requires start <= |json|
    ensures var here, rest := Find(json, QUOTE, start), Find(json[start..], QUOTE, 0);
            && (here.Some? <==> rest.Some?)
            && (here.Some? ==> rest.value == here.value - start && here.value <= |json|)
  {
    RestChars(json, start);
    SameFirstQuote(json, json[start..], start);
  }

  lemma SliceFrom(s: string, start: nat, end: nat)
    requires start <= end <= |s|
    ensures s[start..][..end - start] == s[start..end]
  {
  }

  lemma RestUpToQuote(json: string, start: nat)
    requires start <= |json|
    ensures UpToQuote(json, start) == UpToQuote(json[start..], 0)
  {
    QuoteSearchInRest(json, start);
    var end := Find(json, QUOTE, start);
    if end.Some? {
      SliceFrom(json, start, end.value);
    }
  }

  /** The C++ and the Rust string extractor are the same function. */
  lemma StringExtractorsAgree(json: string, key: string)
    ensures GetJsonString(json, key) == GetJsonStringOfRest(json, key)
  {
    var start := EndOfFirst(json, StringPattern(key));
    if start.Some? {
      RestUpToQuote(json, start.value);
    }
  }

  lemma EndOfFirstIs(json: string, p: string, at: nat)
    requires Find(json, p, 0) == Some(at)
    ensures EndOfFirst(json, p) == Some(at + |p|)
  {
  }

  // ---- The printer ----

  datatype Value = Text(s: string) | Numeral(text: string)

  datatype Field = Field(key: string, value: Value)

  function HexDigit(d: nat): char
    requires d < 16
  {
    "0123456789abcdef"[d]
  }

  /** Characters Go's encoder does not print as they are: quotes, backslashes, controls, the HTML characters it
      escapes by default, and the two line separators. */
  predicate IsSpecial(c: char) {
    c == '"' || c == '\\' || c < ' ' || c == '<' || c == '>' || c == '&' || c == '\U{2028}' || c == '\U{2029}'
  }

  function EscapeChar(c: char): (e: string)
    ensures IsSpecial(c) ==> |e| >= 2
    ensures !IsSpecial(c) ==> e == [c]
    ensures forall t | 0 <= t < |e| && e[t] == '"' :: t >= 1 && e[t - 1] == '\\' && c == '"'
  {
    if !IsSpecial(c) then [c]
    else if c == '"' then "\\\""
    else if c == '\\' then "\\\\"
    else if c == '\n' then "\\n"
    else if c == '\r' then "\\r"
    else if c == '\t' then "\\t"
    else if c == '\U{0008}' then "\\b"
    else if c == '\U{000C}' then "\\f"
    else
      var n := c as int;
      "\\u" + [HexDigit(n / 4096 % 16), HexDigit(n / 256 % 16), HexDigit(n / 16 % 16), HexDigit(n % 16)]
  }

  function Escape(s: string): string {
    if s == "" then "" else EscapeChar(s[0]) + Escape(s[1..])
  }

  function RenderValue(v: Value): string {
    match v
    case Text(s) => QUOTE + Escape(s) + QUOTE
    case Numeral(text) => text
  }

  function RenderField(f: Field): string {
    KeyPattern(f.key) + RenderValue(f.value)
  }

  /** Fields separated by commas, and the closing brace. */
  function RenderFrom(fs: seq<Field>): string
    decreases |fs|, 1
  {
    if fs == [] then "}"
    else RenderField(fs[0]) + RenderRest(fs)
  }

  /** What follows the first field. */
  function RenderRest(fs: seq<Field>): string
    requires fs != []
    decreases |fs|, 0
  {
    if |fs| == 1 then "}" else "," + RenderFrom(fs[1..])
  }

  function Render(fs: seq<Field>): string {
    "{" + RenderFrom(fs)
  }

  /** The punctuation: of a string field, of a number field, and of an object of two fields. */
  lemma TextPrinted(k: string, s: string)
    ensures RenderField(Field(k, Text(s))) == "\"" + k + "\":" + ("\"" + Escape(s) + "\"")
  {
  }

  lemma NumeralPrinted(k: string, t: string)
    ensures RenderField(Field(k, Numeral(t))) == "\"" + k + "\":" + t
  {
  }

  lemma ObjectPrinted(f: Field, g: Field)
    ensures Render([f, g]) == "{" + (RenderField(f) + ("," + (RenderField(g) + "}")))
  {
    assert [f, g][1..] == [g];
    assert RenderFrom([g]) == RenderField(g) + "}";
    assert RenderFrom([f, g]) == RenderField(f) + ("," + RenderFrom([g]));
  }

  /** Which characters are escaped ... */
  lemma EscapedIff(c: char)
    ensures EscapeChar(c) == [c] <==>
              c != '"' && c != '\\' && c >= '\U{0020}' && c != '<' && c != '>' && c != '&'
              && c != '\U{2028}' && c != '\U{2029}'
  {
  }

  /** ... how, for those with a short escape ... */
  lemma ShortEscapes()
    ensures EscapeChar('"') == "\\\"" && EscapeChar('\\') == "\\\\"
    ensures EscapeChar('\n') == "\\n" && EscapeChar('\r') == "\\r" && EscapeChar('\t') == "\\t"
    ensures EscapeChar('\U{0008}') == "\\b" && EscapeChar('\U{000C}') == "\\f"
  {
  }

  /** ... and for the others: four hexadecimal digits, lower case. */
  lemma UnicodeEscapes()
    ensures EscapeChar('<') == "\\u003c" && EscapeChar('\U{2029}') == "\\u2029" && EscapeChar('\U{001F}') == "\\u001f"
  {
    HexEscape('<', 0, 0, 3, 12);
    HexEscape('\U{2029}', 2, 0, 2, 9);
    HexEscape('\U{001F}', 0, 0, 1, 15);
    assert HexDigit(12) == 'c' && HexDigit(15) == 'f' && HexDigit(9) == '9';
    assert HexDigit(0) == '0' && HexDigit(1) == '1' && HexDigit(2) == '2' && HexDigit(3) == '3';
  }

  lemma HexEscape(c: char, d3: nat, d2: nat, d1: nat, d0: nat)
    requires IsSpecial(c) && c != '"' && c != '\\' && c != '\n' && c != '\r' && c != '\t'
    requires c != '\U{0008}' && c != '\U{000C}'
    requires d3 < 16 && d2 < 16 && d1 < 16 && d0 < 16
    requires c as int == 4096 * d3 + 256 * d2 + 16 * d1 + d0
    ensures EscapeChar(c) == "\\u" + [HexDigit(d3), HexDigit(d2), HexDigit(d1), HexDigit(d0)]
  {
    HexDigits(c as int, d3, d2, d1, d0);
  }

  lemma HexDigits(n: nat, d3: nat, d2: nat, d1: nat, d0: nat)
    requires d3 < 16 && d2 < 16 && d1 < 16 && d0 < 16 && n == 4096 * d3 + 256 * d2 + 16 * d1 + d0
    ensures n / 4096 % 16 == d3 && n / 256 % 16 == d2 && n / 16 % 16 == d1 && n % 16 == d0
  {
    assert n / 16 == 256 * d3 + 16 * d2 + d1;
    assert n / 256 == 16 * d3 + d2;
    assert n / 4096 == d3;
  }

  /** No character the printer has to escape. */
  predicate Plain(s: string) {
    forall i | 0 <= i < |s| :: !IsSpecial(s[i])
  }

  predicate IsKey(key: string) {
    key != "" && forall i | 0 <= i < |key| :: 'a' <= key[i] <= 'z' || key[i] == '_'
  }

  predicate ValidField(f: Field) {
    && IsKey(f.key)
    && (f.value.Numeral? ==> f.value.text != "" && '"' !in f.value.text)
  }

  predicate ValidObject(fs: seq<Field>) {
    && (forall i | 0 <= i < |fs| :: ValidField(fs[i]))
    && (forall i, j | 0 <= i < j < |fs| :: fs[i].key != fs[j].key)
  }

  // ---- What escaping does to quotes ----

  predicate QuotesEscaped(e: string) {
    forall t | 0 <= t < |e| && e[t] == '"' :: t >= 1 && e[t - 1] == '\\'
  }

  lemma QuotesEscapedConcat(a: string, b: string)
    requires QuotesEscaped(a) && QuotesEscaped(b)
    ensures QuotesEscaped(a + b)
    ensures '"' in a + b ==> '"' in a || '"' in b
  {
    forall t | 0 <= t < |a + b| && (a + b)[t] == '"'
      ensures t >= 1 && (a + b)[t - 1] == '\\'
    {
      if t >= |a| {
        assert b[t - |a|] == '"';
      }
    }
  }

  lemma {:induction false} EscapeEscapesQuotes(s: string)
    ensures QuotesEscaped(Escape(s))
    ensures '"' !in s ==> '"' !in Escape(s)
  {
    if s != "" {
      EscapeEscapesQuotes(s[1..]);
      var e, rest := EscapeChar(s[0]), Escape(s[1..]);
      QuotesEscapedConcat(e, rest);
      assert Escape(s) == e + rest;
      assert '"' in e ==> s[0] == '"';
    }
  }

  lemma {:induction false} EscapeLength(s: string)
    ensures Plain(s) ==> Escape(s) == s
    ensures !Plain(s) ==> |Escape(s)| > |s|
    ensures |Escape(s)| >= |s|
  {
    if s != "" {
      EscapeLength(s[1..]);
      if Plain(s) {
        assert Plain(s[1..]);
      } else if !IsSpecial(s[0]) {
        assert !Plain(s[1..]) by {
          var i :| 0 <= i < |s| && IsSpecial(s[i]);
          assert s[1..][i - 1] == s[i];
        }
      }
    }
  }

  // ---- Where a key can be found ----

  lemma HitShape(json: string, key: string, i: nat)
    requires MatchAt(json, KeyPattern(key), i)
    ensures i + |key| + 3 <= |json|
    ensures json[i] == '"' && json[i + |key| + 1] == '"' && json[i + |key| + 2] == ':'
    ensures forall t | 0 <= t < |key| :: json[i + 1 + t] == key[t]
  {
    var p := KeyPattern(key);
    assert forall t | 0 <= t < |p| :: json[i + t] == json[i..i + |p|][t] == p[t];
    assert p[0] == '"' && p[|key| + 1] == '"' && p[|key| + 2] == ':';
    assert forall t | 0 <= t < |key| :: p[1 + t] == key[t];
  }

  /** `f` is printed in `json` at `base` and followed by a comma or the closing brace. */
  predicate PrintedAt(json: string, f: Field, base: nat) {
    && MatchAt(json, RenderField(f), base)
    && base + |RenderField(f)| < |json|
    && (json[base + |RenderField(f)|] == ',' || json[base + |RenderField(f)|] == '}')
  }

  lemma FieldEnd(json: string, f: Field, base: nat)
    requires PrintedAt(json, f, base)
    ensures base + |RenderField(f)| < |json|
    ensures json[base + |RenderField(f)|] == ',' || json[base + |RenderField(f)|] == '}'
  {
  }

  lemma FieldShape(json: string, f: Field, base: nat)
    requires PrintedAt(json, f, base)
    ensures MatchAt(json, KeyPattern(f.key), base)
    ensures MatchAt(json, RenderValue(f.value), base + |KeyPattern(f.key)|)
  {
    var r := RenderField(f);
    var n := |KeyPattern(f.key)|;
    assert json[base..base + |r|] == r;
    assert json[base..base + n] == r[..n];
    assert json[base + n..base + |r|] == r[n..];
  }

  lemma KeyPatternChars(key: string)
    ensures |KeyPattern(key)| == |key| + 3
    ensures KeyPattern(key)[0] == '"'
    ensures forall t | 0 <= t < |key| :: KeyPattern(key)[1 + t] == key[t]
    ensures KeyPattern(key)[|key| + 1] == '"' && KeyPattern(key)[|key| + 2] == ':'
  {
  }

  lemma NoMatchByChar(s: string, p: string, i: nat, t: nat)
    requires t < |p| && i + t < |s| && s[i + t] != p[t]
    ensures !MatchAt(s, p, i)
  {
    if i + |p| <= |s| {
      assert s[i..i + |p|][t] == s[i + t];
    }
  }

  /** Where a key's pattern and another key's own text first disagree. */
  lemma KeysDiffer(own: string, key: string) returns (t: nat)
    requires IsKey(own) && IsKey(key) && own != key
    ensures t < |KeyPattern(own)| && t < |KeyPattern(key)| && KeyPattern(own)[t] != KeyPattern(key)[t]
  {
    KeyPatternChars(own);
    KeyPatternChars(key);
    if |key| < |own| {
      t := |key| + 1;
      assert KeyPattern(own)[1 + |key|] == own[|key|];
    } else if |own| < |key| {
      t := |own| + 1;
      assert KeyPattern(key)[1 + |own|] == key[|own|];
    } else {
      var j :| 0 <= j < |own| && own[j] != key[j];
      t := 1 + j;
    }
  }

  lemma NoHitAtKeyStart(json: string, own: string, base: nat, key: string)
    requires IsKey(own) && IsKey(key) && own != key && MatchAt(json, KeyPattern(own), base)
    ensures !MatchAt(json, KeyPattern(key), base)
  {
    var t := KeysDiffer(own, key);
    assert json[base..base + |KeyPattern(own)|][t] == json[base + t];
    NoMatchByChar(json, KeyPattern(key), base, t);
  }

  lemma NoHitInKey(json: string, own: string, base: nat, key: string, i: nat)
    requires IsKey(own) && IsKey(key) && key != own && MatchAt(json, KeyPattern(own), base)
    requires base <= i < base + |KeyPattern(own)|
    ensures !MatchAt(json, KeyPattern(key), i)
  {
    HitShape(json, own, base);
    KeyPatternChars(own);
    KeyPatternChars(key);
    if i == base {
      NoHitAtKeyStart(json, own, base, key);
    } else if i == base + |own| + 1 {
      assert KeyPattern(key)[1 + 0] == key[0];
      NoMatchByChar(json, KeyPattern(key), i, 1);
    } else {
      assert i <= base + |own| ==> json[base + 1 + (i - base - 1)] == own[i - base - 1];
      NoMatchByChar(json, KeyPattern(key), i, 0);
    }
  }

  /** From the opening quote of a printed string up to what follows it: every quote in between is escaped, so
      none can close a key. */
  lemma NoHitInQuoted(json: string, open: nat, close: nat, key: string, i: nat)
    requires IsKey(key) && open < close && close + 1 < |json| && open <= i <= close + 1
    requires json[open] == '"' && json[close] == '"'
    requires json[close + 1] == ',' || json[close + 1] == '}'
    requires forall t | open < t < close && json[t] == '"' :: json[t - 1] == '\\'
    ensures !MatchAt(json, KeyPattern(key), i)
  {
    KeyPatternChars(key);
    var n := |key|;
    var q := i + n + 1;
    assert KeyPattern(key)[1 + 0] == key[0] && KeyPattern(key)[1 + (n - 1)] == key[n - 1];
    if i == close + 1 {
      NoMatchByChar(json, KeyPattern(key), i, 0);
    } else if i == close {
      NoMatchByChar(json, KeyPattern(key), i, 1);
    } else if q > close {
      assert KeyPattern(key)[1 + (close - i - 1)] == key[close - i - 1];
      NoMatchByChar(json, KeyPattern(key), i, close - i);
    } else if q == close {
      NoMatchByChar(json, KeyPattern(key), i, n + 2);
    } else if json[q] != '"' {
      NoMatchByChar(json, KeyPattern(key), i, n + 1);
    } else {
      NoMatchByChar(json, KeyPattern(key), i, n);
    }
  }

  lemma QuotedShape(json: string, open: nat, e: string)
    requires MatchAt(json, QUOTE + e + QUOTE, open)
    ensures open + |e| + 2 <= |json|
    ensures json[open] == '"' && json[open + |e| + 1] == '"'
    ensures json[open + 1..open + |e| + 1] == e
  {
    var r := QUOTE + e + QUOTE;
    assert forall t | 0 <= t < |r| :: json[open + t] == json[open..open + |r|][t] == r[t];
    assert r[0] == '"' && r[|e| + 1] == '"';
    assert forall t | 0 <= t < |e| :: json[open + 1 + t] == r[1 + t] == e[t];
  }

  /** `e` between two quotes, followed by a comma or the closing brace. */
  predicate QuotedAt(json: string, open: nat, e: string) {
    && open + |e| + 2 < |json|
    && json[open] == '"' && json[open + |e| + 1] == '"'
    && json[open + 1..open + |e| + 1] == e
    && (json[open + |e| + 2] == ',' || json[open + |e| + 2] == '}')
  }

  lemma TextLength(f: Field)
    requires f.value.Text?
    ensures |RenderField(f)| == |KeyPattern(f.key)| + |Escape(f.value.s)| + 2
  {
  }

  lemma TextMatch(json: string, f: Field, base: nat)
    requires PrintedAt(json, f, base) && f.value.Text?
    ensures MatchAt(json, QUOTE + Escape(f.value.s) + QUOTE, base + |KeyPattern(f.key)|)
  {
    FieldShape(json, f, base);
  }

  lemma TextShape(json: string, f: Field, base: nat)
    requires PrintedAt(json, f, base) && f.value.Text?
    ensures QuotedAt(json, base + |KeyPattern(f.key)|, Escape(f.value.s))
  {
    var open, e := base + |KeyPattern(f.key)|, Escape(f.value.s);
    TextMatch(json, f, base);
    QuotedShape(json, open, e);
    FieldEnd(json, f, base);
    TextLength(f);
    assert open + |e| + 2 == base + |RenderField(f)|;
  }

  lemma EscapedQuotesIn(json: string, start: nat, e: string)
    requires QuotesEscaped(e) && start + |e| <= |json| && json[start..start + |e|] == e
    ensures forall t | start <= t < start + |e| && json[t] == '"' :: t > start && json[t - 1] == '\\'
  {
    forall t | start <= t < start + |e| && json[t] == '"'
      ensures t > start && json[t - 1] == '\\'
    {
      assert e[t - start] == json[start..start + |e|][t - start] == json[t];
      assert e[t - start - 1] == json[start..start + |e|][t - start - 1] == json[t - 1];
    }
  }

  lemma NoHitInEscaped(json: string, open: nat, e: string, key: string, i: nat)
    requires IsKey(key) && QuotesEscaped(e) && QuotedAt(json, open, e) && open <= i <= open + |e| + 2
    ensures !MatchAt(json, KeyPattern(key), i)
  {
    EscapedQuotesIn(json, open + 1, e);
    NoHitInQuoted(json, open, open + |e| + 1, key, i);
  }

  lemma NoHitInText(json: string, f: Field, base: nat, key: string, i: nat)
    requires PrintedAt(json, f, base) && IsKey(key) && f.value.Text?
    requires base + |KeyPattern(f.key)| <= i <= base + |RenderField(f)|
    ensures !MatchAt(json, KeyPattern(key), i)
  {
    TextShape(json, f, base);
    TextLength(f);
    EscapeEscapesQuotes(f.value.s);
    NoHitInEscaped(json, base + |KeyPattern(f.key)|, Escape(f.value.s), key, i);
  }

  lemma NoHitInNumeral(json: string, f: Field, base: nat, key: string, i: nat)
    requires PrintedAt(json, f, base) && ValidField(f) && IsKey(key) && f.value.Numeral?
    requires base + |KeyPattern(f.key)| <= i <= base + |RenderField(f)|
    ensures !MatchAt(json, KeyPattern(key), i)
  {
    FieldShape(json, f, base);
    KeyPatternChars(key);
    var start := base + |KeyPattern(f.key)|;
    var text := f.value.text;
    assert forall t | 0 <= t < |text| :: json[start + t] == json[start..start + |text|][t] == text[t];
    assert i < start + |text| ==> json[start + (i - start)] == text[i - start];
    NoMatchByChar(json, KeyPattern(key), i, 0);
  }

  /** No occurrence of the key's pattern starts from `lo` up to but not including `hi`. */
  predicate NoHitBetween(json: string, key: string, lo: nat, hi: nat) {
    forall i | lo <= i < hi :: !MatchAt(json, KeyPattern(key), i)
  }

  lemma JoinNoHits(json: string, key: string, lo: nat, mid: nat, hi: nat)
    requires NoHitBetween(json, key, lo, mid) && NoHitBetween(json, key, mid, hi)
    ensures NoHitBetween(json, key, lo, hi)
  {
  }

  /** Inside another field, separator included, a key pattern never starts, whatever the strings contain. */
  lemma NoHitInField(json: string, f: Field, base: nat, key: string)
    requires PrintedAt(json, f, base) && ValidField(f) && IsKey(key) && key != f.key
    ensures NoHitBetween(json, key, base, base + |RenderField(f)| + 1)
  {
    FieldShape(json, f, base);
    forall i: nat | base <= i <= base + |RenderField(f)|
      ensures !MatchAt(json, KeyPattern(key), i)
    {
      if i < base + |KeyPattern(f.key)| {
        NoHitInKey(json, f.key, base, key, i);
      } else if f.value.Text? {
        NoHitInText(json, f, base, key, i);
      } else {
        NoHitInNumeral(json, f, base, key, i);
      }
    }
  }

  /** Where field `k` starts, counted from the start of RenderFrom. */
  function OffsetOf(fs: seq<Field>, k: nat): nat
    requires k <= |fs|
  {
    if k == 0 then 0 else |RenderField(fs[0])| + 1 + OffsetOf(fs[1..], k - 1)
  }

  /** From `base` on, `json` is these fields printed. */
  predicate PrintsFrom(json: string, fs: seq<Field>, base: nat) {
    base <= |json| && json[base..] == RenderFrom(fs)
  }

  lemma HeadPrinted(json: string, fs: seq<Field>, base: nat)
    requires fs != [] && PrintsFrom(json, fs, base)
    ensures PrintedAt(json, fs[0], base)
  {
    SuffixSplits(json, base, RenderField(fs[0]), RenderRest(fs));
  }

  lemma TailPrinted(json: string, fs: seq<Field>, base: nat)
    requires fs != [] && PrintsFrom(json, fs, base)
    ensures |fs| > 1 ==> PrintsFrom(json, fs[1..], base + |RenderField(fs[0])| + 1)
    ensures |fs| == 1 ==> base + |RenderField(fs[0])| + 1 == |json|
  {
    SuffixSplits(json, base, RenderField(fs[0]), RenderRest(fs));
    if |fs| > 1 {
      SuffixSplits(json, base + |RenderField(fs[0])|, ",", RenderFrom(fs[1..]));
    }
  }

  lemma SuffixSplits(json: string, base: nat, head: string, rest: string)
    requires base <= |json| && json[base..] == head + rest
    ensures base + |head| + |rest| == |json|
    ensures MatchAt(json, head, base)
    ensures json[base + |head|..] == rest
    ensures rest != "" ==> json[base + |head|] == rest[0]
  {
    var all := head + rest;
    assert all[..|head|] == head && all[|head|..] == rest;
    assert json[base..base + |head|] == json[base..][..|head|];
    assert json[base + |head|..] == json[base..][|head|..];
    if rest != "" {
      assert json[base + |head|] == json[base + |head|..][0];
    }
  }

  lemma TailValid(fs: seq<Field>)
    requires ValidObject(fs) && fs != []
    ensures ValidObject(fs[1..])
  {
  }

  lemma OffsetOfNext(fs: seq<Field>, k: nat)
    requires 0 < k <= |fs|
    ensures OffsetOf(fs, k) == |RenderField(fs[0])| + 1 + OffsetOf(fs[1..], k - 1)
  {
  }

  lemma NoHitInHead(json: string, fs: seq<Field>, base: nat, k: nat)
    requires ValidObject(fs) && 0 < k < |fs| && PrintedAt(json, fs[0], base)
    ensures NoHitBetween(json, fs[k].key, base, base + |RenderField(fs[0])| + 1)
  {
    assert ValidField(fs[0]) && ValidField(fs[k]) && fs[0].key != fs[k].key;
    NoHitInField(json, fs[0], base, fs[k].key);
  }

  lemma PrintedInTail(json: string, fs: seq<Field>, base: nat, k: nat)
    requires 0 < k < |fs|
    requires PrintedAt(json, fs[1..][k - 1], base + |RenderField(fs[0])| + 1 + OffsetOf(fs[1..], k - 1))
    ensures PrintedAt(json, fs[k], base + OffsetOf(fs, k))
  {
    OffsetOfNext(fs, k);
    assert fs[1..][k - 1] == fs[k];
  }

  /** Field `k` is printed at its offset. */
  lemma {:induction false} FieldPrinted(json: string, fs: seq<Field>, base: nat, k: nat)
    requires PrintsFrom(json, fs, base) && k < |fs|
    ensures PrintedAt(json, fs[k], base + OffsetOf(fs, k))
  {
    if k == 0 {
      HeadPrinted(json, fs, base);
    } else {
      var next := base + |RenderField(fs[0])| + 1;
      TailPrinted(json, fs, base);
      FieldPrinted(json, fs[1..], next, k - 1);
      PrintedInTail(json, fs, base, k);
    }
  }

  lemma {:induction false} NoHitBefore(json: string, fs: seq<Field>, base: nat, k: nat)
    requires PrintsFrom(json, fs, base)
    requires ValidObject(fs) && k < |fs|
    ensures NoHitBetween(json, fs[k].key, base, base + OffsetOf(fs, k))
  {
    if k > 0 {
      var next := base + |RenderField(fs[0])| + 1;
      TailPrinted(json, fs, base);
      TailValid(fs);
      NoHitBefore(json, fs[1..], next, k - 1);
      assert fs[1..][k - 1] == fs[k];
      OffsetOfNext(fs, k);
      HeadPrinted(json, fs, base);
      NoHitInHead(json, fs, base, k);
      JoinNoHits(json, fs[k].key, base, next, base + OffsetOf(fs, k));
    }
  }

  /** Among printed fields a key pattern first starts at the field with that key ... */
  lemma KeyHit(json: string, fs: seq<Field>, base: nat, k: nat)
    requires PrintsFrom(json, fs, base)
    requires ValidObject(fs) && k < |fs|
    ensures PrintedAt(json, fs[k], base + OffsetOf(fs, k))
    ensures NoHitBetween(json, fs[k].key, base, base + OffsetOf(fs, k))
  {
    FieldPrinted(json, fs, base, k);
    NoHitBefore(json, fs, base, k);
  }

  /** ... and nowhere if there is no such field. */
  lemma {:induction false} KeyMiss(json: string, fs: seq<Field>, base: nat, key: string)
    requires PrintsFrom(json, fs, base)
    requires ValidObject(fs) && IsKey(key) && forall k | 0 <= k < |fs| :: fs[k].key != key
    ensures forall i: nat | base <= i :: !MatchAt(json, KeyPattern(key), i)
  {
    if fs == [] {
      assert |json| == base + 1;
    } else {
      HeadPrinted(json, fs, base);
      TailPrinted(json, fs, base);
      assert ValidField(fs[0]);
      NoHitInField(json, fs[0], base, key);
      if |fs| > 1 {
        KeyMiss(json, fs[1..], base + |RenderField(fs[0])| + 1, key);
      }
    }
  }

  lemma StringHitIsKeyHit(json: string, key: string, i: nat)
    ensures MatchAt(json, StringPattern(key), i) ==> MatchAt(json, KeyPattern(key), i)
  {
    var n := |KeyPattern(key)|;
    assert StringPattern(key)[..n] == KeyPattern(key);
    if i + n + 1 <= |json| {
      assert json[i..i + n] == json[i..i + n + 1][..n];
    }
  }

  lemma KeyHitBeforeQuote(json: string, key: string, i: nat)
    requires MatchAt(json, KeyPattern(key), i)
    requires i + |KeyPattern(key)| < |json| && json[i + |KeyPattern(key)|] == '"'
    ensures MatchAt(json, StringPattern(key), i)
  {
    var n := |KeyPattern(key)|;
    assert json[i..i + n + 1] == json[i..i + n] + [json[i + n]];
  }

  lemma NoHitAtBrace(json: string, key: string)
    requires json != "" && json[0] == '{'
    ensures NoHitBetween(json, key, 0, 1)
  {
    KeyPatternChars(key);
    NoMatchByChar(json, KeyPattern(key), 0, 0);
  }

  /** The object of field `k`, seen as a search result. */
  lemma KeyFound(fs: seq<Field>, k: nat)
    requires ValidObject(fs) && k < |fs|
    ensures PrintedAt(Render(fs), fs[k], 1 + OffsetOf(fs, k))
    ensures NoHitBetween(Render(fs), fs[k].key, 0, 1 + OffsetOf(fs, k))
  {
    var json := Render(fs);
    assert json[1..] == RenderFrom(fs);
    KeyHit(json, fs, 1, k);
    assert ValidField(fs[k]);
    NoHitAtBrace(json, fs[k].key);
    JoinNoHits(json, fs[k].key, 0, 1, 1 + OffsetOf(fs, k));
  }

  // ---- The extractors undo the printer ----

  /** What lies between a printed string's quotes is cut at the first quote. */
  lemma TextExtracted(json: string, start: nat, close: nat)
    requires start <= close < |json| && json[close] == '"'
    ensures Find(json, QUOTE, start).Some?
    ensures var end := Find(json, QUOTE, start).value;
            && start <= end <= close
            && '"' !in json[start..end]
            && ('"' !in json[start..close] ==> end == close)
  {
    QuoteMatch(json, close);
    var end := Find(json, QUOTE, start).value;
    forall j | start <= j < end
      ensures json[j] != '"'
    {
      QuoteMatch(json, j);
    }
    if end < close {
      QuoteMatch(json, end);
      assert json[start..close][end - start] == '"';
    }
  }

  lemma StringFound(json: string, f: Field, at: nat)
    requires PrintedAt(json, f, at) && f.value.Text?
    requires NoHitBetween(json, f.key, 0, at)
    ensures Find(json, StringPattern(f.key), 0) == Some(at)
  {
    FieldShape(json, f, at);
    TextShape(json, f, at);
    KeyHitBeforeQuote(json, f.key, at);
    forall i: nat | i < at
      ensures !MatchAt(json, StringPattern(f.key), i)
    {
      StringHitIsKeyHit(json, f.key, i);
    }
    FindIs(json, StringPattern(f.key), 0, at);
  }

  /** The first quote ends the extracted text early, or it is the whole escaped text: equal to the original
      only when nothing was escaped. */
  lemma CutOfEscaped(s: string, cut: nat)
    requires cut <= |Escape(s)| && '"' !in Escape(s)[..cut]
    requires '"' !in Escape(s) ==> cut == |Escape(s)|
    ensures Escape(s)[..cut] == s <==> Plain(s)
  {
    EscapeLength(s);
    EscapeEscapesQuotes(s);
    if Plain(s) {
      assert '"' !in s;
    }
  }

  /** With a quote at `close`, the text up to the next quote ends there or earlier. */
  lemma CutAtFirstQuote(json: string, start: nat, close: nat) returns (end: nat)
    requires start <= close < |json| && json[close] == '"'
    ensures start <= end <= close && UpToQuote(json, start) == json[start..end]
    ensures '"' !in json[start..end]
    ensures '"' !in json[start..close] ==> end == close
  {
    TextExtracted(json, start, close);
    end := Find(json, QUOTE, start).value;
  }

  lemma SliceOfSlice(s: string, start: nat, n: nat, m: nat)
    requires start + n <= |s| && m <= n
    ensures s[start..start + n][..m] == s[start..start + m]
  {
  }

  lemma StringPatternLength(key: string)
    ensures |StringPattern(key)| == |KeyPattern(key)| + 1
  {
  }

  /** When the value `e` and a quote follow the pattern, what is extracted is `e` up to its first quote. */
  lemma ExtractedIsCut(json: string, key: string, start: nat, e: string) returns (cut: nat)
    requires EndOfFirst(json, StringPattern(key)) == Some(start)
    requires start + |e| < |json| && json[start..start + |e|] == e && json[start + |e|] == '"'
    ensures cut <= |e| && GetJsonString(json, key) == e[..cut]
    ensures '"' !in e[..cut]
    ensures '"' !in e ==> cut == |e|
  {
    var end := CutAtFirstQuote(json, start, start + |e|);
    cut := end - start;
    SliceOfSlice(json, start, |e|, cut);
  }

  lemma StringEndFound(json: string, f: Field, at: nat)
    requires PrintedAt(json, f, at) && f.value.Text?
    requires NoHitBetween(json, f.key, 0, at)
    ensures EndOfFirst(json, StringPattern(f.key)) == Some(at + |StringPattern(f.key)|)
  {
    StringFound(json, f, at);
    EndOfFirstIs(json, StringPattern(f.key), at);
  }

  lemma PrintedStringRoundTripIff(json: string, f: Field, at: nat)
    requires PrintedAt(json, f, at) && f.value.Text?
    requires NoHitBetween(json, f.key, 0, at)
    ensures GetJsonString(json, f.key) == f.value.s <==> Plain(f.value.s)
  {
    var start := at + |StringPattern(f.key)|;
    StringEndFound(json, f, at);
    EscapedAfterPattern(json, f, at);
    var cut := ExtractedIsCut(json, f.key, start, Escape(f.value.s));
    CutOfEscaped(f.value.s, cut);
  }

  lemma EscapedAfterPattern(json: string, f: Field, at: nat)
    requires PrintedAt(json, f, at) && f.value.Text?
    ensures var start, e := at + |StringPattern(f.key)|, Escape(f.value.s);
            start + |e| < |json| && json[start..start + |e|] == e && json[start + |e|] == '"'
  {
    StringPatternLength(f.key);
    TextShape(json, f, at);
  }

  /** A string field is extracted unchanged exactly when it has no character the printer escapes; the other
      fields, whatever they contain, never matter. */
  lemma StringFieldRoundTripIff(fs: seq<Field>, k: nat)
    requires ValidObject(fs) && k < |fs| && fs[k].value.Text?
    ensures GetJsonString(Render(fs), fs[k].key) == fs[k].value.s <==> Plain(fs[k].value.s)
  {
    KeyFound(fs, k);
    PrintedStringRoundTripIff(Render(fs), fs[k], 1 + OffsetOf(fs, k));
  }

  lemma NumeralShape(json: string, f: Field, base: nat)
    requires PrintedAt(json, f, base) && f.value.Numeral?
    ensures var start := base + |KeyPattern(f.key)|;
            var end := start + |f.value.text|;
            && end < |json| && json[start..end] == f.value.text
            && !IsNumeralChar(json[end])
  {
    FieldShape(json, f, base);
  }

  lemma {:induction false} PrefixEndsAtStop(s: string, n: nat)
    requires n < |s| && !IsNumeralChar(s[n])
    ensures NumeralPrefix(s) == NumeralPrefix(s[..n])
  {
    if n > 0 && IsNumeralChar(s[0]) {
      PrefixEndsAtStop(s[1..], n - 1);
      assert s[1..][..n - 1] == s[..n][1..];
    }
  }

  lemma PrintedNumeralExtracted(json: string, f: Field, at: nat)
    requires PrintedAt(json, f, at) && f.value.Numeral?
    requires NoHitBetween(json, f.key, 0, at)
    ensures NumeralText(json, f.key) == NumeralPrefix(f.value.text)
  {
    NumeralFound(json, f, at);
    NumeralShape(json, f, at);
    NumeralExtracted(json, f.key, at + |KeyPattern(f.key)|, f.value.text);
  }

  /** When `text` and no further numeral character follow the pattern, what is extracted is the prefix of `text`. */
  lemma NumeralExtracted(json: string, key: string, start: nat, text: string)
    requires EndOfFirst(json, KeyPattern(key)) == Some(start)
    requires start + |text| < |json| && json[start..start + |text|] == text && !IsNumeralChar(json[start + |text|])
    ensures NumeralText(json, key) == NumeralPrefix(text)
  {
    RestStarts(json, start, text);
    PrefixOfRest(json[start..], text);
  }

  lemma RestStarts(json: string, start: nat, text: string)
    requires start + |text| < |json| && json[start..start + |text|] == text
    ensures json[start..][..|text|] == text
    ensures json[start..][|text|] == json[start + |text|]
  {
    SliceFrom(json, start, start + |text|);
  }

  lemma PrefixOfRest(rest: string, text: string)
    requires |text| < |rest| && rest[..|text|] == text && !IsNumeralChar(rest[|text|])
    ensures NumeralPrefix(rest) == NumeralPrefix(text)
  {
    PrefixEndsAtStop(rest, |text|);
  }

  lemma NumeralFound(json: string, f: Field, at: nat)
    requires PrintedAt(json, f, at)
    requires NoHitBetween(json, f.key, 0, at)
    ensures EndOfFirst(json, KeyPattern(f.key)) == Some(at + |KeyPattern(f.key)|)
  {
    FieldShape(json, f, at);
    FindIs(json, KeyPattern(f.key), 0, at);
    EndOfFirstIs(json, KeyPattern(f.key), at);
  }

  lemma PrefixIsWholeIff(s: string)
    ensures NumeralPrefix(s) == s <==> IsNumeral(s)
  {
    if IsNumeral(s) {
      NumeralRun(s, 0, |s|);
      assert s[0..] == s && s[0..|s|] == s;
    }
  }

  /** A numeral is extracted unchanged exactly when it is made of digits, points and minus signs only (so an
      exponent is cut off), and what is extracted is always its longest such prefix. */
  lemma NumeralFieldRoundTripIff(fs: seq<Field>, k: nat)
    requires ValidObject(fs) && k < |fs| && fs[k].value.Numeral?
    ensures NumeralText(Render(fs), fs[k].key) == NumeralPrefix(fs[k].value.text)
    ensures NumeralText(Render(fs), fs[k].key) == fs[k].value.text <==> IsNumeral(fs[k].value.text)
  {
    KeyFound(fs, k);
    PrintedNumeralExtracted(Render(fs), fs[k], 1 + OffsetOf(fs, k));
    PrefixIsWholeIff(fs[k].value.text);
  }

  /** A key that was not printed yields "" for strings and for numbers. */
  lemma AbsentKeyExtractsNothing(fs: seq<Field>, key: string)
    requires ValidObject(fs) && IsKey(key) && forall k | 0 <= k < |fs| :: fs[k].key != key
    ensures GetJsonString(Render(fs), key) == "" && NumeralText(Render(fs), key) == ""
  {
    var json := Render(fs);
    assert json[1..] == RenderFrom(fs);
    KeyMiss(json, fs, 1, key);
    NoHitAtBrace(json, key);
    assert forall i: nat :: !MatchAt(json, KeyPattern(key), i);
    NoStringHit(json, key);
  }

  lemma NoStringHit(json: string, key: string)
    requires forall i: nat :: !MatchAt(json, KeyPattern(key), i)
    ensures Find(json, KeyPattern(key), 0).None? && Find(json, StringPattern(key), 0).None?
  {
    var at := Find(json, StringPattern(key), 0);
    if at.Some? {
      StringHitIsKeyHit(json, key, at.value);
    }
  }

  const QUOTED_ID := Field("id", Text("a\"b"))
  const BIG_PRICE := Field("price", Numeral("1e21"))

  lemma SomeFieldsValid()
    ensures ValidObject([QUOTED_ID, BIG_PRICE])
    ensures !Plain("a\"b") && NumeralPrefix("1e21") == "1"
  {
    assert IsSpecial("a\"b"[1]);
    NumeralRun("1e21", 0, 1);
    assert "1e21"[0..] == "1e21" && "1e21"[0..1] == "1";
  }

  /** An id with a quote and a price with an exponent: neither is read back. */
  lemma SomeFieldsAreCut()
    ensures ValidObject([QUOTED_ID, BIG_PRICE])
    ensures GetJsonString(Render([QUOTED_ID, BIG_PRICE]), "id") != "a\"b"
    ensures NumeralText(Render([QUOTED_ID, BIG_PRICE]), "price") == "1"
  {
    SomeFieldsValid();
    StringFieldRoundTripIff([QUOTED_ID, BIG_PRICE], 0);
    NumeralFieldRoundTripIff([QUOTED_ID, BIG_PRICE], 1);
  }
}
