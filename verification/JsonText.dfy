/**
 JSON values, the compact sorted-key printer of the assurance records, and an RFC 8259 reader
 (sections 4 to 7, integers only) that undoes the printer.
 */
module JsonText {
  import opened Wrappers
  import opened Strings

  /** The JSON data model; an object is a finite map, so field order carries nothing. */
  datatype Json =
    | JNull
    | JBool(b: bool)
    | JInt(n: int)
    | JString(s: string)
    | JArray(items: seq<Json>)
    | JObject(fields: map<string, Json>)

  // ----- numbers -----

  function DigitChar(d: nat): char
    requires d < 16
  {
    if d < 10 then '0' + d as char else 'a' + (d - 10) as char
  }

  predicate IsDigit(c: char) { '0' <= c <= '9' }

  function DigitValue(c: char): nat
    requires IsDigit(c)
  {
    (c - '0') as nat
  }

  function PrintNat(n: nat): string {
    if n < 10 then [DigitChar(n)] else PrintNat(n / 10) + [DigitChar(n % 10)]
  }

  function PrintInt(n: int): string {
    if n < 0 then "-" + PrintNat(-n) else PrintNat(n)
  }

  /** The length of the longest prefix of digits. */
  function DigitSpan(s: string): (k: nat)
    ensures k <= |s| && forall i :: 0 <= i < k ==> IsDigit(s[i])
  {
    if s != "" && IsDigit(s[0]) then 1 + DigitSpan(s[1..]) else 0
  }

  function NatOf(digits: string): nat
    requires forall i :: 0 <= i < |digits| ==> IsDigit(digits[i])
  {
    if digits == "" then 0
    else NatOf(digits[..|digits| - 1]) * 10 + DigitValue(digits[|digits| - 1])
  }

  /** A natural number without leading zeros, and what follows it. */
  function ParseNat(s: string): (r: Option<(nat, string)>)
    ensures r.Some? ==> |r.value.1| < |s|
  {
    var k := DigitSpan(s);
    if k == 0 || (s[0] == '0' && k > 1) then None else Some((NatOf(s[..k]), s[k..]))
  }

  function ParseInt(s: string): (r: Option<(Json, string)>)
    ensures r.Some? ==> |r.value.1| < |s|
  {
    if s != "" && s[0] == '-' then
      var n := ParseNat(s[1..]);
      if n.None? then None else Some((JInt(0 - n.value.0), n.value.1))
    else
      var n := ParseNat(s);
      if n.None? then None else Some((JInt(n.value.0), n.value.1))
  }

  predicate NoDigitFirst(s: string) {
    s == "" || !IsDigit(s[0])
  }

  lemma {:induction false} PrintNatDigits(n: nat)
    ensures forall i :: 0 <= i < |PrintNat(n)| ==> IsDigit(PrintNat(n)[i])
    ensures NatOf(PrintNat(n)) == n
    ensures PrintNat(n) != "" && (PrintNat(n)[0] == '0' ==> n == 0 && |PrintNat(n)| == 1)
  {
    if n >= 10 {
      PrintNatDigits(n / 10);
      assert PrintNat(n)[..|PrintNat(n)| - 1] == PrintNat(n / 10);
    } else {
      assert PrintNat(n)[..0] == "";
    }
  }

  lemma {:induction false} DigitSpanWhole(digits: string, rest: string)
    requires forall i :: 0 <= i < |digits| ==> IsDigit(digits[i])
    requires NoDigitFirst(rest)
    ensures DigitSpan(digits + rest) == |digits|
  {
    if digits == "" {
      assert digits + rest == rest;
    } else {
      assert (digits + rest)[1..] == digits[1..] + rest;
      DigitSpanWhole(digits[1..], rest);
    }
  }

  lemma NatRoundTrip(n: nat, rest: string)
    requires NoDigitFirst(rest)
    ensures ParseNat(PrintNat(n) + rest) == Some((n, rest))
    ensures PrintNat(n) != "" && IsDigit((PrintNat(n) + rest)[0])
  {
    var t := PrintNat(n) + rest;
    PrintNatDigits(n);
    DigitSpanWhole(PrintNat(n), rest);
    assert t[..|PrintNat(n)|] == PrintNat(n) && t[|PrintNat(n)|..] == rest;
    assert t[0] == PrintNat(n)[0];
  }

  lemma IntRoundTrip(n: int, rest: string)
    requires NoDigitFirst(rest)
    ensures ParseInt(PrintInt(n) + rest) == Some((JInt(n), rest))
    ensures PrintInt(n) != "" && (PrintInt(n)[0] == '-' || IsDigit(PrintInt(n)[0]))
  {
    hide ParseNat, PrintNat, IsDigit;
    if n < 0 {
      NatRoundTrip(-n, rest);
      assert (PrintInt(n) + rest)[1..] == PrintNat(-n) + rest;
    } else {
      NatRoundTrip(n, rest);
    }
  }

  // ----- strings -----

  function Escape(c: char): string {
    if c == '"' then "\\\""
    else if c == '\\' then "\\\\"
    else if c == '\n' then "\\n"
    else if c == '\r' then "\\r"
    else if c == '\t' then "\\t"
    else if c == '\U{0008}' then "\\b"
    else if c == '\U{000C}' then "\\f"
    else if c < ' ' then ['\\', 'u', '0', '0', DigitChar(c as nat / 16), DigitChar(c as nat % 16)]
    else [c]
  }

  function EscapeAll(s: string): string {
    if s == "" then "" else Escape(s[0]) + EscapeAll(s[1..])
  }

  function HexValue(c: char): Option<nat> {
    if '0' <= c <= '9' then Some((c - '0') as nat)
    else if 'a' <= c <= 'f' then Some((c - 'a') as nat + 10)
    else if 'A' <= c <= 'F' then Some((c - 'A') as nat + 10)
    else None
  }

  /** The code unit of four hexadecimal digits; surrogates are refused. */
  function Unicode(s: string): Option<char>
    requires |s| == 4
  {
    var a, b, c, d := HexValue(s[0]), HexValue(s[1]), HexValue(s[2]), HexValue(s[3]);
    if a.None? || b.None? || c.None? || d.None? then None
    else
      var code := ((a.value * 16 + b.value) * 16 + c.value) * 16 + d.value;
      if code < 0xD800 || 0xE000 <= code < 0x10000 then Some(code as char) else None
  }

  function SimpleEscape(c: char): Option<char> {
    match c
    case '"' => Some('"')
    case '\\' => Some('\\')
    case '/' => Some('/')
    case 'b' => Some('\U{0008}')
    case 'f' => Some('\U{000C}')
    case 'n' => Some('\n')
    case 'r' => Some('\r')
    case 't' => Some('\t')
    case _ => None
  }

  /** One character of a string body, and what follows it. */
  function ParseChar(s: string): (r: Option<(char, string)>)
    ensures r.Some? ==> |r.value.1| < |s|
  {
    if s == "" || s[0] < ' ' || s[0] == '"' then None
    else if s[0] != '\\' then Some((s[0], s[1..]))
    else if |s| >= 6 && s[1] == 'u' then
      var c := Unicode(s[2..6]);
      if c.Some? then Some((c.value, s[6..])) else None
    else if |s| >= 2 && SimpleEscape(s[1]).Some? then Some((SimpleEscape(s[1]).value, s[2..]))
    else None
  }

  /** A string body up to its closing quote, and what follows the quote. */
  function ParseChars(s: string): (r: Option<(string, string)>)
    ensures r.Some? ==> |r.value.1| < |s|
    decreases |s|
  {
    if s != "" && s[0] == '"' then Some(("", s[1..]))
    else
      var c := ParseChar(s);
      if c.None? then None
      else
        var tail := ParseChars(c.value.1);
        if tail.None? then None else Some(([c.value.0] + tail.value.0, tail.value.1))
  }

  lemma EscapeParses(c: char, rest: string)
    ensures ParseChar(Escape(c) + rest) == Some((c, rest))
    ensures (Escape(c) + rest)[0] != '"'
  {
    var s := Escape(c) + rest;
    if c < ' ' && |Escape(c)| == 6 {
      assert s[2..6] == ['0', '0', DigitChar(c as nat / 16), DigitChar(c as nat % 16)];
      assert s[6..] == rest;
    } else if |Escape(c)| == 2 {
      assert s[2..] == rest;
    } else {
      assert s[1..] == rest;
    }
  }

  lemma {:induction false} StringRoundTrip(s: string, rest: string)
    ensures ParseChars(EscapeAll(s) + ("\"" + rest)) == Some((s, rest))
  {
    hide Escape, ParseChar;
    if s == "" {
      assert EscapeAll(s) + ("\"" + rest) == "\"" + rest;
      assert ("\"" + rest)[1..] == rest;
    } else {
      var tail := EscapeAll(s[1..]) + ("\"" + rest);
      assert EscapeAll(s) + ("\"" + rest) == Escape(s[0]) + tail;
      EscapeParses(s[0], tail);
      StringRoundTrip(s[1..], rest);
      assert s == [s[0]] + s[1..];
    }
  }

  // ----- values -----

  function PrintString(s: string): string {
    "\"" + EscapeAll(s) + "\""
  }

  /** `json.dumps` with sorted keys, compact separators and no ASCII escaping. */
  function Print(v: Json): string
    decreases v, 1, 0
  {
    match v
    case JNull => "null"
    case JBool(b) => if b then "true" else "false"
    case JInt(n) => PrintInt(n)
    case JString(s) => PrintString(s)
    case JArray(items) => "[" + PrintItems(items) + "]"
    case JObject(fields) =>
      SortedFacts(fields.Keys);
      assert forall k :: k in Sorted(fields.Keys) ==> k in Elements(Sorted(fields.Keys));
      "{" + PrintFields(v, Sorted(fields.Keys)) + "}"
  }

  function PrintItems(items: seq<Json>): string
    decreases items, 0, 0
  {
    if items == [] then ""
    else if |items| == 1 then Print(items[0])
    else Print(items[0]) + "," + PrintItems(items[1..])
  }

  function PrintField(whole: Json, key: string): string
    requires whole.JObject? && key in whole.fields
    decreases whole, 0, 0
  {
    PrintString(key) + ":" + Print(whole.fields[key])
  }

  function PrintFields(whole: Json, keys: seq<string>): string
    requires whole.JObject? && forall k :: k in keys ==> k in whole.fields
    decreases whole, 0, |keys| + 1
  {
    if keys == [] then ""
    else if |keys| == 1 then PrintField(whole, keys[0])
    else PrintField(whole, keys[0]) + "," + PrintFields(whole, keys[1..])
  }

  // ----- what is printed -----

  const DECIMAL := "0123456789"
  const HEX := "0123456789abcdef"

  /** Scalars: the three words, and integers in decimal with a minus sign and no other. */
  lemma PrintedScalars(n: nat)
    ensures Print(JNull) == "null" && Print(JBool(true)) == "true" && Print(JBool(false)) == "false"
    ensures Print(JInt(n)) == PrintNat(n) && (n > 0 ==> Print(JInt(-(n as int))) == "-" + PrintNat(n))
    ensures n < 10 ==> PrintNat(n) == [DECIMAL[n]]
    ensures n >= 10 ==> PrintNat(n) == PrintNat(n / 10) + [DECIMAL[n % 10]]
  {
    assert forall d: nat :: d < 10 ==> DECIMAL[d] == DigitChar(d);
  }

  /** Strings: every character stands for itself but the quote, the backslash and the control characters. */
  lemma PrintedChars(c: char)
    ensures c >= ' ' && c != '"' && c != '\\' ==> Escape(c) == [c]
    ensures Escape('"') == "\\\"" && Escape('\\') == "\\\\"
    ensures Escape('\n') == "\\n" && Escape('\r') == "\\r" && Escape('\t') == "\\t"
    ensures Escape('\U{0008}') == "\\b" && Escape('\U{000C}') == "\\f"
    ensures c < ' ' && c !in {'\n', '\r', '\t', '\U{0008}', '\U{000C}'} ==>
              Escape(c) == "\\u00" + [HEX[c as nat / 16], HEX[c as nat % 16]]
  {
    assert forall d: nat :: d < 16 ==> HEX[d] == DigitChar(d);
  }

  lemma {:induction false} PrintedString(s: string)
    requires forall i :: 0 <= i < |s| ==> s[i] >= ' ' && s[i] != '"' && s[i] != '\\'
    ensures PrintString(s) == "\"" + s + "\""
  {
    if s != "" {
      PrintedString(s[1..]);
      PrintedChars(s[0]);
      assert EscapeAll(s[1..]) == s[1..] by {
        assert PrintString(s[1..])[1..|EscapeAll(s[1..])| + 1] == EscapeAll(s[1..]);
      }
      assert s == [s[0]] + s[1..];
    }
  }

  /** Lists: the items in order, with commas and nothing else between them. */
  lemma {:induction false} PrintedItems(items: seq<Json>)
    ensures PrintItems(items) == Join(seq(|items|, i requires 0 <= i < |items| => Print(items[i])), ",")
  {
    hide Print;
    var texts := seq(|items|, i requires 0 <= i < |items| => Print(items[i]));
    if |items| > 1 {
      PrintedItems(items[1..]);
      assert texts[1..] == seq(|items[1..]|, i requires 0 <= i < |items[1..]| => Print(items[1..][i]));
    }
  }

  function PairTexts(fields: map<string, Json>, keys: seq<string>): seq<string>
    requires forall k :: k in keys ==> k in fields
  {
    seq(|keys|, i requires 0 <= i < |keys| => PrintString(keys[i]) + ":" + Print(fields[keys[i]]))
  }

  lemma {:induction false} PrintedFields(fields: map<string, Json>, keys: seq<string>)
    requires forall k :: k in keys ==> k in fields
    ensures PrintFields(JObject(fields), keys) == Join(PairTexts(fields, keys), ",")
  {
    hide Print, PrintString;
    if |keys| > 1 {
      PrintedFields(fields, keys[1..]);
      assert PairTexts(fields, keys)[1..] == PairTexts(fields, keys[1..]);
    }
  }

  /** Objects: the fields by ascending key, key and value with a colon and nothing else between them. */
  lemma PrintedObject(fields: map<string, Json>, keys: seq<string>)
    requires Ascending(keys) && forall k :: k in keys <==> k in fields
    ensures Print(JObject(fields)) == "{" + Join(PairTexts(fields, keys), ",") + "}"
  {
    SortedFacts(fields.Keys);
    var sorted := Sorted(fields.Keys);
    assert forall k :: k in sorted <==> k in Elements(sorted);
    assert Elements(keys) == Elements(sorted) by {
      assert forall k :: k in Elements(keys) <==> k in Elements(sorted);
    }
    AscendingUnique(keys, sorted);
    PrintedFields(fields, keys);
  }

  lemma PrintedArray(items: seq<Json>)
    ensures Print(JArray(items)) ==
            "[" + Join(seq(|items|, i requires 0 <= i < |items| => Print(items[i])), ",") + "]"
  {
    PrintedItems(items);
  }

  // ----- reading -----

  function SkipSpace(s: string): (r: string)
    ensures |r| <= |s|
  {
    if s != "" && (s[0] == ' ' || s[0] == '\t' || s[0] == '\n' || s[0] == '\r') then SkipSpace(s[1..]) else s
  }

  /** The next significant character, if it is `c`, consumed. */
  function Eat(s: string, c: char): (r: Option<string>)
    ensures r.Some? ==> |r.value| < |s|
  {
    var t := SkipSpace(s);
    if t != "" && t[0] == c then Some(t[1..]) else None
  }

  function ParseWord(s: string, word: string, v: Json): (r: Option<(Json, string)>)
    requires word != ""
    ensures r.Some? ==> |r.value.1| < |s|
  {
    if StartsWith(s, word) then Some((v, s[|word|..])) else None
  }

  /** A JSON value at the start of a text, and what follows it. */
  function ParseValue(text: string): (r: Option<(Json, string)>)
    ensures r.Some? ==> |r.value.1| < |text|
    decreases |text|, 0
  {
    var s := SkipSpace(text);
    if s == "" then None
    else if s[0] == 'n' then ParseWord(s, "null", JNull)
    else if s[0] == 't' then ParseWord(s, "true", JBool(true))
    else if s[0] == 'f' then ParseWord(s, "false", JBool(false))
    else if s[0] == '"' then ParseString(s[1..])
    else if s[0] == '[' then ParseArray(s[1..])
    else if s[0] == '{' then ParseObject(s[1..])
    else ParseInt(s)
  }

  function ParseString(s: string): (r: Option<(Json, string)>)
    ensures r.Some? ==> |r.value.1| < |s|
  {
    var chars := ParseChars(s);
    if chars.None? then None else Some((JString(chars.value.0), chars.value.1))
  }

  function ParseArray(s: string): (r: Option<(Json, string)>)
    ensures r.Some? ==> |r.value.1| < |s|
    decreases |s|, 3
  {
    if Eat(s, ']').Some? then Some((JArray([]), Eat(s, ']').value))
    else
      var items := ParseItems(s);
      if items.None? then None else Some((JArray(items.value.0), items.value.1))
  }

  function ParseObject(s: string): (r: Option<(Json, string)>)
    ensures r.Some? ==> |r.value.1| < |s|
    decreases |s|, 3
  {
    if Eat(s, '}').Some? then Some((JObject(map[]), Eat(s, '}').value))
    else
      var fields := ParseFields(s, map[]);
      if fields.None? then None else Some((JObject(fields.value.0), fields.value.1))
  }

  /** The values of a nonempty array, through its closing bracket. */
  function ParseItems(s: string): (r: Option<(seq<Json>, string)>)
    ensures r.Some? ==> |r.value.1| < |s|
    decreases |s|, 1
  {
    var first := ParseValue(s);
    if first.None? then None
    else if Eat(first.value.1, ']').Some? then Some(([first.value.0], Eat(first.value.1, ']').value))
    else
      var comma := Eat(first.value.1, ',');
      if comma.None? then None
      else
        var rest := ParseItems(comma.value);
        if rest.None? then None else Some(([first.value.0] + rest.value.0, rest.value.1))
  }

  /** One `name : value` pair. */
  function ParseField(s: string): (r: Option<(string, Json, string)>)
    ensures r.Some? ==> |r.value.2| < |s|
    decreases |s|, 1
  {
    var open := Eat(s, '"');
    if open.None? then None
    else
      var name := ParseChars(open.value);
      if name.None? then None
      else
        var colon := Eat(name.value.1, ':');
        if colon.None? then None
        else
          var value := ParseValue(colon.value);
          if value.None? then None else Some((name.value.0, value.value.0, value.value.1))
  }

  /** The fields of a nonempty object, through its closing brace; a repeated name keeps the last value. */
  function ParseFields(s: string, acc: map<string, Json>): (r: Option<(map<string, Json>, string)>)
    ensures r.Some? ==> |r.value.1| < |s|
    decreases |s|, 2
  {
    var field := ParseField(s);
    if field.None? then None
    else
      var acc' := acc[field.value.0 := field.value.1];
      if Eat(field.value.2, '}').Some? then Some((acc', Eat(field.value.2, '}').value))
      else
        var comma := Eat(field.value.2, ',');
        if comma.None? then None else ParseFields(comma.value, acc')
  }

  /** A whole text as one JSON value. */
  function Parse(text: string): Option<Json> {
    var r := ParseValue(text);
    if r.Some? && SkipSpace(r.value.1) == "" then Some(r.value.0) else None
  }

  // ----- the reader undoes the printer -----

  lemma EatFirst(c: char, rest: string)
    requires c in ['"', ':', ',', '[', ']', '{', '}']
    ensures Eat([c] + rest, c) == Some(rest)
    ensures forall d :: d != c ==> Eat([c] + rest, d) == None
  {
    assert ([c] + rest)[1..] == rest;
  }

  lemma {:induction false} PrintStarts(v: Json)
    ensures Print(v) != ""
    ensures Print(v)[0] in ['n', 't', 'f', '"', '[', '{', '-'] || IsDigit(Print(v)[0])
  {
    if v.JInt? {
      IntRoundTrip(v.n, "");
    }
  }

  lemma WordRoundTrip(word: string, rest: string, v: Json)
    requires word != ""
    ensures ParseWord(word + rest, word, v) == Some((v, rest))
  {
  }

  lemma Dispatch(s: string)
    requires s != ""
    ensures s[0] == 'n' ==> ParseValue(s) == ParseWord(s, "null", JNull)
    ensures s[0] == 't' ==> ParseValue(s) == ParseWord(s, "true", JBool(true))
    ensures s[0] == 'f' ==> ParseValue(s) == ParseWord(s, "false", JBool(false))
    ensures s[0] == '"' ==> ParseValue(s) == ParseString(s[1..])
    ensures s[0] == '[' ==> ParseValue(s) == ParseArray(s[1..])
    ensures s[0] == '{' ==> ParseValue(s) == ParseObject(s[1..])
    ensures s[0] == '-' || IsDigit(s[0]) ==> ParseValue(s) == ParseInt(s)
  {
  }

  lemma ScalarRoundTrip(v: Json, rest: string)
    requires NoDigitFirst(rest) && !v.JArray? && !v.JObject?
    ensures ParseValue(Print(v) + rest) == Some((v, rest))
  {
    var s := Print(v) + rest;
    PrintStarts(v);
    Dispatch(s);
    match v
    case JNull => WordRoundTrip("null", rest, v);
    case JBool(b) => WordRoundTrip(if b then "true" else "false", rest, v);
    case JInt(n) => IntRoundTrip(n, rest);
    case JString(t) =>
      assert s[1..] == EscapeAll(t) + ("\"" + rest);
      StringRoundTrip(t, rest);
  }

  /** A bracketed body is read by the reader its opening bracket selects. */
  lemma Bracketed(open: char, body: string, close: string, rest: string)
    requires open in ['[', '{']
    ensures ParseValue([open] + body + close + rest) ==
            if open == '[' then ParseArray(body + (close + rest)) else ParseObject(body + (close + rest))
  {
    var s := [open] + body + close + rest;
    Dispatch(s);
    assert s[1..] == body + (close + rest);
  }

  lemma {:induction false} ValueRoundTrip(v: Json, rest: string)
    requires NoDigitFirst(rest)
    ensures ParseValue(Print(v) + rest) == Some((v, rest))
    decreases v, 1, 0
  {
    if v.JArray? {
      Bracketed('[', PrintItems(v.items), "]", rest);
      ArrayRoundTrip(v.items, rest);
    } else if v.JObject? {
      var keys := SortedKeys(v.fields);
      Bracketed('{', PrintFields(v, keys), "}", rest);
      ObjectRoundTrip(v, keys, rest);
    } else {
      ScalarRoundTrip(v, rest);
    }
  }

  lemma {:induction false} ArrayRoundTrip(items: seq<Json>, rest: string)
    ensures ParseArray(PrintItems(items) + ("]" + rest)) == Some((JArray(items), rest))
    decreases items, 0, 1
  {
    if items == [] {
      EatFirst(']', rest);
      assert PrintItems(items) + ("]" + rest) == [']'] + rest;
    } else {
      ItemsRoundTrip(items, rest);
      NotClosed(Print(items[0]), PrintItems(items) + ("]" + rest), ']');
    }
  }

  /** What starts a value is not what closes a container. */
  lemma NotClosed(start: string, s: string, c: char)
    requires start != "" && StartsWith(s, start) && c in [']', '}']
    requires start[0] in ['n', 't', 'f', '"', '[', '{', '-'] || IsDigit(start[0])
    ensures Eat(s, c) == None
  {
    assert s[0] == s[..|start|][0] == start[0];
  }

  lemma {:induction false} ItemsRoundTrip(items: seq<Json>, rest: string)
    requires items != []
    ensures ParseItems(PrintItems(items) + ("]" + rest)) == Some((items, rest))
    ensures Print(items[0]) != "" && StartsWith(PrintItems(items) + ("]" + rest), Print(items[0]))
    ensures Print(items[0])[0] in ['n', 't', 'f', '"', '[', '{', '-'] || IsDigit(Print(items[0])[0])
    decreases items, 0, 0
  {
    hide ParseValue, Print, Eat;
    PrintStarts(items[0]);
    if |items| == 1 {
      EatFirst(']', rest);
      ValueRoundTrip(items[0], "]" + rest);
      assert items == [items[0]];
    } else {
      var first, tail := Print(items[0]), PrintItems(items[1..]) + ("]" + rest);
      var s := first + ("," + tail);
      assert PrintItems(items) + ("]" + rest) == s;
      ValueRoundTrip(items[0], "," + tail);
      EatFirst(',', tail);
      ItemsRoundTrip(items[1..], rest);
      assert items == [items[0]] + items[1..];
      assert s[..|first|] == first;
    }
  }

  lemma {:induction false} FieldRoundTrip(whole: Json, key: string, rest: string)
    requires whole.JObject? && key in whole.fields && NoDigitFirst(rest)
    ensures ParseField(PrintField(whole, key) + rest) == Some((key, whole.fields[key], rest))
    ensures PrintField(whole, key)[0] == '"'
    decreases whole, 0, 0
  {
    hide ParseValue, ParseChars, Print, EscapeAll, Eat, IsDigit;
    var v := whole.fields[key];
    var afterColon := Print(v) + rest;
    var afterOpen := EscapeAll(key) + ("\"" + (":" + afterColon));
    assert PrintField(whole, key) + rest == ['"'] + afterOpen;
    EatFirst('"', afterOpen);
    StringRoundTrip(key, ":" + afterColon);
    EatFirst(':', afterColon);
    ValueRoundTrip(v, rest);
  }

  lemma {:induction false} FieldsRoundTrip(whole: Json, keys: seq<string>, acc: map<string, Json>, rest: string)
    requires whole.JObject? && keys != [] && forall k :: k in keys ==> k in whole.fields
    ensures ParseFields(PrintFields(whole, keys) + ("}" + rest), acc) ==
            Some((acc + (map k | k in keys :: whole.fields[k]), rest))
    ensures PrintFields(whole, keys) != "" && PrintFields(whole, keys)[0] == '"'
    decreases whole, 0, |keys| + 1
  {
    hide ParseField, ParseValue, Print, PrintField, Eat;
    EatFirst('}', rest);
    var acc' := acc[keys[0] := whole.fields[keys[0]]];
    if |keys| == 1 {
      FieldRoundTrip(whole, keys[0], "}" + rest);
      assert acc' == acc + (map k | k in keys :: whole.fields[k]);
    } else {
      var tail := PrintFields(whole, keys[1..]) + ("}" + rest);
      assert PrintFields(whole, keys) + ("}" + rest) == PrintField(whole, keys[0]) + ("," + tail);
      FieldRoundTrip(whole, keys[0], "," + tail);
      EatFirst(',', tail);
      FieldsRoundTrip(whole, keys[1..], acc', rest);
      MapSplit(whole.fields, keys, acc);
    }
  }

  lemma MapSplit(m: map<string, Json>, keys: seq<string>, acc: map<string, Json>)
    requires keys != [] && forall k :: k in keys ==> k in m
    ensures acc[keys[0] := m[keys[0]]] + (map k | k in keys[1..] :: m[k]) == acc + (map k | k in keys :: m[k])
  {
    assert forall k :: k in keys <==> k == keys[0] || k in keys[1..];
  }

  lemma {:induction false} ObjectRoundTrip(whole: Json, keys: seq<string>, rest: string)
    requires whole.JObject? && forall k :: k in keys ==> k in whole.fields
    ensures ParseObject(PrintFields(whole, keys) + ("}" + rest)) ==
            Some((JObject(map k | k in keys :: whole.fields[k]), rest))
    decreases whole, 0, |keys| + 2
  {
    var t := PrintFields(whole, keys) + ("}" + rest);
    if keys == [] {
      assert t == ['}'] + rest;
      EatFirst('}', rest);
    } else {
      FieldsRoundTrip(whole, keys, map[], rest);
      NotClosed(PrintFields(whole, keys), t, '}');
      assert map[] + (map k | k in keys :: whole.fields[k]) == (map k | k in keys :: whole.fields[k]);
    }
  }

  /** An object prints all its fields, each once. */
  lemma SortedKeys(fields: map<string, Json>) returns (keys: seq<string>)
    ensures keys == Sorted(fields.Keys)
    ensures forall k :: k in keys <==> k in fields
    ensures (map k | k in keys :: fields[k]) == fields
  {
    keys := Sorted(fields.Keys);
    SortedFacts(fields.Keys);
    assert forall k :: k in keys <==> k in Elements(keys);
  }

  /** Reading a printed value gives it back. */
  lemma RoundTrip(v: Json)
    ensures Parse(Print(v)) == Some(v)
  {
    assert Print(v) + "" == Print(v);
    ValueRoundTrip(v, "");
  }

  lemma PrintInjective(v: Json, w: Json)
    requires Print(v) == Print(w)
    ensures v == w
  {
    RoundTrip(v);
    RoundTrip(w);
  }

  // ----- what else the reader takes: sections 2, 6 and 7 of RFC 8259 -----

  predicate Blank(c: char) { c == ' ' || c == '\t' || c == '\n' || c == '\r' }

  lemma {:induction false} SkipSpaceIs(s: string) returns (n: nat)
    ensures n <= |s| && SkipSpace(s) == s[n..]
    ensures (forall i :: 0 <= i < n ==> Blank(s[i])) && (n < |s| ==> !Blank(s[n]))
  {
    if s != "" && Blank(s[0]) {
      var m := SkipSpaceIs(s[1..]);
      n := m + 1;
    } else {
      n := 0;
    }
  }

  lemma {:induction false} SkipsBlanks(pre: string, s: string)
    requires forall i :: 0 <= i < |pre| ==> Blank(pre[i])
    ensures SkipSpace(pre + s) == SkipSpace(s)
  {
    if pre == "" {
      assert pre + s == s;
    } else {
      assert (pre + s)[1..] == pre[1..] + s;
      SkipsBlanks(pre[1..], s);
    }
  }

  /** White space around a value's text changes nothing. */
  lemma PaddedRoundTrip(pre: string, v: Json, post: string)
    requires forall i :: 0 <= i < |pre| ==> Blank(pre[i])
    requires forall i :: 0 <= i < |post| ==> Blank(post[i])
    ensures Parse(pre + Print(v) + post) == Some(v)
  {
    hide Print;
    ValueRoundTrip(v, post);
    SkipsBlanks(pre, Print(v) + post);
    assert pre + Print(v) + post == pre + (Print(v) + post);
    SkipsBlanks(post, "");
    assert post + "" == post;
    SameFirst(pre + (Print(v) + post), Print(v) + post);
  }

  lemma SameFirst(a: string, b: string)
    requires SkipSpace(a) == SkipSpace(b)
    ensures ParseValue(a) == ParseValue(b)
  {
  }

  const UPPER_HEX := "0123456789ABCDEF"

  /** Four hexadecimal digits of either case give a code unit, most significant first; surrogates give none. */
  lemma UnicodeIs(s: string, ds: seq<nat>)
    requires |s| == 4 && |ds| == 4
    requires forall i :: 0 <= i < 4 ==> ds[i] < 16 && (s[i] == HEX[ds[i]] || s[i] == UPPER_HEX[ds[i]])
    ensures var code := 0x1000 * ds[0] + 0x100 * ds[1] + 0x10 * ds[2] + ds[3];
            Unicode(s) == if 0xD800 <= code < 0xE000 then None else Some(code as char)
  {
    hide HexValue;
    HexIs(ds[0]);
    HexIs(ds[1]);
    HexIs(ds[2]);
    HexIs(ds[3]);
    assert s[0] in [HEX[ds[0]], UPPER_HEX[ds[0]]] && s[1] in [HEX[ds[1]], UPPER_HEX[ds[1]]];
    assert s[2] in [HEX[ds[2]], UPPER_HEX[ds[2]]] && s[3] in [HEX[ds[3]], UPPER_HEX[ds[3]]];
  }

  lemma HexIs(d: nat)
    requires d < 16
    ensures HexValue(HEX[d]) == Some(d) && HexValue(UPPER_HEX[d]) == Some(d)
  {
  }

  lemma NoHex(c: char)
    requires c !in HEX && c !in UPPER_HEX
    ensures HexValue(c) == None
  {
  }

  /** The eight short escapes, and no other. */
  lemma ShortEscapes(c: char)
    ensures SimpleEscape('"') == Some('"') && SimpleEscape('\\') == Some('\\') && SimpleEscape('/') == Some('/')
    ensures SimpleEscape('b') == Some('\U{0008}') && SimpleEscape('f') == Some('\U{000C}')
    ensures SimpleEscape('n') == Some('\n') && SimpleEscape('r') == Some('\r') && SimpleEscape('t') == Some('\t')
    ensures c !in {'"', '\\', '/', 'b', 'f', 'n', 'r', 't'} ==> SimpleEscape(c) == None
  {
  }

  /** A number has a digit first, and no other after a zero. */
  lemma NatRefused(s: string)
    ensures ParseNat(s) == None <==>
            s == "" || !('0' <= s[0] <= '9') || (s[0] == '0' && |s| > 1 && '0' <= s[1] <= '9')
  {
    if s != "" && '0' <= s[0] <= '9' {
      assert DigitSpan(s) == 1 + DigitSpan(s[1..]);
      assert |s| > 1 ==> s[1..][0] == s[1];
      assert DigitSpan(s[1..]) > 0 <==> |s| > 1 && '0' <= s[1] <= '9';
    }
  }
}
