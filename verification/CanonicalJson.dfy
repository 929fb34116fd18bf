/**
 The canonical JSON printer and a reader for its output.

 The reader follows the grammar of RFC 8259 (strings as in its section 7), plus the two things
 the printer emits outside it: the word undefined, and empty array slots. Reading back what was
 printed gives the value's normal form, so the text loses key order and nothing else.
 */
module CanonicalJson {
  import opened Wrappers
  import opened JsonValue
  import opened StringOrder

  // ---- Strings ----

  function HexDigit(d: nat): char
    requires d < 16
  {
    if d < 10 then ('0' as int + d) as char else ('a' as int + d - 10) as char
  }

  function HexValue(c: char): Option<nat> {
    if '0' <= c <= '9' then Some(c as int - '0' as int)
    else if 'a' <= c <= 'f' then Some(c as int - 'a' as int + 10)
    else if 'A' <= c <= 'F' then Some(c as int - 'A' as int + 10)
    else None
  }

  /** How JSON.stringify writes one character inside a string. */
  function EscapeChar(c: char): string {
    if c == '"' then ['\\', '"']
    else if c == '\\' then ['\\', '\\']
    else if c as int == 8 then ['\\', 'b']
    else if c as int == 9 then ['\\', 't']
    else if c as int == 10 then ['\\', 'n']
    else if c as int == 12 then ['\\', 'f']
    else if c as int == 13 then ['\\', 'r']
    else if c as int < 32 then ['\\', 'u', '0', '0', HexDigit(c as int / 16), HexDigit(c as int % 16)]
    else [c]
  }

  /**
   One character in full: quote and backslash behind a backslash, five control characters by letter,
   the others by four small hex digits, all the rest as they are.
   */
  lemma EscapeInFull(c: char)
    ensures
      var k := c as int;
      EscapeChar(c) ==
      if c in {'"', '\\'} then "\\" + [c]
      else if k >= 32 then [c]
      else if k in {8, 9, 10, 12, 13} then "\\" + ["btn-fr"[k - 8]]
      else "\\u00" + [if k >= 16 then '1' else '0'] + ["0123456789abcdef"[k % 16]]
  {
    var k := c as int;
    if c in {'"', '\\'} || k >= 32 {
    } else if k in {8, 9, 10, 12, 13} {
    } else {
      HexDigitExactly(k / 16);
      HexDigitExactly(k % 16);
    }
  }

  lemma HexDigitExactly(d: nat)
    requires d < 16
    ensures HexDigit(d) == "0123456789abcdef"[d]
  {
  }

  function Escape(s: string): string {
    if s == "" then "" else EscapeChar(s[0]) + Escape(s[1..])
  }

  function Quote(s: string): string {
    ['"'] + Escape(s) + ['"']
  }

  // ---- Printing ----

  function Commas(texts: seq<string>): string {
    if |texts| == 0 then ""
    else if |texts| == 1 then texts[0]
    else texts[0] + [','] + Commas(texts[1..])
  }

  /** The text of a value inside another. */
  function Text(v: Json): string
    decreases v
  {
    match v
    case Undefined => "undefined"
    case Null => "null"
    case NonFinite => "null"
    case Bool(b) => if b then "true" else "false"
    case Num(t) => t
    case Str(s) => Quote(s)
    case Arr(items) => ['['] + Commas(Slots(items)) + [']']
    case Obj(fields) => ['{'] + Commas(Lines(Sort(Printed(fields)))) + ['}']
  }

  /** join() leaves an undefined slot empty. */
  function Slots(items: seq<Json>): (r: seq<string>)
    ensures |r| == |items|
    decreases items
  {
    if items == [] then []
    else [if items[0].Undefined? then "" else Text(items[0])] + Slots(items[1..])
  }

  /** Every field's value printed, still in insertion order. */
  function Printed(fields: seq<Field<Json>>): (r: seq<Field<string>>)
    ensures |r| == |fields|
    decreases fields
  {
    if fields == [] then [] else [Field(fields[0].key, Text(fields[0].value))] + Printed(fields[1..])
  }

  function Lines(ps: seq<Field<string>>): (r: seq<string>)
    ensures |r| == |ps|
  {
    if ps == [] then [] else [Quote(ps[0].key) + [':'] + ps[0].value] + Lines(ps[1..])
  }

  /** The printer itself; None where it gives undefined instead of a string. */
  function CanonicalText(v: Json): Option<string> {
    if v.Undefined? then None else Some(Text(v))
  }

  // ---- Printing the normal form gives the same text ----

  lemma {:induction false} PrintedInsert(x: Field<Json>, fields: seq<Field<Json>>)
    ensures Printed(Insert(x, fields)) == Insert(Field(x.key, Text(x.value)), Printed(fields))
  {
    if fields == [] || !Less(fields[0].key, x.key) {
      assert ([x] + fields)[1..] == fields;
    } else {
      PrintedInsert(x, fields[1..]);
      assert ([fields[0]] + Insert(x, fields[1..]))[1..] == Insert(x, fields[1..]);
      assert Printed(fields)[1..] == Printed(fields[1..]);
    }
  }

  lemma {:induction false} PrintedSort(fields: seq<Field<Json>>)
    ensures Printed(Sort(fields)) == Sort(Printed(fields))
  {
    if fields == [] {
    } else {
      PrintedSort(fields[1..]);
      PrintedInsert(fields[0], Sort(fields[1..]));
      assert Printed(fields)[1..] == Printed(fields[1..]);
    }
  }

  lemma {:induction false} NormText(v: Json)
    requires Valid(v)
    ensures Text(Norm(v)) == Text(v)
    decreases v, 1
  {
    match v
    case Arr(items) =>
      NormSlots(items);
      if NormAll(items) == [Undefined] {
        assert Commas(Slots([Undefined])) == "" == Commas(Slots([]));
      }
    case Obj(fields) =>
      NormPrinted(fields);
      PrintedSort(NormFields(fields));
      SortSorts(Printed(fields));
      SortOfSorted(Sort(Printed(fields)));
    case _ =>
  }

  lemma {:induction false} NormSlots(items: seq<Json>)
    requires forall i | 0 <= i < |items| :: Valid(items[i])
    ensures Slots(NormAll(items)) == Slots(items)
    decreases items, 0
  {
    if items == [] {
    } else {
      NormText(items[0]);
      NormIsNormal(items[0]);
      NormSlots(items[1..]);
      assert NormAll(items)[1..] == NormAll(items[1..]);
    }
  }

  lemma {:induction false} NormPrinted(fields: seq<Field<Json>>)
    requires forall i | 0 <= i < |fields| :: Valid(fields[i].value)
    ensures Printed(NormFields(fields)) == Printed(fields)
    decreases fields, 0
  {
    if fields == [] {
    } else {
      NormText(fields[0].value);
      NormPrinted(fields[1..]);
      assert NormFields(fields)[1..] == NormFields(fields[1..]);
    }
  }

  // ---- Reading ----

  /** The escape after a backslash. */
  function ReadEscape(s: string): (r: Option<(char, string)>)
    ensures r.Some? ==> |r.value.1| < |s|
  {
    if s == "" then None
    else if s[0] in {'"', '\\', '/'} then Some((s[0], s[1..]))
    else if s[0] == 'b' then Some((8 as char, s[1..]))
    else if s[0] == 't' then Some((9 as char, s[1..]))
    else if s[0] == 'n' then Some((10 as char, s[1..]))
    else if s[0] == 'f' then Some((12 as char, s[1..]))
    else if s[0] == 'r' then Some((13 as char, s[1..]))
    else if s[0] == 'u' && |s| >= 5 then
      match (HexValue(s[1]), HexValue(s[2]), HexValue(s[3]), HexValue(s[4]))
      case (Some(a), Some(b), Some(c), Some(d)) =>
        var code := ((a * 16 + b) * 16 + c) * 16 + d;
        if code < 0xD800 || 0xE000 <= code < 0x10000 then Some((code as char, s[5..])) else None
      case _ => None
    else None
  }

  /** The rest of a string after its opening quote. */
  function ReadChars(s: string): (r: Option<(string, string)>)
    ensures r.Some? ==> |r.value.1| < |s|
    decreases |s|
  {
    if s == "" || s[0] as int < 32 then None
    else if s[0] == '"' then Some(("", s[1..]))
    else if s[0] != '\\' then
      match ReadChars(s[1..])
      case None => None
      case Some((t, rest)) => Some(([s[0]] + t, rest))
    else
      match ReadEscape(s[1..])
      case None => None
      case Some((c, after)) =>
        match ReadChars(after)
        case None => None
        case Some((t, rest)) => Some(([c] + t, rest))
  }

  /** Length of the longest run of number characters at the front. */
  function NumRun(s: string): (n: nat)
    ensures n <= |s|
  {
    if s == "" || !NumChar(s[0]) then 0 else 1 + NumRun(s[1..])
  }

  function ReadValue(s: string): (r: Option<(Json, string)>)
    ensures r.Some? ==> |r.value.1| < |s|
    decreases |s|, 0
  {
    if s == "" then None
    else if s[0] == '"' then
      match ReadChars(s[1..])
      case None => None
      case Some((t, rest)) => Some((Str(t), rest))
    else if s[0] == '[' then
      if |s| > 1 && s[1] == ']' then Some((Arr([]), s[2..]))
      else
        match ReadSlots(s[1..])
        case None => None
        case Some((items, rest)) => Some((Arr(items), rest))
    else if s[0] == '{' then
      if |s| > 1 && s[1] == '}' then Some((Obj([]), s[2..]))
      else
        match ReadLines(s[1..])
        case None => None
        case Some((fields, rest)) => Some((Obj(fields), rest))
    else if '0' <= s[0] <= '9' || s[0] == '-' then Some((Num(s[..NumRun(s)]), s[NumRun(s)..]))
    else if "true" <= s then Some((Bool(true), s[4..]))
    else if "false" <= s then Some((Bool(false), s[5..]))
    else if "null" <= s then Some((Null, s[4..]))
    else if "undefined" <= s then Some((Undefined, s[9..]))
    else None
  }

  /** One slot: nothing before a comma or bracket, or a value. */
  function ReadSlot(s: string): (r: Option<(Json, string)>)
    ensures r.Some? ==> |r.value.1| <= |s|
    decreases |s|, 1
  {
    if s != "" && s[0] in {',', ']'} then Some((Undefined, s)) else ReadValue(s)
  }

  /** The slots of an array up to and including its closing bracket. */
  function ReadSlots(s: string): (r: Option<(seq<Json>, string)>)
    ensures r.Some? ==> |r.value.1| < |s|
    decreases |s|, 2
  {
    match ReadSlot(s)
    case None => None
    case Some((v, rest)) =>
      if rest == "" then None
      else if rest[0] == ']' then Some(([v], rest[1..]))
      else if rest[0] != ',' then None
      else
        match ReadSlots(rest[1..])
        case None => None
        case Some((more, after)) => Some(([v] + more, after))
  }

  /** The fields of an object up to and including its closing brace. */
  function ReadLines(s: string): (r: Option<(seq<Field<Json>>, string)>)
    ensures r.Some? ==> |r.value.1| < |s|
    decreases |s|, 1
  {
    if s == "" || s[0] != '"' then None
    else
      match ReadChars(s[1..])
      case None => None
      case Some((key, colon)) =>
        if colon == "" || colon[0] != ':' then None
        else
          match ReadValue(colon[1..])
          case None => None
          case Some((v, rest)) =>
            if rest == "" then None
            else if rest[0] == '}' then Some(([Field(key, v)], rest[1..]))
            else if rest[0] != ',' then None
            else
              match ReadLines(rest[1..])
              case None => None
              case Some((more, after)) => Some(([Field(key, v)] + more, after))
  }

  // ---- Reading what was printed ----

  lemma Assoc(a: string, b: string, c: string)
    ensures a + b + c == a + (b + c)
  {
  }

  lemma HexBack(d: nat)
    requires d < 16
    ensures HexValue(HexDigit(d)) == Some(d)
  {
  }

  lemma ShortEscapeBack(c: char, t: string)
    requires c == '"' || c == '\\' || c as int in {8, 9, 10, 12, 13}
    ensures |EscapeChar(c)| == 2 && EscapeChar(c)[0] == '\\'
    ensures ReadEscape([EscapeChar(c)[1]] + t) == Some((c, t))
  {
    assert ([EscapeChar(c)[1]] + t)[1..] == t;
  }

  lemma LongEscapeBack(c: char, t: string)
    requires c as int < 32
    ensures ReadEscape(['u', '0', '0', HexDigit(c as int / 16), HexDigit(c as int % 16)] + t) == Some((c, t))
  {
    HexBack(c as int / 16);
    HexBack(c as int % 16);
    HexBack(0);
    var s := ['u', '0', '0', HexDigit(c as int / 16), HexDigit(c as int % 16)] + t;
    assert s[5..] == t;
    assert s[0] == 'u' && s[1] == '0' && s[2] == '0';
  }

  lemma ReadAfterEscape(c: char, u: string, t: string)
    requires ReadEscape(u) == Some((c, t)) && ReadChars(t).Some?
    ensures ReadChars(['\\'] + u) == Some(([c] + ReadChars(t).value.0, ReadChars(t).value.1))
  {
    assert (['\\'] + u)[1..] == u;
  }

  lemma ReadShortEscape(c: char, t: string)
    requires ReadChars(t).Some? && (c == '"' || c == '\\' || c as int in {8, 9, 10, 12, 13})
    ensures ReadChars(EscapeChar(c) + t) == Some(([c] + ReadChars(t).value.0, ReadChars(t).value.1))
  {
    ShortEscapeBack(c, t);
    var u := [EscapeChar(c)[1]] + t;
    ReadAfterEscape(c, u, t);
    assert EscapeChar(c) + t == ['\\'] + u;
  }

  lemma ReadLongEscape(c: char, t: string)
    requires ReadChars(t).Some? && c as int < 32 && c as int !in {8, 9, 10, 12, 13}
    ensures ReadChars(EscapeChar(c) + t) == Some(([c] + ReadChars(t).value.0, ReadChars(t).value.1))
  {
    LongEscapeBack(c, t);
    var u := ['u', '0', '0', HexDigit(c as int / 16), HexDigit(c as int % 16)] + t;
    ReadAfterEscape(c, u, t);
    assert EscapeChar(c) + t == ['\\'] + u;
  }

  lemma ReadEscapedChar(c: char, t: string)
    requires ReadChars(t).Some?
    ensures ReadChars(EscapeChar(c) + t) == Some(([c] + ReadChars(t).value.0, ReadChars(t).value.1))
  {
    if c == '"' || c == '\\' || c as int in {8, 9, 10, 12, 13} {
      ReadShortEscape(c, t);
    } else if c as int < 32 {
      ReadLongEscape(c, t);
    } else {
      assert ([c] + t)[1..] == t;
    }
  }

  lemma {:induction false} ReadEscaped(s: string, rest: string)
    ensures ReadChars(Escape(s) + ['"'] + rest) == Some((s, rest))
  {
    if s == "" {
      assert Escape(s) + ['"'] + rest == ['"'] + rest;
      assert (['"'] + rest)[1..] == rest;
    } else {
      ReadEscaped(s[1..], rest);
      var t := Escape(s[1..]) + ['"'] + rest;
      Assoc(EscapeChar(s[0]), Escape(s[1..]), ['"']);
      Assoc(EscapeChar(s[0]), Escape(s[1..]) + ['"'], rest);
      ReadEscapedChar(s[0], t);
      assert [s[0]] + s[1..] == s;
    }
  }

  /** What may follow a value. */
  predicate Ends(rest: string) {
    rest == "" || rest[0] in {',', ']', '}'}
  }

  lemma {:induction false} NumRunStops(t: string, rest: string)
    requires (forall c | c in t :: NumChar(c)) && Ends(rest)
    ensures NumRun(t + rest) == |t|
  {
    if t == "" {
      assert t + rest == rest;
    } else {
      assert (t + rest)[1..] == t[1..] + rest;
      assert t[0] in t;
      NumRunStops(t[1..], rest);
    }
  }

  lemma TextStarts(v: Json)
    requires Valid(v)
    ensures Text(v) != "" && Text(v)[0] !in {',', ']', '}'}
  {
  }

  lemma PrefixRest(word: string, rest: string)
    ensures word <= word + rest && (word + rest)[|word|..] == rest
    ensures word != "" ==> word + rest != "" && (word + rest)[0] == word[0]
  {
  }

  lemma ReadBool(b: bool, rest: string)
    ensures ReadValue(Text(Bool(b)) + rest) == Some((Bool(b), rest))
  {
    if b {
      PrefixRest("true", rest);
    } else {
      PrefixRest("false", rest);
      assert "false"[0] != "true"[0];
    }
  }

  lemma ReadNull(rest: string)
    ensures ReadValue(Text(Null) + rest) == Some((Null, rest))
  {
    PrefixRest("null", rest);
    assert "null"[0] != "true"[0] && "null"[0] != "false"[0];
  }

  lemma ReadUndefined(rest: string)
    ensures ReadValue(Text(Undefined) + rest) == Some((Undefined, rest))
  {
    PrefixRest("undefined", rest);
    assert "undefined"[0] != "true"[0] && "undefined"[0] != "false"[0] && "undefined"[0] != "null"[0];
  }

  lemma ReadNumber(t: string, rest: string)
    requires Valid(Num(t)) && Ends(rest)
    ensures ReadValue(t + rest) == Some((Num(t), rest))
  {
    NumRunStops(t, rest);
    assert (t + rest)[..|t|] == t && (t + rest)[|t|..] == rest;
  }

  lemma ReadString(chars: string, rest: string)
    ensures ReadValue(Text(Str(chars)) + rest) == Some((Str(chars), rest))
  {
    ReadEscaped(chars, rest);
    var q, e := ['"'], Escape(chars);
    Assoc(q, e, q);
    Assoc(q, e + q, rest);
    assert (q + (e + q + rest))[1..] == e + q + rest;
  }

  /** A text in brackets, taken apart. */
  lemma Bracketed(open: char, body: string, close: char, rest: string)
    requires body != ""
    ensures
      var s := [open] + body + [close] + rest;
      s[0] == open && s[1] == body[0] && s[1..] == body + [close] + rest
  {
  }

  lemma ReadArray(body: string, items: seq<Json>, rest: string)
    requires ReadSlots(body + [']'] + rest) == Some((items, rest)) && body != "" && body[0] != ']'
    ensures ReadValue(['['] + body + [']'] + rest) == Some((Arr(items), rest))
  {
    Bracketed('[', body, ']', rest);
  }

  lemma ReadObject(body: string, fields: seq<Field<Json>>, rest: string)
    requires ReadLines(body + ['}'] + rest) == Some((fields, rest)) && body != "" && body[0] == '"'
    ensures ReadValue(['{'] + body + ['}'] + rest) == Some((Obj(fields), rest))
  {
    Bracketed('{', body, '}', rest);
  }

  lemma ReadEmpty(rest: string)
    ensures ReadValue(Text(Arr([])) + rest) == Some((Arr([]), rest))
    ensures ReadValue(Text(Obj([])) + rest) == Some((Obj([]), rest))
  {
    assert Text(Arr([])) == ['[', ']'] && Text(Obj([])) == ['{', '}'];
    assert (['[', ']'] + rest)[2..] == rest && (['{', '}'] + rest)[2..] == rest;
  }

  /** A normal value is read back as it is. */
  lemma {:induction false} ReadText(v: Json, rest: string)
    requires Valid(v) && Normal(v) && Ends(rest)
    ensures ReadValue(Text(v) + rest) == Some((v, rest))
    decreases v, 0
  {
    match v
    case Num(t) =>
      ReadNumber(t, rest);
    case Str(chars) =>
      ReadString(chars, rest);
    case Arr(items) =>
      if items == [] {
        ReadEmpty(rest);
      } else {
        ReadSlotsText(items, rest);
        ArrayStarts(items);
        ReadArray(Commas(Slots(items)), items, rest);
      }
    case Obj(fields) =>
      SortOfSorted(fields);
      PrintedSort(fields);
      if fields == [] {
        ReadEmpty(rest);
      } else {
        ReadLinesText(fields, rest);
        ObjectStarts(fields);
        ReadObject(Commas(Lines(Printed(fields))), fields, rest);
      }
    case Bool(b) =>
      ReadBool(b, rest);
    case Null =>
      ReadNull(rest);
    case Undefined =>
      ReadUndefined(rest);
  }

  lemma ObjectStarts(fields: seq<Field<Json>>)
    requires fields != []
    ensures Commas(Lines(Printed(fields))) != "" && Commas(Lines(Printed(fields)))[0] == '"'
  {
    var texts := Lines(Printed(fields));
    assert texts[0][0] == '"';
  }

  /** A non-empty normal array does not open with a closing bracket. */
  lemma ArrayStarts(items: seq<Json>)
    requires items != [] && items != [Undefined] && forall i | 0 <= i < |items| :: Valid(items[i])
    ensures Commas(Slots(items)) != "" && Commas(Slots(items))[0] != ']'
  {
    if !items[0].Undefined? {
      TextStarts(items[0]);
    }
  }

  /** What follows the first of several comma-separated texts. */
  function AfterFirst(texts: seq<string>, close: char, rest: string): string
    requires texts != []
  {
    if |texts| == 1 then [close] + rest else [','] + (Commas(texts[1..]) + [close] + rest)
  }

  lemma CommasSplit(texts: seq<string>, close: char, rest: string)
    requires texts != []
    ensures Commas(texts) + [close] + rest == texts[0] + AfterFirst(texts, close, rest)
  {
    if |texts| == 1 {
      Assoc(texts[0], [close], rest);
    } else {
      var tail := Commas(texts[1..]);
      Assoc(texts[0] + [','], tail, [close]);
      Assoc(texts[0] + [','], tail + [close], rest);
      Assoc(texts[0], [','], tail + [close] + rest);
    }
  }

  lemma {:induction false} ReadSlotsText(items: seq<Json>, rest: string)
    requires items != [] && forall i | 0 <= i < |items| :: Valid(items[i]) && Normal(items[i])
    ensures ReadSlots(Commas(Slots(items)) + [']'] + rest) == Some((items, rest))
    decreases items
  {
    var texts, more := Slots(items), items[1..];
    var after := AfterFirst(texts, ']', rest);
    assert texts[1..] == Slots(more);
    CommasSplit(texts, ']', rest);
    ReadSlotText(items[0], after);
    assert ReadSlot(texts[0] + after) == Some((items[0], after));
    assert items == [items[0]] + more;
    if more == [] {
      assert after[1..] == rest && items == [items[0]];
    } else {
      ReadSlotsText(more, rest);
      assert after[1..] == Commas(Slots(more)) + [']'] + rest;
    }
  }

  lemma {:induction false} ReadSlotText(v: Json, after: string)
    requires Valid(v) && Normal(v) && after != "" && after[0] in {',', ']'}
    ensures ReadSlot((if v.Undefined? then "" else Text(v)) + after) == Some((v, after))
    decreases v, 1
  {
    if v.Undefined? {
      assert "" + after == after;
    } else {
      TextStarts(v);
      ReadText(v, after);
    }
  }

  /** What follows an object's first field. */
  function AfterField(more: seq<Field<Json>>, rest: string): (s: string)
    ensures s != "" && s[0] in {',', '}'}
  {
    if more == [] then ['}'] + rest else [','] + (Commas(Lines(Printed(more))) + ['}'] + rest)
  }

  lemma LinesSplit(fields: seq<Field<Json>>, rest: string)
    requires fields != []
    ensures Commas(Lines(Printed(fields))) + ['}'] + rest ==
            Quote(fields[0].key) + [':'] + Text(fields[0].value) + AfterField(fields[1..], rest)
  {
    var texts := Lines(Printed(fields));
    assert Printed(fields)[1..] == Printed(fields[1..]);
    assert texts[1..] == Lines(Printed(fields[1..]));
    CommasSplit(texts, '}', rest);
  }

  lemma AfterFieldRest(more: seq<Field<Json>>, rest: string)
    ensures AfterField(more, rest)[1..] == if more == [] then rest else Commas(Lines(Printed(more))) + ['}'] + rest
  {
  }

  lemma {:induction false} ReadLinesText(fields: seq<Field<Json>>, rest: string)
    requires fields != [] && forall i | 0 <= i < |fields| :: Valid(fields[i].value) && Normal(fields[i].value)
    ensures ReadLines(Commas(Lines(Printed(fields))) + ['}'] + rest) == Some((fields, rest))
    decreases fields
  {
    var key, v, more := fields[0].key, fields[0].value, fields[1..];
    var after := AfterField(more, rest);
    LinesSplit(fields, rest);
    AfterFieldRest(more, rest);
    ReadText(v, after);
    ReadLineThen(key, v, after);
    assert fields == [Field(key, v)] + more;
    if more == [] {
      assert [Field(key, v)] + more == [Field(key, v)];
    } else {
      ReadLinesText(more, rest);
    }
  }

  /** Reading one field, up to what follows its value. */
  lemma ReadLine(key: string, v: Json, after: string)
    requires after != "" && ReadValue(Text(v) + after) == Some((v, after))
    ensures
      var s := Quote(key) + [':'] + Text(v) + after;
      && s[0] == '"' && ReadChars(s[1..]).Some?
      && var (k, colon) := ReadChars(s[1..]).value;
         k == key && colon != "" && colon[0] == ':' && ReadValue(colon[1..]) == Some((v, after))
  {
    var t, q := Text(v), ['"'];
    var colon := [':'] + (t + after);
    Assoc(Quote(key), [':'], t);
    Assoc(Quote(key), [':'] + t, after);
    Assoc([':'], t, after);
    Assoc(q, Escape(key), q);
    Assoc(q, Escape(key) + q, colon);
    var body := Escape(key) + q + colon;
    assert (q + body)[1..] == body;
    ReadEscaped(key, colon);
    assert colon[1..] == t + after;
  }

  /** A field is followed by the closing brace, or by a comma and the other fields. */
  lemma ReadLineThen(key: string, v: Json, after: string)
    requires after != "" && ReadValue(Text(v) + after) == Some((v, after))
    ensures
      var s := Quote(key) + [':'] + Text(v) + after;
      && (after[0] == '}' ==> ReadLines(s) == Some(([Field(key, v)], after[1..])))
      && (after[0] == ',' && ReadLines(after[1..]).Some? ==>
            ReadLines(s) == Some(([Field(key, v)] + ReadLines(after[1..]).value.0, ReadLines(after[1..]).value.1)))
  {
    ReadLine(key, v, after);
  }

  // ---- What the text determines ----

  /** Reading the printed text gives the value up to key order. */
  lemma ReadBack(v: Json)
    requires Valid(v)
    ensures ReadValue(Text(v)) == Some((Norm(v), "")) && Same(v, Norm(v))
  {
    NormIsNormal(v);
    NormText(v);
    ReadText(Norm(v), "");
    assert Text(v) + "" == Text(v);
    NormIdempotent(v);
    SameExactly(v, Norm(v));
  }

  /** In the printed text the keys of every object ascend, at every depth. */
  lemma PrintedKeysAscend(v: Json)
    requires Valid(v)
    ensures ReadValue(Text(v)).Some? && ReadValue(Text(v)).value.1 == "" && KeysAscend(ReadValue(Text(v)).value.0)
  {
    ReadBack(v);
    NormIsNormal(v);
    NormalAscends(Norm(v));
  }

  lemma NormIdempotent(v: Json)
    requires Valid(v)
    ensures Norm(Norm(v)) == Norm(v)
  {
    NormIsNormal(v);
    NormalIsFixed(Norm(v));
  }

  lemma {:induction false} NormalIsFixed(v: Json)
    requires Valid(v) && Normal(v)
    ensures Norm(v) == v
    decreases v
  {
    match v
    case Arr(items) =>
      forall i | 0 <= i < |items|
        ensures Norm(items[i]) == items[i]
      {
        NormalIsFixed(items[i]);
      }
      assert NormAll(items) == items;
    case Obj(fields) =>
      forall i | 0 <= i < |fields|
        ensures Norm(fields[i].value) == fields[i].value
      {
        NormalIsFixed(fields[i].value);
      }
      assert NormFields(fields) == fields;
      SortOfSorted(fields);
    case _ =>
  }

  /**
   Two values print the same exactly when they are the same up to the order of object keys (and
   up to what JSON has no text for).
   */
  lemma TextExactly(v: Json, w: Json)
    requires Valid(v) && Valid(w)
    ensures CanonicalText(v) == CanonicalText(w) <==> Same(v, w)
  {
    SameExactly(v, w);
    ReadBack(v);
    ReadBack(w);
    NormText(v);
    NormText(w);
    NormIsNormal(v);
    NormIsNormal(w);
  }

  /** Among values with no non-finite number and no [undefined], equal text is equality up to key order. */
  lemma PlainTextExactly(v: Json, w: Json)
    requires Valid(v) && Valid(w) && Plain(v) && Plain(w)
    ensures CanonicalText(v) == CanonicalText(w) <==> EqualUpToKeys(v, w)
  {
    TextExactly(v, w);
    PlainSame(v, w);
  }

  /** Two arrays that differ and print alike: an undefined in a one-element array leaves no trace. */
  lemma UndefinedLeavesNoTrace()
    ensures CanonicalText(Arr([Undefined])) == CanonicalText(Arr([])) == Some("[]")
  {
    assert Slots([Undefined]) == [""] && Commas([""]) == "" && Commas([]) == "";
    assert ['['] + "" + [']'] == "[]";
  }

  /** A non-finite number prints as null does, wherever it stands in an array. */
  lemma {:induction false} NonFiniteReadsAsNull(before: seq<Json>, after: seq<Json>)
    ensures Slots(before + [NonFinite] + after) == Slots(before + [Null] + after)
    ensures CanonicalText(Arr(before + [NonFinite] + after)) == CanonicalText(Arr(before + [Null] + after))
    decreases |before|
  {
    if before == [] {
      assert ([] + [NonFinite] + after)[1..] == after == ([] + [Null] + after)[1..];
    } else {
      assert (before + [NonFinite] + after)[1..] == before[1..] + [NonFinite] + after;
      assert (before + [Null] + after)[1..] == before[1..] + [Null] + after;
      NonFiniteReadsAsNull(before[1..], after);
    }
  }
}
