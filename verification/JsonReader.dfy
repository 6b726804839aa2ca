/** A reader for JSON text (sections 2 to 7 of RFC 8259, without white space), and the round trip: reading
    what `JSON.stringify` writes gives the value back, which makes the text usable as a map key and as the
    input of a payload hash. A number is read as its text. */
module JsonReader {
  import opened Outcomes
  import opened Numerals
  import opened Json

  datatype Read<T> = Read(value: T, rest: string)

  // ---- strings ---------------------------------------------------------------------------------

  function HexValue(c: char): Option<nat> {
    if '0' <= c <= '9' then Some(c as int - '0' as int)
    else if 'a' <= c <= 'f' then Some(c as int - 'a' as int + 10)
    else if 'A' <= c <= 'F' then Some(c as int - 'A' as int + 10)
    else None
  }

  /** Four hexadecimal digits; surrogates are not characters on their own. */
  function ReadHex(s: string): Option<char> {
    if |s| < 4 then None
    else
      match (HexValue(s[0]), HexValue(s[1]), HexValue(s[2]), HexValue(s[3]))
      case (Some(a), Some(b), Some(c), Some(d)) =>
        var n := ((a * 16 + b) * 16 + c) * 16 + d;
        if 0 <= n < 0xD800 || 0xE000 <= n < 0x10000 then Some(n as char) else None
      case _ => None
  }

  /** The character an escape stands for, after its backslash. */
  function ReadEscape(s: string): (r: Option<Read<char>>)
    ensures r.Some? ==> |r.value.rest| < |s|
  {
    if s == [] then None
    else match s[0]
      case '\"' => Some(Read('\"', s[1..]))
      case '\\' => Some(Read('\\', s[1..]))
      case '/' => Some(Read('/', s[1..]))
      case 'b' => Some(Read(8 as char, s[1..]))
      case 'f' => Some(Read(12 as char, s[1..]))
      case 'n' => Some(Read(10 as char, s[1..]))
      case 'r' => Some(Read(13 as char, s[1..]))
      case 't' => Some(Read(9 as char, s[1..]))
      case 'u' =>
        (match ReadHex(s[1..])
         case Some(c) => Some(Read(c, s[5..]))
         case None => None)
      case _ => None
  }

  function ReadChar(s: string): (r: Option<Read<char>>)
    ensures r.Some? ==> |r.value.rest| < |s|
  {
    if s == [] || s[0] as int < 32 then None
    else if s[0] == '\\' then ReadEscape(s[1..])
    else Some(Read(s[0], s[1..]))
  }

  /** The characters up to the closing quote. */
  function ReadString(s: string): (r: Option<Read<string>>)
    ensures r.Some? ==> |r.value.rest| < |s|
  {
    if s == [] then None
    else if s[0] == '\"' then Some(Read("", s[1..]))
    else
      match ReadChar(s)
      case None => None
      case Some(Read(c, rest)) =>
        match ReadString(rest)
        case None => None
        case Some(Read(more, end)) => Some(Read([c] + more, end))
  }

  lemma HexRead(d: nat)
    requires d < 16
    ensures HexValue(HexDigit(d)) == Some(d)
  {
  }

  lemma ControlRead(c: char, x: string)
    requires c as int < 32
    ensures ReadEscape(['u', '0', '0', HexDigit(c as int / 16), HexDigit(c as int % 16)] + x) == Some(Read(c, x))
  {
    var s := ['u', '0', '0', HexDigit(c as int / 16), HexDigit(c as int % 16)] + x;
    HexRead(c as int / 16);
    HexRead(c as int % 16);
    var t := s[1..];
    assert t[0] == '0' && t[1] == '0' && t[2] == HexDigit(c as int / 16) && t[3] == HexDigit(c as int % 16);
    assert s[5..] == x;
  }

  lemma EscapeRead(c: char, x: string)
    ensures ReadChar(Escape(c) + x) == Some(Read(c, x))
    ensures Escape(c)[0] != '\"'
  {
    hide ReadHex;
    var e := Escape(c);
    var s := e + x;
    assert s[0] == e[0] && s[1..] == e[1..] + x;
    if |e| == 1 {
      assert e[1..] + x == x;
    } else if |e| == 2 {
      assert e[1..] == [e[1]] && ([e[1]] + x)[1..] == x;
    } else {
      assert e[1..] == ['u', '0', '0', HexDigit(c as int / 16), HexDigit(c as int % 16)];
      ControlRead(c, x);
    }
  }

  lemma {:induction false} StringRead(s: string, x: string)
    ensures ReadString(EscapeAll(s) + ['\"'] + x) == Some(Read(s, x))
  {
    hide ReadChar, Escape;
    if s == [] {
      assert EscapeAll(s) + ['\"'] + x == ['\"'] + x;
      assert (['\"'] + x)[1..] == x;
    } else {
      var tail := EscapeAll(s[1..]) + ['\"'] + x;
      assert EscapeAll(s) + ['\"'] + x == Escape(s[0]) + tail;
      EscapeRead(s[0], tail);
      StringRead(s[1..], x);
      assert [s[0]] + s[1..] == s;
    }
  }

  // ---- values ----------------------------------------------------------------------------------

  function ReadNumber(s: string): (r: Read<string>)
    ensures |r.value| + |r.rest| == |s| && (s != [] && IsNumberChar(s[0]) ==> |r.rest| < |s|)
  {
    if s == [] || !IsNumberChar(s[0]) then Read("", s)
    else
      var r := ReadNumber(s[1..]);
      Read([s[0]] + r.value, r.rest)
  }

  function ReadValue(s: string): (r: Option<Read<Json>>)
    ensures r.Some? ==> |r.value.rest| < |s|
    decreases |s|, 1
  {
    if s == [] then None
    else if "null" <= s then Some(Read(Null, s[4..]))
    else if "true" <= s then Some(Read(Bool(true), s[4..]))
    else if "false" <= s then Some(Read(Bool(false), s[5..]))
    else if s[0] == '\"' then
      (match ReadString(s[1..])
       case None => None
       case Some(r) => Some(Read(Str(r.value), r.rest)))
    else if s[0] == '[' then
      if |s| > 1 && s[1] == ']' then Some(Read(Arr([]), s[2..]))
      else
        (match ReadItems(s[1..])
         case None => None
         case Some(r) => Some(Read(Arr(r.value), r.rest)))
    else if s[0] == '{' then
      if |s| > 1 && s[1] == '}' then Some(Read(Obj([]), s[2..]))
      else
        (match ReadMembers(s[1..])
         case None => None
         case Some(r) => Some(Read(Obj(r.value), r.rest)))
    else if IsDigit(s[0]) || s[0] == '-' then
      var r := ReadNumber(s);
      Some(Read(Num(r.value), r.rest))
    else None
  }

  /** One or more values and the closing bracket. */
  function ReadItems(s: string): (r: Option<Read<seq<Json>>>)
    ensures r.Some? ==> |r.value.rest| < |s|
    decreases |s|, 2
  {
    match ReadValue(s)
    case None => None
    case Some(Read(v, rest)) =>
      if rest == [] then None
      else if rest[0] == ']' then Some(Read([v], rest[1..]))
      else if rest[0] == ',' then
        match ReadItems(rest[1..])
        case None => None
        case Some(Read(more, end)) => Some(Read([v] + more, end))
      else None
  }

  /** One member: a string, a colon and a value. */
  function ReadMember(s: string): (r: Option<Read<Field>>)
    ensures r.Some? ==> |r.value.rest| < |s|
    decreases |s|, 2
  {
    if s == [] || s[0] != '\"' then None
    else
      match ReadString(s[1..])
      case None => None
      case Some(Read(k, rest)) =>
        if rest == [] || rest[0] != ':' then None
        else
          match ReadValue(rest[1..])
          case None => None
          case Some(Read(v, end)) => Some(Read(Field(k, v), end))
  }

  /** One or more members and the closing brace. */
  function ReadMembers(s: string): (r: Option<Read<seq<Field>>>)
    ensures r.Some? ==> |r.value.rest| < |s|
    decreases |s|, 3
  {
    match ReadMember(s)
    case None => None
    case Some(Read(f, rest)) =>
      if rest == [] then None
      else if rest[0] == '}' then Some(Read([f], rest[1..]))
      else if rest[0] == ',' then
        match ReadMembers(rest[1..])
        case None => None
        case Some(Read(more, end)) => Some(Read([f] + more, end))
      else None
  }

  /** What may follow a value inside a JSON text. */
  predicate Delimited(x: string) { x == [] || x[0] == ',' || x[0] == ']' || x[0] == '}' }

  lemma {:induction false} NumberRead(text: string, x: string)
    requires (forall i :: 0 <= i < |text| ==> IsNumberChar(text[i])) && Delimited(x)
    ensures ReadNumber(text + x) == Read(text, x)
  {
    if text == [] {
      assert text + x == x && text == "";
      assert x == [] || !IsNumberChar(x[0]);
      assert ReadNumber(x) == Read("", x);
    } else {
      assert (text + x)[0] == text[0] && IsNumberChar(text[0]);
      assert (text + x)[1..] == text[1..] + x;
      NumberRead(text[1..], x);
      assert [text[0]] + text[1..] == text;
    }
  }

  lemma WordRead(word: string, s: string, x: string)
    requires s == word + x
    ensures word <= s && s[|word|..] == x
  {
  }

  /** Texts that begin with different characters are not prefixes of each other. */
  lemma NotWords(s: string)
    requires s != [] && s[0] != 'n' && s[0] != 't' && s[0] != 'f'
    ensures !("null" <= s) && !("true" <= s) && !("false" <= s)
  {
    assert "null"[0] == 'n' && "true"[0] == 't' && "false"[0] == 'f';
  }

  lemma {:induction false} ValueRead(v: Json, x: string)
    requires Valid(v) && Delimited(x)
    ensures ReadValue(Stringify(v) + x) == Some(Read(v, x))
    decreases v, 1
  {
    hide ReadString, ReadItems, ReadMembers, ReadNumber, Items, Members, EscapeAll;
    var s := Stringify(v) + x;
    match v {
      case Null => WordRead("null", s, x);
      case Bool(b) => BoolRead(b, x);
      case Num(text) =>
        NotWords(s);
        NumberRead(text, x);
      case Str(t) =>
        NotWords(s);
        assert s[1..] == EscapeAll(t) + ['\"'] + x;
        StringRead(t, x);
      case Arr(items) => ArrayRead(items, x);
      case Obj(fields) => ObjectRead(fields, x);
    }
  }

  lemma BoolRead(b: bool, x: string)
    ensures ReadValue(Stringify(Bool(b)) + x) == Some(Read(Bool(b), x))
  {
    hide ReadString, ReadItems, ReadMembers, ReadNumber;
    var s := Stringify(Bool(b)) + x;
    WordRead(if b then "true" else "false", s, x);
    assert s[0] == if b then 't' else 'f';
    assert "null"[0] == 'n' && "true"[0] == 't';
  }

  lemma {:induction false} ArrayRead(items: seq<Json>, x: string)
    requires (forall i :: i in items ==> Valid(i)) && Delimited(x)
    ensures ReadValue(Stringify(Arr(items)) + x) == Some(Read(Arr(items), x))
    decreases items, 1
  {
    hide ReadString, ReadItems, ReadMembers, ReadNumber, Items, Valid;
    var s := Stringify(Arr(items)) + x;
    NotWords(s);
    assert s[1..] == Items(items) + ("]" + x);
    NoText();
    if items == [] {
      assert s[1..] == "]" + x && s[2..] == s[1..][1..];
    } else {
      ItemsRead(items, x);
      ItemsStart(items);
      assert s[1] == Items(items)[0];
    }
  }

  lemma ItemsStart(items: seq<Json>)
    requires items != [] && Valid(items[0])
    ensures Items(items) != [] && Items(items)[0] != ']'
  {
    hide Members, EscapeAll;
    assert Stringify(items[0]) != [] && Stringify(items[0])[0] != ']';
  }

  lemma NoText()
    ensures Items([]) == [] && Members([]) == []
  {
  }

  lemma {:induction false} ItemsRead(items: seq<Json>, x: string)
    requires items != [] && (forall i :: i in items ==> Valid(i)) && Delimited(x)
    ensures ReadItems(Items(items) + ("]" + x)) == Some(Read(items, x))
    decreases items, 0
  {
    hide ReadValue, Stringify;
    if |items| == 1 {
      ValueRead(items[0], "]" + x);
      assert ("]" + x)[1..] == x && items == [items[0]];
    } else {
      var tail := "," + (Items(items[1..]) + ("]" + x));
      assert Items(items) + ("]" + x) == Stringify(items[0]) + tail;
      ValueRead(items[0], tail);
      assert tail[1..] == Items(items[1..]) + ("]" + x);
      ItemsRead(items[1..], x);
      assert items == [items[0]] + items[1..];
    }
  }

  lemma {:induction false} ObjectRead(fields: seq<Field>, x: string)
    requires (forall f :: f in fields ==> Valid(f.value)) && Delimited(x)
    ensures ReadValue(Stringify(Obj(fields)) + x) == Some(Read(Obj(fields), x))
    decreases fields, 1
  {
    hide ReadString, ReadItems, ReadMembers, ReadNumber, Members;
    var s := Stringify(Obj(fields)) + x;
    NotWords(s);
    assert s[1..] == Members(fields) + ("}" + x);
    NoText();
    if fields == [] {
      assert s[1..] == "}" + x && s[2..] == s[1..][1..];
    } else {
      MembersRead(fields, x);
      assert Members(fields)[0] == '\"' by { MembersQuote(fields); }
      assert s[1] == s[1..][0];
    }
  }

  lemma MembersQuote(fields: seq<Field>)
    requires fields != []
    ensures Members(fields) != [] && Members(fields)[0] == '\"'
  {
  }

  lemma {:induction false} MemberRead(f: Field, x: string)
    requires Valid(f.value) && Delimited(x)
    ensures ReadMember(Quote(f.key) + ":" + Stringify(f.value) + x) == Some(Read(f, x))
    decreases f.value, 2
  {
    hide ReadString, ReadValue, Stringify, EscapeAll;
    var value := Stringify(f.value) + x;
    var s := Quote(f.key) + ":" + Stringify(f.value) + x;
    assert s[0] == '\"' && s[1..] == EscapeAll(f.key) + ['\"'] + (":" + value);
    StringRead(f.key, ":" + value);
    assert (":" + value)[1..] == value;
    ValueRead(f.value, x);
  }

  lemma {:induction false} MembersRead(fields: seq<Field>, x: string)
    requires fields != [] && (forall f :: f in fields ==> Valid(f.value)) && Delimited(x)
    ensures ReadMembers(Members(fields) + ("}" + x)) == Some(Read(fields, x))
    decreases fields, 0
  {
    hide ReadMember, Stringify, Quote;
    var member := Quote(fields[0].key) + ":" + Stringify(fields[0].value);
    if |fields| == 1 {
      MemberRead(fields[0], "}" + x);
      assert ("}" + x)[1..] == x && fields == [fields[0]];
    } else {
      var tail := "," + (Members(fields[1..]) + ("}" + x));
      assert Members(fields) + ("}" + x) == member + tail;
      MemberRead(fields[0], tail);
      assert tail[1..] == Members(fields[1..]) + ("}" + x);
      MembersRead(fields[1..], x);
      assert fields == [fields[0]] + fields[1..];
    }
  }

  /** The text of one value and nothing after it. */
  function ReadJson(s: string): Option<Json> {
    match ReadValue(s)
    case Some(r) => if r.rest == [] then Some(r.value) else None
    case None => None
  }

  /** Reading the text of a value gives the value. */
  lemma StringifyRoundTrip(v: Json)
    requires Valid(v)
    ensures ReadJson(Stringify(v)) == Some(v)
  {
    hide ReadValue, Stringify, Valid;
    ValueRead(v, []);
    assert Stringify(v) + [] == Stringify(v);
  }

  /** The text determines the value. */
  lemma StringifyInjective(a: Json, b: Json)
    requires Valid(a) && Valid(b) && Stringify(a) == Stringify(b)
    ensures a == b
  {
    hide ReadJson, Stringify, Valid;
    StringifyRoundTrip(a);
    StringifyRoundTrip(b);
  }
}
