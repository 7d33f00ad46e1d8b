/** The recursive-descent parser for GDB/MI output records: a cursor over a text, the mutually
    recursive parsing functions, and the printer of the MI syntax that they invert. */
module MiParser {

  /** Why parsing stops: a position that seek() refuses, a character that is not the expected
      one or the end of the text, an escape that is not in the table, or a value that starts
      like none of the three kinds. */
  datatype Error = AssertionError | ParseStreamError | KeyError | UnboundLocalError

  datatype Result<T> = Ok(value: T) | Err(error: Error)

  /** What the parser builds. A list of results comes back as a dictionary, like a tuple. */
  datatype Value = Const(text: string) | Dict(items: map<string, Value>) | List(values: seq<Value>)

  // The grammar as functions of the text and a position in it.

  datatype Parsed<T> = Parsed(value: T, pos: nat) | Fail(error: Error)

  function PastChar(t: string, p: nat, c: char): nat {
    if p + 1 < |t| && t[p] == c then p + 1 else p
  }

  predicate IsEscape(c: char) {
    c == 'n' || c == '\\' || c == '"' || c == 't'
  }

  function EscapeChar(c: char): char {
    if c == 'n' then '\n' else if c == 't' then '\t' else c
  }

  function Chars(t: string, p: nat, sb: string): (r: Parsed<string>)
    ensures r.Parsed? ==> p < r.pos <= |t|
    decreases |t| - p
  {
    if p >= |t| then Fail(ParseStreamError)
    else if t[p] == '\\' then
      if p + 1 < |t| && IsEscape(t[p + 1]) then Chars(t, p + 2, sb + [EscapeChar(t[p + 1])]) else Fail(KeyError)
    else if t[p] == '"' then Parsed(sb, p + 1)
    else Chars(t, p + 1, sb + [t[p]])
  }

  function ParseCString(t: string, p: nat): (r: Parsed<string>)
    ensures r.Parsed? ==> p < r.pos <= |t|
  {
    if p < |t| && t[p] == '"' then Chars(t, p + 1, "") else Fail(ParseStreamError)
  }

  function ParseVariable(t: string, p: nat, sb: string): (r: Parsed<string>)
    ensures r.Parsed? ==> p < r.pos <= |t|
    decreases |t| - p
  {
    if p >= |t| then Fail(ParseStreamError)
    else if t[p] == '=' then Parsed(sb, p + 1)
    else ParseVariable(t, p + 1, sb + [t[p]])
  }

  function ParseValue(t: string, p: nat): (r: Parsed<Value>)
    ensures r.Parsed? ==> p < r.pos <= |t|
    decreases |t| - p, 1
  {
    if p >= |t| then Fail(AssertionError)
    else if t[p] == '"' then
      var r := ParseCString(t, p);
      if r.Fail? then Fail(r.error) else Parsed(Const(r.value), r.pos)
    else if t[p] == '{' then ParseTuple(t, p)
    else if t[p] == '[' then ParseList(t, p)
    else Fail(UnboundLocalError)
  }

  /** Of an empty tuple only the opening brace is consumed. */
  function ParseTuple(t: string, p: nat): (r: Parsed<Value>)
    ensures r.Parsed? ==> p < r.pos <= |t|
    decreases |t| - p, 0
  {
    if p >= |t| || t[p] != '{' then Fail(ParseStreamError)
    else if p + 1 >= |t| then Fail(AssertionError)
    else if t[p + 1] == '}' then Parsed(Dict(map[]), p + 1)
    else
      var r := ParseResults(t, p + 1);
      if r.Fail? then Fail(r.error)
      else if r.pos < |t| && t[r.pos] == '}' then Parsed(Dict(r.value), r.pos + 1)
      else Fail(ParseStreamError)
  }

  /** skip() refuses to go to the end of the text, even behind an empty list. */
  function ParseList(t: string, p: nat): (r: Parsed<Value>)
    ensures r.Parsed? ==> p < r.pos <= |t|
    decreases |t| - p, 0
  {
    if p >= |t| || t[p] != '[' then Fail(ParseStreamError)
    else if p + 1 >= |t| then Fail(AssertionError)
    else if t[p + 1] == ']' then
      if p + 2 < |t| then Parsed(List([]), p + 2) else Fail(AssertionError)
    else
      var r := ListBody(t, p + 1);
      if r.Fail? then r
      else if r.pos < |t| && t[r.pos] == ']' then Parsed(r.value, r.pos + 1)
      else Fail(ParseStreamError)
  }

  function ListBody(t: string, p: nat): (r: Parsed<Value>)
    requires p < |t|
    ensures r.Parsed? ==> p < r.pos <= |t|
    decreases |t| - p, 4
  {
    if t[p] == '"' || t[p] == '{' || t[p] == '[' then
      var r := Values(t, p, []);
      if r.Fail? then Fail(r.error) else Parsed(List(r.value), r.pos)
    else
      var r := ParseResults(t, p);
      if r.Fail? then Fail(r.error) else Parsed(Dict(r.value), r.pos)
  }

  function Values(t: string, p: nat, values: seq<Value>): (r: Parsed<seq<Value>>)
    ensures r.Parsed? ==> p < r.pos <= |t|
    decreases |t| - p, 2
  {
    if p >= |t| then Fail(ParseStreamError)
    else
      var v := ParseValue(t, p);
      if v.Fail? then Fail(v.error)
      else
        var next := PastChar(t, v.pos, ',');
        if next > v.pos then Values(t, next, values + [v.value]) else Parsed(values + [v.value], v.pos)
  }

  function ParseResults(t: string, p: nat): (r: Parsed<map<string, Value>>)
    ensures r.Parsed? ==> p < r.pos <= |t|
    decreases |t| - p, 3
  {
    Results(t, PastChar(t, p, ','), map[])
  }

  function Results(t: string, p: nat, results: map<string, Value>): (r: Parsed<map<string, Value>>)
    ensures r.Parsed? ==> p < r.pos <= |t|
    decreases |t| - p, 2
  {
    if p >= |t| then Fail(ParseStreamError)
    else
      var k := ParseVariable(t, p, "");
      if k.Fail? then Fail(k.error)
      else
        var v := ParseValue(t, k.pos);
        if v.Fail? then Fail(v.error)
        else
          var next := PastChar(t, v.pos, ',');
          if next > v.pos then Results(t, next, results[k.value := v.value])
          else Parsed(results[k.value := v.value], v.pos)
  }

  // The cursor.

  class ParseStream {
    const text: string
    var pos: nat

    constructor (text: string)
      ensures this.text == text && pos == 0
    {
      this.text := text;
      pos := 0;
    }

    /** Reads one character; at the end of the text reads nothing but moves all the same. */
    method Char() returns (c: string)
      modifies this
      ensures c == (if old(pos) < |text| then [text[old(pos)]] else "") && pos == old(pos) + 1
    {
      c := if pos < |text| then [text[pos]] else "";
      pos := pos + 1;
    }

    method Seek(to: int) returns (ok: bool)
      modifies this
      ensures ok <==> 0 <= to < |text|
      ensures pos == if ok then to else old(pos)
    {
      ok := to >= 0 && to < |text|;
      if ok {
        pos := to;
      }
    }

    method Skip() returns (ok: bool)
      modifies this
      ensures ok <==> old(pos) + 1 < |text|
      ensures ok ==> pos == old(pos) + 1
    {
      ok := Seek(pos + 1);
    }

    method Peek() returns (r: Result<char>)
      modifies this
      ensures r == if old(pos) < |text| then Ok(text[old(pos)]) else Err(AssertionError)
      ensures r.Ok? ==> pos == old(pos)
    {
      var c := Char();
      var ok := Seek(pos - 1);
      if !ok {
        return Err(AssertionError);
      }
      r := Ok(c[0]);
    }

    /** Consumes the character if it is next. Sees nothing at the last position of the text. */
    method NextChar(rc: char) returns (found: bool)
      modifies this
      ensures pos == PastChar(text, old(pos), rc) && found == (pos > old(pos))
      ensures found <==> old(pos) + 1 < |text| && text[old(pos)] == rc
      ensures pos == if found then old(pos) + 1 else old(pos)
    {
      if pos + 1 >= |text| {
        return false;
      }
      var c := Char();
      if c != [rc] {
        var _ := Seek(pos - 1);
        return false;
      }
      found := true;
    }

    method ExpectChar(expected: char) returns (ok: bool)
      modifies this
      ensures ok <==> old(pos) < |text| && text[old(pos)] == expected
      ensures pos == old(pos) + 1
    {
      var c := Char();
      ok := c == [expected];
    }

    method CheckLimit() returns (ok: bool)
      ensures ok <==> pos < |text|
    {
      ok := pos < |text|;
    }
  }

  // The parser. Each method does what the function of the same name says, from the cursor on.

  predicate Agrees<T(==)>(r: Result<T>, pos: nat, spec: Parsed<T>) {
    match spec
    case Parsed(value, end) => r == Ok(value) && pos == end
    case Fail(error) => r == Err(error)
  }

  method CString(s: ParseStream) returns (r: Result<string>)
    modifies s
    ensures Agrees(r, s.pos, ParseCString(s.text, old(s.pos)))
  {
    var quote := s.ExpectChar('"');
    if !quote {
      return Err(ParseStreamError);
    }
    var sb := "";
    while true
      invariant s.pos <= |s.text|
      invariant Chars(s.text, s.pos, sb) == ParseCString(s.text, old(s.pos))
      decreases |s.text| - s.pos
    {
      var more := s.CheckLimit();
      if !more {
        return Err(ParseStreamError);
      }
      var c := s.Char();
      if c == "\\" {
        var e := s.Char();
        if e == "" || !IsEscape(e[0]) {
          return Err(KeyError);
        }
        sb := sb + [EscapeChar(e[0])];
      } else if c == "\"" {
        break;
      } else {
        sb := sb + c;
      }
    }
    r := Ok(sb);
  }

  method Variable(s: ParseStream) returns (r: Result<string>)
    requires s.pos <= |s.text|
    modifies s
    ensures Agrees(r, s.pos, ParseVariable(s.text, old(s.pos), ""))
  {
    var sb := "";
    while true
      invariant s.pos <= |s.text|
      invariant ParseVariable(s.text, s.pos, sb) == ParseVariable(s.text, old(s.pos), "")
      decreases |s.text| - s.pos
    {
      var more := s.CheckLimit();
      if !more {
        return Err(ParseStreamError);
      }
      var c := s.Char();
      if c == "=" {
        break;
      }
      sb := sb + c;
    }
    r := Ok(sb);
  }

  method ValueAt(s: ParseStream) returns (r: Result<Value>)
    requires s.pos <= |s.text|
    modifies s
    ensures Agrees(r, s.pos, ParseValue(s.text, old(s.pos)))
    decreases |s.text| - s.pos, 1
  {
    var c := s.Peek();
    if c.Err? {
      return Err(c.error);
    }
    if c.value == '"' {
      var text := CString(s);
      r := if text.Ok? then Ok(Const(text.value)) else Err(text.error);
    } else if c.value == '{' {
      r := TupleAt(s);
    } else if c.value == '[' {
      r := ListAt(s);
    } else {
      r := Err(UnboundLocalError);
    }
  }

  method TupleAt(s: ParseStream) returns (r: Result<Value>)
    requires s.pos <= |s.text|
    modifies s
    ensures Agrees(r, s.pos, ParseTuple(s.text, old(s.pos)))
    decreases |s.text| - s.pos, 0
  {
    var brace := s.ExpectChar('{');
    if !brace {
      return Err(ParseStreamError);
    }
    var c := s.Peek();
    if c.Err? {
      return Err(c.error);
    }
    if c.value == '}' {
      return Ok(Dict(map[]));
    }
    var results := ResultsAt(s);
    if results.Err? {
      return Err(results.error);
    }
    var closed := s.ExpectChar('}');
    r := if closed then Ok(Dict(results.value)) else Err(ParseStreamError);
  }

  method ListAt(s: ParseStream) returns (r: Result<Value>)
    requires s.pos <= |s.text|
    modifies s
    ensures Agrees(r, s.pos, ParseList(s.text, old(s.pos)))
    decreases |s.text| - s.pos, 0
  {
    var bracket := s.ExpectChar('[');
    if !bracket {
      return Err(ParseStreamError);
    }
    var c := s.Peek();
    if c.Err? {
      return Err(c.error);
    }
    if c.value == ']' {
      var ok := s.Skip();
      return if ok then Ok(List([])) else Err(AssertionError);
    }
    var body := ListBodyAt(s, c.value);
    if body.Err? {
      return body;
    }
    var closed := s.ExpectChar(']');
    r := if closed then body else Err(ParseStreamError);
  }

  method ListBodyAt(s: ParseStream, c: char) returns (r: Result<Value>)
    requires s.pos < |s.text| && c == s.text[s.pos]
    modifies s
    ensures Agrees(r, s.pos, ListBody(s.text, old(s.pos)))
    decreases |s.text| - s.pos, 4
  {
    if c == '"' || c == '{' || c == '[' {
      var values := ValuesAt(s);
      r := if values.Ok? then Ok(List(values.value)) else Err(values.error);
    } else {
      var results := ResultsAt(s);
      r := if results.Ok? then Ok(Dict(results.value)) else Err(results.error);
    }
  }

  method ValuesAt(s: ParseStream) returns (r: Result<seq<Value>>)
    requires s.pos <= |s.text|
    modifies s
    ensures Agrees(r, s.pos, Values(s.text, old(s.pos), []))
    decreases |s.text| - s.pos, 2
  {
    var list := [];
    while true
      invariant old(s.pos) <= s.pos <= |s.text|
      invariant Values(s.text, s.pos, list) == Values(s.text, old(s.pos), [])
      decreases |s.text| - s.pos
    {
      var more := s.CheckLimit();
      if !more {
        return Err(ParseStreamError);
      }
      var value := ValueAt(s);
      if value.Err? {
        return Err(value.error);
      }
      list := list + [value.value];
      var comma := s.NextChar(',');
      if !comma {
        break;
      }
    }
    r := Ok(list);
  }

  method ResultsAt(s: ParseStream) returns (r: Result<map<string, Value>>)
    requires s.pos <= |s.text|
    modifies s
    ensures Agrees(r, s.pos, ParseResults(s.text, old(s.pos)))
    decreases |s.text| - s.pos, 3
  {
    var _ := s.NextChar(',');
    var results: map<string, Value> := map[];
    while true
      invariant old(s.pos) <= s.pos <= |s.text|
      invariant Results(s.text, s.pos, results) == ParseResults(s.text, old(s.pos))
      decreases |s.text| - s.pos
    {
      var more := s.CheckLimit();
      if !more {
        return Err(ParseStreamError);
      }
      var key := Variable(s);
      if key.Err? {
        return Err(key.error);
      }
      var value := ValueAt(s);
      if value.Err? {
        return Err(value.error);
      }
      results := results[key.value := value.value];
      var comma := s.NextChar(',');
      if !comma {
        break;
      }
    }
    r := Ok(results);
  }

  // The printer: section "GDB/MI Output Syntax" of the GDB manual.

  datatype Mi =
    | CStringMi(text: string)
    | TupleMi(results: seq<Entry>)
    | ListMi(values: seq<Mi>)
    | ResultListMi(results: seq<Entry>)

  datatype Entry = Entry(key: string, value: Mi)

  function QuoteChar(c: char): string {
    if c == '\n' then "\\n" else if c == '\t' then "\\t" else if c == '"' then "\\\"" else if c == '\\' then "\\\\" else [c]
  }

  function Quote(text: string): string {
    if text == "" then "" else QuoteChar(text[0]) + Quote(text[1..])
  }

  function Print(m: Mi): string
    decreases m, 0
  {
    match m
    case CStringMi(text) => "\"" + (Quote(text) + "\"")
    case TupleMi(results) => "{" + (PrintResults(results) + "}")
    case ListMi(values) => "[" + (PrintValues(values) + "]")
    case ResultListMi(results) => "[" + (PrintResults(results) + "]")
  }

  function PrintValues(values: seq<Mi>): string
    decreases values
  {
    if values == [] then ""
    else Print(values[0]) + if |values| == 1 then "" else "," + PrintValues(values[1..])
  }

  function PrintResults(results: seq<Entry>): string
    decreases results
  {
    if results == [] then ""
    else
      results[0].key + ("=" + (Print(results[0].value) + if |results| == 1 then "" else "," + PrintResults(results[1..])))
  }

  /** The value that a printed text stands for; of equal keys the last one counts. */
  function Denote(m: Mi): Value
    decreases m, 0
  {
    match m
    case CStringMi(text) => Const(text)
    case TupleMi(results) => Dict(DenoteResults(results, map[]))
    case ListMi(values) => List(DenoteValues(values))
    case ResultListMi(results) => Dict(DenoteResults(results, map[]))
  }

  function DenoteValues(values: seq<Mi>): seq<Value>
    decreases values
  {
    if values == [] then [] else [Denote(values[0])] + DenoteValues(values[1..])
  }

  function DenoteResults(results: seq<Entry>, before: map<string, Value>): map<string, Value>
    decreases results
  {
    if results == [] then before
    else DenoteResults(results[1..], before[results[0].key := Denote(results[0].value)])
  }

  // Which texts the parser reads back.

  /** A key ends at its first '='. */
  predicate GoodKey(key: string) {
    '=' !in key
  }

  predicate FirstIsNot(key: string, c: char) {
    key == "" || key[0] != c
  }

  /** The braces of an empty tuple are not both consumed; in front of the first key a comma is
      skipped, and in a list some characters announce something else than a key. */
  predicate Printable(m: Mi)
    decreases m, 0
  {
    match m
    case CStringMi(_) => true
    case TupleMi(results) =>
      results != [] && FirstIsNot(results[0].key, ',') && FirstIsNot(results[0].key, '}') && PrintableResults(results)
    case ListMi(values) => PrintableValues(values)
    case ResultListMi(results) =>
      results != [] && FirstIsNot(results[0].key, ',') && FirstIsNot(results[0].key, ']') && FirstIsNot(results[0].key, '"')
      && FirstIsNot(results[0].key, '{') && FirstIsNot(results[0].key, '[') && PrintableResults(results)
  }

  predicate PrintableValues(values: seq<Mi>)
    decreases values
  {
    values == [] || (Printable(values[0]) && PrintableValues(values[1..]))
  }

  predicate PrintableResults(results: seq<Entry>)
    decreases results
  {
    results == [] || (GoodKey(results[0].key) && Printable(results[0].value) && PrintableResults(results[1..]))
  }

  /** The text `x` stands at position `p` of `t`. */
  predicate At(t: string, p: nat, x: string) {
    p + |x| <= |t| && t[p..p + |x|] == x
  }

  lemma AtBoth(t: string, p: nat, x: string, y: string)
    requires At(t, p, x + y)
    ensures At(t, p, x) && At(t, p + |x|, y)
  {
    assert t[p..p + |x|] == (x + y)[..|x|] == x;
    assert t[p + |x|..p + |x| + |y|] == (x + y)[|x|..] == y;
  }

  lemma AtFirst(t: string, p: nat, x: string)
    requires At(t, p, x) && x != ""
    ensures p < |t| && t[p] == x[0] && At(t, p + 1, x[1..])
  {
    assert x == [x[0]] + x[1..];
    AtBoth(t, p, [x[0]], x[1..]);
  }

  lemma QuotedChar(t: string, p: nat, c: char, sb: string)
    requires At(t, p, QuoteChar(c))
    ensures Chars(t, p, sb) == Chars(t, p + |QuoteChar(c)|, sb + [c])
  {
    AtFirst(t, p, QuoteChar(c));
    if |QuoteChar(c)| == 2 {
      AtFirst(t, p + 1, QuoteChar(c)[1..]);
    }
  }

  lemma UnfoldQuote(text: string, sb: string)
    requires text != ""
    ensures |Quote(text)| == |QuoteChar(text[0])| + |Quote(text[1..])|
    ensures Quote(text) + "\"" == QuoteChar(text[0]) + (Quote(text[1..]) + "\"")
    ensures sb + [text[0]] + text[1..] == sb + text
  {
    hide QuoteChar;
  }

  lemma {:induction false} QuotedChars(t: string, p: nat, text: string, sb: string)
    requires At(t, p, Quote(text) + "\"")
    ensures Chars(t, p, sb) == Parsed(sb + text, p + |Quote(text)| + 1)
    decreases text
  {
    if text == "" {
      AtFirst(t, p, "\"");
      assert sb + text == sb;
    } else {
      hide At, Chars, QuoteChar, Quote;
      var q := QuoteChar(text[0]);
      UnfoldQuote(text, sb);
      AtBoth(t, p, q, Quote(text[1..]) + "\"");
      QuotedChar(t, p, text[0], sb);
      QuotedChars(t, p + |q|, text[1..], sb + [text[0]]);
    }
  }

  lemma {:induction false} PrintedKey(t: string, p: nat, key: string, sb: string)
    requires GoodKey(key) && At(t, p, key + "=")
    ensures ParseVariable(t, p, sb) == Parsed(sb + key, p + |key| + 1)
    decreases key
  {
    AtFirst(t, p, key + "=");
    if key == "" {
      assert sb + key == sb;
    } else {
      assert (key + "=")[1..] == key[1..] + "=";
      PrintedKey(t, p + 1, key[1..], sb + [key[0]]);
      assert sb + [key[0]] + key[1..] == sb + key;
    }
  }

  lemma PrintedStart(m: Mi)
    ensures Print(m) != ""
    ensures Print(m)[0] == match m case CStringMi(_) => '"' case TupleMi(_) => '{' case ListMi(_) => '[' case ResultListMi(_) => '['
  {
  }

  lemma FirstOfResults(results: seq<Entry>, c: char)
    requires results != [] && FirstIsNot(results[0].key, c) && c != '='
    ensures PrintResults(results) != "" && PrintResults(results)[0] != c
  {
  }

  /** Reads back one printed value. */
  lemma {:induction false} ValueRead(t: string, p: nat, m: Mi)
    requires Printable(m) && At(t, p, Print(m))
    requires m == ListMi([]) ==> p + 2 < |t|
    ensures ParseValue(t, p) == Parsed(Denote(m), p + |Print(m)|)
    decreases m, 1
  {
    match m
    case CStringMi(text) => CStringRead(t, p, text);
    case TupleMi(results) => TupleRead(t, p, results);
    case ListMi(values) => ListRead(t, p, values);
    case ResultListMi(results) => ResultListRead(t, p, results);
  }

  lemma CStringRead(t: string, p: nat, text: string)
    requires At(t, p, Print(CStringMi(text)))
    ensures ParseValue(t, p) == Parsed(Const(text), p + |Print(CStringMi(text))|)
  {
    hide Chars, Quote;
    AtFirst(t, p, Print(CStringMi(text)));
    assert Print(CStringMi(text))[1..] == Quote(text) + "\"";
    QuotedChars(t, p + 1, text, "");
    assert "" + text == text;
  }

  lemma {:induction false} TupleRead(t: string, p: nat, results: seq<Entry>)
    requires Printable(TupleMi(results)) && At(t, p, Print(TupleMi(results)))
    ensures ParseValue(t, p) == Parsed(Denote(TupleMi(results)), p + |Print(TupleMi(results))|)
    decreases results, 3
  {
    hide PrintResults, Results, DenoteResults, PrintableResults;
    var body := PrintResults(results);
    AtFirst(t, p, Print(TupleMi(results)));
    assert Print(TupleMi(results))[1..] == body + "}";
    AtBoth(t, p + 1, body, "}");
    AtFirst(t, p + 1 + |body|, "}");
    FirstOfResults(results, '}');
    FirstOfResults(results, ',');
    AtFirst(t, p + 1, body);
    ResultsRead(t, p + 1, results, map[]);
    assert ParseResults(t, p + 1) == Results(t, p + 1, map[]);
    assert ParseTuple(t, p) == Parsed(Dict(DenoteResults(results, map[])), p + |body| + 2);
  }

  lemma {:induction false} ResultListRead(t: string, p: nat, results: seq<Entry>)
    requires Printable(ResultListMi(results)) && At(t, p, Print(ResultListMi(results)))
    ensures ParseValue(t, p) == Parsed(Denote(ResultListMi(results)), p + |Print(ResultListMi(results))|)
    decreases results, 3
  {
    hide PrintResults, Results, DenoteResults, PrintableResults;
    var body := PrintResults(results);
    AtFirst(t, p, Print(ResultListMi(results)));
    assert Print(ResultListMi(results))[1..] == body + "]";
    AtBoth(t, p + 1, body, "]");
    AtFirst(t, p + 1 + |body|, "]");
    FirstOfResults(results, ',');
    FirstOfResults(results, ']');
    FirstOfResults(results, '"');
    FirstOfResults(results, '{');
    FirstOfResults(results, '[');
    AtFirst(t, p + 1, body);
    ResultsRead(t, p + 1, results, map[]);
    assert ParseResults(t, p + 1) == Results(t, p + 1, map[]);
    assert ListBody(t, p + 1) == Parsed(Dict(DenoteResults(results, map[])), p + |body| + 1);
    assert ParseList(t, p) == Parsed(Dict(DenoteResults(results, map[])), p + |body| + 2);
  }

  lemma {:induction false} ListRead(t: string, p: nat, values: seq<Mi>)
    requires Printable(ListMi(values)) && At(t, p, Print(ListMi(values)))
    requires values == [] ==> p + 2 < |t|
    ensures ParseValue(t, p) == Parsed(Denote(ListMi(values)), p + |Print(ListMi(values))|)
    decreases values, 3
  {
    hide PrintValues, Values, DenoteValues, PrintableValues;
    var body := PrintValues(values);
    AtFirst(t, p, Print(ListMi(values)));
    assert Print(ListMi(values))[1..] == body + "]";
    AtBoth(t, p + 1, body, "]");
    AtFirst(t, p + 1 + |body|, "]");
    if values == [] {
      NoValues();
    } else {
      FirstOfValues(values);
      AtFirst(t, p + 1, body);
      ValuesRead(t, p + 1, values, []);
      assert [] + DenoteValues(values) == DenoteValues(values);
      assert ListBody(t, p + 1) == Parsed(List(DenoteValues(values)), p + |body| + 1);
      assert ParseList(t, p) == Parsed(List(DenoteValues(values)), p + |body| + 2);
    }
  }

  lemma NoValues()
    ensures PrintValues([]) == "" && DenoteValues([]) == []
  {
  }

  lemma FirstOfValues(values: seq<Mi>)
    requires values != []
    ensures PrintValues(values) != ""
    ensures PrintValues(values)[0] == '"' || PrintValues(values)[0] == '{' || PrintValues(values)[0] == '['
  {
    PrintedStart(values[0]);
  }

  /** One step of the loop over values: a value and what follows it. */
  lemma ValuesStep(t: string, p: nat, before: seq<Value>, v: Value, end: nat)
    requires ParseValue(t, p) == Parsed(v, end) && p < |t|
    ensures Values(t, p, before) ==
            if PastChar(t, end, ',') > end then Values(t, end + 1, before + [v]) else Parsed(before + [v], end)
  {
  }

  lemma ValuesText(t: string, p: nat, values: seq<Mi>)
    requires values != [] && At(t, p, PrintValues(values))
    ensures At(t, p, Print(values[0]))
    ensures |values| == 1 ==> PrintValues(values) == Print(values[0])
    ensures |values| > 1 ==>
              var end := p + |Print(values[0])|;
              && end + 1 < |t| && t[end] == ','
              && At(t, end + 1, PrintValues(values[1..]))
              && end + 1 + |PrintValues(values[1..])| == p + |PrintValues(values)|
  {
    var first := Print(values[0]);
    if |values| == 1 {
      assert PrintValues(values) == first;
    } else {
      var rest := PrintValues(values[1..]);
      FirstOfValues(values[1..]);
      assert PrintValues(values) == first + ("," + rest);
      hide Print, PrintValues;
      AtBoth(t, p, first, "," + rest);
      AtBoth(t, p + |first|, ",", rest);
      AtFirst(t, p + |first|, ",");
      AtFirst(t, p + |first| + 1, rest);
    }
  }

  lemma DenoteFirst(values: seq<Mi>, before: seq<Value>)
    requires values != []
    ensures before + DenoteValues(values) == before + [Denote(values[0])] + DenoteValues(values[1..])
  {
    assert DenoteValues(values) == [Denote(values[0])] + DenoteValues(values[1..]);
  }

  lemma {:induction false} ValuesRead(t: string, p: nat, values: seq<Mi>, before: seq<Value>)
    requires values != [] && PrintableValues(values) && At(t, p, PrintValues(values))
    requires p + |PrintValues(values)| < |t| && t[p + |PrintValues(values)|] == ']'
    ensures Values(t, p, before) == Parsed(before + DenoteValues(values), p + |PrintValues(values)|)
    decreases values, 2
  {
    hide Print, Denote, Printable, ParseValue, Values, PrintValues, DenoteValues, At;
    var m := values[0];
    var end := p + |Print(m)|;
    ValuesText(t, p, values);
    ShortPrint(m);
    ValueRead(t, p, m);
    ValuesStep(t, p, before, Denote(m), end);
    DenoteFirst(values, before);
    if |values| == 1 {
      assert values[1..] == [];
      NoValues();
      assert before + [Denote(m)] + [] == before + [Denote(m)];
    } else {
      ValuesRead(t, end + 1, values[1..], before + [Denote(m)]);
    }
  }

  lemma ShortPrint(m: Mi)
    ensures |Print(m)| >= 2
    ensures m == ListMi([]) ==> |Print(m)| == 2
  {
  }

  lemma ResultsStep(t: string, p: nat, before: map<string, Value>, key: string, q: nat, v: Value, end: nat)
    requires ParseVariable(t, p, "") == Parsed(key, q) && ParseValue(t, q) == Parsed(v, end) && p < |t|
    ensures Results(t, p, before) ==
            if PastChar(t, end, ',') > end then Results(t, end + 1, before[key := v]) else Parsed(before[key := v], end)
  {
    hide ParseVariable, ParseValue;
  }

  lemma EntryText(t: string, p: nat, key: string, first: string, tail: string)
    requires At(t, p, key + ("=" + (first + tail)))
    ensures At(t, p, key + "=") && At(t, p + |key| + 1, first) && At(t, p + |key| + 1 + |first|, tail)
  {
    assert key + ("=" + (first + tail)) == (key + "=") + (first + tail);
    AtBoth(t, p, key + "=", first + tail);
    AtBoth(t, p + |key| + 1, first, tail);
  }

  lemma UnfoldResults(results: seq<Entry>)
    requires results != []
    ensures var tail := if |results| == 1 then "" else "," + PrintResults(results[1..]);
            PrintResults(results) == results[0].key + ("=" + (Print(results[0].value) + tail))
  {
  }

  lemma CommaText(t: string, p: nat, rest: string)
    requires At(t, p, "," + rest) && rest != ""
    ensures p + 1 < |t| && t[p] == ',' && At(t, p + 1, rest)
  {
    AtBoth(t, p, ",", rest);
    AtFirst(t, p, ",");
    AtFirst(t, p + 1, rest);
  }

  lemma ResultsText(t: string, p: nat, results: seq<Entry>)
    requires results != [] && At(t, p, PrintResults(results))
    ensures At(t, p, results[0].key + "=") && At(t, p + |results[0].key| + 1, Print(results[0].value))
    ensures |results| == 1 ==> |PrintResults(results)| == |results[0].key| + 1 + |Print(results[0].value)|
    ensures |results| > 1 ==>
              var end := p + |results[0].key| + 1 + |Print(results[0].value)|;
              && end + 1 < |t| && t[end] == ','
              && At(t, end + 1, PrintResults(results[1..]))
              && end + 1 + |PrintResults(results[1..])| == p + |PrintResults(results)|
  {
    hide At, Print, PrintResults;
    var key, first := results[0].key, Print(results[0].value);
    UnfoldResults(results);
    if |results| == 1 {
      EntryText(t, p, key, first, "");
    } else {
      var rest := PrintResults(results[1..]);
      EntryText(t, p, key, first, "," + rest);
      ResultsNotEmpty(results[1..]);
      CommaText(t, p + |key| + 1 + |first|, rest);
    }
  }

  lemma {:induction false} ResultsRead(t: string, p: nat, results: seq<Entry>, before: map<string, Value>)
    requires results != [] && PrintableResults(results) && At(t, p, PrintResults(results))
    requires PastChar(t, p + |PrintResults(results)|, ',') == p + |PrintResults(results)|
    requires p + |PrintResults(results)| < |t| || results[|results| - 1].value != ListMi([])
    ensures Results(t, p, before) == Parsed(DenoteResults(results, before), p + |PrintResults(results)|)
    decreases results, 2
  {
    hide Print, Denote, Printable, ParseValue, ParseVariable, Results, PrintResults, At, GoodKey;
    var key, m := results[0].key, results[0].value;
    var q := p + |key| + 1;
    var end := q + |Print(m)|;
    ResultsText(t, p, results);
    KeyRead(t, p, key);
    ShortPrint(m);
    InText(t, q, Print(m));
    ValueRead(t, q, m);
    ResultsStep(t, p, before, key, q, Denote(m), end);
    if |results| == 1 {
      assert results[1..] == [];
    } else {
      ResultsRead(t, end + 1, results[1..], before[key := Denote(m)]);
    }
  }

  lemma KeyRead(t: string, p: nat, key: string)
    requires GoodKey(key) && At(t, p, key + "=")
    ensures p < |t| && ParseVariable(t, p, "") == Parsed(key, p + |key| + 1)
  {
    PrintedKey(t, p, key, "");
    assert "" + key == key;
  }

  lemma InText(t: string, p: nat, x: string)
    requires At(t, p, x)
    ensures p + |x| <= |t|
  {
  }

  lemma ResultsNotEmpty(results: seq<Entry>)
    requires results != []
    ensures PrintResults(results) != ""
  {
  }

  // Whole texts.

  lemma AtConcat(a: string, x: string, b: string)
    ensures At(a + x + b, |a|, x)
  {
  }

  /** The parser inverts the printer: whatever surrounds the printed value, it returns the value
      and stops exactly at its end. */
  lemma PrintedValueRoundTrip(a: string, m: Mi, b: string)
    requires Printable(m) && (m == ListMi([]) ==> b != "")
    ensures ParseValue(a + Print(m) + b, |a|) == Parsed(Denote(m), |a| + |Print(m)|)
  {
    hide ParseValue, Denote, Printable;
    AtConcat(a, Print(m), b);
    ShortPrint(m);
    ValueRead(a + Print(m) + b, |a|, m);
  }

  /** A result record: a comma and results up to the end of the line. A comma in front of the
      first key is harmless here. */
  lemma PrintedRecordRoundTrip(results: seq<Entry>)
    requires results != [] && PrintableResults(results) && results[|results| - 1].value != ListMi([])
    ensures ParseResults("," + PrintResults(results), 0)
              == Parsed(DenoteResults(results, map[]), |PrintResults(results)| + 1)
  {
    hide Results, DenoteResults, Printable, PrintResults;
    var t := "," + PrintResults(results);
    ResultsNotEmpty(results);
    AtConcat(",", PrintResults(results), "");
    assert "," + PrintResults(results) + "" == t;
    ResultsRead(t, 1, results, map[]);
  }

  // Where the parser does not invert the printer, for every surrounding text.

  /** An empty tuple yields the right value, but its closing brace stays unread. */
  lemma EmptyTupleLeavesBrace(a: string, b: string)
    ensures ParseValue(a + Print(TupleMi([])) + b, |a|) == Parsed(Denote(TupleMi([])), |a| + |Print(TupleMi([]))| - 1)
  {
    var t := a + "{}" + b;
    assert Print(TupleMi([])) == "{}";
    assert t[|a|] == '{' && t[|a| + 1] == '}';
    assert DenoteResults([], map[]) == map[];
    assert ParseTuple(t, |a|) == Parsed(Dict(map[]), |a| + 1);
  }

  /** An empty list is read if and only if it is not the last text. */
  lemma EmptyListNeedsMore(a: string, b: string)
    ensures ParseValue(a + Print(ListMi([])) + b, |a|) == Parsed(Denote(ListMi([])), |a| + 2) <==> b != ""
    ensures b == "" ==> ParseValue(a + Print(ListMi([])) + b, |a|) == Fail(AssertionError)
  {
    var t := a + "[]" + b;
    assert Print(ListMi([])) == "[]" by { NoValues(); }
    assert t[|a|] == '[' && t[|a| + 1] == ']';
    NoValues();
    assert ParseList(t, |a|) == if b != "" then Parsed(List([]), |a| + 2) else Fail(AssertionError);
  }

  // Which quoted texts are read.

  /** Every backslash is followed by n, t, a backslash or a quote, and no other quote occurs. */
  predicate WellEscaped(x: string) {
    if x == "" then true
    else if x[0] == '\\' then |x| >= 2 && IsEscape(x[1]) && WellEscaped(x[2..])
    else x[0] != '"' && WellEscaped(x[1..])
  }

  function Unescape(x: string): string
    requires WellEscaped(x)
  {
    if x == "" then ""
    else if x[0] == '\\' then [EscapeChar(x[1])] + Unescape(x[2..])
    else [x[0]] + Unescape(x[1..])
  }

  lemma EscapedChar(t: string, p: nat, x: string, sb: string)
    requires At(t, p, x)
    requires (|x| == 2 && x[0] == '\\' && IsEscape(x[1])) || (|x| == 1 && x[0] != '\\' && x[0] != '"')
    ensures Chars(t, p, sb) == Chars(t, p + |x|, sb + [if |x| == 2 then EscapeChar(x[1]) else x[0]])
  {
    AtFirst(t, p, x);
    if |x| == 2 {
      AtFirst(t, p + 1, x[1..]);
    }
  }

  lemma FirstEscaped(x: string)
    requires WellEscaped(x) && x != ""
    ensures var n := if x[0] == '\\' then 2 else 1;
            && n <= |x| && WellEscaped(x[n..]) && (n == 2 ==> IsEscape(x[1])) && (n == 1 ==> x[0] != '"')
            && Unescape(x) == [if n == 2 then EscapeChar(x[1]) else x[0]] + Unescape(x[n..])
  {
  }

  lemma SplitQuoted(t: string, p: nat, x: string, n: nat)
    requires n <= |x| && At(t, p, x + "\"")
    ensures At(t, p, x[..n]) && At(t, p + n, x[n..] + "\"")
  {
    assert x + "\"" == x[..n] + (x[n..] + "\"");
    AtBoth(t, p, x[..n], x[n..] + "\"");
  }

  lemma Reassociated(sb: string, c: char, rest: string)
    ensures sb + [c] + rest == sb + ([c] + rest)
  {
  }

  lemma {:induction false} EscapedChars(t: string, p: nat, x: string, sb: string)
    requires WellEscaped(x) && At(t, p, x + "\"")
    ensures Chars(t, p, sb) == Parsed(sb + Unescape(x), p + |x| + 1)
    decreases x
  {
    if x == "" {
      AtFirst(t, p, "\"");
      assert x + "\"" == "\"" && sb + Unescape(x) == sb;
    } else {
      hide At, Chars, IsEscape, EscapeChar, Unescape, WellEscaped;
      FirstEscaped(x);
      var n := if x[0] == '\\' then 2 else 1;
      var c := if x[0] == '\\' then EscapeChar(x[1]) else x[0];
      SplitQuoted(t, p, x, n);
      EscapedChar(t, p, x[..n], sb);
      EscapedChars(t, p + n, x[n..], sb + [c]);
      Reassociated(sb, c, Unescape(x[n..]));
    }
  }

  lemma AtJoined(t: string, p: nat, x: string, y: string)
    requires At(t, p, x) && At(t, p + |x|, y)
    ensures At(t, p, x + y)
  {
  }

  lemma SameText(t: string, p: nat, x: string, y: string)
    requires At(t, p, x + "\"") && At(t, p, y + "\"")
    ensures |x| == |y| ==> x == y
  {
    AtBoth(t, p, x, "\"");
    AtBoth(t, p, y, "\"");
  }

  lemma {:induction false} CharsAreEscaped(t: string, p: nat, sb: string) returns (x: string)
    requires Chars(t, p, sb).Parsed?
    ensures WellEscaped(x) && At(t, p, x + "\"") && Chars(t, p, sb).pos == p + |x| + 1
    decreases |t| - p
  {
    if t[p] == '"' {
      x := "";
      assert x + "\"" == [t[p]];
    } else {
      var n := if t[p] == '\\' then 2 else 1;
      var c := if t[p] == '\\' then EscapeChar(t[p + 1]) else t[p];
      var rest := CharsAreEscaped(t, p + n, sb + [c]);
      x := t[p..p + n] + rest;
      assert x[n..] == rest;
      AtJoined(t, p, t[p..p + n], rest + "\"");
      assert x + "\"" == t[p..p + n] + (rest + "\"");
    }
  }

  /** A quoted text is read up to its closing quote if and only if it is well escaped. */
  lemma QuotedTextExact(a: string, x: string, b: string)
    ensures var r := ParseCString(a + ("\"" + (x + "\"")) + b, |a|);
            && (r.Parsed? && r.pos == |a| + |x| + 2 <==> WellEscaped(x))
            && (WellEscaped(x) ==> r.value == Unescape(x))
  {
    hide Chars, WellEscaped, Unescape;
    var t := a + ("\"" + (x + "\"")) + b;
    AtConcat(a, "\"" + (x + "\""), b);
    AtBoth(t, |a|, "\"", x + "\"");
    AtFirst(t, |a|, "\"");
    if WellEscaped(x) {
      EscapedChars(t, |a| + 1, x, "");
      assert "" + Unescape(x) == Unescape(x);
    } else if Chars(t, |a| + 1, "").Parsed? {
      var y := CharsAreEscaped(t, |a| + 1, "");
      SameText(t, |a| + 1, x, y);
    }
  }

  /** The four escapes, and the error of any other. */
  lemma EscapeTable(a: string, c: char, b: string)
    ensures var r := ParseCString(a + ['"', '\\', c, '"'] + b, |a|);
            && (c == 'n' ==> r == Parsed("\n", |a| + 4)) && (c == 't' ==> r == Parsed("\t", |a| + 4))
            && (c == '\\' ==> r == Parsed("\\", |a| + 4)) && (c == '"' ==> r == Parsed("\"", |a| + 4))
            && (c !in {'n', 't', '\\', '"'} ==> r == Fail(KeyError))
  {
    var t, p := a + ['"', '\\', c, '"'] + b, |a|;
    assert t[p] == '"' && t[p + 1] == '\\' && t[p + 2] == c && t[p + 3] == '"';
    if IsEscape(c) {
      assert Chars(t, p + 3, [EscapeChar(c)]) == Parsed([EscapeChar(c)], p + 4);
      assert "" + [EscapeChar(c)] == [EscapeChar(c)];
    }
  }

  lemma Kinds(t: string, p: nat)
    ensures ParseTuple(t, p).Parsed? ==> ParseTuple(t, p).value.Dict?
    ensures ParseList(t, p).Parsed? ==> !ParseList(t, p).value.Const?
  {
    hide ParseResults, Values;
  }

  lemma {:induction false} UpToEquals(t: string, p: nat, sb: string)
    requires ParseVariable(t, p, sb).Parsed?
    ensures var end := ParseVariable(t, p, sb).pos - 1;
            t[end] == '=' && (forall i :: p <= i < end ==> t[i] != '=')
    decreases |t| - p
  {
    if t[p] != '=' {
      UpToEquals(t, p + 1, sb + [t[p]]);
    }
  }

  /** A key is read if and only if it contains no equals sign. */
  lemma KeyExact(a: string, key: string, b: string)
    ensures ParseVariable(a + (key + "=") + b, |a|, "") == Parsed(key, |a| + |key| + 1) <==> '=' !in key
  {
    var t := a + (key + "=") + b;
    AtConcat(a, key + "=", b);
    if '=' !in key {
      KeyRead(t, |a|, key);
    } else if ParseVariable(t, |a|, "").Parsed? {
      UpToEquals(t, |a|, "");
      var i :| 0 <= i < |key| && key[i] == '=';
      assert t[|a| + i] == '=';
    }
  }

  /** The first character decides the kind of a value; nothing else begins one. */
  lemma FirstCharacter(t: string, p: nat)
    ensures p >= |t| ==> ParseValue(t, p) == Fail(AssertionError)
    ensures p < |t| && t[p] !in {'"', '{', '['} ==> ParseValue(t, p) == Fail(UnboundLocalError)
    ensures ParseValue(t, p).Parsed? ==>
              && (ParseValue(t, p).value.Const? <==> t[p] == '"')
              && (t[p] == '{' ==> ParseValue(t, p).value.Dict?)
              && (ParseValue(t, p).value.List? ==> t[p] == '[')
  {
    hide Chars, ParseTuple, ParseList;
    Kinds(t, p);
  }

  /** What is missing decides the error. */
  lemma Unfinished()
    ensures ParseValue("\"a", 0) == Fail(ParseStreamError) && ParseValue("{", 0) == Fail(AssertionError)
    ensures ParseValue("[", 0) == Fail(AssertionError) && ParseValue("{a", 0) == Fail(ParseStreamError)
    ensures ParseValue("{a=", 0) == Fail(AssertionError)
  {
    assert Chars("\"a", 2, "a") == Fail(ParseStreamError);
    assert ParseVariable("{a", 2, "a") == Fail(ParseStreamError);
    assert ParseVariable("{a=", 2, "a") == Parsed("a", 3);
  }

  // For a tuple or a list of results whose parts are printable and whose keys differ, the
  // condition is exact.

  predicate DistinctKeys(results: seq<Entry>) {
    forall i, j :: 0 <= i < j < |results| ==> results[i].key != results[j].key
  }

  /** The results with the first character of the first key removed. */
  function Cut(results: seq<Entry>): seq<Entry>
    requires results != [] && results[0].key != ""
  {
    [Entry(results[0].key[1..], results[0].value)] + results[1..]
  }

  lemma PrintCut(results: seq<Entry>)
    requires results != [] && results[0].key != ""
    ensures PrintResults(results) == [results[0].key[0]] + PrintResults(Cut(results))
    ensures PrintResults(Cut(results)) != ""
  {
    hide PrintResults, Print;
    var key := results[0].key;
    assert Cut(results)[1..] == results[1..];
    UnfoldResults(results);
    UnfoldResults(Cut(results));
    ResultsNotEmpty(Cut(results));
    assert key == [key[0]] + key[1..];
  }

  lemma PrintableCut(results: seq<Entry>)
    requires results != [] && results[0].key != "" && PrintableResults(results)
    ensures PrintableResults(Cut(results))
  {
    hide Printable;
    var key := results[0].key;
    assert Cut(results)[1..] == results[1..];
    assert '=' !in key ==> '=' !in key[1..];
  }

  lemma {:induction false} DenotedKeys(results: seq<Entry>, before: map<string, Value>, k: string)
    ensures k in DenoteResults(results, before) <==> k in before || exists i :: 0 <= i < |results| && results[i].key == k
    decreases results
  {
    if results != [] {
      DenotedKeys(results[1..], before[results[0].key := Denote(results[0].value)], k);
      assert forall i :: 0 < i < |results| ==> results[i] == results[1..][i - 1];
    }
  }

  /** A comma in front of the first key of nested results is lost, and a key with it. */
  lemma CommaIsLost(t: string, p: nat, results: seq<Entry>)
    requires results != [] && PrintableResults(results) && DistinctKeys(results) && !FirstIsNot(results[0].key, ',')
    requires At(t, p, PrintResults(results)) && p + |PrintResults(results)| < |t|
    requires t[p + |PrintResults(results)|] != ','
    ensures ParseResults(t, p).Parsed? && ParseResults(t, p).value != DenoteResults(results, map[])
  {
    hide PrintResults, Results, DenoteResults, PrintableResults;
    PrintCut(results);
    PrintableCut(results);
    CommaText(t, p, PrintResults(Cut(results)));
    ResultsRead(t, p + 1, Cut(results), map[]);
    assert ParseResults(t, p) == Results(t, p + 1, map[]);
    DenotedKeys(results, map[], results[0].key);
    DenotedKeys(Cut(results), map[], results[0].key);
  }

  lemma TupleExact(a: string, results: seq<Entry>, b: string)
    requires PrintableResults(results) && DistinctKeys(results)
    ensures var m := TupleMi(results);
            ParseValue(a + Print(m) + b, |a|) == Parsed(Denote(m), |a| + |Print(m)|) <==> Printable(m)
  {
    hide PrintResults, Results, DenoteResults, PrintableResults;
    var m, body := TupleMi(results), PrintResults(results);
    var t := a + Print(m) + b;
    if Printable(m) {
      PrintedValueRoundTrip(a, m, b);
    } else if results == [] {
      EmptyTupleLeavesBrace(a, b);
    } else {
      ResultsNotEmpty(results);
      BodyInBrackets(a, "{", body, "}", b);
      assert Print(m) == "{" + (body + "}");
      if !FirstIsNot(results[0].key, ',') {
        StartOfResults(results);
        CommaIsLost(t, |a| + 1, results);
      } else {
        StartOfResults(results);
        assert t[|a| + 1] == '}';
        assert ParseTuple(t, |a|) == Parsed(Dict(map[]), |a| + 1);
      }
    }
  }

  lemma StartOfResults(results: seq<Entry>)
    requires results != [] && results[0].key != ""
    ensures PrintResults(results) != "" && PrintResults(results)[0] == results[0].key[0]
  {
  }

  lemma BodyInBrackets(a: string, left: string, body: string, right: string, b: string)
    requires |left| == 1 && |right| == 1 && body != ""
    ensures var t := a + (left + (body + right)) + b;
            && |a| + 2 + |body| <= |t| && t[|a|] == left[0] && t[|a| + 1] == body[0]
            && At(t, |a| + 1, body) && t[|a| + 1 + |body|] == right[0]
  {
    var t := a + (left + (body + right)) + b;
    assert t == (a + left) + body + (right + b);
    AtConcat(a + left, body, right + b);
  }

  lemma ResultListExact(a: string, results: seq<Entry>, b: string)
    requires PrintableResults(results) && DistinctKeys(results) && results != []
    ensures var m := ResultListMi(results);
            ParseValue(a + Print(m) + b, |a|) == Parsed(Denote(m), |a| + |Print(m)|) <==> Printable(m)
  {
    hide PrintResults, Results, DenoteResults, PrintableResults, Values;
    var m, body := ResultListMi(results), PrintResults(results);
    var t := a + Print(m) + b;
    if Printable(m) {
      PrintedValueRoundTrip(a, m, b);
    } else {
      ResultsNotEmpty(results);
      BodyInBrackets(a, "[", body, "]", b);
      assert Print(m) == "[" + (body + "]");
      StartOfResults(results);
      if !FirstIsNot(results[0].key, ',') {
        CommaIsLost(t, |a| + 1, results);
        assert ListBody(t, |a| + 1).Parsed? ==> ListBody(t, |a| + 1).value != Denote(m);
      }
      assert ParseList(t, |a|) == ParseValue(t, |a|);
    }
  }
}
