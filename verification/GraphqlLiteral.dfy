/**
 GraphQL input literals: the string escaper and the recursive renderer of JSON
 values, and that a rendering can be read in only one way.
 */
module GraphqlLiteral {
  import opened Prelude
  import Text

  /** A JSON value.  A number is its own text; an object lists its members in
      iteration order. */
  datatype Json =
    | Null
    | Bool(b: bool)
    | Number(text: string)
    | Str(s: string)
    | Array(items: seq<Json>)
    | Object(members: seq<Member>)

  datatype Member = Member(key: string, value: Json)

  predicate IsDigit(c: char) { '0' <= c <= '9' }
  predicate IsLetter(c: char) { 'a' <= c <= 'z' || 'A' <= c <= 'Z' }
  predicate IsNameChar(c: char) { IsLetter(c) || IsDigit(c) || c == '_' }
  predicate IsNumberChar(c: char) { IsDigit(c) || c == '-' || c == '+' || c == '.' || c == 'e' || c == 'E' }

  /** The GraphQL `Name` grammar. */
  predicate ValidName(name: string)
  {
    && name != "" && (IsLetter(name[0]) || name[0] == '_')
    && forall i | 0 <= i < |name| :: IsNameChar(name[i])
  }

  /** A name starts with a letter or an underscore, goes on with those and digits,
      and holds nothing else (section 2.1.9 of the GraphQL specification, October 2021). */
  lemma {:induction false} NamesExactly(c: char, rest: string)
    ensures ValidName("") == false
    ensures ValidName([c] + rest) <==>
            && ('a' <= c <= 'z' || 'A' <= c <= 'Z' || c == '_')
            && forall i | 0 <= i < |rest| ::
                 'a' <= rest[i] <= 'z' || 'A' <= rest[i] <= 'Z' || rest[i] == '_' || '0' <= rest[i] <= '9'
  {
    var name := [c] + rest;
    assert forall i | 0 <= i < |rest| :: name[i + 1] == rest[i];
    assert forall i | 0 < i < |name| :: name[i] == rest[i - 1];
  }

  /** What is used of the JSON number grammar: its first character and its alphabet. */
  predicate ValidNumber(text: string)
  {
    && text != "" && (IsDigit(text[0]) || text[0] == '-')
    && forall i | 0 <= i < |text| :: IsNumberChar(text[i])
  }

  /** Every number text in the value is a JSON number. */
  predicate ValidJson(v: Json)
  {
    match v
    case Number(text) => ValidNumber(text)
    case Array(items) => forall i | 0 <= i < |items| :: ValidJson(items[i])
    case Object(members) => forall i | 0 <= i < |members| :: ValidJson(members[i].value)
    case _ => true
  }

  // ----- strings

  function EscapeChar(c: char): string
  {
    if c == '\\' then "\\\\"
    else if c == '"' then "\\\""
    else if c == '\n' then "\\n"
    else if c == '\r' then "\\r"
    else if c == '\t' then "\\t"
    else [c]
  }

  function Escape(s: string): string
  {
    if s == "" then "" else EscapeChar(s[0]) + Escape(s[1..])
  }

  method EscapeString(value: string) returns (escaped: string)
    ensures escaped == Escape(value)
  {
    escaped := "";
    for i := 0 to |value|
      invariant escaped + Escape(value[i..]) == Escape(value)
    {
      assert value[i..][1..] == value[i + 1..];
      assert escaped + (EscapeChar(value[i]) + Escape(value[i + 1..])) == escaped + EscapeChar(value[i]) + Escape(value[i + 1..]);
      escaped := escaped + EscapeChar(value[i]);
    }
  }

  /** Reads an escaped text back; an escape the escaper never writes is refused. */
  function Unescape(t: string): Option<string>
  {
    if t == "" then Some("")
    else if t[0] != '\\' then
      (match Unescape(t[1..])
       case None => None
       case Some(rest) => Some([t[0]] + rest))
    else if |t| < 2 || UnescapeChar(t[1]).None? then None
    else
      (match Unescape(t[2..])
       case None => None
       case Some(rest) => Some([UnescapeChar(t[1]).value] + rest))
  }

  function UnescapeChar(c: char): Option<char>
  {
    if c == '\\' then Some('\\')
    else if c == '"' then Some('"')
    else if c == 'n' then Some('\n')
    else if c == 'r' then Some('\r')
    else if c == 't' then Some('\t')
    else None
  }

  lemma {:induction false} UnescapeHead(c: char, rest: string)
    ensures Unescape(EscapeChar(c) + rest) ==
            match Unescape(rest) case None => None case Some(tail) => Some([c] + tail)
  {
    var text := EscapeChar(c) + rest;
    assert text[|EscapeChar(c)|..] == rest;
  }

  /** Unescaping inverts escaping. */
  lemma {:induction false} UnescapeEscape(s: string)
    ensures Unescape(Escape(s)) == Some(s)
  {
    if s != "" {
      hide Unescape;
      UnescapeEscape(s[1..]);
      UnescapeHead(s[0], Escape(s[1..]));
      assert s == [s[0]] + s[1..];
    }
  }

  /** Escaped text stays on its line: it holds no line terminator and no tab
      (section 2.9.4 of the GraphQL specification, October 2021), and a quote only
      after a backslash. */
  lemma {:induction false} EscapedStaysOnLine(s: string, i: nat)
    requires i < |Escape(s)|
    ensures Escape(s)[i] != '\n' && Escape(s)[i] != '\r' && Escape(s)[i] != '\t'
    ensures Escape(s)[i] == '"' ==> i > 0 && Escape(s)[i - 1] == '\\'
  {
    var head := EscapeChar(s[0]);
    if i >= |head| {
      EscapedStaysOnLine(s[1..], i - |head|);
      assert Escape(s)[i] == Escape(s[1..])[i - |head|];
      if i > |head| {
        assert Escape(s)[i - 1] == Escape(s[1..])[i - |head| - 1];
      }
    } else {
      assert Escape(s)[i] == head[i];
    }
  }

  /** Where one escaped character ends is read off the text. */
  lemma {:induction false} EscapedHead(c: char, d: char, x: string, y: string)
    requires EscapeChar(c) + x == EscapeChar(d) + y
    ensures c == d && x == y
  {
    var l, r := EscapeChar(c), EscapeChar(d);
    assert (l + x)[0] == (r + y)[0];
    assert |l| == |r|;
    assert |l| == 2 ==> (l + x)[1] == (r + y)[1];
    assert (l + x)[|l|..] == x && (r + y)[|r|..] == y;
  }

  lemma {:induction false} EscapeUnfolds(s: string, x: string)
    requires s != ""
    ensures Escape(s) + "\"" + x == EscapeChar(s[0]) + (Escape(s[1..]) + "\"" + x)
  {
  }

  lemma {:induction false} QuoteEnds(s: string, x: string)
    ensures s == "" <==> (Escape(s) + "\"" + x)[0] == '"'
  {
    if s != "" {
      assert (Escape(s) + "\"" + x)[0] == EscapeChar(s[0])[0];
    }
  }

  /** An escaped text ends at the first quote that follows it. */
  lemma {:induction false} EscapeEnds(s: string, t: string, x: string, y: string)
    requires Escape(s) + "\"" + x == Escape(t) + "\"" + y
    ensures s == t && x == y
  {
    var l, r := Escape(s) + "\"" + x, Escape(t) + "\"" + y;
    QuoteEnds(s, x);
    QuoteEnds(t, y);
    if s == "" {
      assert l[1..] == x && r[1..] == y;
    } else {
      EscapeUnfolds(s, x);
      EscapeUnfolds(t, y);
      hide EscapeChar, Escape;
      EscapedHead(s[0], t[0], Escape(s[1..]) + "\"" + x, Escape(t[1..]) + "\"" + y);
      EscapeEnds(s[1..], t[1..], x, y);
      assert s == [s[0]] + s[1..] && t == [t[0]] + t[1..];
    }
  }

  // ----- values

  /** The literal of a value; none when an object key is not a name. */
  function Render(v: Json): Option<string>
    decreases v, 1
  {
    match v
    case Null => Some("null")
    case Bool(b) => Some(if b then "true" else "false")
    case Number(text) => Some(text)
    case Str(s) => Some("\"" + Escape(s) + "\"")
    case Array(items) =>
      if items == [] then Some("null")
      else
        (match RenderItems(items)
         case None => None
         case Some(t) => Some("[" + t + "]"))
    case Object(members) =>
      (match RenderMembers(members)
       case None => None
       case Some(t) => Some("{ " + t + " }"))
  }

  /** The items, joined by a comma and a blank. */
  function RenderItems(items: seq<Json>): Option<string>
    requires items != []
    decreases items, 0
  {
    match Render(items[0])
    case None => None
    case Some(head) =>
      if |items| == 1 then Some(head)
      else
        match RenderItems(items[1..])
        case None => None
        case Some(rest) => Some(head + ", " + rest)
  }

  function RenderMembers(members: seq<Member>): Option<string>
    decreases members, 0
  {
    if members == [] then Some("")
    else if !ValidName(members[0].key) then None
    else
      match Render(members[0].value)
      case None => None
      case Some(value) =>
        var head := members[0].key + ": " + value;
        if |members| == 1 then Some(head)
        else
          match RenderMembers(members[1..])
          case None => None
          case Some(rest) => Some(head + ", " + rest)
  }

  /** A value with every empty array taken as null. */
  function Norm(v: Json): Json
    decreases v, 1
  {
    match v
    case Array(items) => if items == [] then Null else Array(NormItems(items))
    case Object(members) => Object(NormMembers(members))
    case _ => v
  }

  function NormItems(items: seq<Json>): (r: seq<Json>)
    ensures |r| == |items|
    decreases items, 0
  {
    if items == [] then [] else [Norm(items[0])] + NormItems(items[1..])
  }

  function NormMembers(members: seq<Member>): (r: seq<Member>)
    ensures |r| == |members|
    decreases members, 0
  {
    if members == [] then []
    else [Member(members[0].key, Norm(members[0].value))] + NormMembers(members[1..])
  }

  /** The literals of values without parts, and of lists and objects with one part
      (sections 2.9.1 to 2.9.8 of the GraphQL specification, October 2021). */
  lemma {:induction false} LiteralsOf(text: string, s: string, key: string, v: Json)
    ensures Render(Null) == Some("null") && Render(Array([])) == Some("null") && Render(Object([])) == Some("{  }")
    ensures Render(Bool(true)) == Some("true") && Render(Bool(false)) == Some("false")
    ensures Render(Number(text)) == Some(text)
    ensures Render(Str(s)) == Some("\"" + Escape(s) + "\"")
    ensures Render(v).Some? ==> Render(Array([v])) == Some("[" + Render(v).value + "]")
    ensures Render(v).Some? ==> Render(Array([v, v])) == Some("[" + Render(v).value + ", " + Render(v).value + "]")
    ensures Render(v).Some? && ValidName(key) ==>
              Render(Object([Member(key, v)])) == Some("{ " + key + ": " + Render(v).value + " }")
  {
    assert RenderMembers([]) == Some("") && "{ " + "" + " }" == "{  }";
    assert [v, v][1..] == [v];
    assert RenderItems([v]) == Render(v);
    if Render(v).Some? {
      var t := Render(v).value;
      assert RenderItems([v, v]) == Some(t + ", " + t);
      assert "[" + (t + ", " + t) + "]" == "[" + t + ", " + t + "]";
      if ValidName(key) {
        assert RenderMembers([Member(key, v)]) == Some(key + ": " + t);
        assert "{ " + (key + ": " + t) + " }" == "{ " + key + ": " + t + " }";
      }
    }
  }

  // ----- one reading

  /** What may follow a value inside a literal. */
  predicate Follows(x: string)
  {
    x == "" || x[0] == ',' || x[0] == ' ' || x[0] == ']'
  }

  /** The first character tells the kinds of value apart. */
  function Kind(v: Json): nat
  {
    match v
    case Null => 0
    case Array(items) => if items == [] then 0 else 5
    case Bool(b) => if b then 1 else 2
    case Number(_) => 3
    case Str(_) => 4
    case Object(_) => 6
  }

  lemma {:induction false} FirstChar(v: Json)
    requires ValidJson(v) && Render(v).Some?
    ensures Render(v).value != ""
    ensures var c := Render(v).value[0];
            && (Kind(v) == 0 <==> c == 'n') && (Kind(v) == 1 <==> c == 't') && (Kind(v) == 2 <==> c == 'f')
            && (Kind(v) == 3 <==> IsDigit(c) || c == '-') && (Kind(v) == 4 <==> c == '"')
            && (Kind(v) == 5 <==> c == '[') && (Kind(v) == 6 <==> c == '{')
  {
  }

  lemma {:induction false} NumberEnds(a: string, b: string, x: string, y: string)
    requires forall i | 0 <= i < |a| :: IsNumberChar(a[i])
    requires forall i | 0 <= i < |b| :: IsNumberChar(b[i])
    requires Follows(x) && Follows(y) && a + x == b + y
    ensures a == b && x == y
  {
    if a != "" && b != "" {
      assert (a + x)[0] == (b + y)[0];
      assert (a + x)[1..] == a[1..] + x && (b + y)[1..] == b[1..] + y;
      NumberEnds(a[1..], b[1..], x, y);
      assert a == [a[0]] + a[1..] && b == [b[0]] + b[1..];
    } else {
      assert a == "" ==> a + x == x;
      assert b == "" ==> b + y == y;
    }
  }

  lemma {:induction false} SameHead(l: string, r: string, x: string, y: string)
    requires l != "" && r != "" && l + x == r + y
    ensures l[0] == r[0]
  {
    assert (l + x)[0] == (r + y)[0];
  }

  /** Unique reading.  Two literals that agree as far as they go, each followed by
      what may follow a value, are the same text and come from the same value. */
  lemma {:induction false} UniqueReading(a: Json, b: Json, x: string, y: string)
    requires ValidJson(a) && ValidJson(b) && Render(a).Some? && Render(b).Some?
    requires Follows(x) && Follows(y) && Render(a).value + x == Render(b).value + y
    ensures Norm(a) == Norm(b) && Render(a) == Render(b) && x == y
    decreases a, 1
  {
    SameKind(a, b, x, y);
    if Kind(a) <= 2 {
      SameTail(Render(a).value, x, y);
    } else if Kind(a) == 3 {
      NumberEnds(a.text, b.text, x, y);
    } else if Kind(a) == 4 {
      Rewrapped("\"", Escape(a.s), Escape(b.s), "\"", x, y);
      assert Escape(a.s) + "\"" + x == Escape(a.s) + ("\"" + x) && Escape(b.s) + "\"" + y == Escape(b.s) + ("\"" + y);
      EscapeEnds(a.s, b.s, x, y);
    } else if Kind(a) == 5 {
      Rewrapped("[", RenderItems(a.items).value, RenderItems(b.items).value, "]", x, y);
      UniqueItems(a.items, b.items, x, y);
    } else {
      Rewrapped("{ ", RenderMembers(a.members).value, RenderMembers(b.members).value, " }", x, y);
      UniqueMembers(a.members, b.members, x, y);
    }
  }

  lemma {:induction false} SameKind(a: Json, b: Json, x: string, y: string)
    requires ValidJson(a) && ValidJson(b) && Render(a).Some? && Render(b).Some?
    requires Render(a).value + x == Render(b).value + y
    ensures Kind(a) == Kind(b)
  {
    FirstChar(a);
    FirstChar(b);
    SameHead(Render(a).value, Render(b).value, x, y);
  }

  /** Equal texts in equal brackets. */
  lemma {:induction false} Rewrapped(open: string, s: string, t: string, close: string, x: string, y: string)
    requires (open + s + close) + x == (open + t + close) + y
    ensures s + (close + x) == t + (close + y)
  {
    assert (open + s + close) + x == open + (s + (close + x));
    assert (open + t + close) + y == open + (t + (close + y));
    SameTail(open, s + (close + x), t + (close + y));
  }

  lemma {:induction false} SameTail(head: string, x: string, y: string)
    requires head + x == head + y
    ensures x == y
  {
    assert (head + x)[|head|..] == x && (head + y)[|head|..] == y;
  }

  lemma {:induction false} UniqueItems(a: seq<Json>, b: seq<Json>, x: string, y: string)
    requires a != [] && b != [] && RenderItems(a).Some? && RenderItems(b).Some?
    requires forall i | 0 <= i < |a| :: ValidJson(a[i])
    requires forall i | 0 <= i < |b| :: ValidJson(b[i])
    requires RenderItems(a).value + ("]" + x) == RenderItems(b).value + ("]" + y)
    ensures NormItems(a) == NormItems(b) && RenderItems(a) == RenderItems(b) && x == y
    decreases a, 0
  {
    var ha, hb := Render(a[0]).value, Render(b[0]).value;
    var restA := if |a| == 1 then "]" + x else ", " + (RenderItems(a[1..]).value + ("]" + x));
    var restB := if |b| == 1 then "]" + y else ", " + (RenderItems(b[1..]).value + ("]" + y));
    assert RenderItems(a).value + ("]" + x) == ha + restA;
    assert RenderItems(b).value + ("]" + y) == hb + restB;
    UniqueReading(a[0], b[0], restA, restB);
    if |a| == 1 {
      SameTail("]", x, y);
    } else {
      SameTail(", ", RenderItems(a[1..]).value + ("]" + x), RenderItems(b[1..]).value + ("]" + y));
      UniqueItems(a[1..], b[1..], x, y);
    }
  }

  /** The literal of a member list and what follows it, opened up at its first member. */
  lemma {:induction false} OpenMembers(m: seq<Member>, x: string) returns (rest: string)
    requires m != [] && RenderMembers(m).Some?
    ensures rest == if |m| == 1 then " }" + x else ", " + (RenderMembers(m[1..]).value + (" }" + x))
    ensures RenderMembers(m).value + (" }" + x) == m[0].key + [':'] + (" " + (Render(m[0].value).value + rest))
    ensures Follows(rest)
  {
    rest := if |m| == 1 then " }" + x else ", " + (RenderMembers(m[1..]).value + (" }" + x));
    var head := m[0].key + ": " + Render(m[0].value).value;
    assert RenderMembers(m).value + (" }" + x) == head + rest;
    assert head + rest == m[0].key + [':'] + (" " + (Render(m[0].value).value + rest));
  }

  lemma {:induction false} MembersHead(m: seq<Member>, x: string)
    requires RenderMembers(m).Some?
    ensures var l := RenderMembers(m).value + (" }" + x); l != "" && (m == [] <==> l[0] == ' ')
  {
    if m != [] {
      var rest := OpenMembers(m, x);
    }
  }

  lemma {:induction false} UniqueMembers(a: seq<Member>, b: seq<Member>, x: string, y: string)
    requires RenderMembers(a).Some? && RenderMembers(b).Some?
    requires forall i | 0 <= i < |a| :: ValidJson(a[i].value)
    requires forall i | 0 <= i < |b| :: ValidJson(b[i].value)
    requires RenderMembers(a).value + (" }" + x) == RenderMembers(b).value + (" }" + y)
    ensures NormMembers(a) == NormMembers(b) && RenderMembers(a) == RenderMembers(b) && x == y
    decreases a, 0
  {
    MembersHead(a, x);
    MembersHead(b, y);
    if a == [] {
      assert "" + (" }" + x) == " }" + x && "" + (" }" + y) == " }" + y;
      SameTail(" }", x, y);
    } else {
      var restA := OpenMembers(a, x);
      var restB := OpenMembers(b, y);
      var va, vb := Render(a[0].value).value, Render(b[0].value).value;
      Text.CutOnce(a[0].key, b[0].key, " " + (va + restA), " " + (vb + restB), ':');
      SameTail(" ", va + restA, vb + restB);
      UniqueReading(a[0].value, b[0].value, restA, restB);
      if |a| == 1 {
        assert |b| == 1 by { assert restA[0] == restB[0]; }
        SameTail(" }", x, y);
      } else {
        assert |b| > 1 by { assert restA[0] == restB[0]; }
        SameTail(", ", RenderMembers(a[1..]).value + (" }" + x), RenderMembers(b[1..]).value + (" }" + y));
        UniqueMembers(a[1..], b[1..], x, y);
      }
    }
  }

  // ----- the two directions

  lemma {:induction false} RenderNorm(v: Json)
    ensures Render(Norm(v)) == Render(v)
    decreases v, 1
  {
    match v
    case Array(items) =>
      if items != [] {
        RenderNormItems(items);
      }
    case Object(members) => RenderNormMembers(members);
    case _ =>
  }

  lemma {:induction false} RenderNormItems(items: seq<Json>)
    requires items != []
    ensures RenderItems(NormItems(items)) == RenderItems(items)
    decreases items, 0
  {
    RenderNorm(items[0]);
    if |items| > 1 {
      RenderNormItems(items[1..]);
      assert NormItems(items)[1..] == NormItems(items[1..]);
    }
  }

  lemma {:induction false} RenderNormMembers(members: seq<Member>)
    ensures RenderMembers(NormMembers(members)) == RenderMembers(members)
    decreases members, 0
  {
    if members != [] {
      RenderNorm(members[0].value);
      RenderNormMembers(members[1..]);
      assert NormMembers(members)[1..] == NormMembers(members[1..]);
    }
  }

  /** Unambiguous printing.  Two renderable values have the same literal exactly
      when they are equal up to empty array = null. */
  lemma {:induction false} UnambiguousPrinting(a: Json, b: Json)
    requires ValidJson(a) && ValidJson(b) && Render(a).Some? && Render(b).Some?
    ensures Render(a) == Render(b) <==> Norm(a) == Norm(b)
  {
    if Render(a) == Render(b) {
      UniqueReading(a, b, "", "");
    }
    RenderNorm(a);
    RenderNorm(b);
  }

  /** A value has a literal exactly when every object key in it is a name. */
  predicate NamedKeys(v: Json)
  {
    match v
    case Array(items) => forall i | 0 <= i < |items| :: NamedKeys(items[i])
    case Object(members) => forall i | 0 <= i < |members| :: ValidName(members[i].key) && NamedKeys(members[i].value)
    case _ => true
  }

  lemma {:induction false} RenderableIsNamed(v: Json)
    ensures Render(v).Some? <==> NamedKeys(v)
    decreases v, 1
  {
    match v
    case Array(items) =>
      if items != [] {
        RenderableItems(items);
      }
    case Object(members) => RenderableMembers(members);
    case _ =>
  }

  lemma {:induction false} RenderableItems(items: seq<Json>)
    requires items != []
    ensures RenderItems(items).Some? <==> forall i | 0 <= i < |items| :: NamedKeys(items[i])
    decreases items, 0
  {
    RenderableIsNamed(items[0]);
    if |items| > 1 {
      RenderableItems(items[1..]);
      assert items == [items[0]] + items[1..];
    }
  }

  lemma {:induction false} RenderableMembers(members: seq<Member>)
    ensures RenderMembers(members).Some? <==>
            forall i | 0 <= i < |members| :: ValidName(members[i].key) && NamedKeys(members[i].value)
    decreases members, 0
  {
    if members != [] {
      RenderableIsNamed(members[0].value);
      RenderableMembers(members[1..]);
      assert members == [members[0]] + members[1..];
    }
  }
}
