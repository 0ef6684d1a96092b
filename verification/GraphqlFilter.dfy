/**
 The filter-fragment scanner: an explicit stack of delimiters and its own
 double-quoted strings, deciding which caller text may be spliced into a query.
 */
module GraphqlFilter {
  import opened Prelude
  import opened GraphqlLiteral
  import Text

  datatype Scan = Scan(stack: seq<char>, inString: bool, escaped: bool, closed: bool)

  const START := Scan([], false, false, false)

  function InString(st: Scan, ch: char): Scan
  {
    if st.escaped then st.(escaped := false)
    else if ch == '\\' then st.(escaped := true)
    else if ch == '"' then st.(inString := false)
    else st
  }

  function Opener(ch: char): char
  {
    if ch == '}' then '{' else '['
  }

  /** The plain characters of a filter object. */
  predicate Plain(ch: char)
  {
    ch == ':' || ch == ',' || IsNameChar(ch) || ch == '-' || ch == '+' || ch == '.' || Text.IsWhitespace(ch)
  }

  /** One character; none when the fragment is rejected there. */
  function ScanChar(st: Scan, ch: char): Option<Scan>
  {
    if st.inString then Some(InString(st, ch))
    else if st.closed && !Text.IsWhitespace(ch) then None
    else if ch == '"' then Some(st.(inString := true))
    else if ch == '{' || ch == '[' then Some(st.(stack := st.stack + [ch]))
    else if ch == '}' || ch == ']' then
      if st.stack == [] || st.stack[|st.stack| - 1] != Opener(ch) then None
      else
        var rest := st.stack[..|st.stack| - 1];
        Some(st.(stack := rest, closed := st.closed || rest == []))
    else if Plain(ch) then Some(st)
    else None
  }

  function ScanText(st: Scan, s: string): Option<Scan>
  {
    if s == "" then Some(st)
    else
      match ScanText(st, s[..|s| - 1])
      case None => None
      case Some(mid) => ScanChar(mid, s[|s| - 1])
  }

  predicate Accepts(filter: string)
  {
    var trimmed := Text.Trim(filter);
    && trimmed != "" && trimmed[0] == '{'
    && var end := ScanText(START, trimmed);
    end.Some? && !end.value.inString && end.value.stack == []
  }

  method ValidateFilterFragment(filter: string) returns (ok: bool)
    ensures ok <==> Accepts(filter)
  {
    var trimmed := Text.Trim(filter);
    if trimmed == "" || trimmed[0] != '{' {
      return false;
    }
    var stack: seq<char> := [];
    var inString, escaped, closed := false, false, false;
    for index := 0 to |trimmed|
      invariant ScanText(START, trimmed[..index]) == Some(Scan(stack, inString, escaped, closed))
    {
      assert trimmed[..index + 1][..index] == trimmed[..index];
      var ch := trimmed[index];
      if inString {
        if escaped {
          escaped := false;
        } else if ch == '\\' {
          escaped := true;
        } else if ch == '"' {
          inString := false;
        }
        continue;
      }
      if closed && !Text.IsWhitespace(ch) {
        RejectionStays(START, trimmed, index + 1);
        return false;
      }
      if ch == '"' {
        inString := true;
      } else if ch == '{' || ch == '[' {
        stack := stack + [ch];
      } else if ch == '}' || ch == ']' {
        if stack == [] || stack[|stack| - 1] != Opener(ch) {
          RejectionStays(START, trimmed, index + 1);
          return false;
        }
        stack := stack[..|stack| - 1];
        if stack == [] {
          closed := true;
        }
      } else if !Plain(ch) {
        RejectionStays(START, trimmed, index + 1);
        return false;
      }
    }
    assert trimmed[..|trimmed|] == trimmed;
    return !inString && stack == [];
  }

  lemma {:induction false} RejectionStays(st: Scan, s: string, n: nat)
    requires n <= |s| && ScanText(st, s[..n]).None?
    ensures ScanText(st, s).None?
  {
    if n == |s| {
      assert s[..n] == s;
    } else {
      assert s[..|s| - 1][..n] == s[..n];
      RejectionStays(st, s[..|s| - 1], n);
    }
  }

  lemma {:induction false} ScanBoth(st: Scan, a: string, b: string)
    ensures ScanText(st, a + b) ==
            match ScanText(st, a) { case None => None case Some(mid) => ScanText(mid, b) }
  {
    if b == "" {
      assert a + b == a;
    } else {
      assert (a + b)[..|a + b| - 1] == a + b[..|b| - 1];
      ScanBoth(st, a, b[..|b| - 1]);
    }
  }

  // ----- context neutrality

  /** Delimiters, strings and comments of the query around the fragment.  A comment
      runs from a number sign to the end of its line (section 2.1.4 of the GraphQL
      specification, October 2021). */
  datatype Lexer = Lexer(stack: seq<char>, inString: bool, escaped: bool, inComment: bool)

  /** Outside strings and comments, inside the given delimiters. */
  function Within(stack: seq<char>): Lexer
  {
    Lexer(stack, false, false, false)
  }

  function LexChar(lx: Lexer, ch: char): Option<Lexer>
  {
    if lx.inComment then Some(if ch == '\n' || ch == '\r' then lx.(inComment := false) else lx)
    else if lx.inString then
      Some(if lx.escaped then lx.(escaped := false)
           else if ch == '\\' then lx.(escaped := true)
           else if ch == '"' then lx.(inString := false)
           else lx)
    else if ch == '#' then Some(lx.(inComment := true))
    else if ch == '"' then Some(lx.(inString := true))
    else if ch == '{' || ch == '[' || ch == '(' then Some(lx.(stack := lx.stack + [ch]))
    else if ch == '}' || ch == ']' || ch == ')' then
      if lx.stack == [] then None else Some(lx.(stack := lx.stack[..|lx.stack| - 1]))
    else Some(lx)
  }

  function LexText(lx: Lexer, s: string): Option<Lexer>
  {
    if s == "" then Some(lx)
    else
      match LexText(lx, s[..|s| - 1])
      case None => None
      case Some(mid) => LexChar(mid, s[|s| - 1])
  }

  lemma {:induction false} LexBoth(lx: Lexer, a: string, b: string)
    ensures LexText(lx, a + b) ==
            match LexText(lx, a) { case None => None case Some(mid) => LexText(mid, b) }
  {
    if b == "" {
      assert a + b == a;
    } else {
      assert (a + b)[..|a + b| - 1] == a + b[..|b| - 1];
      LexBoth(lx, a, b[..|b| - 1]);
    }
  }

  lemma {:induction false} LexFollowsChar(outer: seq<char>, st: Scan, ch: char)
    requires ScanChar(st, ch).Some?
    ensures var next := ScanChar(st, ch).value;
            LexChar(Lexer(outer + st.stack, st.inString, st.escaped, false), ch)
            == Some(Lexer(outer + next.stack, next.inString, next.escaped, false))
  {
    assert outer + (st.stack + [ch]) == (outer + st.stack) + [ch];
    if st.stack != [] {
      assert (outer + st.stack)[..|outer + st.stack| - 1] == outer + st.stack[..|st.stack| - 1];
    }
  }

  /** The surrounding lexer on top of any outer stack follows the scanner. */
  lemma {:induction false} LexFollowsScan(outer: seq<char>, s: string)
    requires ScanText(START, s).Some?
    ensures var st := ScanText(START, s).value;
            LexText(Within(outer), s) == Some(Lexer(outer + st.stack, st.inString, st.escaped, false))
  {
    if s == "" {
      assert outer + START.stack == outer;
    } else {
      LexFollowsScan(outer, s[..|s| - 1]);
      var mid := ScanText(START, s[..|s| - 1]).value;
      var ch := s[|s| - 1];
      LexFollowsChar(outer, mid, ch);
    }
  }

  lemma {:induction false} LexBlank(lx: Lexer, s: string)
    requires Text.AllWhitespace(s) && !lx.inString && !lx.inComment
    ensures LexText(lx, s) == Some(lx)
  {
    if s != "" {
      LexBlank(lx, s[..|s| - 1]);
    }
  }

  lemma {:induction false} EscapedOnlyInString(s: string)
    requires ScanText(START, s).Some?
    ensures ScanText(START, s).value.escaped ==> ScanText(START, s).value.inString
  {
    if s != "" {
      EscapedOnlyInString(s[..|s| - 1]);
    }
  }

  /** Context neutrality.  Lexed from any outer stack, an accepted fragment ends
      outside strings and comments with that same stack; at no point on the way is
      it inside a comment, or has it popped a delimiter it did not open itself. */
  lemma {:induction false} ContextNeutral(filter: string, outer: seq<char>)
    requires Accepts(filter)
    ensures LexText(Within(outer), filter) == Some(Within(outer))
    ensures forall n | 0 <= n <= |filter| ::
              var lx := LexText(Within(outer), filter[..n]);
              lx.Some? && outer <= lx.value.stack && !lx.value.inComment
  {
    var before, after := Text.TrimSplits(filter);
    var trimmed := Text.Trim(filter);
    var lx := Within(outer);
    LexBlank(lx, before);
    LexBoth(lx, before, trimmed);
    LexFollowsScan(outer, trimmed);
    EscapedOnlyInString(trimmed);
    assert outer + [] == outer;
    assert LexText(lx, before + trimmed) == Some(lx);
    LexBlank(lx, after);
    LexBoth(lx, before + trimmed, after);
    forall n | 0 <= n <= |filter|
      ensures LexText(lx, filter[..n]).Some? && outer <= LexText(lx, filter[..n]).value.stack
      ensures !LexText(lx, filter[..n]).value.inComment
    {
      NeutralPrefix(outer, before, trimmed, after, n);
    }
  }

  lemma {:induction false} NeutralPrefix(outer: seq<char>, before: string, trimmed: string, after: string, n: nat)
    requires Text.AllWhitespace(before) && Text.AllWhitespace(after) && n <= |before + trimmed + after|
    requires ScanText(START, trimmed).Some?
    requires LexText(Within(outer), before + trimmed) == Some(Within(outer))
    ensures var lx := LexText(Within(outer), (before + trimmed + after)[..n]);
            lx.Some? && outer <= lx.value.stack && !lx.value.inComment
  {
    var lx := Within(outer);
    var s := before + trimmed + after;
    if n <= |before| {
      assert s[..n] == before[..n];
      LexBlank(lx, before[..n]);
    } else if n <= |before| + |trimmed| {
      var k := n - |before|;
      assert s[..n] == before + trimmed[..k];
      LexBlank(lx, before);
      LexBoth(lx, before, trimmed[..k]);
      if ScanText(START, trimmed[..k]).None? {
        RejectionStays(START, trimmed, k);
      }
      LexFollowsScan(outer, trimmed[..k]);
    } else {
      var k := n - |before| - |trimmed|;
      assert s[..n] == (before + trimmed) + after[..k];
      LexBlank(lx, after[..k]);
      LexBoth(lx, before + trimmed, after[..k]);
    }
  }

  // ----- one object

  /** After the top-level object has closed only white space is accepted. */
  lemma {:induction false} OnlyBlankAfterClose(st: Scan, s: string)
    requires st.closed && !st.inString && st.stack == [] && ScanText(st, s).Some?
    ensures Text.AllWhitespace(s) && ScanText(st, s) == Some(st)
  {
    if s != "" {
      OnlyBlankAfterClose(st, s[..|s| - 1]);
    }
  }

  lemma {:induction false} EmptyMeansClosed(s: string)
    requires ScanText(START, s).Some? && s != "" && s[0] == '{'
    ensures var st := ScanText(START, s).value; st.stack == [] <==> st.closed
    ensures ScanText(START, s).value.closed ==> !ScanText(START, s).value.inString
  {
    if |s| > 1 {
      assert s[..|s| - 1][0] == '{';
      EmptyMeansClosed(s[..|s| - 1]);
    } else {
      assert s[..0] == "" && ScanText(START, s) == ScanChar(START, '{');
    }
  }

  /** The first closing of the top-level object is the last character: an accepted
      fragment is one object and white space around it. */
  lemma {:induction false} SingleObject(filter: string, n: nat)
    requires Accepts(filter) && 0 < n < |Text.Trim(filter)|
    ensures ScanText(START, Text.Trim(filter)[..n]).Some?
    ensures ScanText(START, Text.Trim(filter)[..n]).value.stack != []
  {
    var t := Text.Trim(filter);
    assert t == t[..n] + t[n..];
    ScanBoth(START, t[..n], t[n..]);
    assert t[..n][0] == '{';
    EmptyMeansClosed(t[..n]);
    var st := ScanText(START, t[..n]).value;
    TrimEndsSolid(Text.TrimStart(filter));
    assert t[n..][|t| - n - 1] == t[|t| - 1];
    if st.stack == [] {
      OnlyBlankAfterClose(st, t[n..]);
    }
  }

  lemma {:induction false} TrimEndsSolid(s: string)
    ensures Text.TrimEnd(s) != "" ==> !Text.IsWhitespace(Text.TrimEnd(s)[|Text.TrimEnd(s)| - 1])
  {
    if s != "" && Text.IsWhitespace(s[|s| - 1]) {
      TrimEndsSolid(s[..|s| - 1]);
    }
  }

  // ----- what is accepted, without the scanner

  /** The characters a filter object may hold outside its strings. */
  predicate Allowed(ch: char)
  {
    || 'a' <= ch <= 'z' || 'A' <= ch <= 'Z' || '0' <= ch <= '9' || ch == '_'
    || ch in {':', ',', '-', '+', '.', '"', '{', '}', '[', ']'} || Text.IsWhitespace(ch)
  }

  /** Lexed on its own, character `n` is inside a string, or an allowed one that
      closes nothing but the delimiter it matches. */
  predicate FitsAt(t: string, n: nat)
    requires n < |t|
  {
    var lx := LexText(Within([]), t[..n]);
    && lx.Some?
    && (!lx.value.inString ==>
          && Allowed(t[n])
          && (t[n] == '}' ==> lx.value.stack != [] && lx.value.stack[|lx.value.stack| - 1] == '{')
          && (t[n] == ']' ==> lx.value.stack != [] && lx.value.stack[|lx.value.stack| - 1] == '['))
  }

  predicate OpenAt(t: string, n: nat)
    requires n <= |t|
  {
    var lx := LexText(Within([]), t[..n]);
    lx.Some? && lx.value.stack != []
  }

  /** One object: it opens with the first character, stays open until the last, and every character fits. */
  ghost predicate IsFilterObject(t: string)
  {
    && t != "" && t[0] == '{'
    && (forall n | 0 <= n < |t| :: FitsAt(t, n))
    && (forall n | 0 < n < |t| :: OpenAt(t, n))
    && LexText(Within([]), t) == Some(Within([]))
  }

  lemma {:induction false} PrefixScans(t: string, n: nat)
    requires ScanText(START, t).Some? && n <= |t|
    ensures ScanText(START, t[..n]).Some?
    ensures n < |t| ==> ScanChar(ScanText(START, t[..n]).value, t[n]).Some?
  {
    if ScanText(START, t[..n]).None? {
      RejectionStays(START, t, n);
    }
    if n < |t| {
      assert t[..n + 1][..n] == t[..n];
      if ScanText(START, t[..n + 1]).None? {
        RejectionStays(START, t, n + 1);
      }
    }
  }

  lemma {:induction false} AcceptedIsObject(filter: string)
    requires Accepts(filter)
    ensures IsFilterObject(Text.Trim(filter))
  {
    var t := Text.Trim(filter);
    LexFollowsScan([], t);
    EscapedOnlyInString(t);
    assert [] + ScanText(START, t).value.stack == [];
    assert LexText(Within([]), t) == Some(Within([]));
    hide FitsAt, OpenAt, LexText, ScanText;
    forall n | 0 <= n < |t| ensures FitsAt(t, n) {
      ScannedFits(t, n);
    }
    forall n | 0 < n < |t| ensures OpenAt(t, n) {
      SingleObject(filter, n);
      ScannedIsOpen(t, n);
    }
  }

  lemma {:induction false} ScannedFits(t: string, n: nat)
    requires ScanText(START, t).Some? && n < |t|
    ensures FitsAt(t, n)
  {
    PrefixScans(t, n);
    LexFollowsScan([], t[..n]);
    hide LexText, ScanText;
    var st := ScanText(START, t[..n]).value;
    assert [] + st.stack == st.stack;
  }

  lemma {:induction false} ScannedIsOpen(t: string, n: nat)
    requires n <= |t| && ScanText(START, t[..n]).Some? && ScanText(START, t[..n]).value.stack != []
    ensures OpenAt(t, n)
  {
    LexFollowsScan([], t[..n]);
    hide LexText, ScanText;
    var st := ScanText(START, t[..n]).value;
    assert [] + st.stack == st.stack;
  }

  /** The scanner goes along with a text that fits, and has not closed before the end. */
  lemma {:induction false} ObjectScans(t: string, n: nat)
    requires IsFilterObject(t) && n <= |t|
    ensures var st, lx := ScanText(START, t[..n]), LexText(Within([]), t[..n]);
            && st.Some? && lx.Some? && lx.value == Lexer(st.value.stack, st.value.inString, st.value.escaped, false)
            && (st.value.closed ==> n == |t|)
  {
    if n > 0 {
      var m := n - 1;
      ObjectScans(t, m);
      assert t[..n][..m] == t[..m] && t[..n][m] == t[m];
      assert FitsAt(t, m);
      LexFollowsChar([], ScanText(START, t[..m]).value, t[m]);
      var st := ScanText(START, t[..m]).value;
      assert [] + st.stack == st.stack && [] + ScanChar(st, t[m]).value.stack == ScanChar(st, t[m]).value.stack;
      if n < |t| {
        assert OpenAt(t, n);
      }
    }
  }

  /** Exactly which fragments are accepted. */
  lemma {:induction false} AcceptsExactly(filter: string)
    ensures Accepts(filter) <==> IsFilterObject(Text.Trim(filter))
  {
    var t := Text.Trim(filter);
    if Accepts(filter) {
      AcceptedIsObject(filter);
    }
    if IsFilterObject(t) {
      ObjectScans(t, |t|);
      assert t[..|t|] == t;
    }
  }

  /** In particular no parenthesis and no comment sign outside strings. */
  lemma {:induction false} NoBreakOut(filter: string, n: nat)
    requires Accepts(filter) && n < |Text.Trim(filter)|
    requires LexText(Within([]), Text.Trim(filter)[..n]).Some? && !LexText(Within([]), Text.Trim(filter)[..n]).value.inString
    ensures Text.Trim(filter)[n] !in {'(', ')', '#', '$', '@', '!', '&', '|', '='}
  {
    AcceptedIsObject(filter);
    assert FitsAt(Text.Trim(filter), n);
  }

  // ----- the renderer stays inside what the scanner accepts

  /** Inside an open string, escaped text never ends the string. */
  lemma {:induction false} EscapedStaysInside(st: Scan, s: string)
    requires st.inString && !st.escaped
    ensures ScanText(st, Escape(s)) == Some(st)
    ensures forall n | 0 <= n <= |Escape(s)| ::
              ScanText(st, Escape(s)[..n]).Some? && ScanText(st, Escape(s)[..n]).value.inString
  {
    if s != "" {
      var head := EscapeChar(s[0]);
      CharStaysInside(st, s[0]);
      EscapedStaysInside(st, s[1..]);
      ScanBoth(st, head, Escape(s[1..]));
      forall n | 0 <= n <= |Escape(s)|
        ensures ScanText(st, Escape(s)[..n]).Some? && ScanText(st, Escape(s)[..n]).value.inString
      {
        if n <= |head| {
          assert Escape(s)[..n] == head[..n];
        } else {
          assert Escape(s)[..n] == head + Escape(s[1..])[..n - |head|];
          ScanBoth(st, head, Escape(s[1..])[..n - |head|]);
        }
      }
    }
  }

  lemma {:induction false} CharStaysInside(st: Scan, c: char)
    requires st.inString && !st.escaped
    ensures ScanText(st, EscapeChar(c)) == Some(st)
    ensures forall n | 0 <= n <= |EscapeChar(c)| ::
              ScanText(st, EscapeChar(c)[..n]).Some? && ScanText(st, EscapeChar(c)[..n]).value.inString
  {
    var t := EscapeChar(c);
    assert t[..0] == "" && t[..1] == [t[0]] && [t[0]][..0] == "";
    assert ScanText(st, t[..0]) == Some(st);
    assert ScanText(st, t[..1]) == Some(InString(st, t[0]));
    if |t| == 2 {
      assert ScanText(st, t) == ScanChar(InString(st, t[0]), t[1]);
      assert t[..2] == t;
    } else {
      assert t[..1] == t;
    }
  }

  /** Outside strings and inside an object or array. */
  predicate Inside(st: Scan)
  {
    !st.inString && !st.escaped && !st.closed && st.stack != []
  }

  lemma {:induction false} ScanOne(st: Scan, c: char)
    ensures ScanText(st, [c]) == ScanChar(st, c)
  {
    assert [c][..0] == "";
  }

  lemma {:induction false} PlainStays(st: Scan, s: string)
    requires Inside(st) && forall i | 0 <= i < |s| :: Plain(s[i])
    ensures ScanText(st, s) == Some(st)
  {
    if s != "" {
      PlainStays(st, s[..|s| - 1]);
    }
  }

  /** A rendered value, scanned inside an object or array, leaves no trace. */
  lemma {:induction false} RenderedLeavesNoTrace(v: Json, st: Scan)
    requires ValidJson(v) && Render(v).Some? && Inside(st)
    ensures ScanText(st, Render(v).value) == Some(st)
    decreases v, 1
  {
    match v
    case Str(s) =>
      var inner := st.(inString := true);
      EscapedStaysInside(inner, s);
      ScanOne(st, '"');
      ScanOne(inner, '"');
      ScanBoth(st, "\"", Escape(s));
      ScanBoth(st, "\"" + Escape(s), "\"");
    case Array(items) =>
      if items == [] {
        PlainStays(st, "null");
      } else {
        var inner := st.(stack := st.stack + ['[']);
        ItemsLeaveNoTrace(items, inner);
        Bracketed(st, '[', RenderItems(items).value, ']');
      }
    case Object(members) =>
      var inner := st.(stack := st.stack + ['{']);
      ObjectBody(members, inner);
      Bracketed(st, '{', " " + RenderMembers(members).value + " ", '}');
      assert "{ " + RenderMembers(members).value + " }" == ['{'] + (" " + RenderMembers(members).value + " ") + ['}'];
    case _ => PlainStays(st, Render(v).value);
  }

  /** A traceless body between matching delimiters is traceless. */
  lemma {:induction false} Bracketed(st: Scan, open: char, body: string, close: char)
    requires !st.inString && !st.closed && st.stack != []
    requires (open == '{' && close == '}') || (open == '[' && close == ']')
    requires ScanText(st.(stack := st.stack + [open]), body) == Some(st.(stack := st.stack + [open]))
    ensures ScanText(st, [open] + body + [close]) == Some(st)
  {
    var inner := st.(stack := st.stack + [open]);
    ScanOne(st, open);
    ScanOne(inner, close);
    ScanBoth(st, [open], body);
    ScanBoth(st, [open] + body, [close]);
    assert inner.stack[..|inner.stack| - 1] == st.stack;
  }

  lemma {:induction false} ItemsLeaveNoTrace(items: seq<Json>, st: Scan)
    requires items != [] && RenderItems(items).Some? && Inside(st)
    requires forall i | 0 <= i < |items| :: ValidJson(items[i])
    ensures ScanText(st, RenderItems(items).value) == Some(st)
    decreases items, 0
  {
    RenderedLeavesNoTrace(items[0], st);
    if |items| > 1 {
      ItemsLeaveNoTrace(items[1..], st);
      PlainStays(st, ", ");
      ScanBoth(st, Render(items[0]).value, ", ");
      ScanBoth(st, Render(items[0]).value + ", ", RenderItems(items[1..]).value);
    }
  }

  lemma {:induction false} MembersLeaveNoTrace(members: seq<Member>, st: Scan)
    requires RenderMembers(members).Some? && Inside(st)
    requires forall i | 0 <= i < |members| :: ValidJson(members[i].value)
    ensures ScanText(st, RenderMembers(members).value) == Some(st)
    decreases members, 0
  {
    if members != [] {
      var value := Render(members[0].value).value;
      var head := members[0].key + ": ";
      PlainStays(st, head);
      RenderedLeavesNoTrace(members[0].value, st);
      ScanBoth(st, head, value);
      if |members| > 1 {
        MembersLeaveNoTrace(members[1..], st);
        PlainStays(st, ", ");
        ScanBoth(st, head + value, ", ");
        ScanBoth(st, head + value + ", ", RenderMembers(members[1..]).value);
      }
    }
  }

  lemma {:induction false} ObjectBody(members: seq<Member>, st: Scan)
    requires RenderMembers(members).Some? && Inside(st)
    requires forall i | 0 <= i < |members| :: ValidJson(members[i].value)
    ensures ScanText(st, " " + RenderMembers(members).value + " ") == Some(st)
    decreases members, 1
  {
    PlainStays(st, " ");
    MembersLeaveNoTrace(members, st);
    ScanBoth(st, " ", RenderMembers(members).value);
    ScanBoth(st, " " + RenderMembers(members).value, " ");
  }

  /** Every rendering of a JSON object is an accepted filter fragment. */
  lemma {:induction false} RenderedObjectIsAccepted(members: seq<Member>)
    requires ValidJson(Object(members)) && Render(Object(members)).Some?
    ensures Accepts(Render(Object(members)).value)
  {
    var body := " " + RenderMembers(members).value + " ";
    var s := Render(Object(members)).value;
    assert s == ['{'] + body + ['}'];
    var inner := START.(stack := ['{']);
    ScanOne(START, '{');
    assert [] + ['{'] == ['{'] && ['{'][..0] == [];
    ObjectBody(members, inner);
    ScanOne(inner, '}');
    assert ScanChar(inner, '}') == Some(START.(closed := true));
    ScanBoth(START, ['{'], body);
    ScanBoth(START, ['{'] + body, ['}']);
    assert Text.TrimStart(s) == s && Text.TrimEnd(s) == s;
  }
}
