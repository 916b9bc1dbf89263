/**
 Escaping a program argument for the Exec key of a desktop entry
 (anduinos-oobe/assets/create_aitool_shortcut.py), against a reader that follows the sections
 "Possible value types" and "The Exec key" of the Desktop Entry Specification.
 */
module DesktopExec {
  import opened Sequences

  // ---------------------------------------------------------------- the writer

  /** str.replace with a pattern of one character. */
  function Replace(s: string, c: char, r: string): string {
    if s == "" then "" else (if s[0] == c then r else [s[0]]) + Replace(s[1..], c, r)
  }

  function DesktopString(value: string): string {
    Replace(Replace(Replace(Replace(value, '\\', "\\\\"), '\n', "\\n"), '\r', "\\r"), '\t', "\\t")
  }

  /** The chain of replacements that exec_argument runs before it adds the quotes. */
  function QuoteChain(value: string): string {
    Replace(Replace(Replace(Replace(Replace(value, '%', "%%"), '\\', "\\\\"), '"', "\\\""), '`', "\\`"), '$', "\\$")
  }

  const SPECIAL := ['\\', '"', '`', '$']

  method ExecArgument(value: string) returns (r: string)
    ensures r == EscapeAll("\"" + Quote(value) + "\"")
  {
    var v := Replace(value, '%', "%%");
    ghost var v0 := v;
    for i := 0 to |SPECIAL|
      invariant i == 0 ==> v == v0
      invariant i == 1 ==> v == Replace(v0, '\\', "\\\\")
      invariant i == 2 ==> v == Replace(Replace(v0, '\\', "\\\\"), '"', "\\\"")
      invariant i == 3 ==> v == Replace(Replace(Replace(v0, '\\', "\\\\"), '"', "\\\""), '`', "\\`")
      invariant i == 4 ==> v == QuoteChain(value)
    {
      v := Replace(v, SPECIAL[i], ['\\', SPECIAL[i]]);
    }
    QuoteIsSimultaneous(value);
    DesktopStringIsSimultaneous("\"" + v + "\"");
    r := DesktopString("\"" + v + "\"");
  }

  // ---------------------------------------------------------------- one character at a time

  /** What the four replacements of desktop_string make of one character. */
  function Escape(c: char): string {
    match c
    case '\\' => "\\\\"
    case '\n' => "\\n"
    case '\r' => "\\r"
    case '\t' => "\\t"
    case _ => [c]
  }

  function EscapeAll(s: string): string {
    if s == "" then "" else Escape(s[0]) + EscapeAll(s[1..])
  }

  predicate NeedsQuote(c: char) {
    c == '\\' || c == '"' || c == '`' || c == '$'
  }

  /** What the five replacements of exec_argument make of one character. */
  function QuoteChar(c: char): string {
    if c == '%' then "%%" else if NeedsQuote(c) then ['\\', c] else [c]
  }

  function Quote(s: string): string {
    if s == "" then "" else QuoteChar(s[0]) + Quote(s[1..])
  }

  lemma {:induction false} ReplaceConcat(a: string, b: string, c: char, r: string)
    ensures Replace(a + b, c, r) == Replace(a, c, r) + Replace(b, c, r)
  {
    if a == "" {
      assert a + b == b;
    } else {
      assert (a + b)[1..] == a[1..] + b;
      ReplaceConcat(a[1..], b, c, r);
    }
  }

  /** A character that is not the pattern passes. */
  lemma ReplaceOne(x: char, c: char, r: string)
    ensures Replace([x], c, r) == if x == c then r else [x]
  {
  }

  lemma ReplaceTwo(x: char, y: char, c: char, r: string)
    requires x != c && y != c
    ensures Replace([x, y], c, r) == [x, y]
  {
    assert [x, y] == [x] + [y];
    ReplaceConcat([x], [y], c, r);
    ReplaceOne(x, c, r);
    ReplaceOne(y, c, r);
  }

  lemma DesktopStringConcat(a: string, b: string)
    ensures DesktopString(a + b) == DesktopString(a) + DesktopString(b)
  {
    var a1, b1 := Replace(a, '\\', "\\\\"), Replace(b, '\\', "\\\\");
    var a2, b2 := Replace(a1, '\n', "\\n"), Replace(b1, '\n', "\\n");
    var a3, b3 := Replace(a2, '\r', "\\r"), Replace(b2, '\r', "\\r");
    ReplaceConcat(a, b, '\\', "\\\\");
    ReplaceConcat(a1, b1, '\n', "\\n");
    ReplaceConcat(a2, b2, '\r', "\\r");
    ReplaceConcat(a3, b3, '\t', "\\t");
  }

  lemma DesktopStringOne(c: char)
    ensures DesktopString([c]) == Escape(c)
  {
    ReplaceOne(c, '\\', "\\\\");
    ReplaceOne(c, '\n', "\\n");
    ReplaceOne(c, '\r', "\\r");
    ReplaceOne(c, '\t', "\\t");
    ReplaceTwo('\\', '\\', '\n', "\\n");
    ReplaceTwo('\\', '\\', '\r', "\\r");
    ReplaceTwo('\\', '\\', '\t', "\\t");
    ReplaceTwo('\\', 'n', '\r', "\\r");
    ReplaceTwo('\\', 'n', '\t', "\\t");
    ReplaceTwo('\\', 'r', '\t', "\\t");
  }

  /** The chained replacements equal one simultaneous map: no replacement touches what another produced. */
  lemma {:induction false} DesktopStringIsSimultaneous(s: string)
    ensures DesktopString(s) == EscapeAll(s)
  {
    if s != "" {
      assert s == [s[0]] + s[1..];
      DesktopStringConcat([s[0]], s[1..]);
      DesktopStringOne(s[0]);
      DesktopStringIsSimultaneous(s[1..]);
    }
  }

  lemma QuoteChainConcat(a: string, b: string)
    ensures QuoteChain(a + b) == QuoteChain(a) + QuoteChain(b)
  {
    var a1, b1 := Replace(a, '%', "%%"), Replace(b, '%', "%%");
    var a2, b2 := Replace(a1, '\\', "\\\\"), Replace(b1, '\\', "\\\\");
    var a3, b3 := Replace(a2, '"', "\\\""), Replace(b2, '"', "\\\"");
    var a4, b4 := Replace(a3, '`', "\\`"), Replace(b3, '`', "\\`");
    ReplaceConcat(a, b, '%', "%%");
    ReplaceConcat(a1, b1, '\\', "\\\\");
    ReplaceConcat(a2, b2, '"', "\\\"");
    ReplaceConcat(a3, b3, '`', "\\`");
    ReplaceConcat(a4, b4, '$', "\\$");
  }

  lemma QuoteChainOne(c: char)
    ensures QuoteChain([c]) == QuoteChar(c)
  {
    ReplaceOne(c, '%', "%%");
    ReplaceOne(c, '\\', "\\\\");
    ReplaceOne(c, '"', "\\\"");
    ReplaceOne(c, '`', "\\`");
    ReplaceOne(c, '$', "\\$");
    if c == '%' {
      ReplaceTwo('%', '%', '\\', "\\\\");
      ReplaceTwo('%', '%', '"', "\\\"");
      ReplaceTwo('%', '%', '`', "\\`");
      ReplaceTwo('%', '%', '$', "\\$");
    } else if c == '\\' {
      ReplaceTwo('\\', '\\', '"', "\\\"");
      ReplaceTwo('\\', '\\', '`', "\\`");
      ReplaceTwo('\\', '\\', '$', "\\$");
    } else if c == '"' {
      ReplaceTwo('\\', '"', '`', "\\`");
      ReplaceTwo('\\', '"', '$', "\\$");
    } else if c == '`' {
      ReplaceTwo('\\', '`', '$', "\\$");
    }
  }

  lemma {:induction false} QuoteIsSimultaneous(s: string)
    ensures QuoteChain(s) == Quote(s)
  {
    if s != "" {
      assert s == [s[0]] + s[1..];
      QuoteChainConcat([s[0]], s[1..]);
      QuoteChainOne(s[0]);
      QuoteIsSimultaneous(s[1..]);
    }
  }

  // ---------------------------------------------------------------- the reader

  function Cons(c: char, rest: Option<string>): Option<string> {
    if rest.Some? then Some([c] + rest.value) else None
  }

  /** "Possible value types": the escape sequences of a string value. */
  function Unescape(s: string): Option<string> {
    if s == "" then Some("")
    else if s[0] != '\\' then Cons(s[0], Unescape(s[1..]))
    else if |s| == 1 then None
    else match s[1]
      case 's' => Cons(' ', Unescape(s[2..]))
      case 'n' => Cons('\n', Unescape(s[2..]))
      case 't' => Cons('\t', Unescape(s[2..]))
      case 'r' => Cons('\r', Unescape(s[2..]))
      case '\\' => Cons('\\', Unescape(s[2..]))
      case _ => None
  }

  /** "The Exec key": the text of a quoted argument up to its closing quote, and what follows. */
  function Quoted(s: string): Option<(string, string)> {
    if s == "" then None
    else if s[0] == '"' then Some(("", s[1..]))
    else if s[0] == '\\' then
      if |s| == 1 || !NeedsQuote(s[1]) then None
      else
        var rest := Quoted(s[2..]);
        if rest.Some? then Some(([s[1]] + rest.value.0, rest.value.1)) else None
    else
      var rest := Quoted(s[1..]);
      if rest.Some? then Some(([s[0]] + rest.value.0, rest.value.1)) else None
  }

  /** Characters that an unquoted argument may not contain. */
  predicate Reserved(c: char) {
    || c == ' ' || c == '\t' || c == '\n' || c == '"' || c == '\'' || c == '\\' || c == '>' || c == '<' || c == '~'
    || c == '|' || c == '&' || c == ';' || c == '$' || c == '*' || c == '?' || c == '#' || c == '(' || c == ')'
    || c == '`'
  }

  /** An unquoted argument up to the next space, and what follows. */
  function Word(s: string): Option<(string, string)> {
    if s == "" || s[0] == ' ' then Some(("", s))
    else if Reserved(s[0]) then None
    else
      var rest := Word(s[1..]);
      if rest.Some? then Some(([s[0]] + rest.value.0, rest.value.1)) else None
  }

  lemma {:induction false} QuotedShrinks(s: string)
    requires Quoted(s).Some?
    ensures |Quoted(s).value.1| < |s|
    decreases |s|
  {
    if s[0] != '"' {
      QuotedShrinks(if s[0] == '\\' then s[2..] else s[1..]);
    }
  }

  lemma {:induction false} WordShrinks(s: string)
    requires Word(s).Some?
    ensures |Word(s).value.1| <= |s|
    ensures s != "" && s[0] != ' ' ==> |Word(s).value.1| < |s|
    ensures Word(s).value.1 == "" || Word(s).value.1[0] == ' '
  {
    if s != "" && s[0] != ' ' {
      WordShrinks(s[1..]);
    }
  }

  function Piece(s: string): Option<(string, string)>
    requires s != ""
  {
    if s[0] == '"' then Quoted(s[1..]) else Word(s)
  }

  lemma PieceShrinks(s: string)
    requires s != "" && s[0] != ' ' && Piece(s).Some?
    ensures |Piece(s).value.1| < |s|
  {
    if s[0] == '"' {
      QuotedShrinks(s[1..]);
    } else {
      WordShrinks(s);
    }
  }

  /** The arguments of a command line, separated by spaces. */
  function Arguments(s: string): Option<seq<string>>
    decreases |s|
  {
    if s == "" then Some([])
    else if s[0] == ' ' then Arguments(s[1..])
    else if Piece(s).None? then None
    else
      var rest := Piece(s).value.1;
      PieceShrinks(s);
      if rest != "" && rest[0] != ' ' then None
      else
        var more := Arguments(rest);
        if more.Some? then Some([Piece(s).value.0] + more.value) else None
  }

  /** Field codes: a literal per cent sign is written twice, and no other code is literal text. */
  function Literal(s: string): Option<string> {
    if s == "" then Some("")
    else if s[0] != '%' then Cons(s[0], Literal(s[1..]))
    else if |s| == 1 || s[1] != '%' then None
    else Cons('%', Literal(s[2..]))
  }

  function Literals(args: seq<string>): Option<seq<string>> {
    if args == [] then Some([])
    else
      var first, rest := Literal(args[0]), Literals(args[1..]);
      if first.Some? && rest.Some? then Some([first.value] + rest.value) else None
  }

  /** The argument vector that the value of an Exec key stands for. */
  function ReadExec(raw: string): Option<seq<string>> {
    var text := Unescape(raw);
    if text.None? then None
    else
      var args := Arguments(text.value);
      if args.None? then None else Literals(args.value)
  }

  // ---------------------------------------------------------------- the reader undoes the writer

  lemma ConsConcat(c: char, a: Option<string>, b: Option<string>)
    requires a.Some? && b.Some?
    ensures Cons(c, Some(a.value + b.value)) == Some(Cons(c, a).value + b.value)
  {
    assert [c] + (a.value + b.value) == ([c] + a.value) + b.value;
  }

  lemma {:induction false} UnescapeConcat(a: string, b: string)
    requires Unescape(a).Some?
    ensures Unescape(a + b) == if Unescape(b).Some? then Some(Unescape(a).value + Unescape(b).value) else None
    decreases |a|
  {
    if a == "" {
      assert a + b == b;
      assert Unescape(b).Some? ==> "" + Unescape(b).value == Unescape(b).value;
    } else if a[0] != '\\' {
      assert (a + b)[1..] == a[1..] + b;
      UnescapeConcat(a[1..], b);
      if Unescape(b).Some? {
        ConsConcat(a[0], Unescape(a[1..]), Unescape(b));
      }
    } else {
      assert (a + b)[2..] == a[2..] + b;
      UnescapeConcat(a[2..], b);
      if Unescape(b).Some? {
        ConsConcat(Unescape(a).value[0], Unescape(a[2..]), Unescape(b));
      }
    }
  }

  lemma EscapeOneReads(c: char)
    ensures Unescape(Escape(c)) == Some([c])
  {
    var e := Escape(c);
    assert [c] + "" == [c];
    if |e| == 2 {
      assert e[2..] == "";
    } else {
      assert e[1..] == "";
    }
  }

  lemma {:induction false} EscapeReads(s: string)
    ensures Unescape(EscapeAll(s)) == Some(s)
  {
    if s != "" {
      EscapeOneReads(s[0]);
      EscapeReads(s[1..]);
      assert [s[0]] + s[1..] == s;
      UnescapeConcat(Escape(s[0]), EscapeAll(s[1..]));
    }
  }

  /** Text with doubled per cent signs, as it stands between the quotes. */
  function Doubled(s: string): string {
    if s == "" then "" else (if s[0] == '%' then "%%" else [s[0]]) + Doubled(s[1..])
  }

  lemma {:induction false} DoubledReads(s: string)
    ensures Literal(Doubled(s)) == Some(s)
  {
    if s != "" {
      DoubledReads(s[1..]);
      assert [s[0]] + s[1..] == s;
      var d := Doubled(s);
      if s[0] == '%' {
        assert d[2..] == Doubled(s[1..]);
      } else {
        assert d[1..] == Doubled(s[1..]);
      }
    }
  }

  lemma QuotedPlain(c: char, rest: string, text: string, tail: string)
    requires c != '"' && c != '\\' && Quoted(rest) == Some((text, tail))
    ensures Quoted([c] + rest) == Some(([c] + text, tail))
  {
  }

  lemma QuotedEscaped(c: char, rest: string, text: string, tail: string)
    requires NeedsQuote(c) && Quoted(rest) == Some((text, tail))
    ensures Quoted(['\\', c] + rest) == Some(([c] + text, tail))
  {
  }

  /** Reading one character back, whichever way it was written. */
  lemma QuoteCharReads(c: char, rest: string, text: string, tail: string)
    requires Quoted(rest) == Some((text, tail))
    ensures Quoted(QuoteChar(c) + rest) == Some(((if c == '%' then "%%" else [c]) + text, tail))
  {
    if c == '%' {
      QuotedPlain('%', rest, text, tail);
      QuotedPlain('%', ['%'] + rest, ['%'] + text, tail);
      assert "%%" + rest == ['%'] + (['%'] + rest);
      assert "%%" + text == ['%'] + (['%'] + text);
    } else if NeedsQuote(c) {
      QuotedEscaped(c, rest, text, tail);
    } else {
      QuotedPlain(c, rest, text, tail);
    }
  }

  lemma {:induction false} QuoteReads(s: string, tail: string)
    ensures Quoted(Quote(s) + ("\"" + tail)) == Some((Doubled(s), tail))
  {
    if s == "" {
      assert Quote(s) + ("\"" + tail) == "\"" + tail;
      assert ("\"" + tail)[1..] == tail;
    } else {
      QuoteReads(s[1..], tail);
      QuoteCharReads(s[0], Quote(s[1..]) + ("\"" + tail), Doubled(s[1..]), tail);
      QuoteFirst(s, "\"" + tail);
    }
  }

  lemma QuoteFirst(s: string, end: string)
    requires s != ""
    ensures Quote(s) + end == QuoteChar(s[0]) + (Quote(s[1..]) + end)
  {
  }

  /** A quoted argument followed by nothing, or by a space and more. */
  lemma QuotedArgument(value: string, tail: string)
    requires tail == "" || tail[0] == ' '
    requires Arguments(tail).Some?
    ensures Arguments("\"" + Quote(value) + "\"" + tail) == Some([Doubled(value)] + Arguments(tail).value)
  {
    var s := "\"" + Quote(value) + "\"" + tail;
    assert s[1..] == Quote(value) + ("\"" + tail);
    QuoteReads(value, tail);
  }

  /** Whatever the argument: reading back what was written gives exactly that one argument. */
  lemma ArgumentRoundTrip(value: string)
    ensures ReadExec(EscapeAll("\"" + Quote(value) + "\"")) == Some([value])
  {
    var s := "\"" + Quote(value) + "\"";
    EscapeReads(s);
    assert s + "" == s;
    QuotedArgument(value, "");
    DoubledReads(value);
    assert [Doubled(value)][1..] == [] && [value] + [] == [value];
    assert Literals([Doubled(value)]) == Some([value]);
    assert [Doubled(value)] + [] == [Doubled(value)];
  }

  // ---------------------------------------------------------------- the whole line

  /** A word that needs no quoting at all. */
  predicate Plain(s: string) {
    s != "" && forall i :: 0 <= i < |s| ==> !Reserved(s[i]) && s[i] != '%'
  }

  lemma {:induction false} PlainUnescapes(s: string)
    requires forall i :: 0 <= i < |s| ==> s[i] != '\\'
    ensures Unescape(s) == Some(s)
  {
    if s != "" {
      PlainUnescapes(s[1..]);
      assert [s[0]] + s[1..] == s;
    }
  }

  lemma {:induction false} PlainIsLiteral(s: string)
    requires forall i :: 0 <= i < |s| ==> s[i] != '%'
    ensures Literal(s) == Some(s)
  {
    if s != "" {
      PlainIsLiteral(s[1..]);
      assert [s[0]] + s[1..] == s;
    }
  }

  lemma {:induction false} WordReads(s: string, tail: string)
    requires forall i :: 0 <= i < |s| ==> !Reserved(s[i])
    requires tail == "" || tail[0] == ' '
    ensures Word(s + tail) == Some((s, tail))
  {
    if s == "" {
      assert s + tail == tail;
    } else {
      assert (s + tail)[1..] == s[1..] + tail;
      WordReads(s[1..], tail);
      assert [s[0]] + s[1..] == s;
    }
  }

  lemma PlainArgument(s: string, tail: string)
    requires Plain(s) && (tail == "" || tail[0] == ' ')
    requires Arguments(tail).Some?
    ensures Arguments(s + tail) == Some([s] + Arguments(tail).value)
  {
    WordReads(s, tail);
    assert !Reserved((s + tail)[0]);
  }

  lemma SkipSpace(s: string)
    ensures Arguments(" " + s) == Arguments(s)
  {
  }

  /** Four words, the second of them quoted. */
  lemma CommandArguments(a: string, script: string, c: string, d: string)
    requires Plain(a) && Plain(c) && Plain(d)
    ensures Arguments(a + (" " + ("\"" + Quote(script) + "\"" + (" " + (c + (" " + d))))))
         == Some([a, Doubled(script), c, d])
  {
    var t2 := " " + d;
    var t1 := " " + (c + t2);
    var t0 := " " + ("\"" + Quote(script) + "\"" + t1);
    assert Arguments("") == Some([]);
    assert d + "" == d;
    PlainArgument(d, "");
    assert [d] + [] == [d];
    SkipSpace(d);
    PlainArgument(c, t2);
    assert [c] + [d] == [c, d];
    SkipSpace(c + t2);
    QuotedArgument(script, t1);
    assert [Doubled(script)] + [c, d] == [Doubled(script), c, d];
    SkipSpace("\"" + Quote(script) + "\"" + t1);
    PlainArgument(a, t0);
    assert [a] + [Doubled(script), c, d] == [a, Doubled(script), c, d];
  }

  lemma LiteralsCons(first: string, rest: seq<string>)
    requires Literal(first).Some? && Literals(rest).Some?
    ensures Literals([first] + rest) == Some([Literal(first).value] + Literals(rest).value)
  {
  }

  lemma CommandLiterals(a: string, script: string, c: string, d: string)
    requires Plain(a) && Plain(c) && Plain(d)
    ensures Literals([a, Doubled(script), c, d]) == Some([a, script, c, d])
  {
    PlainIsLiteral(a);
    PlainIsLiteral(c);
    PlainIsLiteral(d);
    DoubledReads(script);
    LiteralsCons(d, []);
    LiteralsCons(c, [d] + []);
    LiteralsCons(Doubled(script), [c] + ([d] + []));
    LiteralsCons(a, [Doubled(script)] + ([c] + ([d] + [])));
    assert [a] + ([Doubled(script)] + ([c] + ([d] + []))) == [a, Doubled(script), c, d];
    assert [a] + ([script] + ([c] + ([d] + []))) == [a, script, c, d];
  }

  lemma UnescapeAround(head: string, arg: string, tail: string)
    requires forall i :: 0 <= i < |head| ==> head[i] != '\\'
    requires forall i :: 0 <= i < |tail| ==> tail[i] != '\\'
    ensures Unescape(head + (EscapeAll(arg) + tail)) == Some(head + (arg + tail))
  {
    PlainUnescapes(head);
    PlainUnescapes(tail);
    EscapeReads(arg);
    UnescapeConcat(EscapeAll(arg), tail);
    UnescapeConcat(head, EscapeAll(arg) + tail);
  }

  /** A command line of four words, of which only the second is quoted and escaped. */
  lemma CommandReads(a: string, script: string, c: string, d: string)
    requires Plain(a) && Plain(c) && Plain(d)
    ensures ReadExec((a + " ") + (EscapeAll("\"" + Quote(script) + "\"") + (" " + (c + (" " + d)))))
         == Some([a, script, c, d])
  {
    var arg, tail := "\"" + Quote(script) + "\"", " " + (c + (" " + d));
    UnescapeAround(a + " ", arg, tail);
    assert (a + " ") + (arg + tail) == a + (" " + (arg + tail));
    CommandArguments(a, script, c, d);
    CommandLiterals(a, script, c, d);
  }

  lemma PlainWords()
    ensures Plain("/usr/bin/python3") && Plain("--launch")
  {
  }

  lemma ShortcutText(arg: string, agent: string)
    ensures "/usr/bin/python3 " + arg + " --launch " + agent
         == ("/usr/bin/python3" + " ") + (arg + (" " + ("--launch" + (" " + agent))))
  {
  }

  /**
   The line create_shortcut writes runs exactly the intended command, for every installation path:
   only the script's argument is escaped, the other three words are plain.
   */
  lemma ShortcutRuns(script: string, agent: string)
    requires Plain(agent)
    ensures ReadExec("/usr/bin/python3 " + EscapeAll("\"" + Quote(script) + "\"") + " --launch " + agent)
         == Some(["/usr/bin/python3", script, "--launch", agent])
  {
    PlainWords();
    CommandReads("/usr/bin/python3", script, "--launch", agent);
    ShortcutText(EscapeAll("\"" + Quote(script) + "\""), agent);
  }
}
