/** Syntax detection and HTML highlighting (src/syntax/mod.rs).

    syntect is not modelled. A `SyntaxSet` is reduced to what the editor asks
    of it: the names it knows and the syntax it finds for a file extension.
    Styling is an oracle `Styler` that, given the syntax, the lines already
    highlighted (the parse state `HighlightLines` carries from line to line)
    and the next line, returns the coloured fragments of that line, or nothing
    when highlighting the line fails. */
module Syntax {
  import opened Wrappers
  import Text

  const PlainText: string := "Plain Text"

  datatype SyntaxSet = SyntaxSet(names: set<string>, byExtension: map<string, string>)

  /** `find_syntax_by_extension`, by the name of the syntax found. */
  function FindSyntaxByExtension(ss: SyntaxSet, ext: string): Option<string> {
    if ext in ss.byExtension then Some(ss.byExtension[ext]) else None
  }

  /** `find_syntax_by_name(..).unwrap_or_else(find_syntax_plain_text)`. */
  function ResolveSyntax(ss: SyntaxSet, name: string): (r: string)
    ensures name in ss.names ==> r == name
    ensures name !in ss.names ==> r == PlainText
  {
    if name in ss.names then name else PlainText
  }

  // ---------------------------------------------------------------------
  // Detection

  datatype SyntaxDetector = SyntaxDetector(syntaxSet: SyntaxSet, extensionMap: map<string, string>)

  /** `SyntaxDetector::new`: the fixed extension table. */
  function NewDetector(ss: SyntaxSet): SyntaxDetector {
    SyntaxDetector(ss, map["rs" := "Rust", "md" := "Markdown", "txt" := PlainText])
  }

  /** `detect_from_extension`: a lookup with "Plain Text" for unknown keys. */
  function DetectFromExtension(d: SyntaxDetector, ext: string): string {
    if ext in d.extensionMap then d.extensionMap[ext] else PlainText
  }

  /** The table of a new detector, keyed by exact (case-sensitive) extension. */
  lemma NewDetectorExtensions(ss: SyntaxSet, ext: string)
    ensures ext == "rs" ==> DetectFromExtension(NewDetector(ss), ext) == "Rust"
    ensures ext == "md" ==> DetectFromExtension(NewDetector(ss), ext) == "Markdown"
    ensures ext !in {"rs", "md"} ==> DetectFromExtension(NewDetector(ss), ext) == PlainText
  {
  }

  /** `detect_from_content`: Rust markers are tested first, then Markdown
      markers, each only if the syntax set has a syntax for the extension. */
  function DetectFromContent(d: SyntaxDetector, content: string): (name: string)
    ensures name == PlainText
         || Some(name) == FindSyntaxByExtension(d.syntaxSet, "rs")
         || Some(name) == FindSyntaxByExtension(d.syntaxSet, "md")
  {
    var rust := FindSyntaxByExtension(d.syntaxSet, "rs");
    var markdown := FindSyntaxByExtension(d.syntaxSet, "md");
    if rust.Some? && (Text.Contains(content, "fn main()") || Text.Contains(content, "use ")) then
      rust.value
    else if markdown.Some?
         && (Text.Contains(content, "# ") || Text.Contains(content, "* ") || Text.Contains(content, "```")) then
      markdown.value
    else
      PlainText
  }

  ghost predicate HasRustMarker(content: string) {
    Text.Occurs(content, "fn main()") || Text.Occurs(content, "use ")
  }

  ghost predicate HasMarkdownMarker(content: string) {
    Text.Occurs(content, "# ") || Text.Occurs(content, "* ") || Text.Occurs(content, "```")
  }

  /** Content detection stated with substring occurrence: a Rust marker wins
      whenever a Rust syntax exists, Markdown markers count only otherwise,
      and everything else is plain text. */
  lemma DetectFromContentSpec(d: SyntaxDetector, content: string)
    ensures "rs" in d.syntaxSet.byExtension && HasRustMarker(content) ==>
      DetectFromContent(d, content) == d.syntaxSet.byExtension["rs"]
    ensures (!("rs" in d.syntaxSet.byExtension && HasRustMarker(content))
             && "md" in d.syntaxSet.byExtension && HasMarkdownMarker(content)) ==>
      DetectFromContent(d, content) == d.syntaxSet.byExtension["md"]
    ensures (!("rs" in d.syntaxSet.byExtension && HasRustMarker(content))
             && !("md" in d.syntaxSet.byExtension && HasMarkdownMarker(content))) ==>
      DetectFromContent(d, content) == PlainText
  {
    Text.ContainsIffOccurs(content, "fn main()");
    Text.ContainsIffOccurs(content, "use ");
    Text.ContainsIffOccurs(content, "# ");
    Text.ContainsIffOccurs(content, "* ");
    Text.ContainsIffOccurs(content, "```");
  }

  // ---------------------------------------------------------------------
  // HTML escaping

  /** The escaping of `highlight`: `'<'` replaced first, then `'>'`; `'&'` is
      left as it is. */
  function Escape(s: string): string {
    Text.Replace(Text.Replace(s, '<', "&lt;"), '>', "&gt;")
  }

  function EscapeChar(c: char): string {
    if c == '<' then "&lt;" else if c == '>' then "&gt;" else [c]
  }

  /** Escaping one character at a time. */
  function EscapeEach(s: string): string {
    if s == [] then [] else EscapeChar(s[0]) + EscapeEach(s[1..])
  }

  /** The two replacement passes do not interfere: together they escape each
      character independently. */
  lemma {:induction false} EscapeIsCharwise(s: string)
    ensures Escape(s) == EscapeEach(s)
  {
    if s != [] {
      var head := if s[0] == '<' then "&lt;" else [s[0]];
      var rest := Text.Replace(s[1..], '<', "&lt;");
      assert Text.Replace(s, '<', "&lt;") == head + rest;
      Text.ReplaceAppend(head, rest, '>', "&gt;");
      EscapeIsCharwise(s[1..]);
      if s[0] == '<' {
        Text.ReplaceAbsent(head, '>', "&gt;");
      } else {
        assert Text.Replace(head, '>', "&gt;") == EscapeChar(s[0]);
      }
    }
  }

  /** Escaped text holds no raw angle bracket, and no newline unless the
      input had one. */
  lemma EscapeExcludes(s: string)
    ensures '<' !in Escape(s) && '>' !in Escape(s)
    ensures '\n' !in s ==> '\n' !in Escape(s)
  {
    var once := Text.Replace(s, '<', "&lt;");
    Text.ReplaceExcludes(s, '<', "&lt;", '<');
    Text.ReplaceExcludes(once, '>', "&gt;", '<');
    Text.ReplaceExcludes(once, '>', "&gt;", '>');
    if '\n' !in s {
      Text.ReplaceExcludes(s, '<', "&lt;", '\n');
      Text.ReplaceExcludes(once, '>', "&gt;", '\n');
    }
  }

  /** Text without angle brackets, ampersands included, passes unchanged. */
  lemma EscapeIdentity(s: string)
    requires '<' !in s && '>' !in s
    ensures Escape(s) == s
  {
    Text.ReplaceAbsent(s, '<', "&lt;");
    Text.ReplaceAbsent(s, '>', "&gt;");
  }

  /** Since `'&'` is not escaped, escaping is not injective: a literal
      "&lt;" and a bare '<' produce the same HTML. */
  lemma EscapeNotInjective()
    ensures Escape("&lt;") == Escape("<")
  {
    EscapeIdentity("&lt;");
    EscapeIsCharwise("<");
  }

  /** Reading the two entities back. */
  function Unescape(s: string): string
    decreases |s|
  {
    if s == [] then []
    else if Text.IsPrefix("&lt;", s) then "<" + Unescape(s[4..])
    else if Text.IsPrefix("&gt;", s) then ">" + Unescape(s[4..])
    else [s[0]] + Unescape(s[1..])
  }

  /** Escaping is undone by `Unescape` for text without ampersands. */
  lemma {:induction false} UnescapeEscape(s: string)
    requires '&' !in s
    ensures Unescape(Escape(s)) == s
  {
    EscapeIsCharwise(s);
    UnescapeEscapeEach(s);
  }

  lemma {:induction false} UnescapeEscapeEach(s: string)
    requires '&' !in s
    ensures Unescape(EscapeEach(s)) == s
  {
    if s != [] {
      var e := EscapeEach(s);
      var tail := EscapeEach(s[1..]);
      assert e == EscapeChar(s[0]) + tail;
      UnescapeEscapeEach(s[1..]);
      if s[0] == '<' || s[0] == '>' {
        assert e[4..] == tail;
      } else {
        assert e[0] == s[0] != '&';
        assert e[1..] == tail;
      }
      assert s == [s[0]] + s[1..];
    }
  }

  // ---------------------------------------------------------------------
  // Decimal colour components

  /** A foreground colour; each channel is a `u8`. */
  type Channel = x: int | 0 <= x < 256

  datatype Rgb = Rgb(r: Channel, g: Channel, b: Channel)

  function DigitChar(d: nat): (c: char)
    requires d < 10
    ensures '0' <= c <= '9'
  {
    ('0' as int + d) as char
  }

  /** `{}` formatting of an unsigned integer. */
  function DecimalString(n: nat): (s: string)
    ensures |s| >= 1
  {
    if n < 10 then [DigitChar(n)] else DecimalString(n / 10) + [DigitChar(n % 10)]
  }

  /** The formatted number consists of decimal digits only. */
  lemma {:induction false} DecimalStringDigits(n: nat)
    ensures forall i :: 0 <= i < |DecimalString(n)| ==> '0' <= DecimalString(n)[i] <= '9'
  {
    if n >= 10 {
      DecimalStringDigits(n / 10);
    }
  }

  /** The value of one decimal digit; other characters count as zero. */
  function DigitValue(c: char): nat {
    if '0' <= c <= '9' then c as int - '0' as int else 0
  }

  /** The value of a string of decimal digits. */
  function DecimalValue(s: string): nat {
    if s == [] then 0 else 10 * DecimalValue(s[..|s| - 1]) + DigitValue(s[|s| - 1])
  }

  /** The formatted number reads back as the number. */
  lemma {:induction false} DecimalRoundTrip(n: nat)
    ensures DecimalValue(DecimalString(n)) == n
  {
    if n >= 10 {
      var s := DecimalString(n);
      assert s[..|s| - 1] == DecimalString(n / 10);
      DecimalRoundTrip(n / 10);
    }
  }

  // ---------------------------------------------------------------------
  // Highlighting

  datatype Fragment = Fragment(color: Rgb, text: string)

  type Styler = (string, seq<string>, string) -> Option<seq<Fragment>>

  /** `SyntaxHighlighter`: its syntax set and the styling of its fixed theme. */
  datatype Highlighter = Highlighter(syntaxSet: SyntaxSet, styler: Styler)

  /** The three channels as `r, g, b`. */
  function Channels(c: Rgb): string {
    DecimalString(c.r) + ", " + DecimalString(c.g) + ", " + DecimalString(c.b)
  }

  /** Digits and separators only: no markup and no line break. */
  lemma ChannelsPlain(c: Rgb)
    ensures '<' !in Channels(c) && '>' !in Channels(c) && '\n' !in Channels(c)
  {
    var r, g, b := DecimalString(c.r), DecimalString(c.g), DecimalString(c.b);
    DecimalStringDigits(c.r);
    DecimalStringDigits(c.g);
    DecimalStringDigits(c.b);
    assert '<' !in r && '>' !in r && '\n' !in r;
    assert '<' !in g && '>' !in g && '\n' !in g;
    assert '<' !in b && '>' !in b && '\n' !in b;
  }

  const SpanStyle: string := "span style=\"color: rgb("
  const SpanHead: string := "<" + SpanStyle
  const SpanTail: string := ")\">"

  function OpenTag(c: Rgb): string {
    SpanHead + Channels(c) + SpanTail
  }

  const CloseTag: string := "</span>"

  /** One fragment as HTML. */
  function Span(f: Fragment): string {
    OpenTag(f.color) + Escape(f.text) + CloseTag
  }

  /** The lines of `str::lines`: split at `'\n'`, dropping a `'\r'` just before
      it; a final line needs no terminator, and a trailing `'\n'` yields no
      extra empty line. */
  function IndexOfNewline(s: string): (i: nat)
    ensures i <= |s|
    ensures '\n' !in s[..i]
    ensures i < |s| ==> s[i] == '\n'
  {
    if s == [] || s[0] == '\n' then 0
    else
      var i := 1 + IndexOfNewline(s[1..]);
      assert s[..i] == [s[0]] + s[1..][..i - 1];
      i
  }

  function StripCr(line: string): string {
    if |line| > 0 && line[|line| - 1] == '\r' then line[..|line| - 1] else line
  }

  function Lines(s: string): seq<string>
    decreases |s|
  {
    if s == [] then []
    else
      var i := IndexOfNewline(s);
      if i == |s| then
        assert s[..i] == s;
        [s]
      else
        [StripCr(s[..i])] + Lines(s[i + 1..])
  }

  /** A text with a newline at `i` gives its first line, then the lines of
      what follows the newline. */
  lemma LinesCons(s: string, i: nat)
    requires i == IndexOfNewline(s) && i < |s|
    ensures Lines(s) == [StripCr(s[..i])] + Lines(s[i + 1..])
  {
  }

  /** No line contains a newline. */
  lemma {:induction false} LinesNoNewline(s: string)
    ensures forall k :: 0 <= k < |Lines(s)| ==> '\n' !in Lines(s)[k]
    decreases |s|
  {
    if s != [] {
      var i := IndexOfNewline(s);
      if i == |s| {
        assert s[..i] == s;
      } else {
        var line := s[..i];
        LinesCons(s, i);
        LinesNoNewline(s[i + 1..]);
        assert '\n' !in StripCr(line) by {
          if |line| > 0 && line[|line| - 1] == '\r' {
            Text.AbsentFromSlice(line, '\n', 0, |line| - 1);
          }
        }
      }
    }
  }

  predicate EndsUnterminated(s: string) {
    s != [] && s[|s| - 1] != '\n'
  }

  /** The newline `JoinLines` adds after unterminated trailing text. */
  function Terminator(s: string): string {
    if EndsUnterminated(s) then "\n" else ""
  }

  /** One line per `'\n'`, plus one for unterminated trailing text. */
  lemma {:induction false} LinesCount(s: string)
    ensures |Lines(s)| == Text.CountChar(s, '\n') + (if EndsUnterminated(s) then 1 else 0)
    decreases |s|
  {
    if s != [] {
      var i := IndexOfNewline(s);
      if i == |s| {
        assert s[..i] == s;
        Text.CountCharAbsent(s, '\n');
      } else {
        LinesCount(s[i + 1..]);
        LinesCountStep(s, i);
      }
    }
  }

  /** The inductive step of `LinesCount`: the first line takes one newline. */
  lemma LinesCountStep(s: string, i: nat)
    requires i == IndexOfNewline(s) && i < |s|
    requires |Lines(s[i + 1..])| == Text.CountChar(s[i + 1..], '\n') + (if EndsUnterminated(s[i + 1..]) then 1 else 0)
    ensures |Lines(s)| == Text.CountChar(s, '\n') + (if EndsUnterminated(s) then 1 else 0)
  {
    var rest := s[i + 1..];
    LinesCons(s, i);
    Text.CountCharAbsent(s[..i], '\n');
    Text.CountAround(s, i, '\n');
    assert EndsUnterminated(s) == EndsUnterminated(rest) by {
      if rest != [] {
        assert s[|s| - 1] == rest[|rest| - 1];
      }
    }
  }

  /** Each line with its terminator restored. */
  function JoinLines(ls: seq<string>): string {
    if ls == [] then "" else ls[0] + "\n" + JoinLines(ls[1..])
  }

  /** Without carriage returns, the lines give back the whole text, with a
      newline added after unterminated trailing text. */
  lemma {:induction false} LinesJoin(s: string)
    requires '\r' !in s
    ensures JoinLines(Lines(s)) == s + Terminator(s)
    decreases |s|
  {
    if s != [] {
      var i := IndexOfNewline(s);
      if i == |s| {
        LinesLast(s);
      } else {
        Text.AbsentFromSlice(s, '\r', i + 1, |s|);
        LinesJoin(s[i + 1..]);
        LinesJoinStep(s, i);
      }
    }
  }

  /** The inductive step of `LinesJoin`: from the text after the first
      newline to the whole text. */
  lemma LinesJoinStep(s: string, i: nat)
    requires '\r' !in s && i == IndexOfNewline(s) && i < |s|
    requires JoinLines(Lines(s[i + 1..])) == s[i + 1..] + Terminator(s[i + 1..])
    ensures JoinLines(Lines(s)) == s + Terminator(s)
  {
    LinesSplit(s, i);
    RejoinAt(s, i);
  }

  lemma LinesLast(s: string)
    requires s != [] && IndexOfNewline(s) == |s|
    ensures EndsUnterminated(s)
    ensures JoinLines(Lines(s)) == s + "\n"
  {
    assert s[..|s|] == s;
    assert JoinLines([s]) == s + "\n" + JoinLines([]);
  }

  /** Rejoining a text cut at one of its newlines. */
  lemma RejoinAt(s: string, i: nat)
    requires i < |s| && s[i] == '\n'
    ensures s[..i] + "\n" + (s[i + 1..] + Terminator(s[i + 1..])) == s + Terminator(s)
  {
    var line, rest := s[..i], s[i + 1..];
    assert Terminator(s) == Terminator(rest) by {
      if rest != [] {
        assert s[|s| - 1] == rest[|rest| - 1];
      }
    }
    Text.SplitAround(s, i);
    assert [s[i]] == "\n";
    AppendAssoc(line + "\n", rest, Terminator(rest));
  }

  /** Splitting off the first terminated line of carriage-return-free text. */
  lemma LinesSplit(s: string, i: nat)
    requires '\r' !in s && i == IndexOfNewline(s) && i < |s|
    ensures JoinLines(Lines(s)) == s[..i] + "\n" + JoinLines(Lines(s[i + 1..]))
  {
    var line := s[..i];
    Text.AbsentFromSlice(s, '\r', 0, i);
    assert StripCr(line) == line by {
      if |line| > 0 {
        assert line[|line| - 1] in line;
      }
    }
    LinesCons(s, i);
    JoinLinesCons(line, Lines(s[i + 1..]));
  }

  lemma JoinLinesCons(line: string, ls: seq<string>)
    ensures JoinLines([line] + ls) == line + "\n" + JoinLines(ls)
  {
    assert ([line] + ls)[1..] == ls;
  }

  /** The fragments the styler gives line `j`; none when it fails. */
  function FragmentsAt(styler: Styler, syntax: string, lines: seq<string>, j: nat): seq<Fragment>
    requires j < |lines|
  {
    styler(syntax, lines[..j], lines[j]).GetOr([])
  }

  /** The spans of one line, in the order the styler returned them. */
  function RenderLine(frags: seq<Fragment>): string {
    if frags == [] then "" else RenderLine(frags[..|frags| - 1]) + Span(frags[|frags| - 1])
  }

  lemma RenderLineSnoc(frags: seq<Fragment>, j: nat)
    requires j < |frags|
    ensures RenderLine(frags[..j + 1]) == RenderLine(frags[..j]) + Span(frags[j])
  {
    assert frags[..j + 1][..j] == frags[..j];
  }

  /** The spans of every line, in line order; line `j` is styled with the
      lines before it as context. */
  function RenderedLines(styler: Styler, syntax: string, lines: seq<string>): (rs: seq<string>)
    ensures |rs| == |lines|
    ensures forall j :: 0 <= j < |lines| ==> rs[j] == RenderLine(FragmentsAt(styler, syntax, lines, j))
  {
    seq(|lines|, j requires 0 <= j < |lines| => RenderLine(FragmentsAt(styler, syntax, lines, j)))
  }

  lemma {:induction false} JoinLinesAppend(a: seq<string>, b: seq<string>)
    ensures JoinLines(a + b) == JoinLines(a) + JoinLines(b)
  {
    if a != [] {
      assert (a + b)[1..] == a[1..] + b;
      JoinLinesAppend(a[1..], b);
      AppendAssoc(a[0] + "\n", JoinLines(a[1..]), JoinLines(b));
    } else {
      assert a + b == b;
    }
  }

  /** Joining one more line appends it and its newline. */
  lemma JoinLinesSnoc(ls: seq<string>, i: nat)
    requires i < |ls|
    ensures JoinLines(ls[..i + 1]) == JoinLines(ls[..i]) + ls[i] + "\n"
  {
    assert ls[..i + 1] == ls[..i] + [ls[i]];
    JoinLinesAppend(ls[..i], [ls[i]]);
    assert JoinLines([ls[i]]) == ls[i] + "\n" + JoinLines([]);
    AppendAssoc(JoinLines(ls[..i]), ls[i], "\n");
  }

  lemma AppendAssoc(a: string, b: string, c: string)
    ensures a + b + c == a + (b + c)
  {
  }

  /** The inner loop of `highlight`: pushes the span of each fragment of one
      line onto the output, in order. */
  method PushSpans(prefix: string, ranges: seq<Fragment>) returns (result: string)
    ensures result == prefix + RenderLine(ranges)
  {
    result := prefix;
    for j := 0 to |ranges|
      invariant result == prefix + RenderLine(ranges[..j])
    {
      RenderLineSnoc(ranges, j);
      AppendAssoc(prefix, RenderLine(ranges[..j]), Span(ranges[j]));
      result := result + Span(ranges[j]);
    }
    assert ranges[..|ranges|] == ranges;
  }

  /** `SyntaxHighlighter::highlight`: the spans of each line of
      `str::lines`, each followed by `'\n'`; a line whose styling fails
      contributes no spans but still its newline. */
  method Highlight(h: Highlighter, text: string, syntaxName: string) returns (result: string)
    ensures result == JoinLines(RenderedLines(h.styler, ResolveSyntax(h.syntaxSet, syntaxName), Lines(text)))
  {
    var syntax := ResolveSyntax(h.syntaxSet, syntaxName);
    var lines := Lines(text);
    ghost var rendered := RenderedLines(h.styler, syntax, lines);
    result := "";
    for i := 0 to |lines|
      invariant result == JoinLines(rendered[..i])
    {
      var ranges := h.styler(syntax, lines[..i], lines[i]).GetOr([]);
      result := PushSpans(result, ranges);
      JoinLinesSnoc(rendered, i);
      result := result + "\n";
    }
    assert rendered[..|lines|] == rendered;
  }

  // ---------------------------------------------------------------------
  // Properties of the highlighted output

  function Joined(frags: seq<Fragment>): string {
    if frags == [] then "" else Joined(frags[..|frags| - 1]) + frags[|frags| - 1].text
  }

  /** What syntect guarantees of its output: the fragments of a line spell
      out that line. */
  ghost predicate StylerCoversLines(styler: Styler) {
    forall syntax, prev, line ::
      styler(syntax, prev, line).Some? ==> Joined(styler(syntax, prev, line).value) == line
  }

  lemma SpanNoNewline(f: Fragment)
    requires '\n' !in f.text
    ensures '\n' !in Span(f)
  {
    ChannelsPlain(f.color);
    SpanStylePlain();
    TagsNoNewline();
    assert '\n' !in OpenTag(f.color);
    EscapeExcludes(f.text);
  }

  lemma TagsNoNewline()
    ensures '\n' !in SpanTail && '\n' !in CloseTag
  {
  }

  lemma {:induction false} RenderLineNoNewline(frags: seq<Fragment>)
    requires '\n' !in Joined(frags)
    ensures '\n' !in RenderLine(frags)
  {
    if frags != [] {
      RenderLineNoNewline(frags[..|frags| - 1]);
      SpanNoNewline(frags[|frags| - 1]);
    }
  }

  lemma FragmentsNoNewline(styler: Styler, syntax: string, lines: seq<string>, j: nat)
    requires StylerCoversLines(styler)
    requires j < |lines| && '\n' !in lines[j]
    ensures '\n' !in Joined(FragmentsAt(styler, syntax, lines, j))
  {
    var r := styler(syntax, lines[..j], lines[j]);
    if r.Some? {
      assert Joined(r.value) == lines[j];
    }
  }

  /** Joined lines free of newlines hold exactly one newline each. */
  lemma {:induction false} JoinLinesNewlines(ls: seq<string>)
    requires forall j :: 0 <= j < |ls| ==> '\n' !in ls[j]
    ensures Text.CountChar(JoinLines(ls), '\n') == |ls|
  {
    if ls != [] {
      JoinLinesNewlines(ls[1..]);
      Text.CountCharAppend(ls[0] + "\n", JoinLines(ls[1..]), '\n');
      Text.CountCharAppend(ls[0], "\n", '\n');
      Text.CountCharAbsent(ls[0], '\n');
    }
  }

  /** The highlighted text has exactly as many newlines as `str::lines`
      yields lines, even where the styling of a line failed. */
  lemma HighlightNewlines(h: Highlighter, text: string, syntaxName: string)
    requires StylerCoversLines(h.styler)
    ensures Text.CountChar(JoinLines(RenderedLines(h.styler, ResolveSyntax(h.syntaxSet, syntaxName), Lines(text))), '\n')
         == |Lines(text)|
         == Text.CountChar(text, '\n') + (if EndsUnterminated(text) then 1 else 0)
  {
    var syntax, lines := ResolveSyntax(h.syntaxSet, syntaxName), Lines(text);
    var rendered := RenderedLines(h.styler, syntax, lines);
    LinesNoNewline(text);
    forall j | 0 <= j < |lines|
      ensures '\n' !in rendered[j]
    {
      FragmentsNoNewline(h.styler, syntax, lines, j);
      RenderLineNoNewline(FragmentsAt(h.styler, syntax, lines, j));
    }
    JoinLinesNewlines(rendered);
    LinesCount(text);
  }

  lemma SpanStylePlain()
    ensures '<' !in SpanStyle && '>' !in SpanStyle && '\n' !in SpanStyle
  {
  }

  lemma SpanHeadAngles()
    ensures Text.CountChar(SpanHead, '<') == 1 && Text.CountChar(SpanHead, '>') == 0
  {
    SpanStylePlain();
    Text.CountCharAppend("<", SpanStyle, '<');
    Text.CountCharAppend("<", SpanStyle, '>');
    Text.CountCharAbsent(SpanStyle, '<');
    Text.CountCharAbsent(SpanStyle, '>');
  }

  lemma SpanTailAngles()
    ensures Text.CountChar(SpanTail, '<') == 0 && Text.CountChar(SpanTail, '>') == 1
  {
  }

  /** Markup characters of an opening tag come from its fixed text only. */
  lemma OpenTagCount(c: Rgb, a: char)
    requires a !in Channels(c)
    ensures Text.CountChar(OpenTag(c), a) == Text.CountChar(SpanHead, a) + Text.CountChar(SpanTail, a)
  {
    var channels := Channels(c);
    Text.CountCharAbsent(channels, a);
    Text.CountCharAppend(SpanHead + channels, SpanTail, a);
    Text.CountCharAppend(SpanHead, channels, a);
  }

  lemma OpenTagAngles(c: Rgb)
    ensures Text.CountChar(OpenTag(c), '<') == 1 && Text.CountChar(OpenTag(c), '>') == 1
  {
    ChannelsPlain(c);
    SpanHeadAngles();
    SpanTailAngles();
    OpenTagCount(c, '<');
    OpenTagCount(c, '>');
  }

  lemma CloseTagAngles()
    ensures Text.CountChar(CloseTag, '<') == 1 && Text.CountChar(CloseTag, '>') == 1
  {
    var inner := "/span";
    assert CloseTag == "<" + inner + ">";
    assert CloseTag[1..] == inner + ">";
    Text.CountCharAbsent(inner, '<');
    Text.CountCharAbsent(inner, '>');
    Text.CountCharAppend(inner, ">", '<');
    Text.CountCharAppend(inner, ">", '>');
  }

  /** Each span holds exactly two '<' and two '>', those of its own tags: the
      fragment text cannot open or close an element. */
  lemma SpanAngles(f: Fragment)
    ensures Text.CountChar(Span(f), '<') == 2 && Text.CountChar(Span(f), '>') == 2
  {
    var open := OpenTag(f.color);
    var body := Escape(f.text);
    OpenTagAngles(f.color);
    CloseTagAngles();
    EscapeExcludes(f.text);
    Text.CountCharAbsent(body, '<');
    Text.CountCharAbsent(body, '>');
    Text.CountCharAppend(open + body, CloseTag, '<');
    Text.CountCharAppend(open + body, CloseTag, '>');
    Text.CountCharAppend(open, body, '<');
    Text.CountCharAppend(open, body, '>');
  }

  /** A line of `n` fragments renders as exactly `n` span elements. */
  lemma {:induction false} RenderLineAngles(frags: seq<Fragment>)
    ensures Text.CountChar(RenderLine(frags), '<') == 2 * |frags|
    ensures Text.CountChar(RenderLine(frags), '>') == 2 * |frags|
  {
    if frags != [] {
      var init := frags[..|frags| - 1];
      RenderLineAngles(init);
      SpanAngles(frags[|frags| - 1]);
      Text.CountCharAppend(RenderLine(init), Span(frags[|frags| - 1]), '<');
      Text.CountCharAppend(RenderLine(init), Span(frags[|frags| - 1]), '>');
    }
  }
}
