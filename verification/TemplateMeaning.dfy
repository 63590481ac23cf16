/**
 What the two passes of the template compiler come to: a one-pass reading of
 the template, tag by tag, and exactly when the two passes agree with it.
 */
module TemplateMeaning {
  import opened Common
  import opened Text
  import opened TemplateCompiler

  // ---------------------------------------------------------------------
  // The one-pass reading
  // ---------------------------------------------------------------------

  datatype Segment = Markup(text: string) | Script(code: string) | Echo(expression: string)

  function Opener(s: Segment): string
    requires !s.Markup?
  {
    if s.Echo? then ECHO else OPEN
  }

  function Body(s: Segment): string
    requires !s.Markup?
  {
    if s.Echo? then s.expression else s.code
  }

  /** The opener, of either kind, that comes first. */
  function FirstOpener(t: string): Option<string> {
    match (Find(t, ECHO), Find(t, OPEN))
    case (None, None) => None
    case (Some(i), None) => Some(ECHO)
    case (None, Some(j)) => Some(OPEN)
    case (Some(i), Some(j)) => Some(if i < j then ECHO else OPEN)
  }

  /** The tag that opens first and what is around it; none when it never closes. */
  function NextTag(t: string): (r: Option<(Segment, Tag)>)
    ensures r.Some? ==> |r.value.1.after| < |t|
  {
    match FirstOpener(t)
    case None => None
    case Some(opener) =>
      match FirstTag(t, opener)
      case None => None
      case Some(tag) => Some((if opener == ECHO then Echo(tag.body) else Script(tag.body), tag))
  }

  function MarkupSegment(text: string): seq<Segment> {
    if text == "" then [] else [Markup(text)]
  }

  /** Reads a template once, left to right. */
  function OnePass(t: string): seq<Segment>
    decreases |t|
  {
    match NextTag(t)
    case None => MarkupSegment(t)
    case Some((segment, tag)) => MarkupSegment(tag.before) + [segment] + OnePass(tag.after)
  }

  function Plan(s: Segment): Piece {
    match s
    case Markup(text) => Html(text)
    case Script(code) => Code(code)
    case Echo(expression) => Code(EchoStatement(expression))
  }

  /** The pieces of program a list of segments asks for. */
  function PlanAll(segments: seq<Segment>): seq<Piece> {
    seq(|segments|, i requires 0 <= i < |segments| => Plan(segments[i]))
  }

  predicate ScriptsAreFreeOfEchoes(segments: seq<Segment>) {
    forall i :: 0 <= i < |segments| && segments[i].Script? ==> !Contains(segments[i].code, ECHO)
  }

  // ---------------------------------------------------------------------
  // Neither pattern arises where two strings meet
  // ---------------------------------------------------------------------

  lemma NoCloserWhereTheyMeet(a: string, b: string)
    requires !Contains(a, CLOSE) && !Contains(b, CLOSE)
    requires a == "" || b == "" || a[|a| - 1] != '?' || b[0] != '>'
    ensures !Contains(a + b, CLOSE)
  {
    var s := a + b;
    ContainsIs(a, CLOSE);
    ContainsIs(b, CLOSE);
    ContainsIs(s, CLOSE);
    forall k: nat ensures !OccursAt(s, CLOSE, k) {
      if k + 2 <= |a| {
        OccursInPrefix(a, b, CLOSE, k);
        assert !OccursAt(a, CLOSE, k);
      } else if |a| <= k {
        OccursInSuffix(a, b, CLOSE, k - |a|);
        assert !OccursAt(b, CLOSE, k - |a|);
      } else if k + 2 <= |s| {
        assert s[k..k + 2][0] == a[|a| - 1] && s[k..k + 2][1] == b[0];
      }
    }
  }

  lemma NoEchoWhereTheyMeet(a: string, b: string)
    requires !Contains(a, ECHO) && !Contains(b, ECHO)
    requires a == "" || b == "" || a[|a| - 1] !in {'<', '?'} || b[0] !in {'?', '='}
    ensures !Contains(a + b, ECHO)
  {
    var s := a + b;
    ContainsIs(a, ECHO);
    ContainsIs(b, ECHO);
    ContainsIs(s, ECHO);
    forall k: nat ensures !OccursAt(s, ECHO, k) {
      if k + 3 <= |a| {
        OccursInPrefix(a, b, ECHO, k);
        assert !OccursAt(a, ECHO, k);
      } else if |a| <= k {
        OccursInSuffix(a, b, ECHO, k - |a|);
        assert !OccursAt(b, ECHO, k - |a|);
      } else if k + 3 <= |s| {
        var m := |a| - k;
        assert s[k..k + 3][m - 1] == a[|a| - 1] && s[k..k + 3][m] == b[0];
      }
    }
  }

  lemma NoEchoBeforeCloser(a: string)
    requires !Contains(a, ECHO)
    ensures !Contains(a + CLOSE, ECHO)
  {
    var s := a + CLOSE;
    ContainsIs(a, ECHO);
    ContainsIs(s, ECHO);
    forall k: nat ensures !OccursAt(s, ECHO, k) {
      if k + 3 <= |a| {
        OccursInPrefix(a, CLOSE, ECHO, k);
        assert !OccursAt(a, ECHO, k);
      } else if k + 3 <= |s| {
        assert s[k..k + 3][2] == s[k + 2];
      }
    }
  }

  lemma FixedTexts()
    ensures OpensOnce(OPEN) && OpensOnce(ECHO) && OpensOnce(CLOSE)
    ensures !Contains(OPEN, ECHO) && !Contains(OPEN, CLOSE)
    ensures !Contains(STATEMENT_HEAD, CLOSE) && !Contains(STATEMENT_TAIL, CLOSE)
  {
    NotContained(OPEN, ECHO, '=');
    NotContained(OPEN, CLOSE, '>');
    NotContained(STATEMENT_HEAD, CLOSE, '>');
    NotContained(STATEMENT_TAIL, CLOSE, '>');
  }

  lemma {:induction false} TrimStartIsPart(s: string, l: Language) returns (low: nat)
    ensures low <= |s| && TrimStart(s, l) == s[low..]
  {
    low := 0;
    if s != "" && IsSpace(s[0], l) {
      low := TrimStartIsPart(s[1..], l);
      low := low + 1;
    }
  }

  lemma {:induction false} TrimEndIsPart(s: string, l: Language) returns (high: nat)
    ensures high <= |s| && TrimEnd(s, l) == s[..high]
  {
    high := |s|;
    if s != "" && IsSpace(s[|s| - 1], l) {
      high := TrimEndIsPart(s[..|s| - 1], l);
      assert s[..|s| - 1][..high] == s[..high];
    }
  }

  /** The output statement of an expression closes no tag. */
  lemma StatementIsFreeOfClosers(expression: string)
    requires !Contains(expression, CLOSE)
    ensures !Contains(EchoStatement(expression), CLOSE)
  {
    var low := TrimStartIsPart(expression, JavaScript);
    PartsContainNoMore(expression, low, |expression|, CLOSE);
    var start := TrimStart(expression, JavaScript);
    assert start == expression[low..|expression|];
    var high := TrimEndIsPart(start, JavaScript);
    PartsContainNoMore(start, 0, high, CLOSE);
    var trimmed := TrimIn(expression, JavaScript);
    assert trimmed == start[0..high];
    FixedTexts();
    NoCloserWhereTheyMeet(STATEMENT_HEAD, trimmed);
    NoCloserWhereTheyMeet(STATEMENT_HEAD + trimmed, STATEMENT_TAIL);
  }

  // ---------------------------------------------------------------------
  // What the first pass does to each kind of tag
  // ---------------------------------------------------------------------

  /** Text in front of every opener of a template. */
  lemma FreeInFront(t: string, pattern: string, i: nat)
    requires i <= |t| && pattern != ""
    requires Find(t, pattern).Some? ==> i <= Find(t, pattern).value
    ensures !Contains(t[..i], pattern)
  {
    FindIsFirst(t, pattern);
    ContainsIs(t[..i], pattern);
    forall k: nat ensures !OccursAt(t[..i], pattern, k) {
      if k + |pattern| <= i {
        assert t[..i][k..k + |pattern|] == t[k..k + |pattern|];
        assert !OccursAt(t, pattern, k);
      }
    }
  }

  /** A tag as the one-pass reading meets it. */
  predicate IsNext(segment: Segment, tag: Tag) {
    && !segment.Markup? && Body(segment) == tag.body
    && !Contains(tag.before, ECHO) && !Contains(tag.before, OPEN) && !Contains(tag.body, CLOSE)
  }

  lemma NextTagIsNext(t: string)
    requires NextTag(t).Some?
    ensures var (segment, tag) := NextTag(t).value;
            IsNext(segment, tag) && tag.Written(Opener(segment)) == t
  {
    var opener := FirstOpener(t).value;
    TagIsWritten(t, opener);
    FreeInFront(t, ECHO, Find(t, opener).value);
    FreeInFront(t, OPEN, Find(t, opener).value);
  }

  lemma InFront(p: string, a: string, b: string, c: string, d: string, e: string)
    ensures (p + a) + b + c + d + e == p + (a + b + c + d + e)
  {
  }

  lemma WithinBody(a: string, b: string, c: string, d: string, e: string, f: string, g: string)
    ensures (a + b + c) + d + e + f + g == a + b + (c + d + e) + f + g
  {
    assert a + b + c + d + e == a + b + (c + d + e);
  }

  lemma SkipsToTag(p: string, rest: string)
    requires p != "" && p[|p| - 1] == '>' && !Contains(p, ECHO)
    ensures FirstTag(p + rest, ECHO)
         == match FirstTag(rest, ECHO) case None => None case Some(tag) => Some(tag.(before := p + tag.before))
  {
    FindSkips(p, ECHO, rest);
    var i := Find(rest, ECHO);
    if i.Some? {
      assert (p + rest)[|p| + i.value + |ECHO|..] == rest[i.value + |ECHO|..];
      assert (p + rest)[..|p| + i.value] == p + rest[..i.value];
    }
  }

  /** The first pass leaves finished text without echo tags alone. */
  lemma RewriteSkips(p: string, rest: string)
    requires p != "" && p[|p| - 1] == '>' && !Contains(p, ECHO)
    ensures RewriteEchoes(p + rest) == p + RewriteEchoes(rest)
  {
    SkipsToTag(p, rest);
    if FirstTag(rest, ECHO).Some? {
      var tag := FirstTag(rest, ECHO).value;
      var statement := EchoStatement(tag.body);
      InFront(p, tag.before, OPEN, statement, CLOSE, RewriteEchoes(tag.after));
    }
  }

  lemma RewriteKeepsScript(tag: Tag)
    requires IsNext(Script(tag.body), tag) && !Contains(tag.body, ECHO)
    ensures RewriteEchoes(tag.Written(OPEN)) == tag.(after := RewriteEchoes(tag.after)).Written(OPEN)
  {
    FixedTexts();
    NoEchoWhereTheyMeet(tag.before, OPEN);
    NoEchoWhereTheyMeet(tag.before + OPEN, tag.body);
    NoEchoBeforeCloser(tag.before + OPEN + tag.body);
    RewriteSkips(tag.before + OPEN + tag.body + CLOSE, tag.after);
  }

  lemma RewriteTurnsEcho(tag: Tag)
    requires !Contains(tag.before, ECHO) && !Contains(tag.body, CLOSE)
    ensures RewriteEchoes(tag.Written(ECHO))
         == Tag(tag.before, EchoStatement(tag.body), RewriteEchoes(tag.after)).Written(OPEN)
  {
    FixedTexts();
    WrittenTagIsFirst(tag, ECHO);
  }

  /** The code an echo tag inside a code block leaves behind, cut at the echo tag. */
  function Mangled(body: string): string
    requires Contains(body, ECHO)
  {
    var i := Find(body, ECHO).value;
    body[..i] + OPEN + EchoStatement(body[i + |ECHO|..])
  }

  lemma MangledDiffers(body: string)
    requires Contains(body, ECHO)
    ensures Mangled(body) != body
  {
    var i := Find(body, ECHO).value;
    FindCuts(body, ECHO, i);
    assert Mangled(body)[i + 2] == 'j';
    assert body[i + 2] == '=';
  }

  lemma MangledIsFreeOfClosers(body: string)
    requires Contains(body, ECHO) && !Contains(body, CLOSE)
    ensures !Contains(Mangled(body), CLOSE)
  {
    var i := Find(body, ECHO).value;
    PartsContainNoMore(body, 0, i, CLOSE);
    assert body[0..i] == body[..i];
    PartsContainNoMore(body, i + |ECHO|, |body|, CLOSE);
    assert body[i + |ECHO|..|body|] == body[i + |ECHO|..];
    StatementIsFreeOfClosers(body[i + |ECHO|..]);
    FixedTexts();
    NoCloserWhereTheyMeet(body[..i], OPEN);
    NoCloserWhereTheyMeet(body[..i] + OPEN, EchoStatement(body[i + |ECHO|..]));
  }

  /** An echo opener inside a code block is rewritten there, as if the block were markup. */
  lemma RewriteManglesScript(tag: Tag)
    requires IsNext(Script(tag.body), tag) && Contains(tag.body, ECHO)
    ensures RewriteEchoes(tag.Written(OPEN))
         == Tag(tag.before, Mangled(tag.body), RewriteEchoes(tag.after)).Written(OPEN)
  {
    var i := Find(tag.body, ECHO).value;
    var head, tail := tag.body[..i], tag.body[i + |ECHO|..];
    FindCuts(tag.body, ECHO, i);
    PartsContainNoMore(tag.body, i + |ECHO|, |tag.body|, CLOSE);
    assert tag.body[i + |ECHO|..|tag.body|] == tail;
    FixedTexts();
    NoEchoWhereTheyMeet(tag.before, OPEN);
    NoEchoWhereTheyMeet(tag.before + OPEN, head);
    var inner := Tag(tag.before + OPEN + head, tail, tag.after);
    WithinBody(tag.before, OPEN, head, ECHO, tail, CLOSE, tag.after);
    assert inner.Written(ECHO) == tag.Written(OPEN);
    RewriteTurnsEcho(inner);
    WithinBody(tag.before, OPEN, head, OPEN, EchoStatement(tail), CLOSE, RewriteEchoes(tag.after));
  }

  /** Without a tag that closes, neither pass finds anything. */
  lemma NothingToRewrite(t: string)
    requires NextTag(t).None?
    ensures FirstTag(t, ECHO).None? && FirstTag(t, OPEN).None?
  {
    FindIsFirst(t, ECHO);
    FindIsFirst(t, OPEN);
    if FirstOpener(t).Some? {
      var opener := FirstOpener(t).value;
      var other := if opener == ECHO then OPEN else ECHO;
      if Find(t, other).Some? {
        UnclosedBehind(t, opener, other, Find(t, opener).value, Find(t, other).value);
      }
    }
  }

  lemma OpenersDoNotOverlap(t: string, opener: string, other: string, i: nat, j: nat)
    requires opener in {ECHO, OPEN} && other in {ECHO, OPEN} && opener != other
    requires OccursAt(t, opener, i) && OccursAt(t, other, j) && i <= j
    ensures i + |opener| <= j
  {
    assert t[j..j + |other|][0] == t[j] && t[j..j + |other|][2] == t[j + 2];
    assert t[i..i + |opener|][2] == t[i + 2];
    forall k | i < k < i + |opener| ensures t[k] != '<' {
      assert t[i..i + |opener|][k - i] == t[k];
    }
  }

  lemma UnclosedBehind(t: string, opener: string, other: string, i: nat, j: nat)
    requires opener in {ECHO, OPEN} && other in {ECHO, OPEN} && opener != other
    requires OccursAt(t, opener, i) && OccursAt(t, other, j) && i <= j
    requires Find(t[i + |opener|..], CLOSE).None?
    ensures Find(t[j + |other|..], CLOSE).None?
  {
    OpenersDoNotOverlap(t, opener, other, i, j);
    var rest := t[i + |opener|..];
    var k := j + |other| - (i + |opener|);
    assert t[j + |other|..] == rest[k..|rest|];
    PartsContainNoMore(rest, k, |rest|, CLOSE);
  }

  // ---------------------------------------------------------------------
  // The two passes against the one-pass reading
  // ---------------------------------------------------------------------

  /** The code the two passes make of a tag. */
  function TwoPassCode(segment: Segment): string
    requires !segment.Markup?
  {
    match segment
    case Echo(expression) => EchoStatement(expression)
    case Script(code) => if Contains(code, ECHO) then Mangled(code) else code
  }

  lemma TwoPassTag(segment: Segment, tag: Tag)
    requires IsNext(segment, tag)
    ensures Pieces(RewriteEchoes(tag.Written(Opener(segment))))
         == HtmlPiece(tag.before) + [Code(TwoPassCode(segment))] + Pieces(RewriteEchoes(tag.after))
  {
    FixedTexts();
    var result := Tag(tag.before, TwoPassCode(segment), RewriteEchoes(tag.after));
    if segment.Echo? {
      RewriteTurnsEcho(tag);
      StatementIsFreeOfClosers(tag.body);
    } else if Contains(tag.body, ECHO) {
      RewriteManglesScript(tag);
      MangledIsFreeOfClosers(tag.body);
    } else {
      RewriteKeepsScript(tag);
    }
    WrittenTagIsFirst(result, OPEN);
  }

  lemma PlanConcat(a: seq<Segment>, b: seq<Segment>)
    ensures PlanAll(a + b) == PlanAll(a) + PlanAll(b)
    ensures ScriptsAreFreeOfEchoes(a + b) <==> ScriptsAreFreeOfEchoes(a) && ScriptsAreFreeOfEchoes(b)
  {
    var all := a + b;
    assert forall i :: 0 <= i < |a| ==> all[i] == a[i];
    assert forall i :: 0 <= i < |b| ==> all[|a| + i] == b[i];
  }

  lemma PlanOfTag(before: string, segment: Segment, rest: seq<Segment>)
    ensures PlanAll(MarkupSegment(before) + [segment] + rest) == HtmlPiece(before) + [Plan(segment)] + PlanAll(rest)
    ensures ScriptsAreFreeOfEchoes(MarkupSegment(before) + [segment] + rest)
       <==> (segment.Script? ==> !Contains(segment.code, ECHO)) && ScriptsAreFreeOfEchoes(rest)
  {
    PlanConcat(MarkupSegment(before) + [segment], rest);
    PlanConcat(MarkupSegment(before), [segment]);
    MarkupOnly(before);
    assert PlanAll([segment]) == [Plan(segment)];
    assert [segment][0] == segment;
  }

  lemma SameHeadsSameTails(a: seq<Piece>, p: Piece, b: seq<Piece>, q: Piece, c: seq<Piece>)
    ensures a + [p] + b == a + [q] + c <==> p == q && b == c
  {
    var x, y := a + [p] + b, a + [q] + c;
    assert x[|a|] == p && y[|a|] == q;
    assert x[|a| + 1..] == b && y[|a| + 1..] == c;
  }

  lemma MarkupOnly(t: string)
    ensures PlanAll(MarkupSegment(t)) == HtmlPiece(t) && ScriptsAreFreeOfEchoes(MarkupSegment(t))
  {
  }

  /**
   For every template, the two passes produce exactly the pieces of program
   the one-pass reading asks for if and only if no code block contains an echo
   opener.
   */
  lemma {:induction false} TwoPassesAgree(t: string)
    ensures Pieces(RewriteEchoes(t)) == PlanAll(OnePass(t)) <==> ScriptsAreFreeOfEchoes(OnePass(t))
    decreases |t|
  {
    if NextTag(t).None? {
      NothingToRewrite(t);
      MarkupOnly(t);
    } else {
      var (segment, tag) := NextTag(t).value;
      NextTagIsNext(t);
      TwoPassTag(segment, tag);
      TwoPassesAgree(tag.after);
      PlanOfTag(tag.before, segment, OnePass(tag.after));
      SameHeadsSameTails(HtmlPiece(tag.before), Code(TwoPassCode(segment)), Pieces(RewriteEchoes(tag.after)),
                         Plan(segment), PlanAll(OnePass(tag.after)));
      if segment.Script? && Contains(segment.code, ECHO) {
        MangledDiffers(segment.code);
      }
    }
  }

  lemma SamePrefix(p: string, a: string, b: string)
    ensures p + a == p + b <==> a == b
  {
    assert (p + a)[|p|..] == a && (p + b)[|p|..] == b;
  }

  /** A mangled code block shows in the program at the third character of the opener. */
  lemma ManglingShows(p: string, body: string, a: string, b: string)
    requires Contains(body, ECHO)
    ensures p + (Mangled(body) + "\n") + a != p + (body + "\n") + b
  {
    var i := Find(body, ECHO).value;
    FindCuts(body, ECHO, i);
    assert Mangled(body)[i + 2] == 'j' && body[i + 2] == '=';
    assert (p + (Mangled(body) + "\n") + a)[|p| + i + 2] == 'j';
    assert (p + (body + "\n") + b)[|p| + i + 2] == '=';
  }

  lemma EmitTagged(before: string, code: string, rest: seq<Piece>, quote: string -> string)
    ensures Emit(HtmlPiece(before) + [Code(code)] + rest, quote)
         == Emit(HtmlPiece(before), quote) + (code + "\n") + Emit(rest, quote)
  {
    EmitConcat(HtmlPiece(before) + [Code(code)], rest, quote);
    EmitNext(HtmlPiece(before), Code(code), quote);
  }

  /** The programs themselves are equal, however strings are quoted, for exactly the same templates. */
  lemma {:induction false} ProgramsAgree(t: string, quote: string -> string)
    ensures Emit(Pieces(RewriteEchoes(t)), quote) == Emit(PlanAll(OnePass(t)), quote)
       <==> ScriptsAreFreeOfEchoes(OnePass(t))
    decreases |t|
  {
    if NextTag(t).None? {
      NothingToRewrite(t);
      MarkupOnly(t);
    } else {
      var (segment, tag) := NextTag(t).value;
      NextTagIsNext(t);
      TwoPassTag(segment, tag);
      ProgramsAgree(tag.after, quote);
      PlanOfTag(tag.before, segment, OnePass(tag.after));
      var head := Emit(HtmlPiece(tag.before), quote);
      var left, right := Pieces(RewriteEchoes(tag.after)), PlanAll(OnePass(tag.after));
      EmitTagged(tag.before, TwoPassCode(segment), left, quote);
      EmitTagged(tag.before, Plan(segment).code, right, quote);
      if segment.Script? && Contains(segment.code, ECHO) {
        ManglingShows(head, segment.code, Emit(left, quote), Emit(right, quote));
      } else {
        SamePrefix(head + (TwoPassCode(segment) + "\n"), Emit(left, quote), Emit(right, quote));
      }
    }
  }

  // ---------------------------------------------------------------------
  // The program of one tag, written out
  // ---------------------------------------------------------------------

  /** The program between the frame, for a template that is one tag. */
  lemma OneTag(segment: Segment, tag: Tag, quote: string -> string)
    requires IsNext(segment, tag) && tag.before == "" && tag.after == ""
    ensures Emit(Pieces(RewriteEchoes(tag.Written(Opener(segment)))), quote) == TwoPassCode(segment) + "\n"
  {
    TwoPassTag(segment, tag);
    NothingInNothing();
    EmitTagged("", TwoPassCode(segment), [], quote);
    assert Emit(HtmlPiece(""), quote) == "" && Emit([], quote) == "";
  }

  lemma OneEcho(t: string, e: string, quote: string -> string)
    requires t == ECHO + e + CLOSE && !Contains(e, CLOSE)
    ensures Emit(Pieces(RewriteEchoes(t)), quote) == EchoStatement(e) + "\n"
  {
    var tag := Tag("", e, "");
    NothingInNothing();
    assert tag.Written(ECHO) == t;
    OneTag(Echo(e), tag, quote);
  }

  lemma OneScript(t: string, code: string, quote: string -> string)
    requires t == OPEN + code + CLOSE && !Contains(code, CLOSE) && !Contains(code, ECHO)
    ensures Emit(Pieces(RewriteEchoes(t)), quote) == code + "\n"
  {
    var tag := Tag("", code, "");
    NothingInNothing();
    assert tag.Written(OPEN) == t;
    OneTag(Script(code), tag, quote);
  }

  /** An expression is output through the escaper, without the white space around it. */
  lemma EchoIsEscaped(e: string, x: string, low: nat, quote: string -> string)
    requires !Contains(e, "?>") && IsTrimmed(e, x, low, JavaScript)
    ensures Emit(Pieces(RewriteEchoes("<?=" + e + "?>")), quote) == "__output += __escape(" + x + ");" + "\n"
  {
    OneEcho("<?=" + e + "?>", e, quote);
    TrimIs(e, x, low, JavaScript);
  }

  /** A block of code is taken as it is. */
  lemma CodeIsTaken(code: string, quote: string -> string)
    requires !Contains(code, "?>") && !Contains(code, "<?=")
    ensures Emit(Pieces(RewriteEchoes("<?jhs" + code + "?>")), quote) == code + "\n"
  {
    OneScript("<?jhs" + code + "?>", code, quote);
  }

  /** Markup is output as a quoted string. */
  lemma MarkupIsQuoted(html: string, quote: string -> string)
    requires !Contains(html, "<?=") && !Contains(html, "<?jhs") && html != ""
    ensures Emit(Pieces(RewriteEchoes(html)), quote) == "__output += " + quote(html) + ";\n"
  {
    NothingToRewrite(html);
    assert Pieces(html) == [Html(html)];
    EmitCons(Html(html), [], quote);
    assert [Html(html)] + [] == [Html(html)] && Emit([], quote) == "";
  }

  lemma NothingInNothing()
    ensures OnePass("") == [] && RewriteEchoes("") == "" && Pieces("") == []
    ensures !Contains("", ECHO) && !Contains("", OPEN)
  {
    NotContained("", ECHO, '=');
    NotContained("", OPEN, 'j');
  }

  /** A template that is one block of code with an echo opener in it is where the passes part. */
  lemma EchoInCodeDisagrees(body: string)
    requires Contains(body, ECHO) && !Contains(body, CLOSE)
    ensures OnePass(OPEN + body + CLOSE) == [Script(body)]
    ensures Pieces(RewriteEchoes(OPEN + body + CLOSE)) == [Code(Mangled(body))]
    ensures Mangled(body) != body
  {
    var tag := Tag("", body, "");
    NothingInNothing();
    assert tag.Written(OPEN) == OPEN + body + CLOSE;
    ReadsTag(Script(body), tag);
    TwoPassTag(Script(body), tag);
    MangledDiffers(body);
    assert HtmlPiece("") == [] && MarkupSegment("") == [];
  }

  lemma MangledAt(before: string, after: string)
    requires !Contains(before, ECHO)
    ensures Contains(before + ECHO + after, ECHO)
    ensures Mangled(before + ECHO + after) == before + OPEN + EchoStatement(after)
  {
    FixedTexts();
    FindsFirst(before, ECHO, after);
  }

  lemma BareEchoDisagrees(code: string)
    requires code == ECHO
    ensures OnePass(OPEN + code + CLOSE) == [Script(code)]
    ensures Pieces(RewriteEchoes(OPEN + code + CLOSE)) == [Code(OPEN + EchoStatement(""))]
  {
    NothingInNothing();
    NotContained(code, CLOSE, '>');
    MangledAt("", "");
    assert "" + ECHO + "" == code && "" + OPEN + EchoStatement("") == OPEN + EchoStatement("");
    EchoInCodeDisagrees(code);
  }

  /** The smallest such template. */
  lemma SmallestDisagreement()
    ensures OnePass(OPEN + ECHO + CLOSE) == [Script(ECHO)]
    ensures Pieces(RewriteEchoes(OPEN + ECHO + CLOSE)) == [Code(OPEN + EchoStatement(""))]
  {
    BareEchoDisagrees(ECHO);
  }

  // ---------------------------------------------------------------------
  // Nothing is lost, and written segments are read back
  // ---------------------------------------------------------------------

  function PrintPiece(p: Piece): string {
    match p
    case Html(html) => html
    case Code(code) => OPEN + code + CLOSE
  }

  function PrintPieces(ps: seq<Piece>): string {
    if ps == [] then "" else PrintPiece(ps[0]) + PrintPieces(ps[1..])
  }

  lemma PrintPiecesCons(p: Piece, rest: seq<Piece>)
    ensures PrintPieces([p] + rest) == PrintPiece(p) + PrintPieces(rest)
  {
    assert ([p] + rest)[1..] == rest;
  }

  lemma PrintPiecesHtml(before: string, rest: seq<Piece>)
    ensures PrintPieces(HtmlPiece(before) + rest) == before + PrintPieces(rest)
  {
    if before == "" {
      assert HtmlPiece(before) + rest == rest;
    } else {
      PrintPiecesCons(Html(before), rest);
    }
  }

  lemma PrintPiecesTag(before: string, code: string, rest: seq<Piece>)
    ensures PrintPieces(HtmlPiece(before) + [Code(code)] + rest) == before + OPEN + code + CLOSE + PrintPieces(rest)
  {
    assert HtmlPiece(before) + [Code(code)] + rest == HtmlPiece(before) + ([Code(code)] + rest);
    PrintPiecesHtml(before, [Code(code)] + rest);
    PrintPiecesCons(Code(code), rest);
    Regroup(before, OPEN, code, CLOSE, PrintPieces(rest));
  }

  lemma Regroup(a: string, b: string, c: string, d: string, e: string)
    ensures a + (b + c + d + e) == a + b + c + d + e
  {
  }

  /** The pieces the second pass cuts put back together are the rewritten template, whatever it is. */
  lemma {:induction false} PiecesLoseNothing(t: string)
    ensures PrintPieces(Pieces(t)) == t
    decreases |t|
  {
    if FirstTag(t, OPEN).Some? {
      var tag := FirstTag(t, OPEN).value;
      TagIsWritten(t, OPEN);
      PiecesLoseNothing(tag.after);
      PrintPiecesTag(tag.before, tag.body, Pieces(tag.after));
    } else if t != "" {
      assert [Html(t)][1..] == [];
    }
  }

  function PrintSegment(s: Segment): string {
    match s
    case Markup(text) => text
    case Script(code) => OPEN + code + CLOSE
    case Echo(expression) => ECHO + expression + CLOSE
  }

  function Print(segments: seq<Segment>): string {
    if segments == [] then "" else PrintSegment(segments[0]) + Print(segments[1..])
  }

  lemma PrintCons(s: Segment, rest: seq<Segment>)
    ensures Print([s] + rest) == PrintSegment(s) + Print(rest)
  {
    assert ([s] + rest)[1..] == rest;
  }

  lemma PrintMarkup(before: string, rest: seq<Segment>)
    ensures Print(MarkupSegment(before) + rest) == before + Print(rest)
  {
    if before == "" {
      assert MarkupSegment(before) + rest == rest;
    } else {
      PrintCons(Markup(before), rest);
    }
  }

  lemma PrintLength(segments: seq<Segment>)
    requires segments != []
    ensures |Print(segments)| == |PrintSegment(segments[0])| + |Print(segments[1..])|
  {
    assert segments == [segments[0]] + segments[1..];
    PrintCons(segments[0], segments[1..]);
  }

  lemma {:induction false} SegmentFits(segments: seq<Segment>, i: nat, segment: Segment)
    requires i < |segments| && segment == segments[i]
    ensures |PrintSegment(segment)| <= |Print(segments)|
    decreases i
  {
    PrintLength(segments);
    if i > 0 {
      SegmentFits(segments[1..], i - 1, segment);
    }
  }

  lemma PrintTag(before: string, segment: Segment, rest: seq<Segment>)
    requires !segment.Markup?
    ensures Print(MarkupSegment(before) + [segment] + rest)
         == Tag(before, Body(segment), Print(rest)).Written(Opener(segment))
  {
    Associate(MarkupSegment(before), [segment], rest);
    PrintMarkup(before, [segment] + rest);
    PrintCons(segment, rest);
    Regroup(before, Opener(segment), Body(segment), CLOSE, Print(rest));
  }

  /** The one-pass reading loses nothing of any template. */
  lemma {:induction false} OnePassLosesNothing(t: string)
    ensures Print(OnePass(t)) == t
    decreases |t|
  {
    if NextTag(t).Some? {
      var (segment, tag) := NextTag(t).value;
      NextTagIsNext(t);
      OnePassLosesNothing(tag.after);
      PrintTag(tag.before, segment, OnePass(tag.after));
    } else if t != "" {
      assert [Markup(t)][1..] == [];
    }
  }

  /** No template shorter than the smallest disagreement is one. */
  lemma ShorterTemplatesAgree(t: string)
    requires |t| < |OPEN + ECHO + CLOSE|
    ensures Pieces(RewriteEchoes(t)) == PlanAll(OnePass(t))
  {
    var segments := OnePass(t);
    OnePassLosesNothing(t);
    forall i | 0 <= i < |segments| && segments[i].Script? ensures !Contains(segments[i].code, ECHO) {
      SegmentFits(segments, i, segments[i]);
      assert |segments[i].code| < |ECHO|;
    }
    TwoPassesAgree(t);
  }

  /** Segments as an author writes them: markup without openers, tags without closers. */
  predicate WellFormed(segments: seq<Segment>) {
    && (forall i :: 0 <= i < |segments| ==>
          if segments[i].Markup? then
            segments[i].text != "" && !Contains(segments[i].text, ECHO) && !Contains(segments[i].text, OPEN)
          else !Contains(Body(segments[i]), CLOSE))
    && (forall i :: 0 < i < |segments| ==> !(segments[i - 1].Markup? && segments[i].Markup?))
  }

  lemma OtherOpenerComesLater(before: string, opener: string, other: string, rest: string)
    requires opener in {ECHO, OPEN} && other in {ECHO, OPEN} && opener != other
    requires !Contains(before, other)
    ensures var found := Find(before + opener + rest, other);
            found.Some? ==> |before| < found.value
  {
    var t := before + opener + rest;
    FindIsFirst(t, other);
    ContainsIs(before, other);
    assert t == before + (opener + rest);
    forall k: nat | k <= |before| ensures !OccursAt(t, other, k) {
      if k + |other| <= |before| {
        OccursInPrefix(before, opener + rest, other, k);
        assert !OccursAt(before, other, k);
      } else if k + |other| <= |t| {
        assert t[k..k + |other|][|before| - k] == t[|before|] == '<';
        assert t[k..k + |other|][2] == t[k + 2];
      }
    }
  }

  lemma WrittenOpenerIsFirst(before: string, opener: string, rest: string)
    requires opener in {ECHO, OPEN} && !Contains(before, ECHO) && !Contains(before, OPEN)
    ensures FirstOpener(before + opener + rest) == Some(opener)
  {
    FixedTexts();
    FindsFirst(before, opener, rest);
    OtherOpenerComesLater(before, opener, if opener == ECHO then OPEN else ECHO, rest);
  }

  lemma ReadsTag(segment: Segment, tag: Tag)
    requires IsNext(segment, tag)
    ensures OnePass(tag.Written(Opener(segment))) == MarkupSegment(tag.before) + [segment] + OnePass(tag.after)
  {
    var opener := Opener(segment);
    FixedTexts();
    TemplateCompiler.Reassociate(tag.before, opener, tag.body, CLOSE, tag.after);
    WrittenOpenerIsFirst(tag.before, opener, tag.body + CLOSE + tag.after);
    WrittenTagIsFirst(tag, opener);
    assert NextTag(tag.Written(opener)) == Some((segment, tag));
  }

  /** Segments written one after the other are read back as they are. */
  lemma {:induction false} PrintedSegmentsReadBack(segments: seq<Segment>)
    requires WellFormed(segments)
    ensures OnePass(Print(segments)) == segments
    decreases |segments|
  {
    if segments == [] {
    } else if segments[0].Markup? && |segments| == 1 {
      assert segments[1..] == [] && segments == [segments[0]];
      assert Print(segments) == segments[0].text;
    } else {
      var n := if segments[0].Markup? then 1 else 0;
      var before := if n == 1 then segments[0].text else "";
      var segment, rest := segments[n], segments[n + 1..];
      assert !segment.Markup?;
      NotContained("", ECHO, '<');
      NotContained("", OPEN, '<');
      assert segments == MarkupSegment(before) + [segment] + rest;
      PrintTag(before, segment, rest);
      ReadsTag(segment, Tag(before, Body(segment), Print(rest)));
      RestIsWellFormed(segments, n + 1);
      PrintedSegmentsReadBack(rest);
    }
  }

  lemma RestIsWellFormed(segments: seq<Segment>, n: nat)
    requires WellFormed(segments) && n <= |segments|
    ensures WellFormed(segments[n..])
  {
    var rest := segments[n..];
    assert forall i :: 0 <= i < |rest| ==> rest[i] == segments[n + i];
  }

  /** Compiling a template written from segments yields exactly those segments, in order. */
  lemma PrintedSegmentsCompile(segments: seq<Segment>)
    requires WellFormed(segments)
    ensures Pieces(RewriteEchoes(Print(segments))) == PlanAll(segments) <==> ScriptsAreFreeOfEchoes(segments)
  {
    PrintedSegmentsReadBack(segments);
    TwoPassesAgree(Print(segments));
  }
}
