/**
 The template compiler of sidecar/engine.js with its default tags: one pass
 rewrites echo tags into code tags, a second one cuts the result into markup
 and code and writes the program. Code, expressions and the quoting of
 markup are opaque text.
 */
module TemplateCompiler {
  import opened Common
  import opened Text

  const OPEN := "<?jhs"
  const CLOSE := "?>"
  const ECHO := "<?="

  // ---------------------------------------------------------------------
  // Matching a tag
  // ---------------------------------------------------------------------

  /** A tag that runs from an opener to the first closer behind it, with what stands around it. */
  datatype Tag = Tag(before: string, body: string, after: string)
  {
    function Written(opener: string): string {
      before + opener + body + CLOSE + after
    }
  }

  /** The first match of the source's lazy pattern `opener([\s\S]*?)closer`. */
  function FirstTag(t: string, opener: string): (r: Option<Tag>)
    ensures r.Some? ==> |r.value.after| + |opener| + |CLOSE| <= |t|
  {
    match Find(t, opener)
    case None => None
    case Some(i) =>
      var inner := t[i + |opener|..];
      match Find(inner, CLOSE)
      case None => None
      case Some(j) => Some(Tag(t[..i], inner[..j], inner[j + |CLOSE|..]))
  }

  // ---------------------------------------------------------------------
  // The two passes
  // ---------------------------------------------------------------------

  const STATEMENT_HEAD := "__output += __escape("
  const STATEMENT_TAIL := ");"

  /** The output statement an echo tag becomes. */
  function EchoStatement(expression: string): string {
    STATEMENT_HEAD + TrimIn(expression, JavaScript) + STATEMENT_TAIL
  }

  /** The first pass. */
  function RewriteEchoes(t: string): string
    decreases |t|
  {
    match FirstTag(t, ECHO)
    case None => t
    case Some(tag) => tag.before + OPEN + EchoStatement(tag.body) + CLOSE + RewriteEchoes(tag.after)
  }

  datatype Piece = Html(html: string) | Code(code: string)

  function HtmlPiece(s: string): seq<Piece> {
    if s == "" then [] else [Html(s)]
  }

  /** What the second pass cuts a rewritten template into. */
  function Pieces(t: string): seq<Piece>
    decreases |t|
  {
    match FirstTag(t, OPEN)
    case None => HtmlPiece(t)
    case Some(tag) => HtmlPiece(tag.before) + [Code(tag.body)] + Pieces(tag.after)
  }

  function EmitPiece(p: Piece, quote: string -> string): string {
    match p
    case Html(html) => "__output += " + quote(html) + ";\n"
    case Code(code) => code + "\n"
  }

  function Emit(ps: seq<Piece>, quote: string -> string): string {
    if ps == [] then "" else EmitPiece(ps[0], quote) + Emit(ps[1..], quote)
  }

  /** Appends the statement for a stretch of markup, unless it is empty. */
  method AppendHtml(code: string, htmlPart: string, quote: string -> string, ghost done: seq<Piece>)
    returns (more: string)
    requires code == Emit(done, quote)
    ensures more == Emit(done + HtmlPiece(htmlPart), quote)
  {
    more := code;
    if |htmlPart| > 0 {
      more := more + ("__output += " + quote(htmlPart) + ";\n");
      EmitNext(done, Html(htmlPart), quote);
    } else {
      assert done + HtmlPiece(htmlPart) == done;
    }
  }

  /** Appends the code of a tag. */
  method AppendCode(code: string, body: string, quote: string -> string, ghost done: seq<Piece>)
    returns (more: string)
    requires code == Emit(done, quote)
    ensures more == Emit(done + [Code(body)], quote)
  {
    more := code + (body + "\n");
    EmitNext(done, Code(body), quote);
  }

  /** One round of the second pass: the markup in front of a tag, the tag's code, and the cursor behind it. */
  method EmitTag(rewritten: string, cursor: nat, tag: Tag, code: string, quote: string -> string,
                 ghost done: seq<Piece>) returns (more: string, next: nat)
    requires cursor <= |rewritten| && FirstTag(rewritten[cursor..], OPEN) == Some(tag)
    requires code == Emit(done, quote)
    ensures more == Emit(done + HtmlPiece(tag.before) + [Code(tag.body)], quote)
    ensures cursor < next <= |rewritten| && rewritten[next..] == tag.after
  {
    TagPositions(rewritten, cursor, tag);
    var index := cursor + |tag.before|;
    var htmlPart := rewritten[cursor..index];
    assert htmlPart == tag.before;
    more := AppendHtml(code, htmlPart, quote, done);
    ghost var withHtml := done + HtmlPiece(tag.before);
    more := AppendCode(more, tag.body, quote, withHtml);
    next := index + |OPEN| + |tag.body| + |CLOSE|;
  }

  /** The second pass as the source runs it, appending to `code` and advancing `cursor`. */
  method EmitRewritten(rewritten: string, quote: string -> string) returns (code: string)
    ensures code == Emit(Pieces(rewritten), quote)
  {
    code := "";
    var cursor := 0;
    ghost var all := Pieces(rewritten);
    ghost var done: seq<Piece>, todo := [], all;
    var tag := FirstTag(rewritten, OPEN);
    assert rewritten[0..] == rewritten;
    while tag.Some?
      invariant cursor <= |rewritten| && tag == FirstTag(rewritten[cursor..], OPEN)
      invariant todo == Pieces(rewritten[cursor..]) && done + todo == all
      invariant code == Emit(done, quote)
      decreases |rewritten| - cursor
    {
      todo := NextPieces(rewritten[cursor..], tag.value, todo, done);
      ghost var emitted := done;
      done := done + HtmlPiece(tag.value.before) + [Code(tag.value.body)];
      code, cursor := EmitTag(rewritten, cursor, tag.value, code, quote, emitted);
      tag := FirstTag(rewritten[cursor..], OPEN);
    }
    LastPieces(rewritten[cursor..], todo);
    code := AppendHtml(code, rewritten[cursor..], quote, done);
  }

  /** `head` and `tail` are the fixed frame around the compiled template. */
  method Compile(template: string, quote: string -> string, head: string, tail: string) returns (program: string)
    ensures program == head + Emit(Pieces(RewriteEchoes(template)), quote) + tail
  {
    var code := EmitRewritten(RewriteEchoes(template), quote);
    program := head + code + tail;
  }

  lemma TagPositions(s: string, cursor: nat, tag: Tag)
    requires cursor <= |s| && FirstTag(s[cursor..], OPEN) == Some(tag)
    ensures var index := cursor + |tag.before|;
            var end := index + |OPEN| + |tag.body| + |CLOSE|;
            end <= |s| && s[cursor..index] == tag.before && s[end..] == tag.after
  {
    TagIsWritten(s[cursor..], OPEN);
    var rest := s[cursor..];
    assert rest[..|tag.before|] == tag.before;
    assert rest[|rest| - |tag.after|..] == tag.after;
    assert s[|s| - |tag.after|..] == rest[|rest| - |tag.after|..];
  }

  lemma NextPieces(t: string, tag: Tag, todo: seq<Piece>, done: seq<Piece>) returns (rest: seq<Piece>)
    requires FirstTag(t, OPEN) == Some(tag) && todo == Pieces(t)
    ensures rest == Pieces(tag.after)
    ensures done + HtmlPiece(tag.before) + [Code(tag.body)] + rest == done + todo
  {
    rest := Pieces(tag.after);
    Regroup(done, HtmlPiece(tag.before), Code(tag.body), rest);
  }

  lemma LastPieces(t: string, todo: seq<Piece>)
    requires FirstTag(t, OPEN) == None && todo == Pieces(t)
    ensures todo == HtmlPiece(t)
  {
  }

  lemma Regroup(a: seq<Piece>, b: seq<Piece>, p: Piece, c: seq<Piece>)
    ensures a + b + [p] + c == a + (b + [p] + c)
  {
  }

  lemma EmitCons(p: Piece, rest: seq<Piece>, quote: string -> string)
    ensures Emit([p] + rest, quote) == EmitPiece(p, quote) + Emit(rest, quote)
  {
    assert ([p] + rest)[1..] == rest;
  }

  lemma {:induction false} EmitConcat(a: seq<Piece>, b: seq<Piece>, quote: string -> string)
    ensures Emit(a + b, quote) == Emit(a, quote) + Emit(b, quote)
  {
    if a == [] {
      assert a + b == b;
    } else {
      EmitConcat(a[1..], b, quote);
      assert a + b == [a[0]] + (a[1..] + b);
      EmitCons(a[0], a[1..] + b, quote);
      Associate(EmitPiece(a[0], quote), Emit(a[1..], quote), Emit(b, quote));
    }
  }

  lemma EmitNext(ps: seq<Piece>, p: Piece, quote: string -> string)
    ensures Emit(ps + [p], quote) == Emit(ps, quote) + EmitPiece(p, quote)
  {
    EmitConcat(ps, [p], quote);
    assert [p][1..] == [];
  }

  // ---------------------------------------------------------------------
  // What a match cuts out, and where a written tag is found again
  // ---------------------------------------------------------------------

  lemma Reassociate(a: string, b: string, c: string, d: string, e: string)
    ensures a + b + (c + d + e) == a + b + c + d + e
  {
  }

  lemma TagIsWritten(t: string, opener: string)
    requires FirstTag(t, opener).Some? && opener != ""
    ensures var tag := FirstTag(t, opener).value;
            tag.Written(opener) == t && !Contains(tag.before, opener) && !Contains(tag.body, CLOSE)
  {
    var i := Find(t, opener).value;
    FindCuts(t, opener, i);
    var inner := t[i + |opener|..];
    var j := Find(inner, CLOSE).value;
    FindCuts(inner, CLOSE, j);
    Reassociate(t[..i], opener, inner[..j], CLOSE, inner[j + |CLOSE|..]);
  }

  lemma WrittenTagIsFirst(tag: Tag, opener: string)
    requires OpensOnce(opener) && !Contains(tag.before, opener) && !Contains(tag.body, CLOSE)
    ensures FirstTag(tag.Written(opener), opener) == Some(tag)
  {
    var inner := tag.body + CLOSE + tag.after;
    Reassociate(tag.before, opener, tag.body, CLOSE, tag.after);
    FindsFirst(tag.before, opener, inner);
    FindsFirst(tag.body, CLOSE, tag.after);
  }

  /** A position at which the source's pattern matches: an opener with some closer behind it. */
  ghost predicate MatchesAt(t: string, opener: string, i: nat) {
    OccursAt(t, opener, i) && Contains(t[i + |opener|..], CLOSE)
  }

  /** The first opener either starts the left-most match or shows that there is none. */
  lemma FirstTagIsLeftmostMatch(t: string, opener: string)
    requires opener != ""
    ensures FirstTag(t, opener).Some? <==> exists i: nat :: MatchesAt(t, opener, i)
    ensures FirstTag(t, opener).Some? ==>
              var i := |FirstTag(t, opener).value.before|;
              MatchesAt(t, opener, i) && forall j: nat :: j < i ==> !MatchesAt(t, opener, j)
  {
    FindIsFirst(t, opener);
    var first := Find(t, opener);
    if FirstTag(t, opener).Some? {
      assert MatchesAt(t, opener, first.value);
    } else {
      forall i: nat ensures !MatchesAt(t, opener, i) {
        if OccursAt(t, opener, i) {
          var i0 := first.value;
          assert i0 <= i;
          var rest := t[i0 + |opener|..];
          assert t[i + |opener|..] == rest[i - i0..|rest|];
          PartsContainNoMore(rest, i - i0, |rest|, CLOSE);
        }
      }
    }
  }
}
