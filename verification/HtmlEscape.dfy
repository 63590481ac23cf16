/**
 The HTML escaper, a chain of seven replacements written once in Rust
 (src/error.rs) and once in JavaScript (sidecar/engine.js).
 */
module HtmlEscape {
  import opened Common

  // ---------------------------------------------------------------------
  // The chains
  // ---------------------------------------------------------------------

  /** Replaces every occurrence of one character. */
  function ReplaceChar(s: string, c: char, image: string): string {
    if s == "" then ""
    else (if s[0] == c then image else [s[0]]) + ReplaceChar(s[1..], c, image)
  }

  function EscapeHtmlText(text: string): string {
    var s1 := ReplaceChar(text, '&', "&amp;");
    var s2 := ReplaceChar(s1, '<', "&lt;");
    var s3 := ReplaceChar(s2, '>', "&gt;");
    var s4 := ReplaceChar(s3, '"', "&quot;");
    var s5 := ReplaceChar(s4, '\'', "&#039;");
    var s6 := ReplaceChar(s5, '/', "&#x2F;");
    ReplaceChar(s6, '`', "&#96;")
  }

  /** A UTF-16 code unit; the strings of JavaScript are sequences of these. */
  type Unit = u: nat | u < 0x1_0000

  function UnitsOf(c: char): (units: seq<Unit>)
    ensures 1 <= |units| <= 2
  {
    var u := c as int;
    if u < 0x1_0000 then [u]
    else [0xD800 + (u - 0x1_0000) / 0x400, 0xDC00 + (u - 0x1_0000) % 0x400]
  }

  /** The UTF-16 form of a text. */
  function Utf16(s: string): seq<Unit> {
    if s == "" then [] else UnitsOf(s[0]) + Utf16(s[1..])
  }

  /** Replaces every occurrence of one code unit. */
  function ReplaceUnit(s: seq<Unit>, u: Unit, image: seq<Unit>): seq<Unit> {
    if s == [] then []
    else (if s[0] == u then image else [s[0]]) + ReplaceUnit(s[1..], u, image)
  }

  /** The template engine's escaper: nothing for a missing value, else the chain on the code units of its text. */
  function ScriptEscapeHtml(value: Option<seq<Unit>>): seq<Unit> {
    if value.None? then []
    else
      var s1 := ReplaceUnit(value.value, '&' as int, Utf16("&amp;"));
      var s2 := ReplaceUnit(s1, '<' as int, Utf16("&lt;"));
      var s3 := ReplaceUnit(s2, '>' as int, Utf16("&gt;"));
      var s4 := ReplaceUnit(s3, '"' as int, Utf16("&quot;"));
      var s5 := ReplaceUnit(s4, '\'' as int, Utf16("&#039;"));
      var s6 := ReplaceUnit(s5, '/' as int, Utf16("&#x2F;"));
      ReplaceUnit(s6, '`' as int, Utf16("&#96;"))
  }

  // ---------------------------------------------------------------------
  // The one-pass meaning
  // ---------------------------------------------------------------------

  /** The entity that stands for a character in escaped text. */
  function Entity(c: char): string {
    match c
    case '&' => "&amp;"
    case '<' => "&lt;"
    case '>' => "&gt;"
    case '"' => "&quot;"
    case '\'' => "&#039;"
    case '/' => "&#x2F;"
    case '`' => "&#96;"
    case _ => [c]
  }

  function Substitute(s: string): string {
    if s == "" then "" else Entity(s[0]) + Substitute(s[1..])
  }

  const REPLACED := "&<>\"'/`"

  /** What has become of a character after the first `stages` replacements of the chain. */
  function StageEntity(c: char, stages: nat): string
    requires stages <= 7
  {
    if c in REPLACED[..stages] then Entity(c) else [c]
  }

  function Stage(s: string, stages: nat): string
    requires stages <= 7
  {
    if s == "" then "" else StageEntity(s[0], stages) + Stage(s[1..], stages)
  }

  lemma {:induction false} ReplaceCharConcat(a: string, b: string, c: char, image: string)
    ensures ReplaceChar(a + b, c, image) == ReplaceChar(a, c, image) + ReplaceChar(b, c, image)
  {
    if a == "" {
      assert a + b == b;
    } else {
      var head := if a[0] == c then image else [a[0]];
      var x, y := ReplaceChar(a[1..], c, image), ReplaceChar(b, c, image);
      ReplaceCharConcat(a[1..], b, c, image);
      assert (a + b)[1..] == a[1..] + b && (a + b)[0] == a[0];
      assert head + (x + y) == (head + x) + y;
    }
  }

  lemma {:induction false} ReplaceCharAbsent(s: string, c: char, image: string)
    requires c !in s
    ensures ReplaceChar(s, c, image) == s
  {
    if s != "" {
      ReplaceCharAbsent(s[1..], c, image);
    }
  }

  lemma ReplaceSingle(d: char, c: char, image: string)
    ensures ReplaceChar([d], c, image) == if c == d then image else [d]
  {
    assert [d][1..] == "";
  }

  /** Replacing the next character of the chain takes each character's entity to its next stage. */
  lemma StageEntityStep(d: char, stages: nat)
    requires stages < 7
    ensures ReplaceChar(StageEntity(d, stages), REPLACED[stages], Entity(REPLACED[stages]))
         == StageEntity(d, stages + 1)
  {
    var c := REPLACED[stages];
    assert REPLACED[..stages + 1] == REPLACED[..stages] + [c];
    if d == c {
      ReplaceSingle(d, c, Entity(c));
    } else {
      ReplaceCharAbsent(StageEntity(d, stages), c, Entity(c));
    }
  }

  lemma {:induction false} StageStep(s: string, stages: nat)
    requires stages < 7
    ensures ReplaceChar(Stage(s, stages), REPLACED[stages], Entity(REPLACED[stages])) == Stage(s, stages + 1)
  {
    if s != "" {
      var c := REPLACED[stages];
      ReplaceCharConcat(StageEntity(s[0], stages), Stage(s[1..], stages), c, Entity(c));
      StageEntityStep(s[0], stages);
      StageStep(s[1..], stages);
    }
  }

  lemma {:induction false} NoStage(s: string)
    ensures Stage(s, 0) == s
  {
    if s != "" {
      NoStage(s[1..]);
    }
  }

  lemma LastStage(c: char)
    ensures StageEntity(c, 7) == Entity(c)
  {
    assert REPLACED[..7] == ['&', '<', '>', '"', '\'', '/', '`'];
    if c !in REPLACED[..7] {
      assert c != '&' && c != '<' && c != '>' && c != '"' && c != '\'' && c != '/' && c != '`';
    }
  }

  lemma {:induction false} AllStages(s: string)
    ensures Stage(s, 7) == Substitute(s)
  {
    if s != "" {
      LastStage(s[0]);
      AllStages(s[1..]);
    }
  }

  /** The next replacement of the chain, by its character and image. */
  lemma NextStage(text: string, stages: nat, c: char, image: string, before: string)
    requires stages < 7 && c == REPLACED[stages] && image == Entity(c) && before == Stage(text, stages)
    ensures ReplaceChar(before, c, image) == Stage(text, stages + 1)
  {
    StageStep(text, stages);
  }

  lemma FirstStages(text: string)
    ensures ReplaceChar(ReplaceChar(ReplaceChar(text, '&', "&amp;"), '<', "&lt;"), '>', "&gt;") == Stage(text, 3)
  {
    NoStage(text);
    NextStage(text, 0, '&', "&amp;", text);
    NextStage(text, 1, '<', "&lt;", Stage(text, 1));
    NextStage(text, 2, '>', "&gt;", Stage(text, 2));
  }

  lemma MiddleStages(text: string)
    ensures ReplaceChar(ReplaceChar(Stage(text, 3), '"', "&quot;"), '\'', "&#039;") == Stage(text, 5)
  {
    NextStage(text, 3, '"', "&quot;", Stage(text, 3));
    NextStage(text, 4, '\'', "&#039;", Stage(text, 4));
  }

  lemma LastStages(text: string)
    ensures ReplaceChar(ReplaceChar(Stage(text, 5), '/', "&#x2F;"), '`', "&#96;") == Substitute(text)
  {
    NextStage(text, 5, '/', "&#x2F;", Stage(text, 5));
    NextStage(text, 6, '`', "&#96;", Stage(text, 6));
    AllStages(text);
  }

  /** The seven sequential replacements are one per-character substitution. */
  lemma ChainIsSubstitution(text: string)
    ensures EscapeHtmlText(text) == Substitute(text)
  {
    FirstStages(text);
    MiddleStages(text);
    LastStages(text);
  }

  // ---------------------------------------------------------------------
  // The two languages
  // ---------------------------------------------------------------------

  lemma ReplaceUnitCons(x: Unit, rest: seq<Unit>, u: Unit, image: seq<Unit>)
    ensures ReplaceUnit([x] + rest, u, image) == (if x == u then image else [x]) + ReplaceUnit(rest, u, image)
  {
    assert ([x] + rest)[1..] == rest;
  }

  lemma {:induction false} ReplaceUnitConcat(a: seq<Unit>, b: seq<Unit>, u: Unit, image: seq<Unit>)
    ensures ReplaceUnit(a + b, u, image) == ReplaceUnit(a, u, image) + ReplaceUnit(b, u, image)
  {
    if a == [] {
      assert a + b == b;
    } else {
      var head := if a[0] == u then image else [a[0]];
      ReplaceUnitConcat(a[1..], b, u, image);
      assert a + b == [a[0]] + (a[1..] + b);
      ReplaceUnitCons(a[0], a[1..] + b, u, image);
      Associate(head, ReplaceUnit(a[1..], u, image), ReplaceUnit(b, u, image));
    }
  }

  lemma Utf16Cons(c: char, rest: string)
    ensures Utf16([c] + rest) == UnitsOf(c) + Utf16(rest)
  {
    assert ([c] + rest)[1..] == rest;
  }

  lemma {:induction false} Utf16Concat(a: string, b: string)
    ensures Utf16(a + b) == Utf16(a) + Utf16(b)
  {
    if a == "" {
      assert a + b == b;
    } else {
      Utf16Concat(a[1..], b);
      assert a + b == [a[0]] + (a[1..] + b);
      Utf16Cons(a[0], a[1..] + b);
      Associate(UnitsOf(a[0]), Utf16(a[1..]), Utf16(b));
    }
  }

  /** No unit of another character is an ASCII one. */
  lemma ReplaceInCharacter(d: char, c: char, image: seq<Unit>)
    requires c as int < 0x80
    ensures ReplaceUnit(UnitsOf(d), c as int, image) == if d == c then image else UnitsOf(d)
  {
    var units := UnitsOf(d);
    if |units| == 1 {
      assert units[1..] == [];
    } else {
      assert units[1..] == [units[1]] && units[1..][1..] == [];
      assert ReplaceUnit(units[1..], c as int, image) == [units[1]];
      assert units == [units[0]] + [units[1]];
    }
  }

  /** Replacing an ASCII character commutes with the encoding. */
  lemma {:induction false} ReplaceEncoded(s: string, c: char, image: string)
    requires c as int < 0x80
    ensures Utf16(ReplaceChar(s, c, image)) == ReplaceUnit(Utf16(s), c as int, Utf16(image))
  {
    if s != "" {
      var head, tail := if s[0] == c then image else [s[0]], ReplaceChar(s[1..], c, image);
      ReplaceEncoded(s[1..], c, image);
      Utf16Concat(head, tail);
      ReplaceUnitConcat(UnitsOf(s[0]), Utf16(s[1..]), c as int, Utf16(image));
      ReplaceInCharacter(s[0], c, Utf16(image));
      Utf16Single(s[0]);
    }
  }

  lemma Utf16Single(c: char)
    ensures Utf16([c]) == UnitsOf(c)
  {
    assert [c][1..] == "";
    assert Utf16([c][1..]) == [];
  }

  /** On every text, the escaper of code units answers what the escaper of characters answers. */
  lemma EscapersAgree(text: string)
    ensures ScriptEscapeHtml(Some(Utf16(text))) == Utf16(EscapeHtmlText(text)) == Utf16(Substitute(text))
  {
    var s1 := ReplaceChar(text, '&', "&amp;");
    var s2 := ReplaceChar(s1, '<', "&lt;");
    var s3 := ReplaceChar(s2, '>', "&gt;");
    var s4 := ReplaceChar(s3, '"', "&quot;");
    var s5 := ReplaceChar(s4, '\'', "&#039;");
    var s6 := ReplaceChar(s5, '/', "&#x2F;");
    ReplaceEncoded(text, '&', "&amp;");
    ReplaceEncoded(s1, '<', "&lt;");
    ReplaceEncoded(s2, '>', "&gt;");
    ReplaceEncoded(s3, '"', "&quot;");
    ReplaceEncoded(s4, '\'', "&#039;");
    ReplaceEncoded(s5, '/', "&#x2F;");
    ReplaceEncoded(s6, '`', "&#96;");
    ChainIsSubstitution(text);
  }

  // ---------------------------------------------------------------------
  // What escaped text looks like, and how it reads back
  // ---------------------------------------------------------------------

  predicate IsUnsafe(c: char) {
    c in {'<', '>', '"', '\'', '/', '`'}
  }

  /** No character that could open markup, close a script or end an attribute survives. */
  lemma {:induction false} NothingUnsafeSurvives(text: string, i: nat)
    requires i < |EscapeHtmlText(text)|
    ensures !IsUnsafe(EscapeHtmlText(text)[i])
  {
    ChainIsSubstitution(text);
    SubstituteIsSafe(text);
  }

  lemma {:induction false} SubstituteIsSafe(text: string)
    ensures forall i :: 0 <= i < |Substitute(text)| ==> !IsUnsafe(Substitute(text)[i])
  {
    if text != "" {
      SubstituteIsSafe(text[1..]);
      var head, tail := Entity(text[0]), Substitute(text[1..]);
      assert forall i :: 0 <= i < |head| ==> !IsUnsafe(head[i]);
      forall i | 0 <= i < |head + tail| ensures !IsUnsafe((head + tail)[i]) {
        if i >= |head| {
          assert (head + tail)[i] == tail[i - |head|];
        }
      }
    }
  }

  /** Reads escaped text back, entity by entity. */
  function Unescape(s: string): string {
    if s == "" then ""
    else if "&amp;" <= s then "&" + Unescape(s[5..])
    else if "&lt;" <= s then "<" + Unescape(s[4..])
    else if "&gt;" <= s then ">" + Unescape(s[4..])
    else if "&quot;" <= s then "\"" + Unescape(s[6..])
    else if "&#039;" <= s then "'" + Unescape(s[6..])
    else if "&#x2F;" <= s then "/" + Unescape(s[6..])
    else if "&#96;" <= s then "`" + Unescape(s[5..])
    else [s[0]] + Unescape(s[1..])
  }

  lemma Starts(prefix: string, rest: string)
    ensures prefix <= prefix + rest && (prefix + rest)[|prefix|..] == rest
    ensures forall i :: 0 <= i < |prefix| ==> (prefix + rest)[i] == prefix[i]
  {
  }

  lemma UnescapeEntity(c: char, rest: string)
    ensures Unescape(Entity(c) + rest) == [c] + Unescape(rest)
  {
    var s := Entity(c) + rest;
    Starts(Entity(c), rest);
    match c
    case '&' =>
    case '<' => assert s[1] == 'l';
    case '>' => assert s[1] == 'g';
    case '"' => assert s[1] == 'q';
    case '\'' => assert s[1] == '#' && s[2] == '0';
    case '/' => assert s[1] == '#' && s[2] == 'x';
    case '`' => assert s[1] == '#' && s[2] == '9';
    case _ => assert s[0] == c;
  }

  lemma {:induction false} UnescapeSubstitute(text: string)
    ensures Unescape(Substitute(text)) == text
  {
    if text != "" {
      UnescapeEntity(text[0], Substitute(text[1..]));
      UnescapeSubstitute(text[1..]);
    }
  }

  /** Escaping loses nothing: unescaping recovers the text, so different texts escape differently. */
  lemma EscapeIsInjective(text: string, other: string)
    ensures Unescape(EscapeHtmlText(text)) == text
    ensures EscapeHtmlText(text) == EscapeHtmlText(other) <==> text == other
  {
    ChainIsSubstitution(text);
    ChainIsSubstitution(other);
    UnescapeSubstitute(text);
    UnescapeSubstitute(other);
  }
}
