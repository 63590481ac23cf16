/** String operations of the Rust and JavaScript standard libraries that the components share. */
module Text {
  import opened Common

  // ---------------------------------------------------------------------
  // Searching
  // ---------------------------------------------------------------------

  /** `pattern` occurs in `s` at index `i`. */
  predicate OccursAt(s: string, pattern: string, i: nat) {
    i + |pattern| <= |s| && s[i..i + |pattern|] == pattern
  }

  /** The first occurrence of `pattern`. */
  function Find(s: string, pattern: string): (r: Option<nat>)
    ensures r.Some? ==> r.value + |pattern| <= |s|
  {
    FindFrom(s, pattern, 0)
  }

  function FindFrom(s: string, pattern: string, from: nat): (r: Option<nat>)
    requires from <= |s|
    ensures r.Some? ==> r.value + |pattern| <= |s|
    decreases |s| - from
  {
    if OccursAt(s, pattern, from) then Some(from)
    else if from < |s| then FindFrom(s, pattern, from + 1)
    else None
  }

  ghost predicate NowhereIn(s: string, pattern: string, low: nat, high: nat) {
    forall j: nat :: low <= j < high ==> !OccursAt(s, pattern, j)
  }

  lemma {:induction false} FindFromIsFirst(s: string, pattern: string, from: nat)
    requires from <= |s|
    ensures match FindFrom(s, pattern, from)
            case Some(i) => from <= i && OccursAt(s, pattern, i) && NowhereIn(s, pattern, from, i)
            case None => NowhereIn(s, pattern, from, |s| + 1)
    decreases |s| - from
  {
    if !OccursAt(s, pattern, from) && from < |s| {
      FindFromIsFirst(s, pattern, from + 1);
    }
  }

  /** The search answers the first occurrence, and none only when there is none. */
  lemma FindIsFirst(s: string, pattern: string)
    ensures match Find(s, pattern)
            case Some(i) => OccursAt(s, pattern, i) && NowhereIn(s, pattern, 0, i)
            case None => forall j: nat :: !OccursAt(s, pattern, j)
  {
    FindFromIsFirst(s, pattern, 0);
    if Find(s, pattern).None? {
      forall j: nat ensures !OccursAt(s, pattern, j) {
        if j <= |s| {
          assert NowhereIn(s, pattern, 0, |s| + 1);
        }
      }
    }
  }

  predicate Contains(s: string, pattern: string) {
    Find(s, pattern).Some?
  }

  lemma ContainsIs(s: string, pattern: string)
    ensures Contains(s, pattern) <==> exists j: nat :: OccursAt(s, pattern, j)
  {
    FindIsFirst(s, pattern);
  }

  /** A first occurrence is determined by what is in front of it. */
  lemma FindIs(s: string, pattern: string, i: nat)
    requires OccursAt(s, pattern, i) && NowhereIn(s, pattern, 0, i)
    ensures Find(s, pattern) == Some(i)
  {
    FindIsFirst(s, pattern);
  }

  lemma OccursInPrefix(a: string, b: string, pattern: string, i: nat)
    requires i + |pattern| <= |a|
    ensures OccursAt(a + b, pattern, i) == OccursAt(a, pattern, i)
  {
    assert (a + b)[i..i + |pattern|] == a[i..i + |pattern|];
  }

  lemma OccursInSuffix(a: string, b: string, pattern: string, i: nat)
    ensures OccursAt(a + b, pattern, |a| + i) == OccursAt(b, pattern, i)
  {
    if i + |pattern| <= |b| {
      assert (a + b)[|a| + i..|a| + i + |pattern|] == b[i..i + |pattern|];
    }
  }

  /** A pattern whose first character comes back nowhere in it cannot overlap itself. */
  predicate OpensOnce(pattern: string) {
    pattern != "" && forall k :: 0 < k < |pattern| ==> pattern[k] != pattern[0]
  }

  /** Behind text that is free of the pattern, its first occurrence is the one put there. */
  lemma FindsFirst(before: string, pattern: string, after: string)
    requires OpensOnce(pattern) && !Contains(before, pattern)
    ensures Find(before + pattern + after, pattern) == Some(|before|)
    ensures (before + pattern + after)[..|before|] == before
    ensures (before + pattern + after)[|before| + |pattern|..] == after
  {
    var s := before + pattern + after;
    assert s[|before|..|before| + |pattern|] == pattern;
    ContainsIs(before, pattern);
    forall j: nat | j < |before| ensures !OccursAt(s, pattern, j) {
      assert !OccursAt(before, pattern, j);
      if j + |pattern| <= |before| {
        assert s[j..j + |pattern|] == before[j..j + |pattern|];
      } else if j + |pattern| <= |s| {
        assert s[j..j + |pattern|][|before| - j] == pattern[0];
      }
    }
    FindIs(s, pattern, |before|);
  }

  /** What a first occurrence cuts a string into. */
  lemma FindCuts(s: string, pattern: string, i: nat)
    requires Find(s, pattern) == Some(i) && pattern != ""
    ensures s == s[..i] + pattern + s[i + |pattern|..]
    ensures !Contains(s[..i], pattern)
  {
    FindIsFirst(s, pattern);
    ContainsIs(s[..i], pattern);
    forall j: nat ensures !OccursAt(s[..i], pattern, j) {
      if j + |pattern| <= i {
        assert s[..i][j..j + |pattern|] == s[j..j + |pattern|];
        assert !OccursAt(s, pattern, j);
      }
    }
  }

  lemma NotContained(s: string, pattern: string, c: char)
    requires c in pattern && c !in s
    ensures !Contains(s, pattern)
  {
    ContainsIs(s, pattern);
    var k :| 0 <= k < |pattern| && pattern[k] == c;
    forall j: nat ensures !OccursAt(s, pattern, j) {
      if j + |pattern| <= |s| {
        assert s[j..j + |pattern|][k] == s[j + k];
      }
    }
  }

  lemma ContainedCharacter(s: string, c: char)
    requires !Contains(s, [c])
    ensures c !in s
  {
    ContainsIs(s, [c]);
    forall j: nat | j < |s| ensures s[j] != c {
      assert !OccursAt(s, [c], j);
      assert s[j..j + 1] == [s[j]];
    }
  }

  lemma SliceOfSlice(s: string, low: nat, high: nat, i: nat, j: nat)
    requires low <= high <= |s| && i <= j <= high - low
    ensures s[low..high][i..j] == s[low + i..low + j]
  {
    var part, slice := s[low..high], s[low + i..low + j];
    forall k | 0 <= k < j - i ensures part[i..j][k] == slice[k] {
      assert part[i + k] == s[low + (i + k)];
    }
  }

  /** No part of a string contains what the string does not. */
  lemma PartsContainNoMore(s: string, low: nat, high: nat, pattern: string)
    requires low <= high <= |s| && !Contains(s, pattern)
    ensures !Contains(s[low..high], pattern)
  {
    ContainsIs(s, pattern);
    ContainsIs(s[low..high], pattern);
    forall j: nat ensures !OccursAt(s[low..high], pattern, j) {
      if j + |pattern| <= high - low {
        SliceOfSlice(s, low, high, j, j + |pattern|);
        assert !OccursAt(s, pattern, low + j);
      }
    }
  }

  lemma NotAcross(before: string, pattern: string, rest: string, j: nat)
    requires pattern != "" && !Contains(before, pattern) && j < |before|
    requires before[|before| - 1] !in pattern
    ensures !OccursAt(before + rest, pattern, j)
  {
    var s := before + rest;
    ContainsIs(before, pattern);
    assert !OccursAt(before, pattern, j);
    if j + |pattern| <= |before| {
      OccursInPrefix(before, rest, pattern, j);
    } else if j + |pattern| <= |s| {
      assert s[j..j + |pattern|][|before| - 1 - j] == before[|before| - 1];
    }
  }

  /** Text that is free of the pattern, and ends in a character foreign to it, is skipped. */
  lemma FindSkips(before: string, pattern: string, rest: string)
    requires pattern != "" && !Contains(before, pattern)
    requires before == "" || before[|before| - 1] !in pattern
    ensures Find(before + rest, pattern)
         == match Find(rest, pattern) case None => None case Some(i) => Some(|before| + i)
  {
    var s := before + rest;
    FindIsFirst(rest, pattern);
    FindIsFirst(s, pattern);
    forall j: nat | j < |before| ensures !OccursAt(s, pattern, j) {
      NotAcross(before, pattern, rest, j);
    }
    forall j: nat | |before| <= j ensures OccursAt(s, pattern, j) == OccursAt(rest, pattern, j - |before|) {
      OccursInSuffix(before, rest, pattern, j - |before|);
    }
    if Find(rest, pattern).Some? {
      var i := Find(rest, pattern).value;
      assert OccursAt(s, pattern, |before| + i);
      FindIs(s, pattern, |before| + i);
    }
  }

  // ---------------------------------------------------------------------
  // Splitting at a separator character
  // ---------------------------------------------------------------------

  /** Rust's `split`: the pieces between the separators, at least one. */
  function Split(s: string, separator: char): (pieces: seq<string>)
    ensures pieces != []
    ensures forall i :: 0 <= i < |pieces| ==> separator !in pieces[i]
    ensures Join(pieces, separator) == s
  {
    if s == "" then [""]
    else
      var rest := Split(s[1..], separator);
      if s[0] == separator then
        assert Join([""] + rest, separator) == s by {
          assert ([""] + rest)[1..] == rest;
        }
        [""] + rest
      else
        assert Join([[s[0]] + rest[0]] + rest[1..], separator) == s by {
          assert ([[s[0]] + rest[0]] + rest[1..])[1..] == rest[1..];
          assert s == [s[0]] + s[1..];
        }
        [[s[0]] + rest[0]] + rest[1..]
  }

  function Join(pieces: seq<string>, separator: char): string
    requires pieces != []
  {
    if |pieces| == 1 then pieces[0] else pieces[0] + [separator] + Join(pieces[1..], separator)
  }

  /** Splitting is the only way to read a joined string back. */
  lemma {:induction false} SplitJoin(pieces: seq<string>, separator: char)
    requires pieces != []
    requires forall i :: 0 <= i < |pieces| ==> separator !in pieces[i]
    ensures Split(Join(pieces, separator), separator) == pieces
    decreases |pieces|, |pieces[0]|
  {
    var s := Join(pieces, separator);
    if pieces[0] == "" {
      if |pieces| > 1 {
        SplitJoin(pieces[1..], separator);
        assert s[1..] == Join(pieces[1..], separator);
      }
    } else {
      var shorter := [pieces[0][1..]] + pieces[1..];
      assert s[1..] == Join(shorter, separator) by {
        assert shorter[1..] == pieces[1..];
      }
      SplitJoin(shorter, separator);
      assert s[0] == pieces[0][0];
      assert [s[0]] + shorter[0] == pieces[0];
      assert [[s[0]] + shorter[0]] + shorter[1..] == pieces;
    }
  }

  // ---------------------------------------------------------------------
  // White space and letter case
  // ---------------------------------------------------------------------

  /** Whose white space: Rust's `trim` or JavaScript's. */
  datatype Language = Rust | JavaScript

  /** The Unicode White_Space property, which Rust's `trim` removes. */
  predicate IsWhitespace(c: char) {
    var u := c as int;
    || 0x9 <= u <= 0xD || u == 0x20 || u == 0x85 || u == 0xA0 || u == 0x1680
    || 0x2000 <= u <= 0x200A || u == 0x2028 || u == 0x2029 || u == 0x202F || u == 0x205F || u == 0x3000
  }

  /** ECMAScript white space leaves out U+0085 and adds the byte order mark. */
  predicate IsSpace(c: char, l: Language) {
    if l == Rust then IsWhitespace(c) else (IsWhitespace(c) && c as int != 0x85) || c as int == 0xFEFF
  }

  function TrimStart(s: string, l: Language): string {
    if s != "" && IsSpace(s[0], l) then TrimStart(s[1..], l) else s
  }

  function TrimEnd(s: string, l: Language): string {
    if s != "" && IsSpace(s[|s| - 1], l) then TrimEnd(s[..|s| - 1], l) else s
  }

  function TrimIn(s: string, l: Language): string {
    TrimEnd(TrimStart(s, l), l)
  }

  function Trim(s: string): string {
    TrimIn(s, Rust)
  }

  function ToLower(c: char): char {
    if 'A' <= c <= 'Z' then (c as int + 32) as char else c
  }

  /** Rust's `to_ascii_lowercase`. */
  function Lowercase(s: string): (r: string)
    ensures |r| == |s|
  {
    if s == "" then "" else [ToLower(s[0])] + Lowercase(s[1..])
  }

  /** The white space of the two languages, spelled out. */
  lemma SpaceCharacters(c: char)
    ensures var blank := "\t\n\r \U{B}\U{C}\U{A0}\U{1680}\U{2028}\U{2029}\U{202F}\U{205F}\U{3000}";
            var width := "\U{2000}\U{2001}\U{2002}\U{2003}\U{2004}\U{2005}\U{2006}\U{2007}\U{2008}\U{2009}\U{200A}";
            && (IsSpace(c, Rust) <==> c in blank || c in width || c == '\U{85}')
            && (IsSpace(c, JavaScript) <==> c in blank || c in width || c == '\U{FEFF}')
  {
  }

  predicate AllSpace(s: string, l: Language) {
    forall i :: 0 <= i < |s| ==> IsSpace(s[i], l)
  }

  /** `x`, at `low`, is `s` without the white space at its ends. */
  predicate IsTrimmed(s: string, x: string, low: nat, l: Language) {
    && low + |x| <= |s| && x == s[low..low + |x|]
    && AllSpace(s[..low], l) && AllSpace(s[low + |x|..], l)
    && (x != "" ==> !IsSpace(x[0], l) && !IsSpace(x[|x| - 1], l))
  }

  lemma {:induction false} TrimStartDrops(space: string, s: string, l: Language)
    requires AllSpace(space, l) && (s != "" ==> !IsSpace(s[0], l))
    ensures TrimStart(space + s, l) == s
  {
    if space == "" {
      assert space + s == s;
    } else {
      TrimStartDrops(space[1..], s, l);
      assert (space + s)[1..] == space[1..] + s;
    }
  }

  lemma {:induction false} TrimEndDrops(s: string, space: string, l: Language)
    requires AllSpace(space, l) && (s != "" ==> !IsSpace(s[|s| - 1], l))
    ensures TrimEnd(s + space, l) == s
    decreases |space|
  {
    if space == "" {
      assert s + space == s;
    } else {
      TrimEndDrops(s, space[..|space| - 1], l);
      assert (s + space)[..|s + space| - 1] == s + space[..|space| - 1];
    }
  }

  /** Trimming takes exactly the white space at the ends. */
  lemma TrimIs(s: string, x: string, low: nat, l: Language)
    requires IsTrimmed(s, x, low, l)
    ensures TrimIn(s, l) == x
  {
    var front, back := s[..low], s[low + |x|..];
    assert s == front + (x + back);
    if x == "" {
      TrimStartDrops(s, "", l);
      assert s + "" == s;
    } else {
      TrimStartDrops(front, x + back, l);
      TrimEndDrops(x, back, l);
    }
  }

  lemma {:induction false} LowercaseAt(s: string, i: nat)
    requires i < |s|
    ensures Lowercase(s)[i] == ToLower(s[i])
  {
    if i > 0 {
      LowercaseAt(s[1..], i - 1);
    }
  }

  /** Lowercasing is what it does to each character. */
  lemma {:induction false} LowercaseIs(s: string, t: string)
    requires |t| == |s| && forall i :: 0 <= i < |s| ==> t[i] == ToLower(s[i])
    ensures Lowercase(s) == t
  {
    if s != "" {
      LowercaseIs(s[1..], t[1..]);
      assert t == [t[0]] + t[1..];
    }
  }

  lemma LowercaseSlice(s: string, low: nat, high: nat)
    requires low <= high <= |s|
    ensures Lowercase(s[low..high]) == Lowercase(s)[low..high]
  {
    var part, t := s[low..high], Lowercase(s)[low..high];
    forall i | 0 <= i < |part| ensures t[i] == ToLower(part[i]) {
      LowercaseAt(s, low + i);
    }
    LowercaseIs(part, t);
  }

  lemma LowercaseTwice(s: string)
    ensures Lowercase(Lowercase(s)) == Lowercase(s)
  {
    var t := Lowercase(s);
    forall i | 0 <= i < |t| ensures t[i] == ToLower(t[i]) {
      LowercaseAt(s, i);
    }
    LowercaseIs(t, t);
  }

  /** Neither end is white space. */
  predicate IsTight(s: string) {
    s != "" ==> !IsWhitespace(s[0]) && !IsWhitespace(s[|s| - 1])
  }

  lemma {:induction false} TrimStartSuffix(s: string)
    ensures |TrimStart(s, Rust)| <= |s|
    ensures TrimStart(s, Rust) == s[|s| - |TrimStart(s, Rust)|..]
    ensures var r := TrimStart(s, Rust); r != "" ==> !IsWhitespace(r[0])
  {
    if s != "" && IsSpace(s[0], Rust) {
      TrimStartSuffix(s[1..]);
    }
  }

  lemma {:induction false} TrimEndPrefix(s: string)
    ensures |TrimEnd(s, Rust)| <= |s|
    ensures TrimEnd(s, Rust) == s[..|TrimEnd(s, Rust)|]
    ensures var r := TrimEnd(s, Rust); r != "" ==> !IsWhitespace(r[|r| - 1])
  {
    if s != "" && IsSpace(s[|s| - 1], Rust) {
      TrimEndPrefix(s[..|s| - 1]);
    }
  }

  /** Trimming takes a part of the string whose ends are not white space. */
  lemma TrimShape(s: string)
    ensures IsTight(Trim(s))
    ensures |Trim(s)| <= |TrimStart(s, Rust)| <= |s|
    ensures var low := |s| - |TrimStart(s, Rust)|; Trim(s) == s[low..low + |Trim(s)|]
  {
    var start := TrimStart(s, Rust);
    TrimStartSuffix(s);
    TrimEndPrefix(start);
    PrefixOfSuffix(s, start, TrimEnd(start, Rust));
  }

  lemma PrefixOfSuffix(s: string, suffix: string, part: string)
    requires |suffix| <= |s| && suffix == s[|s| - |suffix|..]
    requires |part| <= |suffix| && part == suffix[..|part|]
    ensures part == s[|s| - |suffix|..|s| - |suffix| + |part|]
    ensures part != "" ==> part[0] == suffix[0]
  {
  }

  lemma TrimmedIsTight(s: string)
    ensures IsTight(s) <==> Trim(s) == s
  {
    TrimShape(s);
  }

  lemma {:induction false} TrimStartFoldsCase(s: string)
    ensures TrimStart(Lowercase(s), Rust) == Lowercase(TrimStart(s, Rust))
  {
    if s != "" && IsSpace(s[0], Rust) {
      TrimStartFoldsCase(s[1..]);
    }
  }

  lemma TrimEndStep(s: string)
    ensures s != "" && IsWhitespace(s[|s| - 1]) ==> TrimEnd(s, Rust) == TrimEnd(s[..|s| - 1], Rust)
    ensures s == "" || !IsWhitespace(s[|s| - 1]) ==> TrimEnd(s, Rust) == s
  {
  }

  /** What lowercasing makes of the last character and of the text in front of it. */
  lemma LowercaseLast(s: string)
    requires s != ""
    ensures IsWhitespace(Lowercase(s)[|s| - 1]) == IsWhitespace(s[|s| - 1])
    ensures Lowercase(s)[..|s| - 1] == Lowercase(s[..|s| - 1])
  {
    LowercaseAt(s, |s| - 1);
    LowercaseSlice(s, 0, |s| - 1);
    assert s[0..|s| - 1] == s[..|s| - 1];
  }

  lemma {:induction false} TrimEndFoldsCase(s: string)
    ensures TrimEnd(Lowercase(s), Rust) == Lowercase(TrimEnd(s, Rust))
  {
    TrimEndStep(s);
    TrimEndStep(Lowercase(s));
    if s != "" {
      LowercaseLast(s);
      if IsWhitespace(s[|s| - 1]) {
        TrimEndFoldsCase(s[..|s| - 1]);
      }
    }
  }

  lemma TrimFoldsCase(s: string)
    ensures Trim(Lowercase(s)) == Lowercase(Trim(s))
  {
    TrimStartFoldsCase(s);
    TrimEndFoldsCase(TrimStart(s, Rust));
  }

  // ---------------------------------------------------------------------
  // Decimal integers
  // ---------------------------------------------------------------------

  predicate IsDigit(c: char) {
    '0' <= c <= '9'
  }

  predicate AllDigits(s: string) {
    forall i :: 0 <= i < |s| ==> IsDigit(s[i])
  }

  function DigitsValue(s: string): nat
    requires AllDigits(s)
  {
    if s == "" then 0
    else 10 * DigitsValue(s[..|s| - 1]) + (s[|s| - 1] as int - '0' as int)
  }

  /**
   Rust's integer `parse`: an optional `+` (and, for signed types, `-`), then
   at least one digit and nothing else, with a value in `[low, high]`.
   */
  function ParseInteger(s: string, signed: bool, low: int, high: int): Option<int> {
    var negative := signed && s != "" && s[0] == '-';
    var digits := if s != "" && (s[0] == '+' || negative) then s[1..] else s;
    if digits == "" || !AllDigits(digits) then None
    else
      var value := if negative then 0 - DigitsValue(digits) else DigitsValue(digits);
      if low <= value <= high then Some(value) else None
  }

  function ParseI64(s: string): Option<int> {
    ParseInteger(s, true, -0x8000_0000_0000_0000, 0x7FFF_FFFF_FFFF_FFFF)
  }

  function ParseU32(s: string): Option<int> {
    ParseInteger(s, false, 0, 0xFFFF_FFFF)
  }

  function ParseU8(s: string): Option<int> {
    ParseInteger(s, false, 0, 0xFF)
  }

  function DigitChar(d: int): (c: char)
    requires 0 <= d < 10
    ensures IsDigit(c) && c as int - '0' as int == d
  {
    ('0' as int + d) as char
  }

  function Decimal(n: nat): (s: string)
    ensures s != "" && AllDigits(s)
  {
    if n < 10 then [DigitChar(n)] else Decimal(n / 10) + [DigitChar(n % 10)]
  }

  function Zeros(n: nat): (s: string)
    ensures |s| == n && AllDigits(s)
  {
    if n == 0 then "" else "0" + Zeros(n - 1)
  }

  /** Rust's `{:0width}`: zeros between the sign and the digits, up to the width. */
  function Padded(n: int, width: nat): string {
    var sign := if n < 0 then "-" else "";
    var digits := Decimal(if n < 0 then -n else n);
    var filled := |sign| + |digits|;
    sign + Zeros(if filled < width then width - filled else 0) + digits
  }

  lemma {:induction false} DecimalValue(n: nat)
    ensures DigitsValue(Decimal(n)) == n
  {
    if n < 10 {
      var s := Decimal(n);
      assert s[..|s| - 1] == "";
    } else {
      var s := Decimal(n);
      DecimalValue(n / 10);
      assert s[..|s| - 1] == Decimal(n / 10);
    }
  }

  lemma {:induction false} LeadingZerosAddNothing(n: nat, digits: string)
    requires AllDigits(digits)
    ensures AllDigits(Zeros(n) + digits) && DigitsValue(Zeros(n) + digits) == DigitsValue(digits)
    decreases |digits|, n
  {
    var s := Zeros(n) + digits;
    if digits != "" {
      var shorter := digits[..|digits| - 1];
      LeadingZerosAddNothing(n, shorter);
      assert s[..|s| - 1] == Zeros(n) + shorter;
    } else if n > 0 {
      LeadingZerosAddNothing(n - 1, "");
      ZerosEndInZero(n);
      assert s[..|s| - 1] == Zeros(n - 1) + "";
    }
  }

  lemma {:induction false} ZerosEndInZero(n: nat)
    requires n > 0
    ensures Zeros(n) == Zeros(n - 1) + "0"
  {
    if n > 1 {
      ZerosEndInZero(n - 1);
    }
  }

  /** What `{:0width}` prints of a non-negative number, the integer parsers read back. */
  lemma PaddedParsesBack(n: nat, width: nat, signed: bool, low: int, high: int)
    requires low <= n <= high
    ensures ParseInteger(Padded(n, width), signed, low, high) == Some(n)
    ensures AllDigits(Padded(n, width))
  {
    var digits := Decimal(n);
    var zeros := if |digits| < width then width - |digits| else 0;
    assert Padded(n, width) == Zeros(zeros) + digits;
    LeadingZerosAddNothing(zeros, digits);
    DecimalValue(n);
  }

  /** A string that parses as an integer has no characters but digits and one leading sign. */
  lemma ParsedCharacters(s: string, signed: bool, low: int, high: int)
    requires ParseInteger(s, signed, low, high).Some?
    ensures s != "" && forall i :: 0 <= i < |s| ==> IsDigit(s[i]) || s[i] == '+' || (signed && s[i] == '-')
  {
    if !IsDigit(s[0]) {
      assert forall i :: 1 <= i < |s| ==> s[i] == s[1..][i - 1];
    }
  }

  /** Every string of digits is the decimal form of its value behind some zeros. */
  lemma {:induction false} DigitsAreDecimal(digits: string) returns (zeros: nat)
    requires digits != "" && AllDigits(digits)
    ensures digits == Zeros(zeros) + Decimal(DigitsValue(digits))
    decreases |digits|
  {
    var init, c := digits[..|digits| - 1], digits[|digits| - 1];
    var d := c as int - '0' as int;
    assert DigitChar(d) == c && digits == init + [c];
    if init == "" {
      zeros := 0;
    } else {
      zeros := DigitsAreDecimal(init);
      if DigitsValue(init) == 0 {
        zeros := zeros + 1;
        OneMoreZero(zeros - 1);
        assert Decimal(0) == "0" && init == Zeros(zeros);
      } else {
        assert Decimal(DigitsValue(digits)) == Decimal(DigitsValue(init)) + [c];
      }
    }
  }

  lemma {:induction false} OneMoreZero(n: nat)
    ensures Zeros(n + 1) == Zeros(n) + "0"
  {
    if n > 0 {
      OneMoreZero(n - 1);
    }
  }

  /** What the parser makes of digits behind a sign, or behind none. */
  lemma ParsesSigned(s: string, sign: string, digits: string, signed: bool, low: int, high: int)
    requires digits != "" && AllDigits(digits) && s == sign + digits
    requires sign in {"", "+"} || (sign == "-" && signed)
    ensures var value := if sign == "-" then 0 - DigitsValue(digits) else DigitsValue(digits);
            ParseInteger(s, signed, low, high) == if low <= value <= high then Some(value) else None
  {
    assert IsDigit(digits[0]);
    if sign == "" {
      assert s == digits;
    } else {
      assert s[0] == sign[0] && s[1..] == digits;
    }
  }

  /** Anything the parser takes is a sign, or none, and digits. */
  lemma ParsedIsSigned(s: string, signed: bool, low: int, high: int) returns (sign: string, digits: string)
    requires ParseInteger(s, signed, low, high).Some?
    ensures digits != "" && AllDigits(digits) && s == sign + digits
    ensures sign in {"", "+"} || (sign == "-" && signed)
  {
    if s[0] == '+' || (signed && s[0] == '-') {
      sign, digits := [s[0]], s[1..];
    } else {
      sign, digits := "", s;
    }
  }

  /**
   An integer as the parser takes it: a plus sign, or a minus sign if the type
   is signed, or none; zeros; and the digits of its size.
   */
  predicate Spells(s: string, sign: string, zeros: nat, size: nat, signed: bool, value: int) {
    && s == sign + (Zeros(zeros) + Decimal(size))
    && ((sign in {"", "+"} && value == size) || (sign == "-" && signed && value + size == 0))
  }

  /** The parser accepts exactly the spellings of the integers in range. */
  lemma ParsesExactlyIntegers(s: string, signed: bool, low: int, high: int, value: int)
    ensures ParseInteger(s, signed, low, high) == Some(value) <==>
            low <= value <= high
            && exists sign: string, zeros: nat, size: nat :: Spells(s, sign, zeros, size, signed, value)
  {
    if ParseInteger(s, signed, low, high) == Some(value) {
      var sign, digits := ParsedIsSigned(s, signed, low, high);
      var zeros := DigitsAreDecimal(digits);
      ParsesSigned(s, sign, digits, signed, low, high);
      assert Spells(s, sign, zeros, DigitsValue(digits), signed, value);
    }
    if sign: string, zeros: nat, size: nat :| Spells(s, sign, zeros, size, signed, value) {
      DecimalValue(size);
      LeadingZerosAddNothing(zeros, Decimal(size));
      ParsesSigned(s, sign, Zeros(zeros) + Decimal(size), signed, low, high);
    }
  }
}
