/** The `${VAR}` expansion of configured values, src/external_api.rs. */
module EnvExpansion {
  import opened Common
  import opened Text

  datatype ExpandError = Unclosed | InvalidName(name: string) | Unset(name: string)

  type Environment = map<string, string>

  predicate IsNameChar(c: char) {
    'a' <= c <= 'z' || 'A' <= c <= 'Z' || '0' <= c <= '9' || c == '_'
  }

  predicate ValidName(name: string) {
    name != "" && forall i :: 0 <= i < |name| ==> IsNameChar(name[i])
  }

  /** The characters of a name, spelled out. */
  lemma NameCharacters(c: char)
    ensures IsNameChar(c) <==>
            c in "abcdefghijklmnopqrstuvwxyz" || c in "ABCDEFGHIJKLMNOPQRSTUVWXYZ" || c in "0123456789" || c == '_'
  {
    Alphabet(c, 'a', "abcdefghijklmnopqrstuvwxyz");
    Alphabet(c, 'A', "ABCDEFGHIJKLMNOPQRSTUVWXYZ");
    Alphabet(c, '0', "0123456789");
  }

  /** A run of consecutive characters. */
  lemma Alphabet(c: char, first: char, letters: string)
    requires letters != "" && first as int + |letters| <= 0x80
    requires forall i :: 0 <= i < |letters| ==> letters[i] as int == first as int + i
    ensures c in letters <==> first as int <= c as int < first as int + |letters|
  {
    if first as int <= c as int < first as int + |letters| {
      assert letters[c as int - first as int] == c;
    }
  }

  /** Puts already expanded text in front of a result. */
  function Prepend(prefix: string, r: Result<string, ExpandError>): Result<string, ExpandError> {
    match r
    case Ok(s) => Ok(prefix + s)
    case Err(e) => Err(e)
  }

  function Expand(value: string, env: Environment): Result<string, ExpandError>
    decreases |value|
  {
    match Find(value, "${")
    case None => Ok(value)
    case Some(start) =>
      var after := value[start + 2..];
      match Find(after, "}")
      case None => Err(Unclosed)
      case Some(end) =>
        var name := after[..end];
        if !ValidName(name) then Err(InvalidName(name))
        else if name !in env then Err(Unset(name))
        else Prepend(value[..start] + env[name], Expand(after[end + 1..], env))
  }

  method ExpandEnv(value: string, env: Environment) returns (r: Result<string, ExpandError>)
    ensures r == Expand(value, env)
  {
    var expanded := "";
    var rest := value;
    var start := Find(rest, "${");
    PrependNothing(Expand(rest, env));
    while start.Some?
      invariant start == Find(rest, "${")
      invariant Expand(value, env) == Prepend(expanded, Expand(rest, env))
      decreases |rest|
    {
      ghost var before, was := expanded, rest;
      expanded := expanded + rest[..start.value];
      var after := rest[start.value + 2..];
      var end := Find(after, "}");
      if end.None? {
        return Err(Unclosed);
      }
      var name := after[..end.value];
      if !ValidName(name) {
        return Err(InvalidName(name));
      }
      if name !in env {
        return Err(Unset(name));
      }
      expanded := expanded + env[name];
      rest := after[end.value + 1..];
      PrependTwice(before, was[..start.value] + env[name], Expand(rest, env));
      assert expanded == before + (was[..start.value] + env[name]);
      start := Find(rest, "${");
    }
    expanded := expanded + rest;
    r := Ok(expanded);
  }

  lemma PrependNothing(r: Result<string, ExpandError>)
    ensures Prepend("", r) == r
  {
    if r.Ok? {
      assert "" + r.value == r.value;
    }
  }

  lemma PrependTwice(a: string, b: string, r: Result<string, ExpandError>)
    ensures Prepend(a, Prepend(b, r)) == Prepend(a + b, r)
  {
    if r.Ok? {
      assert a + (b + r.value) == (a + b) + r.value;
    }
  }

  // ---------------------------------------------------------------------
  // The grammar: literals alternating with references
  // ---------------------------------------------------------------------

  /** A literal and the reference behind it. */
  datatype Reference = Reference(literal: string, name: string)

  function Written(references: seq<Reference>, tail: string): string {
    if references == [] then tail
    else references[0].literal + "${" + references[0].name + "}" + Written(references[1..], tail)
  }

  predicate Resolvable(references: seq<Reference>, env: Environment) {
    forall i :: 0 <= i < |references| ==>
      && !Contains(references[i].literal, "${")
      && ValidName(references[i].name)
      && references[i].name in env
  }

  /** The literals and the values in order; values are taken as they are. */
  function Values(references: seq<Reference>, env: Environment): string
    requires Resolvable(references, env)
  {
    if references == [] then ""
    else references[0].literal + env[references[0].name] + Values(references[1..], env)
  }

  lemma Regroup(a: string, b: string, c: string, d: string, e: string)
    ensures a + b + c + d + e == a + b + (c + d + e)
  {
  }

  /** What expanding the text of one reference comes to, good or bad. */
  lemma ExpandsReference(literal: string, name: string, rest: string, env: Environment)
    requires !Contains(literal, "${") && '}' !in name
    ensures Expand(literal + "${" + name + "}" + rest, env)
         == if !ValidName(name) then Err(InvalidName(name))
            else if name !in env then Err(Unset(name))
            else Prepend(literal + env[name], Expand(rest, env))
  {
    var after := name + "}" + rest;
    Regroup(literal, "${", name, "}", rest);
    FindsFirst(literal, "${", after);
    NotContained(name, "}", '}');
    FindsFirst(name, "}", rest);
  }

  /** Expansion works through resolvable references and goes on behind them. */
  lemma {:induction false} ExpandsReferences(references: seq<Reference>, tail: string, env: Environment)
    requires Resolvable(references, env)
    ensures Expand(Written(references, tail), env) == Prepend(Values(references, env), Expand(tail, env))
  {
    if references == [] {
      PrependNothing(Expand(tail, env));
    } else {
      var first, rest := references[0], references[1..];
      ExpandsReference(first.literal, first.name, Written(rest, tail), env);
      ExpandsReferences(rest, tail, env);
      PrependTwice(first.literal + env[first.name], Values(rest, env), Expand(tail, env));
    }
  }

  /** The first reference of a value, cut out, and where it leaves the expansion. */
  lemma CutsFirstReference(value: string) returns (literal: string, after: string)
    requires Contains(value, "${")
    ensures value == literal + "${" + after && !Contains(literal, "${")
    ensures Find(value, "${") == Some(|literal|) && value[|literal| + 2..] == after
  {
    var start := Find(value, "${").value;
    FindCuts(value, "${", start);
    literal, after := value[..start], value[start + 2..];
  }

  lemma CutsName(after: string) returns (name: string, rest: string)
    requires Contains(after, "}")
    ensures after == name + "}" + rest && '}' !in name
  {
    var end := Find(after, "}").value;
    FindCuts(after, "}", end);
    name, rest := after[..end], after[end + 1..];
    ContainedCharacter(name, '}');
  }

  /** How far expansion gets: all resolvable references, and what is left. */
  lemma {:induction false} Reads(value: string, env: Environment)
    returns (references: seq<Reference>, tail: string, error: ExpandError)
    ensures Resolvable(references, env) && Written(references, tail) == value
    ensures Contains(tail, "${") ==> Stuck(tail, error, env)
    decreases |value|
  {
    references, tail, error := [], value, Unclosed;
    if Contains(value, "${") {
      var literal, after := CutsFirstReference(value);
      if Contains(after, "}") {
        var name, rest := CutsName(after);
        if ValidName(name) && name in env {
          var others;
          others, tail, error := Reads(rest, env);
          references := [Reference(literal, name)] + others;
          WrittenCons(Reference(literal, name), others, tail);
        } else {
          error := if ValidName(name) then Unset(name) else InvalidName(name);
          assert StuckAt(value, error, env, literal, after);
        }
      } else {
        ContainedCharacter(after, '}');
        assert StuckAt(value, Unclosed, env, literal, after);
      }
    }
  }

  lemma WrittenCons(first: Reference, others: seq<Reference>, tail: string)
    ensures Written([first] + others, tail) == first.literal + "${" + (first.name + "}" + Written(others, tail))
  {
    assert ([first] + others)[1..] == others;
  }

  // ---------------------------------------------------------------------
  // What succeeds, and what every failure means
  // ---------------------------------------------------------------------

  /**
   Expansion succeeds exactly on alternations of literals free of `${` and
   well-named set variables, with the literals and values in order. The
   values are never scanned again.
   */
  lemma ExpandsExactlyTheGrammar(value: string, env: Environment, result: string)
    ensures Expand(value, env) == Ok(result)
       <==> exists references: seq<Reference>, tail: string ::
              && Written(references, tail) == value
              && Resolvable(references, env) && !Contains(tail, "${")
              && result == Values(references, env) + tail
  {
    if Expand(value, env) == Ok(result) {
      var references, tail, e := Reads(value, env);
      ExpandsReferences(references, tail, env);
      if Contains(tail, "${") {
        StuckFails(tail, e, env);
      }
    }
    forall references: seq<Reference>, tail: string
      | Written(references, tail) == value && Resolvable(references, env) && !Contains(tail, "${")
        && result == Values(references, env) + tail
      ensures Expand(value, env) == Ok(result)
    {
      ExpandsReferences(references, tail, env);
    }
  }

  /** `rest` is a literal and an opening `${` whose reference fails with `error`. */
  predicate StuckAt(rest: string, error: ExpandError, env: Environment, literal: string, after: string) {
    && rest == literal + "${" + after
    && !Contains(literal, "${")
    && match error
       case Unclosed => '}' !in after
       case InvalidName(name) => '}' !in name && name + "}" <= after && !ValidName(name)
       case Unset(name) => name + "}" <= after && ValidName(name) && name !in env
  }

  ghost predicate Stuck(rest: string, error: ExpandError, env: Environment) {
    exists literal: string, after: string :: StuckAt(rest, error, env, literal, after)
  }

  lemma StuckFails(rest: string, error: ExpandError, env: Environment)
    requires Stuck(rest, error, env)
    ensures Expand(rest, env) == Err(error)
  {
    var literal, after :| StuckAt(rest, error, env, literal, after);
    if error.Unclosed? {
      FindsFirst(literal, "${", after);
      NotContained(after, "}", '}');
    } else {
      var name := error.name;
      assert '}' !in name;
      assert after == name + "}" + after[|name| + 1..];
      ExpandsReference(literal, name, after[|name| + 1..], env);
      assert rest == literal + "${" + name + "}" + after[|name| + 1..];
    }
  }

  /** Expansion fails exactly when the first reference that cannot be resolved fails, for that reason. */
  lemma FailsExactlyAtTheFirstBadReference(value: string, env: Environment, error: ExpandError)
    ensures Expand(value, env) == Err(error)
       <==> exists references: seq<Reference>, rest: string ::
              Written(references, rest) == value && Resolvable(references, env) && Stuck(rest, error, env)
  {
    if Expand(value, env) == Err(error) {
      var references, tail, e := Reads(value, env);
      ExpandsReferences(references, tail, env);
      if Contains(tail, "${") {
        StuckFails(tail, e, env);
      }
    }
    forall references: seq<Reference>, rest: string
      | Written(references, rest) == value && Resolvable(references, env) && Stuck(rest, error, env)
      ensures Expand(value, env) == Err(error)
    {
      StuckFails(rest, error, env);
      ExpandsReferences(references, rest, env);
    }
  }
}
