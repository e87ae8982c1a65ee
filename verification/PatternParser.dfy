/**
 The two pattern parsers. Both accept exactly the spellings of the legal
 patterns, and both return the pattern that is spelled.
 */
module PatternParser {
  import opened Common
  import opened Patterns

  /** The tokens that a text spells, and whether it ends with the end anchor. */
  datatype Body = Body(tokens: seq<Token>, endAnchored: bool)

  /** The kind of token at the front of a text, and how many characters spell it. */
  function FrontKind(s: string): (r: Option<(Kind, nat)>)
    requires s != ""
    ensures r.Some? ==> 1 <= r.value.1 <= |s|
  {
    if s[0] == '\\' then
      if |s| >= 2 && s[1] in ESCAPABLE then Some((Literal(s[1]), 2)) else None
    else if s[0] == '.' then Some((Any, 1))
    else if s[0] in ESCAPABLE || s[0] in UNSUPPORTED then None
    else Some((Literal(s[0]), 1))
  }

  function Prepend(tokens: seq<Token>, body: Option<Body>): Option<Body> {
    if body.None? then None else Some(Body(tokens + body.value.tokens, body.value.endAnchored))
  }

  function DecodeBody(s: string): Option<Body>
    decreases |s|
  {
    if s == "" then Some(Body([], false))
    else if s == "$" then Some(Body([], true))
    else
      var front := FrontKind(s);
      if front.None? then None
      else
        var rest := s[front.value.1..];
        if rest != "" && rest[0] == '*' then Prepend([Token(front.value.0, true)], DecodeBody(rest[1..]))
        else Prepend([Token(front.value.0, false)], DecodeBody(rest))
  }

  function SpellBody(body: Body): string {
    SpellAll(body.tokens) + if body.endAnchored then "$" else ""
  }

  predicate LegalTokens(tokens: seq<Token>) {
    forall i :: 0 <= i < |tokens| ==> LegalToken(tokens[i])
  }

  lemma FrontKindOfSpelling(kind: Kind, rest: string)
    requires LegalToken(Token(kind, false))
    ensures var s := SpellKind(kind) + rest;
      && FrontKind(s) == Some((kind, |SpellKind(kind)|))
      && s[|SpellKind(kind)|..] == rest
      && s != "$" && s[0] != '*'
  {
  }

  lemma FrontKindIsSpelling(s: string)
    requires s != "" && FrontKind(s).Some?
    ensures var front := FrontKind(s).value;
      LegalToken(Token(front.0, false)) && s == SpellKind(front.0) + s[front.1..]
  {
  }

  lemma SpellCons(token: Token, body: Body)
    ensures SpellBody(Body([token] + body.tokens, body.endAnchored)) == Spell(token) + SpellBody(body)
  {
    assert ([token] + body.tokens)[1..] == body.tokens;
  }

  /** Whether a star follows the token at the front, and what follows both. */
  function FrontRepeated(s: string): bool
    requires s != "" && FrontKind(s).Some?
  {
    var rest := s[FrontKind(s).value.1..];
    rest != "" && rest[0] == '*'
  }

  function AfterFront(s: string): (after: string)
    requires s != "" && FrontKind(s).Some?
    ensures |after| < |s|
  {
    var rest := s[FrontKind(s).value.1..];
    if FrontRepeated(s) then rest[1..] else rest
  }

  lemma FrontIsSpelling(s: string)
    requires s != "" && FrontKind(s).Some?
    ensures var token := Token(FrontKind(s).value.0, FrontRepeated(s));
      s == Spell(token) + AfterFront(s) && LegalToken(token)
  {
    FrontKindIsSpelling(s);
    var front := FrontKind(s).value;
    var rest := s[front.1..];
    if FrontRepeated(s) {
      assert rest == "*" + AfterFront(s);
      assert SpellKind(front.0) + ("*" + AfterFront(s)) == SpellKind(front.0) + "*" + AfterFront(s);
    } else {
      assert SpellKind(front.0) + "" == SpellKind(front.0);
    }
  }

  lemma DecodeUnfolds(s: string)
    requires s != "" && s != "$"
    ensures FrontKind(s).None? ==> DecodeBody(s).None?
    ensures FrontKind(s).Some? ==>
      DecodeBody(s) == Prepend([Token(FrontKind(s).value.0, FrontRepeated(s))], DecodeBody(AfterFront(s)))
  {
  }

  lemma {:induction false} DecodeIsSpelling(s: string)
    requires DecodeBody(s).Some?
    ensures SpellBody(DecodeBody(s).value) == s && LegalTokens(DecodeBody(s).value.tokens)
    decreases |s|
  {
    if s != "" && s != "$" {
      DecodeUnfolds(s);
      FrontIsSpelling(s);
      DecodeIsSpelling(AfterFront(s));
      SpellCons(Token(FrontKind(s).value.0, FrontRepeated(s)), DecodeBody(AfterFront(s)).value);
    }
  }

  /** A spelled token in front of a text is decoded first. */
  lemma DecodeSpelled(token: Token, rest: string)
    requires LegalToken(token) && (rest == "" || rest[0] != '*')
    ensures DecodeBody(Spell(token) + rest) == Prepend([token], DecodeBody(rest))
  {
    var s := Spell(token) + rest;
    var after := (if token.repeated then "*" else "") + rest;
    assert s == SpellKind(token.kind) + after;
    FrontKindOfSpelling(token.kind, after);
    if token.repeated {
      assert after[1..] == rest;
    } else {
      assert after == rest;
    }
    DecodeUnfolds(s);
  }

  lemma SpellingStartsWithoutStar(body: Body)
    requires LegalTokens(body.tokens)
    ensures SpellBody(body) != "" ==> SpellBody(body)[0] != '*'
  {
  }

  lemma {:induction false} SpellingDecodes(body: Body)
    requires LegalTokens(body.tokens)
    ensures DecodeBody(SpellBody(body)) == Some(body)
    decreases |body.tokens|
  {
    if body.tokens != [] {
      var token, next := body.tokens[0], Body(body.tokens[1..], body.endAnchored);
      assert [token] + next.tokens == body.tokens;
      SpellCons(token, next);
      SpellingStartsWithoutStar(next);
      DecodeSpelled(token, SpellBody(next));
      SpellingDecodes(next);
    }
  }

  /** The loop's view: `tokens` are read, the last of them may still be given a star, and `rest` is left. */
  function Resume(tokens: seq<Token>, rest: string): Option<Body>
    decreases |rest|
  {
    if rest == "" then Some(Body(tokens, false))
    else if rest[0] == '*' then
      if tokens == [] || tokens[|tokens| - 1].repeated then None
      else Resume(Starred(tokens), rest[1..])
    else Prepend(tokens, DecodeBody(rest))
  }

  function Starred(tokens: seq<Token>): seq<Token>
    requires tokens != []
  {
    tokens[|tokens| - 1 := Token(tokens[|tokens| - 1].kind, true)]
  }

  lemma ResumeStart(s: string)
    ensures Resume([], s) == DecodeBody(s)
  {
    if s != "" && s[0] != '*' && DecodeBody(s).Some? {
      assert [] + DecodeBody(s).value.tokens == DecodeBody(s).value.tokens;
    }
  }

  /** Reading one token and then resuming is the same as resuming before it. */
  lemma ResumeAfterToken(tokens: seq<Token>, rest: string)
    requires rest != "" && rest != "$" && rest[0] != '*' && FrontKind(rest).Some?
    ensures var front := FrontKind(rest).value;
      Resume(tokens, rest) == Resume(tokens + [Token(front.0, false)], rest[front.1..])
  {
    var front := FrontKind(rest).value;
    var next := rest[front.1..];
    var plain := tokens + [Token(front.0, false)];
    if next == "" {
      PrependTwice(tokens, Token(front.0, false), DecodeBody(next));
      assert plain + [] == plain;
    } else if next[0] == '*' {
      var starred := tokens + [Token(front.0, true)];
      assert Starred(plain) == starred;
      var after := next[1..];
      if after == "" {
        PrependTwice(tokens, Token(front.0, true), DecodeBody(after));
        assert starred + [] == starred;
      } else if after[0] == '*' {
        assert DecodeBody(after).None?;
      } else {
        PrependTwice(tokens, Token(front.0, true), DecodeBody(after));
      }
    } else {
      PrependTwice(tokens, Token(front.0, false), DecodeBody(next));
    }
  }

  lemma PrependTwice(tokens: seq<Token>, token: Token, body: Option<Body>)
    ensures Prepend(tokens, Prepend([token], body)) == Prepend(tokens + [token], body)
  {
    if body.Some? {
      assert tokens + ([token] + body.value.tokens) == tokens + [token] + body.value.tokens;
    }
  }

  /** The pattern that a source string spells, if it spells one. */
  function Decode(source: string): Option<Pattern> {
    var startAnchored := source != "" && source[0] == '^';
    var body := DecodeBody(if startAnchored then source[1..] else source);
    if body.None? then None else Some(Pattern(startAnchored, body.value.endAnchored, body.value.tokens))
  }

  lemma PrintOfDecoded(source: string)
    requires Decode(source).Some?
    ensures Legal(Decode(source).value) && Print(Decode(source).value) == source
  {
    var pattern := Decode(source).value;
    var s := if pattern.startAnchored then source[1..] else source;
    DecodeIsSpelling(s);
    assert DecodeBody(s).value == Body(pattern.tokens, pattern.endAnchored);
    assert Print(pattern) == (if pattern.startAnchored then "^" else "") + s;
  }

  lemma DecodeOfPrinted(pattern: Pattern)
    requires Legal(pattern)
    ensures Decode(Print(pattern)) == Some(pattern)
  {
    var body := Body(pattern.tokens, pattern.endAnchored);
    var source := Print(pattern);
    assert source == (if pattern.startAnchored then "^" else "") + SpellBody(body);
    SpellingDecodes(body);
    NoSpellingStartsWithCaret(body);
    if pattern.startAnchored {
      assert source[1..] == SpellBody(body);
    } else {
      assert source == SpellBody(body);
    }
  }

  /** Decoding is the two-sided inverse of printing. */
  lemma DecodeInvertsPrint(source: string, pattern: Pattern)
    ensures Decode(source) == Some(pattern) <==> Legal(pattern) && Print(pattern) == source
  {
    if Decode(source) == Some(pattern) {
      PrintOfDecoded(source);
    }
    if Legal(pattern) && Print(pattern) == source {
      DecodeOfPrinted(pattern);
    }
  }

  function OneToken(kind: Kind, repeated: bool): Option<Pattern> {
    Some(Pattern(false, false, [Token(kind, repeated)]))
  }

  /** How the sources without a literal are read. */
  lemma SpecialSources()
    ensures Decode("") == Some(Pattern(false, false, []))
    ensures Decode("^") == Some(Pattern(true, false, [])) && Decode("$") == Some(Pattern(false, true, []))
    ensures Decode(".") == OneToken(Any, false) && Decode(".*") == OneToken(Any, true)
  {
    OneTokenSpelled(Any, false);
    OneTokenSpelled(Any, true);
    assert "^"[1..] == "" && "." + "" == ".";
  }

  /**
   How the sources with one literal are read: five characters need a backslash,
   nine are refused, and every other one stands for itself and takes none.
   */
  lemma LiteralSources(c: char)
    ensures c in "\\.*^$" ==>
      Decode(['\\', c]) == OneToken(Literal(c), false) && Decode(['\\', c, '*']) == OneToken(Literal(c), true)
    ensures c !in "\\.*^$" ==> Decode(['\\', c]) == None
    ensures c in "[](){}|+?*\\" ==> Decode([c]) == None
    ensures c !in "\\.*^$[](){}|+?" ==>
      Decode([c]) == OneToken(Literal(c), false) && Decode([c, '*']) == OneToken(Literal(c), true)
  {
    if c !in UNSUPPORTED {
      OneTokenSpelled(Literal(c), false);
      OneTokenSpelled(Literal(c), true);
      assert SpellKind(Literal(c)) + "" == SpellKind(Literal(c));
    }
  }

  lemma OneTokenSpelled(kind: Kind, repeated: bool)
    requires LegalToken(Token(kind, repeated))
    ensures Decode(SpellKind(kind) + if repeated then "*" else "") == OneToken(kind, repeated)
  {
    var pattern := Pattern(false, false, [Token(kind, repeated)]);
    assert SpellAll(pattern.tokens) == Spell(pattern.tokens[0]) + SpellAll([]) by {
      assert pattern.tokens[1..] == [];
    }
    assert Print(pattern) == SpellKind(kind) + if repeated then "*" else "";
    DecodeInvertsPrint(Print(pattern), pattern);
  }

  lemma NoSpellingStartsWithCaret(body: Body)
    requires LegalTokens(body.tokens)
    ensures SpellBody(body) != "" ==> SpellBody(body)[0] != '^'
  {
  }

  // ----- the loops -----

  /** Where the body of a source begins. */
  function BodyStart(source: string): (start: nat)
    ensures start <= |source|
  {
    if source != "" && source[0] == '^' then 1 else 0
  }

  /** Up to `index` a loop has read `tokens`, and perhaps the end anchor, and lost nothing of the source. */
  ghost predicate HasRead(source: string, index: nat, tokens: seq<Token>, endAnchored: bool)
    requires index <= |source|
  {
    DecodeBody(source[BodyStart(source)..]) == if endAnchored then Some(Body(tokens, true)) else Resume(tokens, source[index..])
  }

  lemma ReadNothing(source: string)
    ensures HasRead(source, BodyStart(source), [], false)
  {
    ResumeStart(source[BodyStart(source)..]);
  }

  lemma ReadToken(source: string, index: nat, tokens: seq<Token>, kind: Kind, length: nat)
    requires index < |source| && HasRead(source, index, tokens, false)
    requires source[index..] != "$" && source[index] != '*' && FrontKind(source[index..]) == Some((kind, length))
    ensures index + length <= |source| && HasRead(source, index + length, tokens + [Token(kind, false)], false)
  {
    ResumeAfterToken(tokens, source[index..]);
    assert source[index..][length..] == source[index + length..];
  }

  lemma ReadEscaped(source: string, index: nat, tokens: seq<Token>)
    requires index + 1 < |source| && HasRead(source, index, tokens, false)
    requires source[index] == '\\' && source[index + 1] in ESCAPABLE
    ensures HasRead(source, index + 2, tokens + [Token(Literal(source[index + 1]), false)], false)
  {
    ReadToken(source, index, tokens, Literal(source[index + 1]), 2);
  }

  lemma ReadPlain(source: string, index: nat, tokens: seq<Token>)
    requires index < |source| && HasRead(source, index, tokens, false)
    requires source[index] == '.' || (source[index] !in ESCAPABLE && source[index] !in UNSUPPORTED)
    ensures HasRead(
      source, index + 1, tokens + [Token(if source[index] == '.' then Any else Literal(source[index]), false)], false)
  {
    ReadToken(source, index, tokens, if source[index] == '.' then Any else Literal(source[index]), 1);
  }

  lemma ReadStar(source: string, index: nat, tokens: seq<Token>)
    requires index < |source| && HasRead(source, index, tokens, false) && source[index] == '*'
    requires tokens != [] && !tokens[|tokens| - 1].repeated
    ensures HasRead(source, index + 1, Starred(tokens), false)
  {
    assert source[index..][1..] == source[index + 1..];
  }

  lemma ReadEnd(source: string, index: nat, tokens: seq<Token>)
    requires index + 1 == |source| && HasRead(source, index, tokens, false) && source[index] == '$'
    ensures HasRead(source, index + 1, tokens, true)
  {
    assert source[index..] == "$" && tokens + [] == tokens;
  }

  /** Where a loop gives up, the source spells no pattern. */
  lemma ReadStuck(source: string, index: nat, tokens: seq<Token>)
    requires index < |source| && HasRead(source, index, tokens, false)
    requires
      || (source[index] == '*' && (tokens == [] || tokens[|tokens| - 1].repeated))
      || (source[index] == '\\' && (index + 1 == |source| || source[index + 1] !in ESCAPABLE))
      || source[index] == '^'
      || (source[index] == '$' && index + 1 != |source|)
      || source[index] in UNSUPPORTED
    ensures Decode(source).None?
  {
  }

  lemma ReadAll(source: string, tokens: seq<Token>, endAnchored: bool)
    requires HasRead(source, |source|, tokens, endAnchored)
    ensures Decode(source) == Some(Pattern(BodyStart(source) == 1, endAnchored, tokens))
  {
    assert source[0..] == source;
  }

  method ParseRust(source: string) returns (r: Option<Pattern>)
    ensures r == Decode(source)
  {
    var index := 0;
    var startAnchored := source != "" && source[0] == '^';
    if startAnchored {
      index := index + 1;
    }
    var endAnchored := false;
    var tokens: seq<Token> := [];
    ReadNothing(source);
    while index < |source|
      invariant index <= |source|
      invariant endAnchored ==> index == |source|
      invariant HasRead(source, index, tokens, endAnchored)
      decreases |source| - index
    {
      var character := source[index];
      if character == '$' && index + 1 == |source| {
        ReadEnd(source, index, tokens);
        endAnchored := true;
        index := index + 1;
      } else if character == '^' || character == '$' {
        ReadStuck(source, index, tokens);
        return None;
      } else if character == '\\' {
        if index + 1 == |source| || source[index + 1] !in ESCAPABLE {
          ReadStuck(source, index, tokens);
          return None;
        }
        ReadEscaped(source, index, tokens);
        tokens := tokens + [Token(Literal(source[index + 1]), false)];
        index := index + 2;
      } else if character == '*' {
        if tokens == [] || tokens[|tokens| - 1].repeated {
          ReadStuck(source, index, tokens);
          return None;
        }
        ReadStar(source, index, tokens);
        tokens := tokens[|tokens| - 1 := Token(tokens[|tokens| - 1].kind, true)];
        index := index + 1;
      } else if character in UNSUPPORTED {
        ReadStuck(source, index, tokens);
        return None;
      } else {
        ReadPlain(source, index, tokens);
        tokens := tokens + [Token(if character == '.' then Any else Literal(character), false)];
        index := index + 1;
      }
    }
    ReadAll(source, tokens, endAnchored);
    r := Some(Pattern(startAnchored, endAnchored, tokens));
  }

  method ParsePython(source: string) returns (r: Option<Pattern>)
    ensures r == Decode(source)
  {
    var tokens: seq<Token> := [];
    var startAnchored, endAnchored := false, false;
    var index := 0;
    ReadNothing(source);
    while index < |source|
      invariant index <= |source|
      invariant endAnchored ==> index == |source|
      invariant index == 0 ==> tokens == [] && !startAnchored && !endAnchored
      invariant index > 0 ==> (startAnchored <==> BodyStart(source) == 1) && HasRead(source, index, tokens, endAnchored)
      decreases |source| - index
    {
      var character := source[index];
      if character == '\\' {
        if index + 1 == |source| || source[index + 1] !in ESCAPABLE {
          ReadStuck(source, index, tokens);
          return None;
        }
        ReadEscaped(source, index, tokens);
        index := index + 1;
        tokens := tokens + [Token(Literal(source[index]), false)];
      } else if character == '^' {
        if index != 0 {
          ReadStuck(source, index, tokens);
          return None;
        }
        startAnchored := true;
      } else if character == '$' {
        if index != |source| - 1 {
          ReadStuck(source, index, tokens);
          return None;
        }
        ReadEnd(source, index, tokens);
        endAnchored := true;
      } else if character == '.' {
        ReadPlain(source, index, tokens);
        tokens := tokens + [Token(Any, false)];
      } else if character == '*' {
        if tokens == [] || tokens[|tokens| - 1].repeated {
          ReadStuck(source, index, tokens);
          return None;
        }
        ReadStar(source, index, tokens);
        tokens := tokens[|tokens| - 1 := Token(tokens[|tokens| - 1].kind, true)];
      } else if character in UNSUPPORTED {
        ReadStuck(source, index, tokens);
        return None;
      } else {
        ReadPlain(source, index, tokens);
        tokens := tokens + [Token(Literal(character), false)];
      }
      index := index + 1;
    }
    ReadAll(source, tokens, endAnchored);
    r := Some(Pattern(startAnchored, endAnchored, tokens));
  }
}
