/** The portable argument pattern: its tokens, what it means, and how it is spelled. */
module Patterns {

  datatype Kind = Literal(character: char) | Any

  datatype Token = Token(kind: Kind, repeated: bool)

  datatype Pattern = Pattern(startAnchored: bool, endAnchored: bool, tokens: seq<Token>)

  predicate Fits(token: Token, c: char) {
    token.kind.Any? || token.kind.character == c
  }

  /** A plain token takes one character and a repeated one any run of characters. */
  predicate Takes(token: Token, piece: string) {
    && (forall i :: 0 <= i < |piece| ==> Fits(token, piece[i]))
    && (token.repeated || |piece| == 1)
  }

  /** `cuts` divides the text from `from` on into one piece for each of `tokens`. */
  predicate IsDivision(tokens: seq<Token>, text: string, from: nat, cuts: seq<nat>) {
    && |cuts| == |tokens| + 1
    && cuts[0] == from
    && (forall i :: 0 <= i < |cuts| ==> cuts[i] <= |text|)
    && (forall i :: 0 <= i < |tokens| ==> cuts[i] <= cuts[i + 1] && Takes(tokens[i], text[cuts[i]..cuts[i + 1]]))
  }

  ghost predicate MatchesAt(pattern: Pattern, text: string, from: nat) {
    exists cuts :: IsDivision(pattern.tokens, text, from, cuts) && (pattern.endAnchored ==> cuts[|pattern.tokens|] == |text|)
  }

  /** The meaning of a pattern: some part of the text, as the anchors allow, can be divided among the tokens. */
  ghost predicate Matches(pattern: Pattern, text: string) {
    exists from: nat :: from <= |text| && (pattern.startAnchored ==> from == 0) && MatchesAt(pattern, text, from)
  }

  const ESCAPABLE := "\\.*^$"
  const UNSUPPORTED := "[](){}|+?"

  predicate LegalToken(token: Token) {
    token.kind.Literal? ==> token.kind.character !in UNSUPPORTED
  }

  predicate Legal(pattern: Pattern) {
    forall i :: 0 <= i < |pattern.tokens| ==> LegalToken(pattern.tokens[i])
  }

  function SpellKind(kind: Kind): string {
    match kind
    case Any => "."
    case Literal(c) => if c in ESCAPABLE then ['\\', c] else [c]
  }

  function Spell(token: Token): string {
    SpellKind(token.kind) + if token.repeated then "*" else ""
  }

  function SpellAll(tokens: seq<Token>): string {
    if tokens == [] then "" else Spell(tokens[0]) + SpellAll(tokens[1..])
  }

  /** The only spelling of a pattern. */
  function Print(pattern: Pattern): string {
    (if pattern.startAnchored then "^" else "")
    + SpellAll(pattern.tokens)
    + (if pattern.endAnchored then "$" else "")
  }
}
