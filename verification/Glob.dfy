/** The lexical path glob: literal characters, and `*` for any sequence, separators included. */
module Glob {
  import opened Patterns

  function GlobToken(c: char): Token {
    if c == '*' then Token(Any, true) else Token(Literal(c), false)
  }

  function GlobTokens(pattern: string): (tokens: seq<Token>)
    ensures |tokens| == |pattern|
    ensures forall i :: 0 <= i < |pattern| ==> tokens[i] == GlobToken(pattern[i])
  {
    seq(|pattern|, i requires 0 <= i < |pattern| => GlobToken(pattern[i]))
  }

  /** The meaning of a glob: the whole path can be divided among its characters. */
  ghost predicate GlobMatches(pattern: string, path: string) {
    Matches(Pattern(true, true, GlobTokens(pattern)), path)
  }

  /** Whether the first `i` pattern characters match the first `j` path characters. */
  function PrefixMatches(pattern: string, path: string, i: nat, j: nat): bool
    requires i <= |pattern| && j <= |path|
  {
    if i == 0 then j == 0
    else if pattern[i - 1] == '*' then
      PrefixMatches(pattern, path, i - 1, j) || (j > 0 && PrefixMatches(pattern, path, i, j - 1))
    else
      j > 0 && pattern[i - 1] == path[j - 1] && PrefixMatches(pattern, path, i - 1, j - 1)
  }

  ghost predicate DividesPrefix(pattern: string, path: string, i: nat, j: nat, cuts: seq<nat>)
    requires i <= |pattern|
  {
    IsDivision(GlobTokens(pattern)[..i], path, 0, cuts) && cuts[i] == j
  }

  lemma {:induction false} PrefixGivesDivision(pattern: string, path: string, i: nat, j: nat) returns (cuts: seq<nat>)
    requires i <= |pattern| && j <= |path| && PrefixMatches(pattern, path, i, j)
    ensures DividesPrefix(pattern, path, i, j, cuts)
    decreases i, j
  {
    var tokens := GlobTokens(pattern);
    if i == 0 {
      cuts := [0];
    } else if pattern[i - 1] == '*' && !PrefixMatches(pattern, path, i - 1, j) {
      var shorter := PrefixGivesDivision(pattern, path, i, j - 1);
      cuts := shorter[i := j];
      LastPiece(tokens, path, i, shorter, cuts);
    } else {
      var from := if pattern[i - 1] == '*' then j else j - 1;
      var init := PrefixGivesDivision(pattern, path, i - 1, from);
      cuts := init + [j];
      assert pattern[i - 1] != '*' ==> path[j - 1..j] == [path[j - 1]];
      assert tokens[..i][..i - 1] == tokens[..i - 1];
      forall k | 0 <= k < i
        ensures cuts[k] <= cuts[k + 1] && Takes(tokens[..i][k], path[cuts[k]..cuts[k + 1]])
      {
        if k < i - 1 {
          assert Takes(tokens[..i - 1][k], path[init[k]..init[k + 1]]);
        }
      }
    }
  }

  /** A star's piece can be made longer at its end. */
  lemma LastPiece(tokens: seq<Token>, path: string, i: nat, shorter: seq<nat>, cuts: seq<nat>)
    requires 0 < i <= |tokens| && tokens[i - 1] == Token(Any, true)
    requires IsDivision(tokens[..i], path, 0, shorter) && shorter[i] < |path|
    requires cuts == shorter[i := shorter[i] + 1]
    ensures IsDivision(tokens[..i], path, 0, cuts)
  {
    forall k | 0 <= k < i
      ensures cuts[k] <= cuts[k + 1] && Takes(tokens[..i][k], path[cuts[k]..cuts[k + 1]])
    {
      assert Takes(tokens[..i][k], path[shorter[k]..shorter[k + 1]]);
    }
  }

  lemma {:induction false} DivisionGivesPrefix(pattern: string, path: string, i: nat, j: nat, cuts: seq<nat>)
    requires i <= |pattern| && j <= |path| && DividesPrefix(pattern, path, i, j, cuts)
    ensures PrefixMatches(pattern, path, i, j)
    decreases i, j
  {
    if i > 0 {
      var tokens := GlobTokens(pattern);
      var from := cuts[i - 1];
      assert Takes(tokens[..i][i - 1], path[from..j]);
      if pattern[i - 1] == '*' && from < j {
        ShorterPiece(tokens, path, i, cuts);
        DivisionGivesPrefix(pattern, path, i, j - 1, cuts[i := j - 1]);
      } else {
        assert pattern[i - 1] != '*' ==> path[from..j][0] == path[j - 1];
        FirstPieces(tokens, path, i, cuts);
        DivisionGivesPrefix(pattern, path, i - 1, from, cuts[..i]);
      }
    }
  }

  lemma ShorterPiece(tokens: seq<Token>, path: string, i: nat, cuts: seq<nat>)
    requires 0 < i <= |tokens| && tokens[i - 1] == Token(Any, true)
    requires IsDivision(tokens[..i], path, 0, cuts) && cuts[i - 1] < cuts[i]
    ensures IsDivision(tokens[..i], path, 0, cuts[i := cuts[i] - 1])
  {
    var shorter := cuts[i := cuts[i] - 1];
    forall k | 0 <= k < i
      ensures shorter[k] <= shorter[k + 1] && Takes(tokens[..i][k], path[shorter[k]..shorter[k + 1]])
    {
      assert Takes(tokens[..i][k], path[cuts[k]..cuts[k + 1]]);
    }
  }

  lemma FirstPieces(tokens: seq<Token>, path: string, i: nat, cuts: seq<nat>)
    requires 0 < i <= |tokens| && IsDivision(tokens[..i], path, 0, cuts)
    ensures IsDivision(tokens[..i - 1], path, 0, cuts[..i])
  {
    forall k | 0 <= k < i - 1
      ensures cuts[k] <= cuts[k + 1] && Takes(tokens[..i - 1][k], path[cuts[k]..cuts[k + 1]])
    {
      assert Takes(tokens[..i][k], path[cuts[k]..cuts[k + 1]]);
    }
  }

  /** The prefix relation decides the meaning of the glob. */
  lemma PrefixMeans(pattern: string, path: string)
    ensures PrefixMatches(pattern, path, |pattern|, |path|) <==> GlobMatches(pattern, path)
  {
    var p := Pattern(true, true, GlobTokens(pattern));
    assert p.tokens[..|pattern|] == p.tokens;
    if PrefixMatches(pattern, path, |pattern|, |path|) {
      var cuts := PrefixGivesDivision(pattern, path, |pattern|, |path|);
      assert MatchesAt(p, path, 0);
    }
    if MatchesAt(p, path, 0) {
      var cuts :| IsDivision(p.tokens, path, 0, cuts) && cuts[|p.tokens|] == |path|;
      DivisionGivesPrefix(pattern, path, |pattern|, |path|, cuts);
    }
  }

  lemma {:induction false} PrefixesOnly(pattern: string, path: string, m: nat, n: nat, i: nat, j: nat)
    requires i <= m <= |pattern| && j <= n <= |path|
    ensures PrefixMatches(pattern[..m], path[..n], i, j) == PrefixMatches(pattern, path, i, j)
    decreases i, j
  {
    if i > 0 {
      PrefixesOnly(pattern, path, m, n, i - 1, j);
      if j > 0 {
        PrefixesOnly(pattern, path, m, n, i, j - 1);
        PrefixesOnly(pattern, path, m, n, i - 1, j - 1);
      }
    }
  }

  /** Entry `j` of the row after `i` pattern characters: whether those match the first `j` path characters. */
  lemma RowEntryMeans(pattern: string, path: string, i: nat, j: nat)
    requires i <= |pattern| && j <= |path|
    ensures PrefixMatches(pattern, path, i, j) <==> GlobMatches(pattern[..i], path[..j])
  {
    PrefixesOnly(pattern, path, i, j, i, j);
    PrefixMeans(pattern[..i], path[..j]);
  }

  /** The dynamic program of both runtimes, which keeps two rows. */
  method PathMatches(pattern: string, path: string) returns (result: bool)
    ensures result <==> GlobMatches(pattern, path)
  {
    var previous := new bool[|path| + 1](_ => false);
    previous[0] := true;
    for i := 0 to |pattern|
      invariant previous.Length == |path| + 1
      invariant forall j :: 0 <= j <= |path| ==> previous[j] == PrefixMatches(pattern, path, i, j)
    {
      var patternCharacter := pattern[i];
      var current := new bool[|path| + 1](_ => false);
      if patternCharacter == '*' {
        current[0] := previous[0];
        for index := 1 to |path| + 1
          invariant forall j :: 0 <= j <= |path| ==> previous[j] == PrefixMatches(pattern, path, i, j)
          invariant forall j :: 0 <= j < index ==> current[j] == PrefixMatches(pattern, path, i + 1, j)
        {
          current[index] := previous[index] || current[index - 1];
        }
      } else {
        for index := 1 to |path| + 1
          invariant forall j :: 0 <= j <= |path| ==> previous[j] == PrefixMatches(pattern, path, i, j)
          invariant forall j :: 0 <= j < index ==> current[j] == PrefixMatches(pattern, path, i + 1, j)
        {
          current[index] := previous[index - 1] && patternCharacter == path[index - 1];
        }
      }
      previous := current;
    }
    PrefixMeans(pattern, path);
    result := previous[|path|];
  }
}
