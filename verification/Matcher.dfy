/**
 The pattern matchers of the two runtimes. Rust backtracks over a table that is
 cleared for every start position; Python walks over a starred token in a loop
 and keeps its cache for all start positions.
 */
module Matcher {
  import opened Common
  import opened Patterns

  /** Whether the tokens from `i` on can take a part of the text that begins at `j`. */
  function MatchFrom(p: Pattern, text: string, i: nat, j: nat): bool
    requires i <= |p.tokens| && j <= |text|
    decreases |p.tokens| - i, |text| - j
  {
    if i == |p.tokens| then !p.endAnchored || j == |text|
    else if p.tokens[i].repeated then
      || MatchFrom(p, text, i + 1, j)
      || (j < |text| && Fits(p.tokens[i], text[j]) && MatchFrom(p, text, i, j + 1))
    else
      j < |text| && Fits(p.tokens[i], text[j]) && MatchFrom(p, text, i + 1, j + 1)
  }

  // ----- the recursion means the existence of a division -----

  ghost predicate Divides(p: Pattern, text: string, i: nat, j: nat, cuts: seq<nat>)
    requires i <= |p.tokens|
  {
    IsDivision(p.tokens[i..], text, j, cuts) && (p.endAnchored ==> cuts[|p.tokens| - i] == |text|)
  }

  lemma ExtendDivision(tokens: seq<Token>, text: string, from: nat, cuts: seq<nat>, next: nat)
    requires tokens != [] && IsDivision(tokens[1..], text, next, cuts)
    requires from <= next <= |text| && Takes(tokens[0], text[from..next])
    ensures IsDivision(tokens, text, from, [from] + cuts)
  {
    forall i | 0 <= i < |tokens|
      ensures ([from] + cuts)[i] <= ([from] + cuts)[i + 1]
      ensures Takes(tokens[i], text[([from] + cuts)[i]..([from] + cuts)[i + 1]])
    {
      if i > 0 {
        assert tokens[1..][i - 1] == tokens[i];
      }
    }
  }

  lemma {:induction false} MatchGivesDivision(p: Pattern, text: string, i: nat, j: nat) returns (cuts: seq<nat>)
    requires i <= |p.tokens| && j <= |text| && MatchFrom(p, text, i, j)
    ensures Divides(p, text, i, j, cuts)
    decreases |p.tokens| - i, |text| - j
  {
    if i == |p.tokens| {
      cuts := [j];
    } else {
      assert p.tokens[i..][1..] == p.tokens[i + 1..];
      if p.tokens[i].repeated && MatchFrom(p, text, i + 1, j) {
        var rest := MatchGivesDivision(p, text, i + 1, j);
        assert text[j..j] == "";
        ExtendDivision(p.tokens[i..], text, j, rest, j);
        cuts := [j] + rest;
      } else if p.tokens[i].repeated {
        var longer := MatchGivesDivision(p, text, i, j + 1);
        cuts := longer[0 := j];
        assert text[j..cuts[1]] == [text[j]] + text[j + 1..cuts[1]];
      } else {
        var rest := MatchGivesDivision(p, text, i + 1, j + 1);
        assert text[j..j + 1] == [text[j]];
        ExtendDivision(p.tokens[i..], text, j, rest, j + 1);
        cuts := [j] + rest;
      }
    }
  }

  lemma {:induction false} DivisionGivesMatch(p: Pattern, text: string, i: nat, j: nat, cuts: seq<nat>)
    requires i <= |p.tokens| && j <= |text| && Divides(p, text, i, j, cuts)
    ensures MatchFrom(p, text, i, j)
    decreases |p.tokens| - i, |text| - j
  {
    if i < |p.tokens| {
      assert p.tokens[i..][1..] == p.tokens[i + 1..];
      var piece := text[cuts[0]..cuts[1]];
      assert Takes(p.tokens[i], piece);
      if cuts[1] == j {
        RestIsDivision(p, text, i, cuts);
        DivisionGivesMatch(p, text, i + 1, j, cuts[1..]);
      } else {
        assert piece[0] == text[j];
        if p.tokens[i].repeated {
          assert text[j + 1..cuts[1]] == piece[1..];
          DivisionGivesMatch(p, text, i, j + 1, cuts[0 := j + 1]);
        } else {
          RestIsDivision(p, text, i, cuts);
          DivisionGivesMatch(p, text, i + 1, j + 1, cuts[1..]);
        }
      }
    }
  }

  lemma RestIsDivision(p: Pattern, text: string, i: nat, cuts: seq<nat>)
    requires i < |p.tokens| && |cuts| > 1 && Divides(p, text, i, cuts[0], cuts)
    ensures Divides(p, text, i + 1, cuts[1], cuts[1..])
  {
    forall k | 0 <= k < |p.tokens[i + 1..]|
      ensures cuts[1..][k] <= cuts[1..][k + 1]
      ensures Takes(p.tokens[i + 1..][k], text[cuts[1..][k]..cuts[1..][k + 1]])
    {
      assert p.tokens[i + 1..][k] == p.tokens[i..][k + 1];
    }
  }

  /** The recursion from one start position decides whether the pattern matches there. */
  lemma MatchFromMeans(p: Pattern, text: string, from: nat)
    requires from <= |text|
    ensures MatchFrom(p, text, 0, from) <==> MatchesAt(p, text, from)
  {
    assert p.tokens[0..] == p.tokens;
    if MatchFrom(p, text, 0, from) {
      var cuts := MatchGivesDivision(p, text, 0, from);
    }
    if cuts :| IsDivision(p.tokens, text, from, cuts) && (p.endAnchored ==> cuts[|p.tokens|] == |text|) {
      DivisionGivesMatch(p, text, 0, from, cuts);
    }
  }

  // ----- the Rust table -----

  type Table = array2<Option<bool>>

  ghost predicate TableFor(memo: Table, p: Pattern, text: string)
    reads memo
  {
    && memo.Length0 == |p.tokens| + 1
    && memo.Length1 == |text| + 1
    && forall i, j :: 0 <= i <= |p.tokens| && 0 <= j <= |text| && memo[i, j].Some? ==>
         memo[i, j].value == MatchFrom(p, text, i, j)
  }

  ghost function Filled(memo: Table): set<(nat, nat)>
    reads memo
  {
    set i: nat, j: nat | i < memo.Length0 && j < memo.Length1 && memo[i, j].Some? :: (i, j)
  }

  /** Fills one empty cell. */
  method Record(p: Pattern, text: string, i: nat, j: nat, memo: Table, result: bool)
    requires i <= |p.tokens| && j <= |text| && TableFor(memo, p, text)
    requires memo[i, j].None? && result == MatchFrom(p, text, i, j)
    modifies memo
    ensures TableFor(memo, p, text) && memo[i, j] == Some(result)
    ensures forall a, b :: 0 <= a <= |p.tokens| && 0 <= b <= |text| && (a, b) != (i, j) ==> memo[a, b] == old(memo[a, b])
    ensures |Filled(memo)| == |old(Filled(memo))| + 1
  {
    ghost var filled := Filled(memo);
    assert (i, j) !in filled;
    memo[i, j] := Some(result);
    assert Filled(memo) == filled + {(i, j)};
  }

  /**
   Fills the table from one cell. `evaluations` counts how often a result is
   computed: as often as cells are filled, so no cell is computed twice.
   */
  method MatchesFrom(p: Pattern, text: string, i: nat, j: nat, memo: Table) returns (result: bool, ghost evaluations: nat)
    requires i <= |p.tokens| && j <= |text| && TableFor(memo, p, text)
    modifies memo
    ensures result == MatchFrom(p, text, i, j)
    ensures TableFor(memo, p, text) && memo[i, j] == Some(result)
    ensures forall a, b :: 0 <= a <= |p.tokens| && 0 <= b <= |text| && (a < i || b < j || old(memo[a, b]).Some?) ==>
      memo[a, b] == old(memo[a, b])
    ensures |Filled(memo)| == |old(Filled(memo))| + evaluations
    decreases |p.tokens| - i, |text| - j
  {
    evaluations := 0;
    if memo[i, j].Some? {
      return memo[i, j].value, 0;
    }
    ghost var more := 0;
    if i == |p.tokens| {
      result := !p.endAnchored || j == |text|;
    } else {
      var token := p.tokens[i];
      if token.repeated {
        result, evaluations := MatchesFrom(p, text, i + 1, j, memo);
        if !result && j < |text| && Fits(token, text[j]) {
          result, more := MatchesFrom(p, text, i, j + 1, memo);
          evaluations := evaluations + more;
        }
      } else if j < |text| && Fits(token, text[j]) {
        result, evaluations := MatchesFrom(p, text, i + 1, j + 1, memo);
      } else {
        result := false;
      }
    }
    Record(p, text, i, j, memo, result);
    evaluations := evaluations + 1;
  }

  ghost function Grid(rows: nat, columns: nat): (grid: set<(nat, nat)>)
  {
    set i: nat, j: nat | i < rows && j < columns :: (i, j)
  }

  ghost function Row(row: nat, columns: nat): set<(nat, nat)> {
    set j: nat | j < columns :: (row, j)
  }

  lemma {:induction false} RowSize(row: nat, columns: nat)
    ensures |Row(row, columns)| == columns
    decreases columns
  {
    if columns > 0 {
      RowSize(row, columns - 1);
      assert Row(row, columns) == Row(row, columns - 1) + {(row, columns - 1)};
    }
  }

  lemma {:induction false} GridSize(rows: nat, columns: nat)
    ensures |Grid(rows, columns)| == rows * columns
    decreases rows
  {
    if rows > 0 {
      GridSize(rows - 1, columns);
      RowSize(rows - 1, columns);
      assert Grid(rows, columns) == Grid(rows - 1, columns) + Row(rows - 1, columns);
      assert rows * columns == (rows - 1) * columns + columns;
    }
  }

  /** One start position, with a table of its own: at most one evaluation for each token and character position. */
  method MatchesAtStart(p: Pattern, text: string, start: nat) returns (result: bool, ghost evaluations: nat)
    requires start <= |text|
    ensures result <==> MatchesAt(p, text, start)
    ensures evaluations <= (|p.tokens| + 1) * (|text| + 1)
  {
    var memo := new Option<bool>[|p.tokens| + 1, |text| + 1]((_, _) => None);
    assert Filled(memo) == {};
    result, evaluations := MatchesFrom(p, text, 0, start, memo);
    GridSize(|p.tokens| + 1, |text| + 1);
    SubsetSize(Filled(memo), Grid(|p.tokens| + 1, |text| + 1));
    MatchFromMeans(p, text, start);
  }

  /** The Rust matcher of a parsed pattern. */
  method ArgsMatchRust(p: Pattern, text: string) returns (result: bool)
    ensures result <==> Matches(p, text)
  {
    ghost var evaluations: nat;
    if p.startAnchored {
      result, evaluations := MatchesAtStart(p, text, 0);
      return;
    }
    result := false;
    var start := 0;
    while start <= |text| && !result
      invariant start <= |text| + 1
      invariant !result ==> forall from: nat :: from < start ==> !MatchesAt(p, text, from)
      invariant result ==> Matches(p, text)
    {
      result, evaluations := MatchesAtStart(p, text, start);
      start := start + 1;
    }
  }

  // ----- the Python cache -----

  class Cache {
    var cells: map<(nat, nat), bool>

    constructor ()
      ensures cells == map[]
    {
      cells := map[];
    }

    method Record(i: nat, j: nat, result: bool)
      requires (i, j) !in cells
      modifies this
      ensures cells == old(cells)[(i, j) := result] && |cells.Keys| == |old(cells.Keys)| + 1
    {
      assert cells[(i, j) := result].Keys == cells.Keys + {(i, j)};
      cells := cells[(i, j) := result];
    }
  }

  ghost predicate CacheFor(cells: map<(nat, nat), bool>, p: Pattern, text: string) {
    forall i: nat, j: nat :: (i, j) in cells ==>
      i <= |p.tokens| && j <= |text| && cells[(i, j)] == MatchFrom(p, text, i, j)
  }

  /** Walking over a starred token one character at a time is what the recursion does. */
  lemma StarStep(p: Pattern, text: string, i: nat, j: nat)
    requires i < |p.tokens| && j <= |text| && p.tokens[i].repeated && !MatchFrom(p, text, i + 1, j)
    ensures MatchFrom(p, text, i, j) <==>
      j < |text| && Fits(p.tokens[i], text[j]) && MatchFrom(p, text, i, j + 1)
  {
  }

  /** No cell is dropped, and new cells are in row `row` or below it. */
  ghost predicate Grown(before: map<(nat, nat), bool>, after: map<(nat, nat), bool>, row: nat) {
    && before.Keys <= after.Keys
    && forall cell: (nat, nat) :: cell in after.Keys && cell !in before.Keys ==> cell.0 >= row
  }

  lemma OneMoreCell(
    first: map<(nat, nat), bool>, cells: map<(nat, nat), bool>, p: Pattern, text: string, i: nat, j: nat, result: bool)
    requires i <= |p.tokens| && j <= |text| && CacheFor(cells, p, text) && result == MatchFrom(p, text, i, j)
    requires (i, j) !in first && Grown(first, cells, i + 1)
    ensures (i, j) !in cells
    ensures CacheFor(cells[(i, j) := result], p, text) && Grown(first, cells[(i, j) := result], i)
  {
    assert (i, j) !in cells.Keys;
  }

  /** The function behind the cache: each result is computed once and remembered. */
  method PythonMatchesFrom(p: Pattern, text: string, i: nat, j: nat, cache: Cache)
    returns (result: bool, ghost evaluations: nat)
    requires i <= |p.tokens| && j <= |text| && CacheFor(cache.cells, p, text)
    modifies cache
    ensures result == MatchFrom(p, text, i, j)
    ensures CacheFor(cache.cells, p, text) && Grown(old(cache.cells), cache.cells, i)
    ensures |cache.cells.Keys| == |old(cache.cells.Keys)| + evaluations
    decreases |p.tokens| - i, 2
  {
    if (i, j) in cache.cells {
      return cache.cells[(i, j)], 0;
    }
    result, evaluations := PythonEvaluate(p, text, i, j, cache);
    OneMoreCell(old(cache.cells), cache.cells, p, text, i, j, result);
    cache.Record(i, j, result);
    evaluations := evaluations + 1;
  }

  /** One evaluation of the function's body. */
  method PythonEvaluate(p: Pattern, text: string, i: nat, j: nat, cache: Cache)
    returns (result: bool, ghost evaluations: nat)
    requires i <= |p.tokens| && j <= |text| && CacheFor(cache.cells, p, text)
    modifies cache
    ensures result == MatchFrom(p, text, i, j)
    ensures CacheFor(cache.cells, p, text) && Grown(old(cache.cells), cache.cells, i + 1)
    ensures |cache.cells.Keys| == |old(cache.cells.Keys)| + evaluations
    decreases |p.tokens| - i, 1
  {
    evaluations := 0;
    if i == |p.tokens| {
      result := !p.endAnchored || j == |text|;
    } else if p.tokens[i].repeated {
      result, evaluations := PythonWalkStar(p, text, i, j, cache);
    } else if j < |text| && Fits(p.tokens[i], text[j]) {
      result, evaluations := PythonMatchesFrom(p, text, i + 1, j + 1, cache);
    } else {
      result := false;
    }
  }

  /** The loop over a starred token: it tries the rest of the pattern after each further character. */
  method PythonWalkStar(p: Pattern, text: string, i: nat, j: nat, cache: Cache)
    returns (result: bool, ghost evaluations: nat)
    requires i < |p.tokens| && p.tokens[i].repeated && j <= |text| && CacheFor(cache.cells, p, text)
    modifies cache
    ensures result == MatchFrom(p, text, i, j)
    ensures CacheFor(cache.cells, p, text) && Grown(old(cache.cells), cache.cells, i + 1)
    ensures |cache.cells.Keys| == |old(cache.cells.Keys)| + evaluations
    decreases |p.tokens| - i, 0
  {
    var at := j;
    ghost var more := 0;
    result, evaluations := PythonMatchesFrom(p, text, i + 1, at, cache);
    while !result && at < |text| && Fits(p.tokens[i], text[at])
      invariant j <= at <= |text|
      invariant CacheFor(cache.cells, p, text) && Grown(old(cache.cells), cache.cells, i + 1)
      invariant |cache.cells.Keys| == |old(cache.cells.Keys)| + evaluations
      invariant result == MatchFrom(p, text, i + 1, at)
      invariant MatchFrom(p, text, i, j) == MatchFrom(p, text, i, at)
      decreases |text| - at, !result
    {
      StarStep(p, text, i, at);
      at := at + 1;
      result, more := PythonMatchesFrom(p, text, i + 1, at, cache);
      evaluations := evaluations + more;
    }
  }

  /** A cache has no more cells than there are token and character positions. */
  lemma CacheSize(cells: map<(nat, nat), bool>, p: Pattern, text: string)
    requires CacheFor(cells, p, text)
    ensures |cells.Keys| <= (|p.tokens| + 1) * (|text| + 1)
  {
    GridSize(|p.tokens| + 1, |text| + 1);
    forall cell | cell in cells.Keys ensures cell in Grid(|p.tokens| + 1, |text| + 1) {
      assert (cell.0, cell.1) in cells;
    }
    SubsetSize(cells.Keys, Grid(|p.tokens| + 1, |text| + 1));
  }

  /** The Python matcher of a parsed pattern, with one cache for all start positions. */
  method ArgsMatchPython(p: Pattern, text: string) returns (result: bool, ghost evaluations: nat)
    ensures result <==> Matches(p, text)
    ensures evaluations <= (|p.tokens| + 1) * (|text| + 1)
  {
    var cache := new Cache();
    var last := if p.startAnchored then 0 else |text|;
    result, evaluations := false, 0;
    ghost var more := 0;
    var start := 0;
    while start <= last && !result
      invariant start <= last + 1
      invariant CacheFor(cache.cells, p, text) && fresh(cache)
      invariant |cache.cells.Keys| == evaluations
      invariant !result ==> forall from: nat :: from < start ==> !MatchesAt(p, text, from)
      invariant result ==> Matches(p, text)
    {
      result, more := PythonMatchesFrom(p, text, 0, start, cache);
      evaluations := evaluations + more;
      MatchFromMeans(p, text, start);
      start := start + 1;
    }
    CacheSize(cache.cells, p, text);
  }
}
