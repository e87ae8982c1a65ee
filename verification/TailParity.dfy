/**
 The same tail recovery in Python, which takes the complete part of a file apart
 at carriage returns as well, and where the two runtimes differ.
 */
module TailParity {
  import opened Storage
  import opened TailRecovery

  predicate IsBreak(b: Byte) {
    b == NEWLINE || b == RETURN
  }

  function FirstBreak(bytes: seq<Byte>): (i: nat)
    ensures i <= |bytes|
    ensures forall k :: 0 <= k < i ==> !IsBreak(bytes[k])
    ensures i < |bytes| ==> IsBreak(bytes[i])
  {
    if bytes == [] || IsBreak(bytes[0]) then 0 else 1 + FirstBreak(bytes[1..])
  }

  /** Splitting at newlines, carriage returns, and the two in sequence; no empty last piece. */
  function SplitLines(bytes: seq<Byte>): seq<seq<Byte>>
    decreases |bytes|
  {
    if bytes == [] then []
    else
      var i := FirstBreak(bytes);
      if i == |bytes| then [bytes]
      else if bytes[i] == RETURN && i + 1 < |bytes| && bytes[i + 1] == NEWLINE then [bytes[..i]] + SplitLines(bytes[i + 2..])
      else [bytes[..i]] + SplitLines(bytes[i + 1..])
  }

  /** The Python runtime's decision. */
  function PythonTail(g: Grammar, bytes: seq<Byte>): TailOutcome {
    var complete := bytes[..CompleteEnd(bytes)];
    if !AllAccepted(g, SplitLines(complete)) then Refused else TailCheck(g, bytes)
  }

  // ----- line by line -----

  lemma BreakOfLine(line: seq<Byte>, rest: seq<Byte>)
    requires NEWLINE !in line
    ensures FirstBreak(line + [NEWLINE] + rest) == FirstBreak(line)
  {
    var bytes, i := line + [NEWLINE] + rest, FirstBreak(line);
    assert forall k :: 0 <= k < |line| ==> bytes[k] == line[k];
    assert IsBreak(bytes[i]);
  }

  lemma SplitAtInnerReturn(line: seq<Byte>, rest: seq<Byte>)
    requires NEWLINE !in line && FirstBreak(line) + 1 < |line|
    ensures var i := FirstBreak(line);
      SplitLines(line + [NEWLINE] + rest) == [line[..i]] + SplitLines(line[i + 1..] + [NEWLINE] + rest)
  {
    var bytes, i := line + [NEWLINE] + rest, FirstBreak(line);
    BreakOfLine(line, rest);
    assert bytes[..i] == line[..i];
    assert bytes[i] == line[i] && bytes[i + 1] == line[i + 1];
    assert bytes[i + 1..] == line[i + 1..] + [NEWLINE] + rest;
  }

  lemma SplitAtEnd(line: seq<Byte>, rest: seq<Byte>)
    requires NEWLINE !in line && FirstBreak(line) + 1 >= |line|
    ensures SplitLines(line + [NEWLINE] + rest) == [line[..FirstBreak(line)]] + SplitLines(rest)
  {
    var bytes, i := line + [NEWLINE] + rest, FirstBreak(line);
    BreakOfLine(line, rest);
    assert bytes[..i] == line[..i];
    assert bytes[|line|] == NEWLINE && bytes[|line| + 1..] == rest;
    if i < |line| {
      assert bytes[i] == line[i] == RETURN;
    }
  }

  /** How one line and what follows it are taken apart at the line's first break. */
  lemma SplitAtBreak(line: seq<Byte>, rest: seq<Byte>)
    requires NEWLINE !in line
    ensures var i := FirstBreak(line);
      SplitLines(line + [NEWLINE] + rest) ==
        [line[..i]] + if i + 1 < |line| then SplitLines(line[i + 1..] + [NEWLINE] + rest) else SplitLines(rest)
  {
    if FirstBreak(line) + 1 < |line| {
      SplitAtInnerReturn(line, rest);
    } else {
      SplitAtEnd(line, rest);
    }
  }

  /** The pieces of one line: split at carriage returns, without one at its end. */
  function Pieces(line: seq<Byte>): seq<seq<Byte>> {
    SplitLines(line + [NEWLINE])
  }

  lemma FirstPiece(line: seq<Byte>)
    requires NEWLINE !in line
    ensures |Pieces(line)| > 0 && Pieces(line)[0] == line[..FirstBreak(line)]
    ensures FirstBreak(line) + 1 >= |line| ==> Pieces(line) == [line[..FirstBreak(line)]]
    ensures FirstBreak(line) + 1 < |line| ==>
      Pieces(line) == [line[..FirstBreak(line)]] + Pieces(line[FirstBreak(line) + 1..])
  {
    SplitAtBreak(line, []);
    assert line + [NEWLINE] + [] == line + [NEWLINE];
    if FirstBreak(line) + 1 < |line| {
      var next := line[FirstBreak(line) + 1..];
      assert next + [NEWLINE] + [] == next + [NEWLINE];
    }
  }

  lemma {:induction false} SplitFirstLine(line: seq<Byte>, rest: seq<Byte>)
    requires NEWLINE !in line
    ensures SplitLines(line + [NEWLINE] + rest) == Pieces(line) + SplitLines(rest)
    decreases |line|
  {
    var i := FirstBreak(line);
    SplitAtBreak(line, rest);
    FirstPiece(line);
    if i + 1 < |line| {
      SplitFirstLine(line[i + 1..], rest);
      FrontOfPieces(line[..i], Pieces(line[i + 1..]), SplitLines(rest));
    }
  }

  lemma FrontOfPieces(first: seq<Byte>, a: seq<seq<Byte>>, b: seq<seq<Byte>>)
    ensures [first] + (a + b) == [first] + a + b
  {
  }

  predicate PythonLine(g: Grammar, line: seq<Byte>) {
    AllAccepted(g, Pieces(line))
  }

  predicate RustLine(g: Grammar, line: seq<Byte>) {
    line != [] && g.isObject(line)
  }

  predicate NewlineFree(lines: seq<seq<Byte>>) {
    forall i :: 0 <= i < |lines| ==> NEWLINE !in lines[i]
  }

  predicate PythonLines(g: Grammar, lines: seq<seq<Byte>>) {
    forall i :: 0 <= i < |lines| ==> PythonLine(g, lines[i])
  }

  predicate RustLines(g: Grammar, lines: seq<seq<Byte>>) {
    forall i :: 0 <= i < |lines| ==> RustLine(g, lines[i])
  }

  lemma AcceptedTogether(g: Grammar, a: seq<seq<Byte>>, b: seq<seq<Byte>>)
    ensures AllAccepted(g, a + b) <==> AllAccepted(g, a) && AllAccepted(g, b)
  {
    if AllAccepted(g, a + b) {
      assert forall i :: 0 <= i < |a| ==> a[i] == (a + b)[i];
      assert forall i :: 0 <= i < |b| ==> b[i] == (a + b)[|a| + i];
    }
  }

  /** Python accepts the complete part of a file exactly if it accepts each of its lines. */
  lemma {:induction false} AcceptedLineByLine(g: Grammar, lines: seq<seq<Byte>>)
    requires NewlineFree(lines)
    ensures AllAccepted(g, SplitLines(Encode(lines))) <==> PythonLines(g, lines)
  {
    if lines != [] {
      AcceptedLineByLine(g, lines[1..]);
      SplitFirstLine(lines[0], Encode(lines[1..]));
      AcceptedTogether(g, Pieces(lines[0]), SplitLines(Encode(lines[1..])));
      assert forall i :: 0 < i < |lines| ==> lines[i] == lines[1..][i - 1];
    }
  }

  // ----- where the runtimes agree -----

  lemma PythonTailWithoutNewline(g: Grammar, bytes: seq<Byte>)
    requires NEWLINE !in bytes
    ensures PythonTail(g, bytes) == if bytes == [] then Complete else if Torn(g, bytes) then Truncate(0) else Refused
  {
    CompleteEndIs([], bytes);
    assert [] + bytes == bytes && bytes[0..] == bytes;
  }

  /** Both decisions about a file with a newline: the verdict on its lines, and then the same one on its tail. */
  lemma DecisionsWithNewline(g: Grammar, bytes: seq<Byte>)
    requires NEWLINE in bytes
    ensures var lines := CompleteLines(bytes);
      && RustTail(g, bytes) ==
           (if RustLines(g, lines) then TailCheck(g, bytes) else Refused)
      && PythonTail(g, bytes) ==
           (if PythonLines(g, lines) then TailCheck(g, bytes) else Refused)
  {
    var lines, tail := Decomposition(bytes);
    assert lines == [] ==> bytes == tail;
    DecisionsOnLog(g, lines, tail);
  }

  lemma DecisionsOnLog(g: Grammar, lines: seq<seq<Byte>>, tail: seq<Byte>)
    requires lines != [] && NewlineFree(lines) && NEWLINE !in tail
    ensures var bytes := Encode(lines) + tail;
      && RustTail(g, bytes) == (if RustLines(g, lines) then TailCheck(g, bytes) else Refused)
      && PythonTail(g, bytes) == (if PythonLines(g, lines) then TailCheck(g, bytes) else Refused)
  {
    var bytes := Encode(lines) + tail;
    LogParts(lines, tail);
    assert bytes[..|Encode(lines)|] == Encode(lines);
    AcceptedLineByLine(g, lines);
    assert AllAccepted(g, lines) <==> RustLines(g, lines);
  }

  /** Nothing follows the last newline, or a torn part of a record. */
  predicate FineTail(g: Grammar, tail: seq<Byte>) {
    tail == [] || Torn(g, tail)
  }

  /**
   Exactly where the runtimes decide alike, for every content and whatever their
   JSON libraries accept. Without a newline they differ on an empty file and on a
   torn first record, which Python cuts off. With one they differ if just one of
   them accepts all lines and the tail.
   */
  lemma RuntimesAgreeExactly(rust: Grammar, python: Grammar, bytes: seq<Byte>)
    ensures var lines, tail := CompleteLines(bytes), bytes[CompleteEnd(bytes)..];
      PythonTail(python, bytes) == RustTail(rust, bytes) <==>
        if NEWLINE !in bytes then bytes != [] && !Torn(python, bytes)
        else (RustLines(rust, lines) && FineTail(rust, tail)) <==> (PythonLines(python, lines) && FineTail(python, tail))
  {
    if NEWLINE in bytes {
      DecisionsWithNewline(rust, bytes);
      DecisionsWithNewline(python, bytes);
    } else {
      RustTailWithoutNewline(rust, bytes);
      PythonTailWithoutNewline(python, bytes);
    }
  }

  predicate ReturnIsSpace(g: Grammar, x: seq<Byte>) {
    g.isObject(x + [RETURN]) <==> g.isObject(x)
  }

  predicate OnlySpaceFollows(g: Grammar, x: seq<Byte>, y: seq<Byte>, k: nat)
    requires k <= |y|
  {
    g.isObject(x) && g.isObject(x + [RETURN] + y) ==> !g.isObject(y[..k])
  }

  /**
   Facts about JSON objects, from sections 2 and 4 of RFC 8259: no empty text is
   one, a carriage return at the end is white space, and after a complete object
   there is only white space, no part of which is an object.
   */
  ghost predicate JsonObjects(g: Grammar) {
    && !g.isObject([])
    && (forall x: seq<Byte> :: ReturnIsSpace(g, x))
    && (forall x: seq<Byte>, y: seq<Byte>, k: nat :: k <= |y| ==> OnlySpaceFollows(g, x, y, k))
  }

  /** A carriage return other than a single one as the last byte. */
  predicate HasInnerReturn(line: seq<Byte>) {
    line != [] && RETURN in line[..|line| - 1]
  }

  lemma InnerReturnIsBreak(line: seq<Byte>)
    requires NEWLINE !in line
    ensures HasInnerReturn(line) <==> FirstBreak(line) + 1 < |line|
  {
    var i := FirstBreak(line);
    if i + 1 < |line| {
      assert line[..|line| - 1][i] == RETURN;
    } else {
      assert forall k :: 0 <= k < |line| - 1 ==> !IsBreak(line[k]);
    }
  }

  /** After an object and a carriage return there is no second object, nor a part of one. */
  lemma TwoPiecesVerdict(g: Grammar, line: seq<Byte>, i: nat, k: nat, pieces: seq<seq<Byte>>)
    requires JsonObjects(g) && i + 1 < |line| && line[i] == RETURN && k <= |line| - (i + 1)
    requires |pieces| >= 2 && pieces[0] == line[..i] && pieces[1] == line[i + 1..][..k]
    ensures !(RustLine(g, line) && AllAccepted(g, pieces))
  {
    assert line == line[..i] + [RETURN] + line[i + 1..];
    assert OnlySpaceFollows(g, line[..i], line[i + 1..], k);
  }

  lemma OnePieceVerdict(g: Grammar, line: seq<Byte>, i: nat, pieces: seq<seq<Byte>>)
    requires JsonObjects(g) && i <= |line| <= i + 1 && (i < |line| ==> line[i] == RETURN)
    requires pieces == [line[..i]]
    ensures RustLine(g, line) <==> AllAccepted(g, pieces)
  {
    assert AllAccepted(g, pieces) <==> pieces[0] != [] && g.isObject(pieces[0]);
    if i < |line| {
      assert line == line[..i] + [RETURN];
      assert ReturnIsSpace(g, line[..i]);
    } else {
      assert line[..i] == line;
    }
  }

  /** No line with an inner carriage return is accepted by both runtimes, and any other by both or by neither. */
  lemma LineVerdicts(g: Grammar, line: seq<Byte>)
    requires JsonObjects(g) && NEWLINE !in line
    ensures HasInnerReturn(line) ==> !(RustLine(g, line) && PythonLine(g, line))
    ensures !HasInnerReturn(line) ==> (RustLine(g, line) <==> PythonLine(g, line))
  {
    InnerReturnIsBreak(line);
    FirstPiece(line);
    var i := FirstBreak(line);
    assert PythonLine(g, line) <==> AllAccepted(g, Pieces(line));
    if HasInnerReturn(line) {
      FirstPiece(line[i + 1..]);
      TwoPiecesVerdict(g, line, i, FirstBreak(line[i + 1..]), Pieces(line));
    } else {
      OnePieceVerdict(g, line, i, Pieces(line));
    }
  }

  /** On a file with a newline and without an inner carriage return in any line, the runtimes decide alike. */
  lemma AgreeWithoutInnerReturns(g: Grammar, bytes: seq<Byte>)
    requires JsonObjects(g) && NEWLINE in bytes
    requires forall i :: 0 <= i < |CompleteLines(bytes)| ==> !HasInnerReturn(CompleteLines(bytes)[i])
    ensures PythonTail(g, bytes) == RustTail(g, bytes)
  {
    var lines, tail := Decomposition(bytes);
    forall i | 0 <= i < |lines| ensures RustLine(g, lines[i]) <==> PythonLine(g, lines[i]) {
      LineVerdicts(g, lines[i]);
    }
    DecisionsWithNewline(g, bytes);
  }

  /** If all lines are records, the runtimes differ exactly if the tail is fine and a line has an inner carriage return. */
  lemma InnerReturnsDecide(g: Grammar, bytes: seq<Byte>)
    requires JsonObjects(g) && NEWLINE in bytes && AllRecords(g, CompleteLines(bytes))
    ensures var lines, tail := CompleteLines(bytes), bytes[CompleteEnd(bytes)..];
      PythonTail(g, bytes) == RustTail(g, bytes) <==>
        || !FineTail(g, tail)
        || forall i :: 0 <= i < |lines| ==> !HasInnerReturn(lines[i])
  {
    var lines, tail := Decomposition(bytes);
    forall i | 0 <= i < |lines| ensures PythonLine(g, lines[i]) <==> !HasInnerReturn(lines[i]) {
      LineVerdicts(g, lines[i]);
    }
    DecisionsWithNewline(g, bytes);
  }

  /** The bytes "{", a carriage return, "}" and a newline: one line for Rust, two for Python. */
  lemma CarriageReturnInsideRecord(g: Grammar)
    requires g.isObject([123, RETURN, 125]) && !g.isObject([123])
    ensures var bytes := [123, RETURN, 125, NEWLINE];
      RustTail(g, bytes) == Complete && PythonTail(g, bytes) == Refused
  {
    var line := [123, RETURN, 125];
    var bytes := [123, RETURN, 125, NEWLINE];
    assert Encode([line]) + [] == bytes;
    RustTailOnLog(g, [line], []);
    CompleteLinesAre([line], []);
    assert FirstBreak(line) == 1 + FirstBreak(line[1..]) == 1;
    FirstPiece(line);
    assert line[..1] == [123];
    assert !PythonLine(g, CompleteLines(bytes)[0]);
    DecisionsWithNewline(g, bytes);
  }

  // ----- a record that was being written when the process died -----

  /** The same classification as for Rust, on a log that Python accepts, for any number of earlier records. */
  lemma PythonTornAppend(g: Grammar, lines: seq<seq<Byte>>, record: seq<Byte>, k: nat)
    requires NewlineFree(lines)
    requires PythonTail(g, Encode(lines)) == Complete
    requires IsObjectText(g, record) && RETURN !in record && k <= |record| + 1
    ensures var bytes := Encode(lines) + (record + [NEWLINE])[..k];
      var outcome := PythonTail(g, bytes);
      && (outcome == Complete <==> k == 0 || k == |record| + 1)
      && (outcome == Truncate(|Encode(lines)|) <==> 0 < k < |record| && g.isUtf8(record[..k]))
      && (outcome == Refused <==> k == |record| || (0 < k < |record| && !g.isUtf8(record[..k])))
      && (outcome != Refused ==>
            Recovered(bytes, outcome) == Encode(if k == |record| + 1 then lines + [record] else lines))
  {
    LinesAccepted(g, lines);
    if k == |record| + 1 {
      PythonWholeRecord(g, lines, record);
    } else {
      assert (record + [NEWLINE])[..k] == record[..k];
      assert record[..|record|] == record;
      PythonPartOfRecord(g, lines, record[..k]);
    }
  }

  lemma LinesAccepted(g: Grammar, lines: seq<seq<Byte>>)
    requires PythonTail(g, Encode(lines)) == Complete
    ensures AllAccepted(g, SplitLines(Encode(lines)))
  {
    CompletePart(lines, []);
    assert Encode(lines) + [] == Encode(lines);
  }

  lemma PythonPartOfRecord(g: Grammar, lines: seq<seq<Byte>>, tail: seq<Byte>)
    requires AllAccepted(g, SplitLines(Encode(lines))) && NEWLINE !in tail
    ensures PythonTail(g, Encode(lines) + tail) ==
      if tail == [] then Complete else if Torn(g, tail) then Truncate(|Encode(lines)|) else Refused
    ensures (Encode(lines) + tail)[..|Encode(lines)|] == Encode(lines)
  {
    CompletePart(lines, tail);
  }

  lemma PythonWholeRecord(g: Grammar, lines: seq<seq<Byte>>, record: seq<Byte>)
    requires NewlineFree(lines)
    requires AllAccepted(g, SplitLines(Encode(lines))) && IsRecord(g, record) && RETURN !in record
    ensures var bytes := Encode(lines) + (record + [NEWLINE])[..|record| + 1];
      bytes == Encode(lines + [record]) && PythonTail(g, bytes) == Complete
  {
    EncodeWhole(lines, record);
    AcceptedLineByLine(g, lines);
    PlainLineAccepted(g, record);
    OneMoreLine(g, lines, record);
    CompleteAccepted(g, lines + [record]);
  }

  lemma EncodeWhole(lines: seq<seq<Byte>>, record: seq<Byte>)
    ensures Encode(lines) + (record + [NEWLINE])[..|record| + 1] == Encode(lines + [record])
  {
    assert (record + [NEWLINE])[..|record| + 1] == record + [NEWLINE] == Encode([record]);
    EncodeAppend(lines, [record]);
  }

  lemma PlainLineAccepted(g: Grammar, record: seq<Byte>)
    requires IsRecord(g, record) && RETURN !in record
    ensures PythonLine(g, record)
  {
    FirstPiece(record);
    assert record[..|record|] == record;
  }

  lemma OneMoreLine(g: Grammar, lines: seq<seq<Byte>>, record: seq<Byte>)
    requires PythonLines(g, lines) && PythonLine(g, record) && NewlineFree(lines) && NEWLINE !in record
    ensures PythonLines(g, lines + [record]) && NewlineFree(lines + [record])
  {
  }

  lemma CompleteAccepted(g: Grammar, lines: seq<seq<Byte>>)
    requires NewlineFree(lines) && PythonLines(g, lines)
    ensures PythonTail(g, Encode(lines)) == Complete
  {
    AcceptedLineByLine(g, lines);
    CompletePart(lines, []);
    assert Encode(lines) + [] == Encode(lines);
  }
}
