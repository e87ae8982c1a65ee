/**
 What opening the log does to the bytes of one log file: it accepts complete
 records, cuts off a torn last record, and refuses everything else.
 */
module TailRecovery {
  import opened Storage

  const NEWLINE: Byte := 10
  const RETURN: Byte := 13

  /** The library predicates: valid UTF-8, a JSON text, and a JSON text that is an object. */
  datatype Grammar = Grammar(isUtf8: seq<Byte> -> bool, isJson: seq<Byte> -> bool, isObject: seq<Byte> -> bool)

  datatype TailOutcome = Complete | Truncate(length: nat) | Refused

  /** Every line followed by a newline. */
  function Encode(lines: seq<seq<Byte>>): seq<Byte> {
    if lines == [] then [] else lines[0] + [NEWLINE] + Encode(lines[1..])
  }

  function FirstNewline(bytes: seq<Byte>): (i: nat)
    ensures i <= |bytes| && NEWLINE !in bytes[..i]
    ensures i < |bytes| ==> bytes[i] == NEWLINE
  {
    if bytes == [] || bytes[0] == NEWLINE then 0
    else
      var rest := FirstNewline(bytes[1..]);
      assert bytes[..rest + 1] == [bytes[0]] + bytes[1..][..rest];
      rest + 1
  }

  /** The pieces between newlines; an empty input has one empty piece. */
  function Split(bytes: seq<Byte>): (pieces: seq<seq<Byte>>)
    ensures |pieces| >= 1
    decreases |bytes|
  {
    var i := FirstNewline(bytes);
    if i == |bytes| then [bytes] else [bytes[..i]] + Split(bytes[i + 1..])
  }

  /** The position just after the last newline. */
  function CompleteEnd(bytes: seq<Byte>): (end: nat)
    ensures end <= |bytes|
    ensures end > 0 ==> bytes[end - 1] == NEWLINE
    ensures NEWLINE !in bytes[end..]
  {
    if bytes == [] then 0
    else if bytes[|bytes| - 1] == NEWLINE then |bytes|
    else
      var init := bytes[..|bytes| - 1];
      var end := CompleteEnd(init);
      assert bytes[end..] == init[end..] + [bytes[|bytes| - 1]];
      end
  }

  predicate IsRecord(g: Grammar, line: seq<Byte>) {
    line != [] && NEWLINE !in line && g.isObject(line)
  }

  predicate AllRecords(g: Grammar, lines: seq<seq<Byte>>) {
    forall i :: 0 <= i < |lines| ==> IsRecord(g, lines[i])
  }

  /** The lines accepted by the check of one complete line. */
  predicate AllAccepted(g: Grammar, lines: seq<seq<Byte>>) {
    forall i :: 0 <= i < |lines| ==> lines[i] != [] && g.isObject(lines[i])
  }

  function TailCheck(g: Grammar, bytes: seq<Byte>): TailOutcome {
    var end := CompleteEnd(bytes);
    var tail := bytes[end..];
    if tail == [] then Complete
    else if !g.isUtf8(tail) || g.isJson(tail) then Refused
    else Truncate(end)
  }

  /** The Rust runtime's decision. Splitting no bytes at all yields one empty line, which is refused. */
  function RustTail(g: Grammar, bytes: seq<Byte>): TailOutcome {
    var end := CompleteEnd(bytes);
    var records := if end == 0 then [] else bytes[..end - 1];
    if !AllAccepted(g, Split(records)) then Refused else TailCheck(g, bytes)
  }

  // ----- splitting and encoding are inverse -----

  lemma {:induction false} FirstNewlineIs(line: seq<Byte>, rest: seq<Byte>)
    requires NEWLINE !in line && (rest == [] || rest[0] == NEWLINE)
    ensures FirstNewline(line + rest) == |line|
  {
    if line == [] {
      assert line + rest == rest;
    } else {
      assert (line + rest)[1..] == line[1..] + rest;
      FirstNewlineIs(line[1..], rest);
    }
  }

  lemma SplitFront(line: seq<Byte>, rest: seq<Byte>)
    requires NEWLINE !in line
    ensures Split(line + [NEWLINE] + rest) == [line] + Split(rest)
  {
    var bytes := line + [NEWLINE] + rest;
    assert bytes == line + ([NEWLINE] + rest);
    FirstNewlineIs(line, [NEWLINE] + rest);
    assert bytes[..|line|] == line && bytes[|line| + 1..] == rest;
  }

  lemma SplitWithoutNewline(last: seq<Byte>)
    requires NEWLINE !in last
    ensures Split(last) == [last]
  {
    FirstNewlineIs(last, []);
    assert last + [] == last;
  }

  lemma {:induction false} SplitEncode(lines: seq<seq<Byte>>, last: seq<Byte>)
    requires forall i :: 0 <= i < |lines| ==> NEWLINE !in lines[i]
    requires NEWLINE !in last
    ensures Split(Encode(lines) + last) == lines + [last]
  {
    if lines == [] {
      SplitWithoutNewline(last);
      assert Encode(lines) + last == last;
    } else {
      EncodeFront(lines, last);
      SplitFront(lines[0], Encode(lines[1..]) + last);
      SplitEncode(lines[1..], last);
      FrontAndRest(lines, last);
    }
  }

  lemma EncodeFront(lines: seq<seq<Byte>>, last: seq<Byte>)
    requires lines != []
    ensures Encode(lines) + last == lines[0] + [NEWLINE] + (Encode(lines[1..]) + last)
  {
  }

  lemma FrontAndRest(lines: seq<seq<Byte>>, last: seq<Byte>)
    requires lines != []
    ensures [lines[0]] + (lines[1..] + [last]) == lines + [last]
  {
  }

  lemma {:induction false} PiecesHaveNoNewline(bytes: seq<Byte>)
    ensures forall i :: 0 <= i < |Split(bytes)| ==> NEWLINE !in Split(bytes)[i]
    decreases |bytes|
  {
    var i := FirstNewline(bytes);
    if i == |bytes| {
      assert bytes[..i] == bytes;
    } else {
      PiecesHaveNoNewline(bytes[i + 1..]);
    }
  }

  /** The pieces but the last, each with a newline, and then the last. */
  function Joined(pieces: seq<seq<Byte>>): seq<Byte>
    requires pieces != []
  {
    Encode(pieces[..|pieces| - 1]) + pieces[|pieces| - 1]
  }

  lemma {:induction false} EncodeSplit(bytes: seq<Byte>)
    ensures bytes == Joined(Split(bytes))
    decreases |bytes|
  {
    var i := FirstNewline(bytes);
    if i == |bytes| {
      assert Encode([]) + bytes == bytes;
      assert [bytes][..0] == [];
    } else {
      var line, rest := bytes[..i], bytes[i + 1..];
      EncodeSplit(rest);
      EncodeCons(line, Split(rest));
      assert bytes == line + [NEWLINE] + rest;
    }
  }

  lemma EncodeCons(line: seq<Byte>, pieces: seq<seq<Byte>>)
    requires pieces != []
    ensures Joined([line] + pieces) == line + [NEWLINE] + Joined(pieces)
  {
    var all := [line] + pieces;
    assert all[..|all| - 1][1..] == pieces[..|pieces| - 1];
  }

  lemma {:induction false} CompleteEndIs(head: seq<Byte>, tail: seq<Byte>)
    requires head == [] || head[|head| - 1] == NEWLINE
    requires NEWLINE !in tail
    ensures CompleteEnd(head + tail) == |head|
  {
    if tail == [] {
      assert head + tail == head;
    } else {
      var init := tail[..|tail| - 1];
      assert (head + tail)[..|head + tail| - 1] == head + init;
      assert (head + tail)[|head + tail| - 1] == tail[|tail| - 1];
      CompleteEndIs(head, init);
    }
  }

  lemma {:induction false} EncodeEnds(lines: seq<seq<Byte>>)
    requires lines != []
    ensures Encode(lines) != [] && Encode(lines)[|Encode(lines)| - 1] == NEWLINE
  {
    if |lines| > 1 {
      EncodeEnds(lines[1..]);
    }
  }

  lemma {:induction false} EncodeAppend(a: seq<seq<Byte>>, b: seq<seq<Byte>>)
    ensures Encode(a + b) == Encode(a) + Encode(b)
  {
    if a == [] {
      assert a + b == b;
    } else {
      assert (a + b)[1..] == a[1..] + b;
      EncodeAppend(a[1..], b);
    }
  }

  lemma CompletePart(lines: seq<seq<Byte>>, tail: seq<Byte>)
    requires NEWLINE !in tail
    ensures var bytes, end := Encode(lines) + tail, |Encode(lines)|;
      CompleteEnd(bytes) == end && bytes[..end] == Encode(lines) && bytes[end..] == tail
  {
    if lines != [] {
      EncodeEnds(lines);
    }
    CompleteEndIs(Encode(lines), tail);
  }

  /** The pieces of a log with at least one complete line, as the decision takes them apart. */
  lemma LogParts(lines: seq<seq<Byte>>, tail: seq<Byte>)
    requires lines != [] && (forall i :: 0 <= i < |lines| ==> NEWLINE !in lines[i]) && NEWLINE !in tail
    ensures var bytes, end := Encode(lines) + tail, |Encode(lines)|;
      end > 0 && CompleteEnd(bytes) == end && Split(bytes[..end - 1]) == lines && bytes[end..] == tail
  {
    var bytes, end := Encode(lines) + tail, |Encode(lines)|;
    EncodeEnds(lines);
    CompleteEndIs(Encode(lines), tail);
    LastLine(lines);
    assert bytes[..end - 1] == Encode(lines)[..end - 1];
  }

  /** The lines that end with a newline. */
  function CompleteLines(bytes: seq<Byte>): seq<seq<Byte>> {
    var pieces := Split(bytes);
    pieces[..|pieces| - 1]
  }

  lemma CompleteLinesAre(lines: seq<seq<Byte>>, tail: seq<Byte>)
    requires (forall i :: 0 <= i < |lines| ==> NEWLINE !in lines[i]) && NEWLINE !in tail
    ensures CompleteLines(Encode(lines) + tail) == lines
  {
    SplitEncode(lines, tail);
  }

  /** Every sequence of bytes is, in one way, complete lines and a tail without a newline. */
  lemma Decomposition(bytes: seq<Byte>) returns (lines: seq<seq<Byte>>, tail: seq<Byte>)
    ensures bytes == Encode(lines) + tail && lines == CompleteLines(bytes)
    ensures NEWLINE !in tail && forall i :: 0 <= i < |lines| ==> NEWLINE !in lines[i]
    ensures CompleteEnd(bytes) == |Encode(lines)|
    ensures lines == [] <==> CompleteEnd(bytes) == 0
    ensures lines != [] ==> Split(bytes[..CompleteEnd(bytes) - 1]) == lines
  {
    var pieces := Split(bytes);
    EncodeSplit(bytes);
    PiecesHaveNoNewline(bytes);
    lines, tail := pieces[..|pieces| - 1], pieces[|pieces| - 1];
    assert bytes == Encode(lines) + tail;
    if lines == [] {
      CompleteEndIs([], tail);
      assert [] + tail == tail == bytes;
    } else {
      LogParts(lines, tail);
    }
  }

  lemma LastLine(lines: seq<seq<Byte>>)
    requires lines != [] && forall i :: 0 <= i < |lines| ==> NEWLINE !in lines[i]
    ensures Encode(lines) != [] && Split(Encode(lines)[..|Encode(lines)| - 1]) == lines
  {
    var init, last := lines[..|lines| - 1], lines[|lines| - 1];
    assert lines == init + [last];
    EncodeAppend(init, [last]);
    assert Encode([last]) == last + [NEWLINE];
    assert Encode(lines)[..|Encode(lines)| - 1] == Encode(init) + last;
    SplitEncode(init, last);
  }

  // ----- what the decision means -----

  /** The bytes are complete records, `lines`, followed by `tail`. */
  ghost predicate IsLogOf(g: Grammar, bytes: seq<Byte>, lines: seq<seq<Byte>>, tail: seq<Byte>) {
    bytes == Encode(lines) + tail && AllRecords(g, lines) && NEWLINE !in tail
  }

  predicate Torn(g: Grammar, tail: seq<Byte>) {
    tail != [] && g.isUtf8(tail) && !g.isJson(tail)
  }

  lemma RustTailOnLog(g: Grammar, lines: seq<seq<Byte>>, tail: seq<Byte>)
    requires AllRecords(g, lines) && NEWLINE !in tail
    ensures RustTail(g, Encode(lines) + tail) ==
      if lines == [] then RustTail(g, tail)
      else if tail == [] then Complete
      else if Torn(g, tail) then Truncate(|Encode(lines)|)
      else Refused
  {
    if lines == [] {
      assert Encode(lines) + tail == tail;
    } else {
      LogParts(lines, tail);
    }
  }

  /** The Rust runtime refuses any file without a newline, even an empty one. */
  lemma RustTailWithoutNewline(g: Grammar, bytes: seq<Byte>)
    requires NEWLINE !in bytes
    ensures RustTail(g, bytes) == Refused
  {
    CompleteEndIs([], bytes);
    assert [] + bytes == bytes;
    assert Split([])[0] == [];
  }

  /**
   The decision, exactly, for every content: complete records are accepted,
   complete records and a torn tail are cut back to the records, and all else is
   refused.
   */
  lemma RustTailExactly(g: Grammar, bytes: seq<Byte>)
    ensures RustTail(g, bytes).Complete? <==>
      exists lines :: lines != [] && IsLogOf(g, bytes, lines, [])
    ensures forall n: nat :: RustTail(g, bytes) == Truncate(n) <==>
      exists lines, tail :: lines != [] && IsLogOf(g, bytes, lines, tail) && Torn(g, tail) && n == |Encode(lines)|
  {
    var lines, tail := Decomposition(bytes);
    if lines == [] {
      assert Encode(lines) + tail == tail;
      RustTailWithoutNewline(g, bytes);
    } else if AllAccepted(g, lines) {
      assert AllRecords(g, lines);
      RustTailOnLog(g, lines, tail);
      assert IsLogOf(g, bytes, lines, tail);
    }
    forall lines', tail' | lines' != [] && IsLogOf(g, bytes, lines', tail')
      ensures lines' == lines && tail' == tail
    {
      LogUnique(g, bytes, lines, tail, lines', tail');
    }
  }

  lemma LogUnique(g: Grammar, bytes: seq<Byte>, lines: seq<seq<Byte>>, tail: seq<Byte>,
                  lines': seq<seq<Byte>>, tail': seq<Byte>)
    requires bytes == Encode(lines) + tail && NEWLINE !in tail
    requires forall i :: 0 <= i < |lines| ==> NEWLINE !in lines[i]
    requires IsLogOf(g, bytes, lines', tail')
    ensures lines' == lines && tail' == tail
  {
    SplitEncode(lines, tail);
    SplitEncode(lines', tail');
    assert lines + [tail] == lines' + [tail'];
    assert (lines + [tail])[..|lines|] == (lines' + [tail'])[..|lines'|];
    assert (lines + [tail])[|lines|] == (lines' + [tail'])[|lines'|];
  }

  // ----- a record that was being written when the process died -----

  /**
   The record is the text of a JSON object. By section 4 of RFC 8259 such a text
   ends with its closing brace, so that no proper prefix of it is JSON.
   */
  ghost predicate IsObjectText(g: Grammar, record: seq<Byte>) {
    && IsRecord(g, record)
    && g.isJson(record)
    && forall k :: 0 <= k < |record| ==> !g.isJson(record[..k])
  }

  function Recovered(bytes: seq<Byte>, outcome: TailOutcome): seq<Byte> {
    match outcome
    case Truncate(n) => if n <= |bytes| then bytes[..n] else bytes
    case _ => bytes
  }

  /**
   A write of one record that stopped after `k` of its bytes, exactly: nothing
   was written and the log stands; a torn record is cut off; a cut inside a
   character, or before the newline only, is refused with the file as it is; and
   the whole line is kept. The first record of a file has to be whole.
   */
  lemma TornAppend(g: Grammar, lines: seq<seq<Byte>>, record: seq<Byte>, k: nat)
    requires AllRecords(g, lines) && IsObjectText(g, record) && k <= |record| + 1
    ensures var bytes := Encode(lines) + (record + [NEWLINE])[..k];
      var outcome := RustTail(g, bytes);
      && (outcome == Complete <==> k == |record| + 1 || (k == 0 && lines != []))
      && (outcome == Truncate(|Encode(lines)|) <==> 0 < k < |record| && g.isUtf8(record[..k]) && lines != [])
      && (outcome == Refused <==>
            k <= |record| && (lines == [] || k == |record| || (k > 0 && !g.isUtf8(record[..k]))))
      && (outcome != Refused ==>
            Recovered(bytes, outcome) == Encode(if k == |record| + 1 then lines + [record] else lines))
  {
    if k == |record| + 1 {
      WholeRecord(g, lines, record);
    } else if lines == [] {
      assert Encode(lines) + (record + [NEWLINE])[..k] == record[..k];
      RustTailWithoutNewline(g, record[..k]);
    } else {
      PartOfRecord(g, lines, record, k);
    }
  }

  lemma PartOfRecord(g: Grammar, lines: seq<seq<Byte>>, record: seq<Byte>, k: nat)
    requires AllRecords(g, lines) && IsObjectText(g, record) && k <= |record| && lines != []
    ensures var bytes := Encode(lines) + (record + [NEWLINE])[..k];
      && RustTail(g, bytes) ==
           (if k == 0 then Complete
            else if k < |record| && g.isUtf8(record[..k]) then Truncate(|Encode(lines)|)
            else Refused)
      && bytes[..|Encode(lines)|] == Encode(lines)
      && (k == 0 ==> bytes == Encode(lines))
  {
    assert (record + [NEWLINE])[..k] == record[..k];
    assert record[..|record|] == record;
    RustTailOnLog(g, lines, record[..k]);
  }

  lemma WholeRecord(g: Grammar, lines: seq<seq<Byte>>, record: seq<Byte>)
    requires AllRecords(g, lines) && IsObjectText(g, record)
    ensures var bytes := Encode(lines) + (record + [NEWLINE])[..|record| + 1];
      bytes == Encode(lines + [record]) && RustTail(g, bytes) == Complete
  {
    assert (record + [NEWLINE])[..|record| + 1] == record + [NEWLINE] == Encode([record]);
    EncodeAppend(lines, [record]);
    CompleteLogAccepted(g, lines + [record]);
  }

  lemma NotRefusedIsLog(g: Grammar, bytes: seq<Byte>) returns (lines: seq<seq<Byte>>, tail: seq<Byte>)
    requires !RustTail(g, bytes).Refused?
    ensures lines != [] && IsLogOf(g, bytes, lines, tail)
    ensures CompleteEnd(bytes) == |Encode(lines)|
  {
    lines, tail := Decomposition(bytes);
    if lines == [] {
      assert bytes == tail;
      RustTailWithoutNewline(g, bytes);
    }
  }

  /** Recovery removes nothing up to the last newline, and a second recovery finds nothing to do. */
  lemma RecoveryIsIdempotent(g: Grammar, bytes: seq<Byte>)
    requires !RustTail(g, bytes).Refused?
    ensures var once := Recovered(bytes, RustTail(g, bytes));
      && once <= bytes
      && CompleteEnd(bytes) <= |once|
      && NEWLINE !in bytes[|once|..]
      && RustTail(g, once) == Complete
  {
    var lines, tail := NotRefusedIsLog(g, bytes);
    RustTailOnLog(g, lines, tail);
    if RustTail(g, bytes).Truncate? {
      assert bytes[..|Encode(lines)|] == Encode(lines);
      assert bytes[|Encode(lines)|..] == tail;
      CompleteLogAccepted(g, lines);
    }
  }

  lemma CompleteLogAccepted(g: Grammar, lines: seq<seq<Byte>>)
    requires AllRecords(g, lines) && lines != []
    ensures RustTail(g, Encode(lines)) == Complete
  {
    RustTailOnLog(g, lines, []);
    assert Encode(lines) + [] == Encode(lines);
  }
}
