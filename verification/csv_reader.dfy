// The byte-level CSV reader that csv.DictReader drives: the parser state
// machine of the csv module for the default "excel" dialect (delimiter ',',
// quote '"', doubled quotes, no escape character, non-strict), fed line by
// line from an in-memory byte stream.

module CsvReader {
  import opened Wrappers
  import opened PyValues

  const Comma: Byte := 0x2C
  const Quote: Byte := 0x22
  const Cr: Byte := 0x0D
  const Lf: Byte := 0x0A

  type Field = seq<Byte>
  type Record = seq<Field>

  predicate IsNewline(c: Byte) { c == Lf || c == Cr }

  datatype Phase = StartRecord | StartField | InField | InQuotedField | QuoteInQuotedField | EatCrNl

  /** The parser: its phase, the fields of the record so far and the field being read. */
  datatype Parser = Parser(phase: Phase, fields: Record, field: Field)

  /** The parser at the start of every record. */
  const Fresh := Parser(StartRecord, [], [])

  /** The input as the parser sees it: the bytes of each line, each line
      followed by an end-of-line event. */
  datatype Event = Char(c: Byte) | LineEnd

  function Save(p: Parser, next: Phase): (q: Parser)
    ensures q.fields == p.fields + [p.field] && q.field == [] && q.phase == next
  {
    Parser(next, p.fields + [p.field], [])
  }

  function Add(p: Parser, c: Byte, next: Phase): (q: Parser)
    ensures q.fields == p.fields && q.field == p.field + [c] && q.phase == next
  {
    Parser(next, p.fields, p.field + [c])
  }

  /** A byte where a field is expected. */
  function BeginField(p: Parser, c: Byte): Parser
  {
    if IsNewline(c) then Save(p, EatCrNl)
    else if c == Quote then p.(phase := InQuotedField)
    else if c == Comma then Save(p, StartField)
    else Add(p, c, InField)
  }

  /** One byte of a line (never NUL: the reader refuses those before parsing). */
  function Step(p: Parser, c: Byte): (r: Result<Parser, CsvFault>)
    requires c != 0
    ensures r.Failure? <==> p.phase == EatCrNl && !IsNewline(c)
    ensures r.Failure? ==> r.error == NewlineInUnquotedField
    ensures r.Success? ==> |p.fields| <= |r.value.fields| <= |p.fields| + 1
  {
    match p.phase
    case StartRecord =>
      if IsNewline(c) then Success(p.(phase := EatCrNl)) else Success(BeginField(p, c))
    case StartField => Success(BeginField(p, c))
    case InField =>
      if IsNewline(c) then Success(Save(p, EatCrNl))
      else if c == Comma then Success(Save(p, StartField))
      else Success(Add(p, c, InField))
    case InQuotedField =>
      if c == Quote then Success(p.(phase := QuoteInQuotedField))
      else Success(Add(p, c, InQuotedField))
    case QuoteInQuotedField =>
      if c == Quote then Success(Add(p, c, InQuotedField))
      else if c == Comma then Success(Save(p, StartField))
      else if IsNewline(c) then Success(Save(p, EatCrNl))
      else Success(Add(p, c, InField))
    case EatCrNl =>
      if IsNewline(c) then Success(p) else Failure(NewlineInUnquotedField)
  }

  /** The end-of-line event; a record is complete when the phase is back at StartRecord. */
  function EndLine(p: Parser): (q: Parser)
    ensures q.phase == StartRecord || q.phase == InQuotedField
    ensures p.phase == InQuotedField ==> q == p
  {
    match p.phase
    case StartRecord => p
    case StartField => Save(p, StartRecord)
    case InField => Save(p, StartRecord)
    case InQuotedField => p
    case QuoteInQuotedField => Save(p, StartRecord)
    case EatCrNl => p.(phase := StartRecord)
  }

  /** Every byte as a Char event, with a LineEnd event after each '\n'. */
  function Marked(data: seq<Byte>): (e: seq<Event>)
    ensures |e| >= |data|
    ensures data != [] && data[|data| - 1] == Lf ==> |e| > 0 && e[|e| - 1] == LineEnd
  {
    if data == [] then []
    else if data[0] == Lf then [Char(Lf), LineEnd] + Marked(data[1..])
    else [Char(data[0])] + Marked(data[1..])
  }

  /** The lines of an in-memory stream: split after each '\n', the last line
      possibly without one; each line is followed by an end-of-line event. */
  function Lines(data: seq<Byte>): (e: seq<Event>)
    ensures |e| >= |data|
    ensures data == [] <==> e == []
    ensures data != [] ==> e[|e| - 1] == LineEnd
  {
    if data != [] && data[|data| - 1] != Lf then Marked(data) + [LineEnd] else Marked(data)
  }

  /** What the parser produced: complete records, the parser state, and the fault that stopped it. */
  datatype Outcome = Outcome(records: seq<Record>, parser: Parser, fault: Option<CsvFault>)

  /** Run the parser over events; a record is handed out each time a line ends
      at StartRecord, and parsing of the next record starts afresh. */
  function Feed(p: Parser, events: seq<Event>): (o: Outcome)
    ensures o.fault.None? && events != [] && events[|events| - 1] == LineEnd ==>
      o.parser.phase == StartRecord || o.parser.phase == InQuotedField
    decreases |events|
  {
    if events == [] then Outcome([], p, None)
    else match events[0]
      case Char(c) =>
        if c == 0 then Outcome([], p, Some(NullByte))
        else (match Step(p, c)
          case Failure(f) => Outcome([], p, Some(f))
          case Success(q) => Feed(q, events[1..]))
      case LineEnd =>
        var q := EndLine(p);
        if q.phase == StartRecord then
          var o := Feed(Fresh, events[1..]);
          o.(records := [q.fields] + o.records)
        else Feed(q, events[1..])
  }

  /** The records of the whole stream and, when one stopped it, the fault. */
  datatype Parsed = Parsed(records: seq<Record>, fault: Option<CsvFault>)

  /** Read the whole stream; at the end of the input a pending field (an open
      quoted field) is saved and its record handed out. */
  function Parse(data: seq<Byte>): (p: Parsed)
    ensures (exists i :: 0 <= i < |data| && data[i] == 0) ==> p.fault.Some?
  {
    LinesRefuseNul(data);
    var o := Feed(Fresh, Lines(data));
    if o.fault.Some? then Parsed(o.records, o.fault)
    else if o.parser.field != [] || o.parser.phase == InQuotedField then
      Parsed(o.records + [o.parser.fields + [o.parser.field]], None)
    else Parsed(o.records, None)
  }

  /** Concatenation is associative (stated once so that proofs can name the step). */
  lemma Regroup<T>(a: seq<T>, b: seq<T>, c: seq<T>)
    ensures a + b + c == a + (b + c)
  {
  }

  /** Marking commutes with concatenation. */
  lemma {:induction false} MarkedAppend(a: seq<Byte>, b: seq<Byte>)
    ensures Marked(a + b) == Marked(a) + Marked(b)
    decreases |a|
  {
    if a == [] {
      assert a + b == b;
    } else {
      assert (a + b)[0] == a[0];
      assert (a + b)[1..] == a[1..] + b;
      var head := if a[0] == Lf then [Char(Lf), LineEnd] else [Char(a[0])];
      assert Marked(a) == head + Marked(a[1..]);
      assert Marked(a + b) == head + Marked(a[1..] + b);
      MarkedAppend(a[1..], b);
      Regroup(head, Marked(a[1..]), Marked(b));
    }
  }

  /** Feeding two pieces of input in turn is feeding their concatenation. */
  lemma {:induction false} FeedAppend(p: Parser, e1: seq<Event>, e2: seq<Event>)
    ensures Feed(p, e1 + e2) ==
      var o1 := Feed(p, e1);
      if o1.fault.Some? then o1
      else var o2 := Feed(o1.parser, e2); o2.(records := o1.records + o2.records)
    decreases |e1|
  {
    if e1 == [] {
      assert e1 + e2 == e2;
    } else {
      assert (e1 + e2)[0] == e1[0];
      assert (e1 + e2)[1..] == e1[1..] + e2;
      match e1[0]
      case Char(c) =>
        if c != 0 && Step(p, c).Success? {
          FeedAppend(Step(p, c).value, e1[1..], e2);
        }
      case LineEnd =>
        var q := EndLine(p);
        if q.phase == StartRecord {
          FeedAppend(Fresh, e1[1..], e2);
        } else {
          FeedAppend(q, e1[1..], e2);
        }
    }
  }

  /** A NUL byte anywhere makes the reader stop with a fault. */
  lemma {:induction false} FeedStopsAtNul(p: Parser, data: seq<Byte>, tail: seq<Event>)
    requires exists i :: 0 <= i < |data| && data[i] == 0
    ensures Feed(p, Marked(data) + tail).fault.Some?
    decreases |data|
  {
    var e := Marked(data) + tail;
    if data[0] == 0 {
      assert e[0] == Char(0);
    } else {
      var i :| 0 <= i < |data| && data[i] == 0;
      assert data[1..][i - 1] == 0;
      var rest := Marked(data[1..]) + tail;
      if data[0] == Lf {
        assert e == [Char(Lf)] + ([LineEnd] + rest);
        if Step(p, Lf).Success? {
          var q := Step(p, Lf).value;
          assert Feed(p, e) == Feed(q, [LineEnd] + rest);
          var q' := EndLine(q);
          assert ([LineEnd] + rest)[1..] == rest;
          FeedStopsAtNul(Fresh, data[1..], tail);
          FeedStopsAtNul(q', data[1..], tail);
        }
      } else {
        assert e == [Char(data[0])] + rest;
        if Step(p, data[0]).Success? {
          FeedStopsAtNul(Step(p, data[0]).value, data[1..], tail);
        }
      }
    }
  }

  /** A NUL byte anywhere in the stream stops the reader with a fault. */
  lemma LinesRefuseNul(data: seq<Byte>)
    ensures (exists i :: 0 <= i < |data| && data[i] == 0) ==> Feed(Fresh, Lines(data)).fault.Some?
  {
    if exists i :: 0 <= i < |data| && data[i] == 0 {
      if data[|data| - 1] != Lf {
        FeedStopsAtNul(Fresh, data, [LineEnd]);
      } else {
        FeedStopsAtNul(Fresh, data, []);
        assert Marked(data) + [] == Marked(data);
      }
    }
  }
}
