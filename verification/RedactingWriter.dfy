/** The line-buffering writer that redacts what passes through it (crates/api/src/telemetry.rs). */
module RedactingWriter {
  import opened Wrappers
  import opened Text
  import opened Redaction

  const NEWLINE: Byte := 10

  function Emit(codec: Codec, line: seq<Byte>): seq<Byte> {
    RedactLine(codec, line) + [NEWLINE]
  }

  /** The newline-terminated lines of a stream, each redacted. */
  function Emitted(codec: Codec, stream: seq<Byte>): seq<Byte> {
    match IndexOf(stream, NEWLINE)
    case None => []
    case Some(at) => Emit(codec, stream[..at]) + Emitted(codec, stream[at + 1..])
  }

  /** What follows the last newline. */
  function Fragment(stream: seq<Byte>): (fragment: seq<Byte>)
    ensures NEWLINE !in fragment
  {
    match IndexOf(stream, NEWLINE)
    case None => stream
    case Some(at) => Fragment(stream[at + 1..])
  }

  /** What a whole stream must come out as. */
  function Output(codec: Codec, stream: seq<Byte>): seq<Byte> {
    Emitted(codec, stream) + if Fragment(stream) == [] then [] else Emit(codec, Fragment(stream))
  }

  function Flatten(chunks: seq<seq<Byte>>): seq<Byte> {
    if chunks == [] then [] else chunks[0] + Flatten(chunks[1..])
  }

  lemma FirstLine(codec: Codec, line: seq<Byte>, rest: seq<Byte>)
    requires NEWLINE !in line
    ensures Emitted(codec, line + [NEWLINE] + rest) == Emit(codec, line) + Emitted(codec, rest)
    ensures Fragment(line + [NEWLINE] + rest) == Fragment(rest)
  {
    FirstSeparator(line, NEWLINE, rest);
  }

  /** What has been read splits off: only the unfinished fragment matters to what comes next. */
  lemma {:induction false} EmittedConcat(codec: Codec, a: seq<Byte>, b: seq<Byte>)
    ensures Emitted(codec, a + b) == Emitted(codec, a) + Emitted(codec, Fragment(a) + b)
    ensures Fragment(a + b) == Fragment(Fragment(a) + b)
  {
    var i := IndexOf(a, NEWLINE);
    if i.Some? {
      var line, rest := a[..i.value], a[i.value + 1..];
      EmittedConcat(codec, rest, b);
      SplitAt(a, i.value);
      ConcatAssociates(line + [NEWLINE], rest, b);
      FirstLine(codec, line, rest + b);
      ConcatAssociates(Emit(codec, line), Emitted(codec, rest), Emitted(codec, Fragment(rest) + b));
    }
  }

  // --- an inner writer that fails ------------------------------------------

  /** The stream ends at a line end. */
  predicate IsWholeLines(stream: seq<Byte>) {
    Fragment(stream) == []
  }

  /**
   An error while draining: the lines before it came out whole, of its own line only a part came
   out, and the rest, newlines included, is still pending. That line is never tried again.
   */
  predicate StoppedAt(codec: Codec, before: seq<Byte>, head: seq<Byte>, line: seq<Byte>, pending: seq<Byte>, out: seq<Byte>) {
    && NEWLINE !in line && IsWholeLines(head) && before == head + (line + [NEWLINE] + pending)
    && Emitted(codec, head) <= out <= Emitted(codec, head) + Emit(codec, line)
  }

  ghost predicate Stopped(codec: Codec, before: seq<Byte>, pending: seq<Byte>, out: seq<Byte>) {
    exists head, line :: StoppedAt(codec, before, head, line, pending, out)
  }

  /** So much of a stream has come out, and the rest is pending. */
  predicate Drained(codec: Codec, before: seq<Byte>, head: seq<Byte>, pending: seq<Byte>, out: seq<Byte>) {
    IsWholeLines(head) && before == head + pending && out == Emitted(codec, head)
  }

  lemma OneMoreLine(codec: Codec, head: seq<Byte>, line: seq<Byte>)
    requires IsWholeLines(head) && NEWLINE !in line
    ensures IsWholeLines(head + (line + [NEWLINE]))
    ensures Emitted(codec, head + (line + [NEWLINE])) == Emitted(codec, head) + Emit(codec, line)
  {
    EmittedConcat(codec, head, line + [NEWLINE]);
    FirstLine(codec, line, []);
    assert line + [NEWLINE] + [] == line + [NEWLINE] && [] + (line + [NEWLINE]) == line + [NEWLINE];
  }

  lemma DrainedOneMore(codec: Codec, before: seq<Byte>, head: seq<Byte>, pending: seq<Byte>, out: seq<Byte>, line: seq<Byte>,
                       rest: seq<Byte>)
    requires Drained(codec, before, head, pending, out) && NEWLINE !in line && pending == line + [NEWLINE] + rest
    ensures Drained(codec, before, head + (line + [NEWLINE]), rest, out + Emit(codec, line))
  {
    OneMoreLine(codec, head, line);
    ConcatAssociates(head, line + [NEWLINE], rest);
  }

  lemma StoppedInLine(codec: Codec, before: seq<Byte>, head: seq<Byte>, pending: seq<Byte>, out: seq<Byte>, line: seq<Byte>,
                      rest: seq<Byte>, part: seq<Byte>)
    requires Drained(codec, before, head, pending, out) && NEWLINE !in line && pending == line + [NEWLINE] + rest
    requires part <= Emit(codec, line)
    ensures Stopped(codec, before, rest, out + part)
  {
    assert StoppedAt(codec, before, head, line, rest, out + part);
  }

  lemma DrainedAll(codec: Codec, before: seq<Byte>, head: seq<Byte>, pending: seq<Byte>, out: seq<Byte>)
    requires Drained(codec, before, head, pending, out) && NEWLINE !in pending
    ensures pending == Fragment(before) && out == Emitted(codec, before)
  {
    EmittedConcat(codec, head, pending);
    assert [] + pending == pending;
  }

  class RedactingWriter {
    const codec: Codec
    var pending: seq<Byte>
    /** What the inner writer has been given. */
    var written: seq<Byte>
    /** How its next calls go: it takes everything, or fails after so many bytes. */
    var faults: seq<Option<nat>>

    /** No newline is pending, as is the case after every call that succeeded. */
    predicate Valid()
      reads this
    {
      NEWLINE !in pending
    }

    predicate Reliable()
      reads this
    {
      forall i | 0 <= i < |faults| :: faults[i].None?
    }

    constructor (codec: Codec, faults: seq<Option<nat>>)
      ensures Valid() && pending == [] && written == [] && this.codec == codec && this.faults == faults
    {
      this.codec := codec;
      this.faults := faults;
      pending, written := [], [];
    }

    /** `write_all` of the inner writer; `given` is what it took. */
    method WriteAll(bytes: seq<Byte>) returns (ok: bool, ghost given: seq<Byte>)
      modifies `written, `faults
      ensures written == old(written) + given && given <= bytes
      ensures ok ==> given == bytes
      ensures old(Reliable()) ==> ok && Reliable()
    {
      var fault := None;
      if faults != [] {
        fault, faults := faults[0], faults[1..];
      }
      var n := if fault.Some? && fault.value < |bytes| then fault.value else |bytes|;
      given := bytes[..n];
      written := written + bytes[..n];
      ok := fault.None?;
    }

    /** A line and its newline. */
    method WriteLine(line: seq<Byte>) returns (ok: bool, ghost given: seq<Byte>)
      modifies `written, `faults
      ensures written == old(written) + given && given <= Emit(codec, line)
      ensures ok ==> given == Emit(codec, line)
      ensures old(Reliable()) ==> ok && Reliable()
    {
      var redacted := RedactLine(codec, line);
      ok, given := WriteAll(redacted);
      if ok {
        ghost var ending;
        ok, ending := WriteAll([NEWLINE]);
        ConcatAssociates(old(written), given, ending);
        given := given + ending;
      }
    }

    method DrainLines() returns (ok: bool, ghost out: seq<Byte>)
      modifies this
      ensures written == old(written) + out
      ensures ok ==> Valid() && pending == Fragment(old(pending)) && out == Emitted(codec, old(pending))
      ensures !ok ==> Stopped(codec, old(pending), pending, out)
      ensures old(Reliable()) ==> ok && Reliable()
    {
      ghost var head: seq<Byte> := [];
      out := [];
      assert written + out == written && head + pending == pending;
      while IndexOf(pending, NEWLINE).Some?
        invariant Drained(codec, old(pending), head, pending, out)
        invariant written == old(written) + out
        invariant old(Reliable()) ==> Reliable()
        decreases |pending|
      {
        var at := IndexOf(pending, NEWLINE).value;
        var line, rest := pending[..at + 1], pending[at + 1..];
        var body := line[..|line| - 1];
        SplitAt(pending, at);
        assert body == pending[..at];
        ghost var before := pending;
        pending := rest;
        ghost var given;
        ok, given := WriteLine(body);
        ConcatAssociates(old(written), out, given);
        if !ok {
          StoppedInLine(codec, old(pending), head, before, out, body, rest, given);
          out := out + given;
          return;
        }
        DrainedOneMore(codec, old(pending), head, before, out, body, rest);
        head, out := head + (body + [NEWLINE]), out + given;
      }
      DrainedAll(codec, old(pending), head, pending, out);
      ok := true;
    }

    /** A write whose lines could not all be passed on reports the error; only the line that failed is forgotten. */
    method Write(buf: seq<Byte>) returns (n: Option<nat>, ghost out: seq<Byte>)
      modifies this
      ensures written == old(written) + out
      ensures n.Some? ==> Valid() && n.value == |buf| && pending == Fragment(old(pending) + buf)
      ensures n.Some? ==> out == Emitted(codec, old(pending) + buf)
      ensures n.None? ==> Stopped(codec, old(pending) + buf, pending, out)
      ensures old(Reliable()) ==> n.Some? && Reliable()
    {
      pending := pending + buf;
      var ok;
      ok, out := DrainLines();
      n := if ok then Some(|buf|) else None;
    }

    /** Also what dropping the writer does. What is pending goes out as one line, or is lost with the error. */
    method Flush() returns (ok: bool, ghost out: seq<Byte>)
      modifies this
      ensures Valid() && pending == []
      ensures written == old(written) + out && out <= if old(pending) == [] then [] else Emit(codec, old(pending))
      ensures ok ==> out == if old(pending) == [] then [] else Emit(codec, old(pending))
      ensures old(Reliable()) ==> ok && Reliable()
    {
      ok, out := true, [];
      if pending != [] {
        var line := pending;
        pending := [];
        ok, out := WriteLine(line);
      }
    }

    /**
     However a stream is cut into writes, once flushed it has come out as the redaction of each of
     its lines in order, an unterminated last one included.
     */
    method Deliver(chunks: seq<seq<Byte>>)
      requires Valid() && pending == [] && Reliable()
      modifies this
      ensures Valid() && pending == []
      ensures written == old(written) + Output(codec, Flatten(chunks))
    {
      ghost var stream: seq<Byte> := [];
      for i := 0 to |chunks|
        invariant Valid() && Reliable() && stream + Flatten(chunks[i..]) == Flatten(chunks)
        invariant pending == Fragment(stream)
        invariant written == old(written) + Emitted(codec, stream)
      {
        EmittedConcat(codec, stream, chunks[i]);
        ConcatAssociates(old(written), Emitted(codec, stream), Emitted(codec, pending + chunks[i]));
        assert chunks[i..][1..] == chunks[i + 1..];
        ConcatAssociates(stream, chunks[i], Flatten(chunks[i + 1..]));
        stream := stream + chunks[i];
        var n, out := Write(chunks[i]);
      }
      assert stream == Flatten(chunks) by {
        assert chunks[|chunks|..] == [];
      }
      ConcatAssociates(old(written), Emitted(codec, stream), if pending == [] then [] else Emit(codec, pending));
      var ok, out := Flush();
    }
  }

  function EmitAll(codec: Codec, lines: seq<seq<Byte>>): seq<Byte> {
    if lines == [] then [] else Emit(codec, lines[0]) + EmitAll(codec, lines[1..])
  }

  lemma OutputOfLine(codec: Codec, line: seq<Byte>, rest: seq<Byte>)
    requires NEWLINE !in line
    ensures Output(codec, line + [NEWLINE] + rest) == Emit(codec, line) + Output(codec, rest)
  {
    FirstLine(codec, line, rest);
    ConcatAssociates(Emit(codec, line), Emitted(codec, rest), if Fragment(rest) == [] then [] else Emit(codec, Fragment(rest)));
  }

  /** The lines to be emitted: the last is one only if there is something in it. */
  function WithLast(lines: seq<seq<Byte>>, fragment: seq<Byte>): seq<seq<Byte>> {
    if fragment == [] then lines else lines + [fragment]
  }

  lemma WithLastCons(lines: seq<seq<Byte>>, fragment: seq<Byte>)
    requires lines != []
    ensures WithLast(lines, fragment) == [lines[0]] + WithLast(lines[1..], fragment)
    ensures lines + [fragment] == [lines[0]] + (lines[1..] + [fragment])
  {
  }

  /** A stream of whole lines and a last fragment comes out as one redacted line for each. */
  lemma {:induction false} OutputIsPerLine(codec: Codec, lines: seq<seq<Byte>>, fragment: seq<Byte>)
    requires NEWLINE !in fragment && forall i | 0 <= i < |lines| :: NEWLINE !in lines[i]
    ensures Output(codec, Join(lines + [fragment], NEWLINE)) == EmitAll(codec, WithLast(lines, fragment))
  {
    if lines == [] {
      LastLine(codec, fragment);
    } else {
      OutputIsPerLine(codec, lines[1..], fragment);
      WithLastCons(lines, fragment);
      JoinCons(lines[0], lines[1..] + [fragment], NEWLINE);
      OutputOfLine(codec, lines[0], Join(lines[1..] + [fragment], NEWLINE));
      EmitCons(codec, lines[0], WithLast(lines[1..], fragment));
    }
  }

  lemma LastLine(codec: Codec, fragment: seq<Byte>)
    requires NEWLINE !in fragment
    ensures Output(codec, Join([] + [fragment], NEWLINE)) == EmitAll(codec, WithLast([], fragment))
  {
    assert [] + [fragment] == [fragment];
    EmitCons(codec, fragment, []);
  }

  lemma EmitCons(codec: Codec, line: seq<Byte>, rest: seq<seq<Byte>>)
    ensures EmitAll(codec, [line] + rest) == Emit(codec, line) + EmitAll(codec, rest)
  {
    assert ([line] + rest)[1..] == rest;
  }
}
