/** The part of asyncio's StreamReader / StreamWriter that the proxy relies on:
    a reader is the bytes the peer will send plus a cursor, a writer is the
    log of what was handed to it. Exceptions are values. */
module Streams {

  type byte = b: int | 0 <= b < 0x100

  const Newline: byte := 0x0A

  /** The Python exceptions the model distinguishes. */
  datatype Exception =
    | IncompleteReadError   // asyncio: the stream ended before readexactly(n) was satisfied
    | ValueError            // protocol errors raised by the handlers (and UnicodeDecodeError)
    | TypeError             // StreamWriter.write given something that is not bytes

  /** The result of a Python call: a returned value or a raised exception. */
  datatype Outcome<+T> = Return(value: T) | Raise(error: Exception) {
    predicate IsFailure() { Raise? }
    function PropagateFailure<U>(): Outcome<U>
      requires Raise?
    {
      Raise(error)
    }
    function Extract(): T
      requires Return?
    {
      value
    }
  }

  datatype Option<+T> = None | Some(value: T)

  /** What a reading call does to a stream whose unread bytes are `s`:
      its outcome and how many bytes it took off the front of `s`. */
  datatype Read<+T> = Read(outcome: Outcome<T>, consumed: nat)

  /** `readexactly(n)` on unread bytes `s`. On a short stream asyncio clears its
      buffer before raising, so everything left is consumed. */
  function ReadExactlyOn(s: seq<byte>, n: nat): Read<seq<byte>>
  {
    if n <= |s| then Read(Return(s[..n]), n) else Read(Raise(IncompleteReadError), |s|)
  }

  /** Length of the line `readline()` returns from unread bytes `s`: up to and
      including the first newline, or all of `s` when it holds none. */
  function LineLength(s: seq<byte>): (n: nat)
    ensures n <= |s|
    ensures s != [] ==> 0 < n
    ensures forall i | 0 <= i < n - 1 :: s[i] != Newline
    ensures 0 < n ==> s[n - 1] == Newline || n == |s|
  {
    if s == [] then 0
    else if s[0] == Newline then 1
    else 1 + LineLength(s[1..])
  }

  /** The successive lines that repeated `readline()` calls return from `s`. */
  function Lines(s: seq<byte>): seq<seq<byte>>
    decreases |s|
  {
    if s == [] then [] else [s[..LineLength(s)]] + Lines(s[LineLength(s)..])
  }

  function Flatten(chunks: seq<seq<byte>>): seq<byte>
  {
    if chunks == [] then [] else chunks[0] + Flatten(chunks[1..])
  }

  /** Every line is non-empty, holds no newline before its last byte, and all
      lines but the last end in a newline. */
  lemma {:induction false} LinesAreLines(s: seq<byte>)
    ensures forall k | 0 <= k < |Lines(s)| :: Lines(s)[k] != []
    ensures forall k, i | 0 <= k < |Lines(s)| && 0 <= i < |Lines(s)[k]| - 1 :: Lines(s)[k][i] != Newline
    ensures forall k | 0 <= k < |Lines(s)| - 1 :: Lines(s)[k][|Lines(s)[k]| - 1] == Newline
    decreases |s|
  {
    if s != [] {
      var n := LineLength(s);
      LinesAreLines(s[n..]);
      assert Lines(s) == [s[..n]] + Lines(s[n..]);
      if 1 < |Lines(s)| {
        assert s[n..] != [];
        assert n < |s|;
      }
    }
  }

  /** Splitting into lines loses and adds nothing: the lines put back together
      are the stream. */
  lemma {:induction false} FlattenLines(s: seq<byte>)
    ensures Flatten(Lines(s)) == s
    decreases |s|
  {
    if s != [] {
      var n := LineLength(s);
      FlattenLines(s[n..]);
      assert Lines(s) == [s[..n]] + Lines(s[n..]);
      assert Lines(s)[1..] == Lines(s[n..]);
      assert s[..n] + s[n..] == s;
    }
  }

  /** A stream from a peer: the bytes it will ever send and how many were read. */
  class Reader {
    const data: seq<byte>
    var pos: nat

    ghost predicate Valid()
      reads this
    {
      pos <= |data|
    }

    function Unread(): seq<byte>
      reads this
      requires Valid()
    {
      data[pos..]
    }

    constructor (data: seq<byte>)
      ensures Valid() && this.data == data && pos == 0
    {
      this.data := data;
      pos := 0;
    }

    method ReadExactly(n: nat) returns (o: Outcome<seq<byte>>)
      requires Valid()
      modifies this
      ensures Valid()
      ensures o == ReadExactlyOn(old(Unread()), n).outcome
      ensures pos == old(pos) + ReadExactlyOn(old(Unread()), n).consumed
    {
      if pos + n <= |data| {
        assert data[pos..][..n] == data[pos..pos + n];
        o := Return(data[pos..pos + n]);
        pos := pos + n;
      } else {
        o := Raise(IncompleteReadError);
        pos := |data|;
      }
    }

    /** `readline()`: the next line, or empty at end of stream. */
    method ReadLine() returns (line: seq<byte>)
      requires Valid()
      modifies this
      ensures Valid()
      ensures line == old(Unread())[..LineLength(old(Unread()))]
      ensures pos == old(pos) + |line|
      ensures Unread() == old(Unread())[|line|..]
      ensures line == [] <==> old(Unread()) == []
      ensures Lines(old(Unread())) == if line == [] then [] else [line] + Lines(Unread())
    {
      var n := LineLength(data[pos..]);
      line := data[pos..pos + n];
      pos := pos + n;
    }
  }

  datatype WriterEvent = Data(bytes: seq<byte>) | Eof

  /** The writer events of one `write` call per chunk, in order. */
  function DataEvents(chunks: seq<seq<byte>>): seq<WriterEvent>
  {
    seq(|chunks|, i requires 0 <= i < |chunks| => Data(chunks[i]))
  }

  lemma AppendNothing<T>(a: seq<T>)
    ensures a + [] == a
  {
  }

  lemma AppendAssoc<T>(a: seq<T>, b: seq<T>, c: seq<T>)
    ensures (a + b) + c == a + (b + c)
  {
  }

  /** Writing two lists of chunks in turn logs their events in turn. */
  lemma DataEventsAppend(a: seq<seq<byte>>, b: seq<seq<byte>>)
    ensures DataEvents(a + b) == DataEvents(a) + DataEvents(b)
  {
  }

  lemma DataEventsSmall(x: seq<byte>)
    ensures DataEvents([]) == [] && DataEvents([x]) == [Data(x)]
  {
  }

  /** A stream to a peer, as the log of `write` and `write_eof` calls. */
  class Writer {
    var log: seq<WriterEvent>

    constructor ()
      ensures log == []
    {
      log := [];
    }

    method Write(bytes: seq<byte>)
      modifies this
      ensures log == old(log) + [Data(bytes)]
    {
      log := log + [Data(bytes)];
    }

    method WriteEof()
      modifies this
      ensures log == old(log) + [Eof]
    {
      log := log + [Eof];
    }
  }
}
