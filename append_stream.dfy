/**
 * Oxygen_Stream_Append: one readable stream over a list of sub-streams,
 * read one after the other through a cursor. A sub-stream is modelled as a
 * string read from a position (what `Oxygen_Stream_Stream::factory` gives
 * for a string); the stream classes themselves are not part of this model.
 */
module AppendStream {

  import opened Wrappers

  /** The strings one after the other. */
  function Concat(ss: seq<string>): string
  {
    if |ss| == 0 then "" else ss[0] + Concat(ss[1..])
  }

  /** Concatenating two lists concatenates their texts. */
  lemma {:induction false} ConcatAppend(a: seq<string>, b: seq<string>)
    ensures Concat(a + b) == Concat(a) + Concat(b)
  {
    if |a| > 0 {
      assert (a + b)[1..] == a[1..] + b;
      ConcatAppend(a[1..], b);
    } else {
      assert a + b == b;
    }
  }

  /** The first `length` characters of `s`, or all of it; nothing for a length below 1. */
  function Take(length: int, s: string): (r: string)
    ensures |r| <= |s| && r == s[..|r|]
    ensures length > 0 ==> |r| == if length < |s| then length else |s|
    ensures length <= 0 ==> r == ""
  {
    if length <= 0 then "" else if length < |s| then s[..length] else s
  }

  /** A sub-stream: its text, how far it has been read, and whether it was closed. */
  datatype Source = Source(data: string, position: nat, closed: bool)
  {
    /** What is left to read. */
    function Rest(): string
    {
      if position <= |data| then data[position..] else ""
    }

    /** `eof`: nothing is left to read. */
    predicate Eof()
      ensures Eof() <==> Rest() == ""
    {
      position >= |data|
    }
  }

  /** A fresh sub-stream over a string, as `Oxygen_Stream_Stream::factory` gives. */
  function Fresh(data: string): (s: Source)
    ensures s.Rest() == data && !s.closed
  {
    Source(data, 0, false)
  }

  /** `read($length)` on a sub-stream: up to `length` characters from its cursor on, and the sub-stream after it. */
  function ReadSource(s: Source, length: int): (step: (string, Source))
    ensures step.0 == Take(length, s.Rest())
    ensures step.1.Rest() == s.Rest()[|step.0|..]
    ensures step.1.data == s.data && step.1.closed == s.closed
  {
    if length <= 0 || s.position >= |s.data| then ("", s)
    else
      var end := if s.position + length < |s.data| then s.position + length else |s.data|;
      (s.data[s.position..end], s.(position := end))
  }

  /** What is left to read in each of the sources, one after the other. */
  function Texts(ss: seq<Source>): string
  {
    if |ss| == 0 then "" else ss[0].Rest() + Texts(ss[1..])
  }

  /** Appending a source appends what is left of it. */
  lemma {:induction false} TextsAppend(ss: seq<Source>, s: Source)
    ensures Texts(ss + [s]) == Texts(ss) + s.Rest()
  {
    if |ss| > 0 {
      assert (ss + [s])[1..] == ss[1..] + [s];
      TextsAppend(ss[1..], s);
    } else {
      assert ss + [s] == [s];
      assert [s][1..] == [];
    }
  }

  /** What is left from position k on: the rest of source k, then the sources after it. */
  lemma TextsAt(ss: seq<Source>, k: nat)
    requires k < |ss|
    ensures Texts(ss[k..]) == ss[k].Rest() + Texts(ss[k + 1..])
  {
    assert ss[k..][1..] == ss[k + 1..];
  }

  /** Taking a prefix from the first part of a concatenation. */
  lemma DropFront(a: string, b: string, k: nat)
    requires k <= |a|
    ensures (a + b)[k..] == a[k..] + b
  {
  }

  /** A prefix put back in front of the rest of its string. */
  lemma Rejoin(s: string, prefix: string, t: string)
    requires |prefix| <= |s| && prefix == s[..|prefix|]
    ensures prefix + (s[|prefix|..] + t) == s + t
  {
    assert s == prefix + s[|prefix|..];
  }

  /** The two halves of a concatenation, recovered from the whole. */
  lemma PrefixOf(a: string, b: string, s: string)
    requires a + b == s
    ensures |a| <= |s| && a == s[..|a|] && b == s[|a|..]
  {
  }

  /** A prefix of the right length, or the whole string when it is not longer, is what `Take` gives. */
  lemma TakeOf(length: int, s: string, prefix: string)
    requires |prefix| <= |s| && prefix == s[..|prefix|]
    requires (length <= 0 && prefix == "") || (length > 0 && |prefix| == length)
             || (length > 0 && |prefix| <= length && |prefix| == |s|)
    ensures prefix == Take(length, s)
  {
  }

  lemma Associative(a: string, b: string, c: string)
    ensures a + b + c == a + (b + c)
  {
  }

  class Append {
    var streams: seq<Source>
    var current: nat

    /**
     * The cursor stands on a source (on 0 when there is none) and every
     * source before it is exhausted.
     */
    ghost predicate Valid()
      reads this
    {
      && (if |streams| == 0 then current == 0 else current < |streams|)
      && (forall i :: 0 <= i < current && i < |streams| ==> streams[i].Eof())
    }

    /** What is left to read: the rest of the current source and all later ones. */
    function Remaining(): string
      reads this
    {
      if current < |streams| then Texts(streams[current..]) else ""
    }

    constructor ()
      ensures Valid() && streams == [] && current == 0 && Remaining() == ""
    {
      streams := [];
      current := 0;
    }

    /** `addStream`: the source goes last, so its text is read after everything before it. */
    method AddStream(s: Source)
      requires Valid()
      modifies this
      ensures Valid() && streams == old(streams) + [s] && current == old(current)
      ensures Remaining() == old(Remaining()) + s.Rest()
    {
      if |streams| > 0 {
        TextsAppend(streams[current..], s);
        assert (streams + [s])[current..] == streams[current..] + [s];
      }
      streams := streams + [s];
      if |streams| == 1 {
        TextsAt(streams, 0);
        assert streams[1..] == [];
      }
    }

    /** `isAtLastStream`. */
    predicate AtLast()
      reads this
    {
      current == |streams| - 1
    }

    /** `eof`: the cursor is on the last source and that source is exhausted. */
    predicate Eof()
      reads this
    {
      AtLast() && current < |streams| && streams[current].Eof()
    }

    /** At the end nothing is left to read (the converse fails while empty sources follow the cursor). */
    lemma EofNothingLeft()
      requires Valid() && Eof()
      ensures Remaining() == ""
    {
      TextsAt(streams, current);
      assert streams[current + 1..] == [];
      assert streams[current].Rest() == "";
    }

    /** Moving past an exhausted source leaves the same text to read. */
    lemma SkipExhausted()
      requires current + 1 < |streams| && streams[current].Eof()
      ensures Remaining() == Texts(streams[current + 1..])
    {
      assert streams[current..][1..] == streams[current + 1..];
    }

    /** `moveToNextStream`: the cursor moves one source on, unless it is already past the last. */
    method MoveToNextStream() returns (moved: bool)
      modifies this
      ensures streams == old(streams)
      ensures moved <==> old(current) < |streams|
      ensures current == if moved then old(current) + 1 else old(current)
    {
      if current >= |streams| {
        return false;
      }
      current := current + 1;
      return true;
    }

    /** The inner loop of `read`: skip exhausted sources until one has text or the stream ends. */
    method SkipToText()
      requires Valid() && |streams| > 0
      modifies this
      ensures Valid() && streams == old(streams) && current >= old(current)
      ensures Remaining() == old(Remaining())
      ensures !streams[current].Eof() || Eof()
    {
      while streams[current].Eof() && !Eof()
        invariant Valid() && streams == old(streams) && current >= old(current)
        invariant Remaining() == old(Remaining())
        decreases |streams| - current
      {
        StepPastExhausted();
      }
    }

    /** One turn of that loop: the cursor leaves an exhausted source that is not the last. */
    method StepPastExhausted()
      requires Valid() && current < |streams| && streams[current].Eof() && !Eof()
      modifies this
      ensures Valid() && streams == old(streams) && current == old(current) + 1
      ensures Remaining() == old(Remaining())
    {
      SkipExhausted();
      var moved := MoveToNextStream();
    }

    /** Reading from the current source takes from the front of what is left. */
    method ReadCurrent(length: int) returns (chunk: string)
      requires Valid() && |streams| > 0
      modifies this
      ensures Valid() && current == old(current) && |streams| == |old(streams)|
      ensures chunk + Remaining() == old(Remaining())
      ensures length <= 0 ==> chunk == ""
      ensures length > 0 ==> |chunk| <= length
      ensures length > 0 && !old(streams[current].Eof()) ==> |chunk| > 0
      ensures old(Eof()) ==> Eof()
    {
      var step := ReadSource(streams[current], length);
      ghost var rest, later := streams[current].Rest(), Texts(streams[current + 1..]);
      TextsAt(streams, current);
      assert old(Remaining()) == rest + later;
      streams := streams[current := step.1];
      TextsAt(streams, current);
      assert streams[current + 1..] == old(streams)[current + 1..];
      assert Remaining() == rest[|step.0|..] + later;
      Rejoin(rest, step.0, later);
      chunk := step.0;
    }

    /** One turn of the `read` loop: skip exhausted sources, then read from the current one. */
    method ReadTurn(length: int) returns (chunk: string)
      requires Valid() && |streams| > 0
      modifies this
      ensures Valid() && |streams| == |old(streams)| && current >= old(current)
      ensures chunk + Remaining() == old(Remaining())
      ensures length <= 0 ==> chunk == ""
      ensures length > 0 ==> |chunk| <= length && (|chunk| > 0 || Eof())
    {
      SkipToText();
      chunk := ReadCurrent(length);
    }

    /**
     * `read($length)`: the next `length` characters of the concatenation
     * (all that is left when fewer remain), skipping exhausted sources in
     * order; None for a stream with no source, where PHP calls `eof()` on
     * null. A short read leaves the stream at its end.
     */
    method Read(length: int) returns (r: Option<string>)
      requires Valid()
      modifies this
      ensures Valid() && |streams| == |old(streams)| && current >= old(current)
      ensures r.None? <==> |streams| == 0
      ensures r.Some? ==> r.value == Take(length, old(Remaining())) && r.value + Remaining() == old(Remaining())
      ensures r.Some? && length > 0 && |r.value| < length ==> Eof()
    {
      if |streams| == 0 {
        return None;
      }
      ghost var start := Remaining();
      var data := "";
      var n := length;
      while !Eof()
        invariant Valid() && |streams| == |old(streams)| && current >= old(current)
        invariant data + Remaining() == start
        invariant n == length - |data|
        invariant length <= 0 ==> data == ""
        invariant length > 0 ==> n > 0
        decreases |Remaining()| + (if Eof() then 0 else 1)
      {
        var chunk := ReadTurn(n);
        Associative(data, chunk, Remaining());
        data := data + chunk;
        n := n - |chunk|;
        if n <= 0 {
          break;
        }
      }
      if Eof() {
        EofNothingLeft();
      }
      PrefixOf(data, Remaining(), start);
      TakeOf(length, start, data);
      r := Some(data);
    }

    /** `__toString`: everything left, leaving the stream at its end; None for a stream with no source. */
    method ToString() returns (r: Option<string>)
      requires Valid()
      modifies this
      ensures Valid() && |streams| == |old(streams)|
      ensures r.None? <==> |streams| == 0
      ensures r.Some? ==> r.value == old(Remaining()) && Eof()
    {
      if |streams| == 0 {
        return None;
      }
      ghost var start := Remaining();
      var buffer := "";
      while !Eof()
        invariant Valid() && |streams| == |old(streams)| && |streams| > 0
        invariant buffer + Remaining() == start
        decreases |Remaining()| + (if Eof() then 0 else 1)
      {
        var chunk := Read(1048576);
        Associative(buffer, chunk.value, Remaining());
        buffer := buffer + chunk.value;
      }
      EofNothingLeft();
      r := Some(buffer);
    }

    /** `close`: every source is closed; nothing is read. */
    method Close()
      requires Valid()
      modifies this
      ensures Valid() && current == old(current) && |streams| == |old(streams)|
      ensures forall i :: 0 <= i < |streams| ==> streams[i] == old(streams[i]).(closed := true)
    {
      for i := 0 to |streams|
        invariant Valid() && current == old(current) && |streams| == |old(streams)|
        invariant forall j :: 0 <= j < i ==> streams[j] == old(streams[j]).(closed := true)
        invariant forall j :: i <= j < |streams| ==> streams[j] == old(streams[j])
      {
        streams := streams[i := streams[i].(closed := true)];
      }
    }
  }

  /**
   * An Append stream over one fresh string source per text, as the
   * multipart response builds its body: what it reads is the texts one
   * after the other.
   */
  method FromTexts(texts: seq<string>) returns (stream: Append)
    ensures fresh(stream) && stream.Valid() && |stream.streams| == |texts|
    ensures stream.Remaining() == Concat(texts)
  {
    stream := new Append();
    for i := 0 to |texts|
      invariant stream.Valid() && fresh(stream) && |stream.streams| == i
      invariant stream.Remaining() == Concat(texts[..i])
    {
      stream.AddStream(Fresh(texts[i]));
      ConcatAppend(texts[..i], [texts[i]]);
      assert texts[..i + 1] == texts[..i] + [texts[i]];
      assert [texts[i]][1..] == [];
    }
    assert texts[..|texts|] == texts;
  }
}
