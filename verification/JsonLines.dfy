/**
 The incremental decoder of newline-delimited records, the live reader that feeds
 it from a pipe, and the later re-reading of the saved log. Parsing one line is a
 partial function that this model leaves open.
 */
module JsonLines {
  import opened Options

  type Bytes = seq<bv8>

  const LF: bv8 := 10
  const TOTAL_RECORD_LIMIT: nat := 64 * 1024 * 1024

  /** Complete records and the partial line that follows them. */
  datatype Decoded<+T> = Decoded(records: seq<T>, rest: Bytes)

  type Outcome<+T> = Result<Decoded<T>, string>

  // ----- specification: cut at every LF, then judge the pieces in order -----

  /** The pieces between line feeds; always at least one. */
  function Split(data: Bytes): (pieces: seq<Bytes>)
    ensures |pieces| > 0
  {
    if data == [] then [[]]
    else
      Extend(Split(data[..|data| - 1]), data[|data| - 1])
  }

  /** One more byte starts a new piece or extends the last. */
  function Extend(pieces: seq<Bytes>, c: bv8): (r: seq<Bytes>)
    requires |pieces| > 0
    ensures |r| > 0
  {
    if c == LF then pieces + [[]] else pieces[..|pieces| - 1] + [pieces[|pieces| - 1] + [c]]
  }

  /** The judgement of the complete lines: the first bad one decides. */
  function Judge<T>(lines: seq<Bytes>, limit: nat, parse: Bytes -> Option<T>): Result<seq<T>, string> {
    if lines == [] then Ok([])
    else
      var init := Judge(lines[..|lines| - 1], limit, parse);
      var line := lines[|lines| - 1];
      if init.Err? then init
      else if |line| > limit then Err("rpc_record_limit")
      else if parse(line).None? then Err("rpc_invalid_json")
      else Ok(init.value + [parse(line).value])
  }

  /** What the whole stream means. */
  function Meaning<T>(data: Bytes, limit: nat, parse: Bytes -> Option<T>): Outcome<T> {
    var pieces := Split(data);
    Verdict(pieces[..|pieces| - 1], pieces[|pieces| - 1], limit, parse)
  }

  /** Complete lines and the partial one after them. */
  function Verdict<T>(lines: seq<Bytes>, rest: Bytes, limit: nat, parse: Bytes -> Option<T>): Outcome<T> {
    match Judge(lines, limit, parse)
    case Err(e) => Err(e)
    case Ok(records) => if |rest| > limit then Err("rpc_record_limit") else Ok(Decoded(records, rest))
  }

  function Concat(chunks: seq<Bytes>): Bytes {
    if chunks == [] then [] else Concat(chunks[..|chunks| - 1]) + chunks[|chunks| - 1]
  }

  // ----- the pieces are the plain split -----

  function Join(pieces: seq<Bytes>): Bytes
    requires |pieces| > 0
  {
    if |pieces| == 1 then pieces[0] else Join(pieces[..|pieces| - 1]) + [LF] + pieces[|pieces| - 1]
  }

  /** Splitting loses nothing and leaves no line feed inside a piece. */
  lemma {:induction false} SplitIsPlain(data: Bytes)
    ensures Join(Split(data)) == data
    ensures forall i :: 0 <= i < |Split(data)| ==> LF !in Split(data)[i]
  {
    if data != [] {
      var n := |data| - 1;
      var init, pieces := Split(data[..n]), Split(data);
      SplitIsPlain(data[..n]);
      assert data == data[..n] + [data[n]];
      if data[n] == LF {
        assert pieces[..|pieces| - 1] == init;
      } else if |init| > 1 {
        assert pieces[..|pieces| - 1] == init[..|init| - 1];
      }
    }
  }

  lemma SplitSnoc(data: Bytes, c: bv8)
    ensures Split(data + [c]) == Extend(Split(data), c)
  {
    assert (data + [c])[..|data|] == data;
  }

  lemma ExtendFront(front: seq<Bytes>, back: seq<Bytes>, c: bv8)
    requires |back| > 0
    ensures Extend(front + back, c) == front + Extend(back, c)
  {
    var n := |back| - 1;
    assert (front + back)[..|front| + n] == front + back[..n] && (front + back)[|front| + n] == back[n];
  }

  /** The pieces of `x` are those of `y` behind the same front. */
  ghost predicate Fronts(x: Bytes, y: Bytes, front: seq<Bytes>) {
    Split(x) == front + Split(y)
  }

  lemma SplitStep(x: Bytes, y: Bytes, front: seq<Bytes>, c: bv8)
    requires Fronts(x, y, front)
    ensures Fronts(x + [c], y + [c], front)
  {
    SplitSnoc(x, c);
    SplitSnoc(y, c);
    ExtendFront(front, Split(y), c);
  }

  lemma {:induction false} SplitSteps(x: Bytes, y: Bytes, front: seq<Bytes>, b: Bytes)
    requires Fronts(x, y, front)
    ensures Fronts(x + b, y + b, front)
    decreases |b|
  {
    if b == [] {
      assert x + b == x && y + b == y;
    } else {
      var head, rest := [b[0]], b[1..];
      SplitStep(x, y, front, b[0]);
      SplitSteps(x + head, y + head, front, rest);
      assert b == head + rest;
      assert (x + head) + rest == x + b;
      assert (y + head) + rest == y + b;
    }
  }

  /** More data extends the last piece; a later line feed starts new ones. */
  lemma SplitConcat(a: Bytes, b: Bytes)
    ensures var last := |Split(a)| - 1;
            Split(a + b) == Split(a)[..last] + Split(Split(a)[last] + b)
  {
    var pa := Split(a);
    var front, piece := pa[..|pa| - 1], pa[|pa| - 1];
    assert Split(piece) == [piece] by {
      SplitIsPlain(a);
      SplitWithoutLf(piece);
    }
    assert pa == front + [piece] && Fronts(a, piece, front);
    SplitSteps(a, piece, front, b);
  }

  lemma {:induction false} SplitWithoutLf(piece: Bytes)
    requires LF !in piece
    ensures Split(piece) == [piece]
  {
    if piece != [] {
      SplitWithoutLf(piece[..|piece| - 1]);
      assert piece == piece[..|piece| - 1] + [piece[|piece| - 1]];
    }
  }

  lemma {:induction false} JudgeConcat<T>(xs: seq<Bytes>, ys: seq<Bytes>, limit: nat, parse: Bytes -> Option<T>)
    ensures Judge(xs + ys, limit, parse) ==
            match Judge(xs, limit, parse)
            case Err(e) => Err(e)
            case Ok(first) =>
              match Judge(ys, limit, parse)
              case Err(e) => Err(e)
              case Ok(second) => Ok(first + second)
    decreases |ys|
  {
    if ys == [] {
      assert xs + ys == xs;
      if Judge(xs, limit, parse).Ok? { assert Judge(xs, limit, parse).value + [] == Judge(xs, limit, parse).value; }
    } else {
      var n := |ys| - 1;
      JudgeConcat(xs, ys[..n], limit, parse);
      assert (xs + ys)[..|xs + ys| - 1] == xs + ys[..n] && (xs + ys)[|xs + ys| - 1] == ys[n];
      var first, init := Judge(xs, limit, parse), Judge(ys[..n], limit, parse);
      if first.Ok? && init.Ok? && parse(ys[n]).Some? {
        assert (first.value + init.value) + [parse(ys[n]).value] == first.value + (init.value + [parse(ys[n]).value]);
      }
    }
  }

  /** A line that is already too long stays too long, whatever follows. */
  lemma {:induction false} LongStays<T>(piece: Bytes, more: Bytes, limit: nat, parse: Bytes -> Option<T>)
    requires |piece| > limit && LF !in piece
    ensures Meaning(piece + more, limit, parse) == Err("rpc_record_limit")
    decreases |more|
  {
    if more == [] {
      assert piece + more == piece;
      SplitWithoutLf(piece);
    } else {
      var n := |more| - 1;
      LongStays(piece, more[..n], limit, parse);
      assert (piece + more)[..|piece + more| - 1] == piece + more[..n];
      var init, pieces := Split(piece + more[..n]), Split(piece + more);
      if more[n] == LF {
        assert pieces[..|pieces| - 1] == init;
        assert init == init[..|init| - 1] + [init[|init| - 1]];
      } else {
        assert pieces[..|pieces| - 1] == init[..|init| - 1];
      }
    }
  }

  /** Decoding a prefix and then the rest is decoding the whole: same records, same residue, or the same first error. */
  lemma MeaningConcat<T>(a: Bytes, b: Bytes, limit: nat, parse: Bytes -> Option<T>)
    ensures Meaning(a + b, limit, parse) ==
            match Meaning(a, limit, parse)
            case Err(e) => Err(e)
            case Ok(first) =>
              match Meaning(first.rest + b, limit, parse)
              case Err(e) => Err(e)
              case Ok(second) => Ok(Decoded(first.records + second.records, second.rest))
  {
    var pa := Split(a);
    var lines, last := pa[..|pa| - 1], pa[|pa| - 1];
    var pb := Split(last + b);
    var more, rest := pb[..|pb| - 1], pb[|pb| - 1];
    SplitConcat(a, b);
    assert Split(a + b)[..|Split(a + b)| - 1] == lines + more;
    assert Meaning(a + b, limit, parse) == Verdict(lines + more, rest, limit, parse);
    JudgeConcat(lines, more, limit, parse);
    if Judge(lines, limit, parse).Ok? && |last| > limit {
      SplitIsPlain(a);
      LongStays(last, b, limit, parse);
      assert Verdict(more, rest, limit, parse).Err?;
    }
  }

  /** Records already returned, followed by what the remaining bytes mean. */
  function After<T>(returned: seq<T>, o: Outcome<T>): Outcome<T> {
    match o
    case Err(e) => Err(e)
    case Ok(d) => Ok(Decoded(returned + d.records, d.rest))
  }

  lemma AfterNothing<T>(o: Outcome<T>)
    ensures After([], o) == o
  {
    if o.Ok? { assert [] + o.value.records == o.value.records; }
  }

  lemma AfterAfter<T>(xs: seq<T>, ys: seq<T>, o: Outcome<T>)
    ensures After(xs, After(ys, o)) == After(xs + ys, o)
  {
    if o.Ok? { assert xs + (ys + o.value.records) == (xs + ys) + o.value.records; }
  }

  lemma JudgeOne<T>(line: Bytes, limit: nat, parse: Bytes -> Option<T>)
    ensures Judge([line], limit, parse) ==
            if |line| > limit then Err("rpc_record_limit")
            else if parse(line).None? then Err("rpc_invalid_json")
            else Ok([parse(line).value])
  {
    assert [line][..0] == [] && Judge([line][..0], limit, parse) == Ok([]);
    if parse(line).Some? { assert [] + [parse(line).value] == [parse(line).value]; }
  }

  lemma FirstLine<T>(line: Bytes, remainder: Bytes, limit: nat, parse: Bytes -> Option<T>)
    requires LF !in line
    ensures Meaning(line + [LF] + remainder, limit, parse) ==
            if |line| > limit then Err("rpc_record_limit")
            else if parse(line).None? then Err("rpc_invalid_json")
            else After([parse(line).value], Meaning(remainder, limit, parse))
  {
    var first := line + [LF];
    SplitWithoutLf(line);
    assert first[..|first| - 1] == line;
    assert Split(first) == [line, []] && Split(first)[..1] == [line];
    JudgeOne(line, limit, parse);
    MeaningConcat(first, remainder, limit, parse);
    assert [] + remainder == remainder;
  }

  /** The position of the first line feed. */
  function Position(data: Bytes): (k: nat)
    requires LF in data
    ensures k < |data| && data[k] == LF && LF !in data[..k]
  {
    if data[0] == LF then 0 else
      assert data == [data[0]] + data[1..];
      var k := 1 + Position(data[1..]);
      assert data[..k] == [data[0]] + data[1..][..k - 1];
      k
  }

  // ----- the decoder -----

  class Decoder<T> {
    var buffer: Bytes
    const limit: nat
    const parse: Bytes -> Option<T>

    constructor (limit: nat, parse: Bytes -> Option<T>)
      ensures buffer == [] && this.limit == limit && this.parse == parse
    {
      this.limit, this.parse, buffer := limit, parse, [];
    }

    /** Consume complete lines one at a time; an error leaves the records of this call unreturned. */
    method Feed(data: Bytes) returns (r: Result<seq<T>, string>)
      modifies this`buffer
      ensures match Meaning(old(buffer) + data, limit, parse)
              case Err(e) => r == Err(e)
              case Ok(d) => r == Ok(d.records) && buffer == d.rest
    {
      buffer := buffer + data;
      ghost var whole := Meaning(buffer, limit, parse);
      var result := [];
      AfterNothing(whole);
      while LF in buffer
        invariant whole == After(result, Meaning(buffer, limit, parse))
        decreases |buffer|
      {
        var k := Position(buffer);
        var line, remainder := buffer[..k], buffer[k + 1..];
        assert buffer == line + [LF] + remainder;
        FirstLine(line, remainder, limit, parse);
        if |line| <= limit && parse(line).Some? {
          AfterAfter(result, [parse(line).value], Meaning(remainder, limit, parse));
        }
        buffer := remainder;
        if |line| > limit { return Err("rpc_record_limit"); }
        var value := parse(line);
        if value.None? { return Err("rpc_invalid_json"); }
        result := result + [value.value];
      }
      SplitWithoutLf(buffer);
      assert [buffer][..0] == [] && result + [] == result;
      if |buffer| > limit { return Err("rpc_record_limit"); }
      return Ok(result);
    }
  }

  // ----- the live reader and the saved log -----

  /** The outcome of feeding chunk after chunk to one decoder, stopping at the first error. */
  function FeedAll<T>(chunks: seq<Bytes>, limit: nat, parse: Bytes -> Option<T>): Outcome<T> {
    if chunks == [] then Ok(Decoded([], []))
    else
      match FeedAll(chunks[..|chunks| - 1], limit, parse)
      case Err(e) => Err(e)
      case Ok(d) => After(d.records, Meaning(d.rest + chunks[|chunks| - 1], limit, parse))
  }

  /** However the stream is cut, chunked decoding equals decoding it whole. */
  lemma {:induction false} ChunkingIsIrrelevant<T>(chunks: seq<Bytes>, limit: nat, parse: Bytes -> Option<T>)
    ensures FeedAll(chunks, limit, parse) == Meaning(Concat(chunks), limit, parse)
  {
    if chunks == [] {
      assert Split([]) == [[]];
    } else {
      var n := |chunks| - 1;
      ChunkingIsIrrelevant(chunks[..n], limit, parse);
      MeaningConcat(Concat(chunks[..n]), chunks[n], limit, parse);
    }
  }

  /**
   What a stream without a partial last line holds: one record for each piece of the plain split but
   the empty last.
   */
  lemma {:induction false} JudgedRecords<T>(lines: seq<Bytes>, limit: nat, parse: Bytes -> Option<T>)
    ensures Judge(lines, limit, parse).Ok? <==>
            forall i :: 0 <= i < |lines| ==> |lines[i]| <= limit && parse(lines[i]).Some?
    ensures Judge(lines, limit, parse).Ok? ==>
            && |Judge(lines, limit, parse).value| == |lines|
            && forall i :: 0 <= i < |lines| ==> parse(lines[i]) == Some(Judge(lines, limit, parse).value[i])
  {
    if lines != [] {
      var n := |lines| - 1;
      JudgedRecords(lines[..n], limit, parse);
      assert forall i :: 0 <= i < n ==> lines[..n][i] == lines[i];
    }
  }

  /** What was queued begins the records of some beginning of the log, in order. */
  ghost predicate QueuedFrom<T>(queued: seq<T>, log: Bytes, limit: nat, parse: Bytes -> Option<T>) {
    exists n :: 0 <= n <= |log| && BeginsRecords(queued, log[..n], limit, parse)
  }

  ghost predicate BeginsRecords<T>(queued: seq<T>, data: Bytes, limit: nat, parse: Bytes -> Option<T>) {
    Meaning(data, limit, parse).Ok? && queued <= Meaning(data, limit, parse).value.records
  }

  lemma QueuedSoFar<T>(chunks: seq<Bytes>, queued: seq<T>, log: Bytes, limit: nat, parse: Bytes -> Option<T>)
    requires FeedAll(chunks, limit, parse).Ok? && queued <= FeedAll(chunks, limit, parse).value.records
    requires Concat(chunks) <= log
    ensures QueuedFrom(queued, log, limit, parse)
  {
    ChunkingIsIrrelevant(chunks, limit, parse);
    assert log[..|Concat(chunks)|] == Concat(chunks);
    assert BeginsRecords(queued, log[..|Concat(chunks)|], limit, parse);
  }

  /** The log holds the first `k` chunks and, only where a write failed, a part of the next. */
  ghost predicate LoggedUpTo(chunks: seq<Bytes>, k: nat, log: Bytes, error: Option<string>)
    requires k <= |chunks|
  {
    || log == Concat(chunks[..k])
    || (error == Some("rpc_transport") && k < |chunks| && Concat(chunks[..k]) <= log <= Concat(chunks[..k]) + chunks[k])
  }

  ghost predicate Logged(chunks: seq<Bytes>, log: Bytes, error: Option<string>) {
    exists k :: 0 <= k <= |chunks| && LoggedUpTo(chunks, k, log, error)
  }

  /**
   What the reader leaves behind: the log is the stream as far as it was written, the queue begins the
   records of a beginning of the log, and without an error both are complete.
   */
  ghost predicate IsReading<T>(
    chunks: seq<Bytes>, limit: nat, parse: Bytes -> Option<T>, queued: seq<T>, log: Bytes, error: Option<string>)
  {
    && Logged(chunks, log, error)
    && QueuedFrom(queued, log, limit, parse)
    && (error.None? ==> log == Concat(chunks) && |log| <= TOTAL_RECORD_LIMIT)
    && (error.None? ==> Meaning(log, limit, parse) == Ok(Decoded(queued, [])))
  }

  /** Stopped with the first chunks written, and part of the next where a write failed. */
  lemma StoppedReading<T>(
    chunks: seq<Bytes>, k: nat, j: nat, limit: nat, parse: Bytes -> Option<T>, queued: seq<T>, log: Bytes,
      reason: string)
    requires j <= k <= |chunks| && LoggedUpTo(chunks, k, log, Some(reason)) && Concat(chunks[..j]) <= log
    requires FeedAll(chunks[..j], limit, parse).Ok? && queued <= FeedAll(chunks[..j], limit, parse).value.records
    ensures IsReading(chunks, limit, parse, queued, log, Some(reason))
  {
    QueuedSoFar(chunks[..j], queued, log, limit, parse);
  }

  lemma FinishedReading<T>(
    chunks: seq<Bytes>, limit: nat, parse: Bytes -> Option<T>, queued: seq<T>, log: Bytes, rest: Bytes,
      error: Option<string>)
    requires log == Concat(chunks) && |log| <= TOTAL_RECORD_LIMIT
    requires FeedAll(chunks, limit, parse) == Ok(Decoded(queued, rest)) && (error.None? ==> rest == [])
    ensures IsReading(chunks, limit, parse, queued, log, error)
  {
    assert chunks[..|chunks|] == chunks;
    assert LoggedUpTo(chunks, |chunks|, log, error);
    ChunkingIsIrrelevant(chunks, limit, parse);
    QueuedSoFar(chunks, queued, log, limit, parse);
  }

  /**
   The reading thread: log, decode and queue each chunk. `parse` and the limits raise their own
   reasons. A write that fails, after any part of the chunk, or a full queue is "rpc_transport".
   */
  method ReadStream<T>(chunks: seq<Bytes>, limit: nat, parse: Bytes -> Option<T>)
    returns (queued: seq<T>, log: Bytes, error: Option<string>)
    ensures IsReading(chunks, limit, parse, queued, log, error)
  {
    var decoder := new Decoder<T>(limit, parse);
    queued, log, error := [], [], None;
    for i := 0 to |chunks|
      invariant decoder.limit == limit && decoder.parse == parse && fresh(decoder)
      invariant log == Concat(chunks[..i]) && |log| <= TOTAL_RECORD_LIMIT
      invariant FeedAll(chunks[..i], limit, parse) == Ok(Decoded(queued, decoder.buffer))
    {
      var data := chunks[i];
      ConcatSnoc(chunks, i);
      FeedSnoc(chunks, i, limit, parse);
      if |log| + |data| > TOTAL_RECORD_LIMIT {
        error := Some("rpc_record_limit");
        StoppedReading(chunks, i, i, limit, parse, queued, log, "rpc_record_limit");
        return;
      }
      var wrote: int := *;
      if 0 <= wrote <= |data| {
        log, error := log + data[..wrote], Some("rpc_transport");
        StoppedReading(chunks, i, i, limit, parse, queued, log, "rpc_transport");
        return;
      }
      log := log + data;
      var values := decoder.Feed(data);
      if values.Err? {
        error := Some(values.error);
        StoppedReading(chunks, i + 1, i, limit, parse, queued, log, values.error);
        return;
      }
      var full: int := *;
      if 0 <= full < |values.value| {
        queued, error := queued + values.value[..full], Some("rpc_transport");
        StoppedReading(chunks, i + 1, i + 1, limit, parse, queued, log, "rpc_transport");
        return;
      }
      queued := queued + values.value;
    }
    assert chunks[..|chunks|] == chunks;
    if decoder.buffer != [] { error := Some("rpc_incomplete_record"); }
    FinishedReading(chunks, limit, parse, queued, log, decoder.buffer, error);
  }

  lemma ConcatSnoc(chunks: seq<Bytes>, i: nat)
    requires i < |chunks|
    ensures Concat(chunks[..i + 1]) == Concat(chunks[..i]) + chunks[i]
  {
    assert chunks[..i + 1][..i] == chunks[..i];
  }

  lemma FeedSnoc<T>(chunks: seq<Bytes>, i: nat, limit: nat, parse: Bytes -> Option<T>)
    requires i < |chunks| && FeedAll(chunks[..i], limit, parse).Ok?
    ensures var d := FeedAll(chunks[..i], limit, parse).value;
            FeedAll(chunks[..i + 1], limit, parse) == After(d.records, Meaning(d.rest + chunks[i], limit, parse))
  {
    assert chunks[..i + 1][..i] == chunks[..i];
  }

  /** Re-reading a saved log: one whole feed, and no partial record may remain. */
  method ReadEvents<T>(log: Bytes, limit: nat, parse: Bytes -> Option<T>) returns (r: Result<seq<T>, string>)
    ensures match Meaning(log, limit, parse)
            case Err(e) => r == Err(e)
            case Ok(d) => r == if d.rest == [] then Ok(d.records) else Err("rpc_incomplete_record")
  {
    var decoder := new Decoder<T>(limit, parse);
    r := decoder.Feed(log);
    assert [] + log == log;
    if r.Ok? && decoder.buffer != [] { r := Err("rpc_incomplete_record"); }
  }

  /** When the live read ends without an error, re-reading its log gives exactly what was queued. */
  method LiveThenSaved<T>(chunks: seq<Bytes>, limit: nat, parse: Bytes -> Option<T>)
    returns (queued: seq<T>, error: Option<string>, events: Result<seq<T>, string>)
    ensures error.None? ==> events == Ok(queued)
  {
    var log;
    queued, log, error := ReadStream(chunks, limit, parse);
    events := ReadEvents(log, limit, parse);
  }
}
