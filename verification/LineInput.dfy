/** Line input of a character device: bytes written by the user are collected in a 512-byte buffer and
    handed on line by line (pcan_write, pcan_write_line). */
module LineInput {
  import opened Common
  import opened Words

  const WRITEBUFFER_SIZE := 512

  // ---------------------------------------------------------------- lines of a text

  /** The unfinished line at the end of a text. */
  function Rest(s: string): (r: string)
    ensures |r| <= |s| && '\n' !in r
    decreases |s|
  {
    if s == [] then []
    else
      var c := s[|s| - 1];
      if c == '\n' then [] else Rest(s[..|s| - 1]) + [c]
  }

  /** The finished lines of a text, each with its newline. */
  function Lines(s: string): seq<string>
    decreases |s|
  {
    if s == [] then []
    else
      var front := s[..|s| - 1];
      if s[|s| - 1] == '\n' then Lines(front) + [Rest(front) + ['\n']] else Lines(front)
  }

  lemma SplitNil()
    ensures Lines([]) == [] && Rest([]) == [] && Concat<char>([]) == []
  {
  }

  /** One more character. */
  lemma SplitSnoc(s: string, c: char)
    ensures Lines(s + [c]) == if c == '\n' then Lines(s) + [Rest(s) + ['\n']] else Lines(s)
    ensures Rest(s + [c]) == if c == '\n' then [] else Rest(s) + [c]
  {
    assert (s + [c])[..|s|] == s;
  }

  predicate IsLine(l: string) { l != [] && l[|l| - 1] == '\n' && '\n' !in l[..|l| - 1] }

  /** Nothing of the text is lost, and the only newlines are the line ends. */
  lemma {:induction false} LinesCover(s: string)
    ensures Concat(Lines(s)) + Rest(s) == s
    ensures forall l :: l in Lines(s) ==> IsLine(l)
    decreases |s|
  {
    hide Lines, Rest, Concat;
    if s == [] {
      SplitNil();
    } else {
      var front, c := s[..|s| - 1], s[|s| - 1];
      LinesCover(front);
      assert s == front + [c];
      SplitSnoc(front, c);
      if c == '\n' {
        LineIsLine(Rest(front));
        ConcatSnoc(Lines(front), Rest(front) + ['\n']);
        assert s == Concat(Lines(front)) + (Rest(front) + ['\n']) + [];
      } else {
        assert s == Concat(Lines(front)) + (Rest(front) + [c]);
      }
    }
  }

  lemma LineIsLine(l: string)
    requires '\n' !in l
    ensures IsLine(l + ['\n'])
  {
    assert (l + ['\n'])[..|l|] == l;
  }

  /** Splitting may go on from the unfinished line. */
  lemma {:induction false} SplitAppend(a: string, b: string)
    ensures Lines(a + b) == Lines(a) + Lines(Rest(a) + b)
    ensures Rest(a + b) == Rest(Rest(a) + b)
    decreases |b|
  {
    hide Lines, Rest;
    if b == [] {
      assert a + b == a && Rest(a) + b == Rest(a) && Lines(a) + [] == Lines(a);
      RestIsOpen(Rest(a));
    } else {
      var front, c := b[..|b| - 1], b[|b| - 1];
      SplitAppend(a, front);
      assert a + b == (a + front) + [c] && Rest(a) + b == (Rest(a) + front) + [c];
      SplitSnoc(a + front, c);
      SplitSnoc(Rest(a) + front, c);
      if c == '\n' {
        var more := [Rest(a + front) + ['\n']];
        assert Lines(a) + Lines(Rest(a) + front) + more == Lines(a) + (Lines(Rest(a) + front) + more);
      }
    }
  }

  lemma {:induction false} RestIsOpen(s: string)
    requires '\n' !in s
    ensures Lines(s) == [] && Rest(s) == s
    decreases |s|
  {
    if s != [] {
      RestIsOpen(s[..|s| - 1]);
    }
  }

  lemma SplitLine(head: string, tail: string)
    requires '\n' !in head
    ensures Lines(head + ['\n'] + tail) == [head + ['\n']] + Lines(tail)
    ensures Rest(head + ['\n'] + tail) == Rest(tail)
  {
    hide Lines, Rest;
    RestIsOpen(head);
    SplitSnoc(head, '\n');
    SplitAppend(head + ['\n'], tail);
    assert [] + tail == tail && [] + [head + ['\n']] == [head + ['\n']];
  }

  /** The line up to the first newline comes first. */
  lemma SplitFirst(s: string, i: nat)
    requires i < |s| && s[i] == '\n' && '\n' !in s[..i]
    ensures Lines(s) == [s[..i + 1]] + Lines(s[i + 1..]) && Rest(s) == Rest(s[i + 1..])
  {
    hide Lines, Rest;
    Pieces(s, i);
    SplitLine(s[..i], s[i + 1..]);
  }

  lemma Pieces(s: string, i: nat)
    requires i < |s|
    ensures s[..i + 1] == s[..i] + [s[i]] && s == s[..i] + [s[i]] + s[i + 1..]
  {
  }

  // ---------------------------------------------------------------- the buffer

  type Error = e: int | e != 0 witness -EINVAL

  /** What handling a line comes to: done; sent to a device that had no data to write, which takes the line
      but ends the call; or refused, which leaves the line in the buffer and ends the call. */
  datatype Answer = Done | NoData | Refused(err: Error) {
    function Code(): int {
      match this
      case Done => 0
      case NoData => -ENODATA
      case Refused(err) => err
    }
  }

  type Handler = string -> Answer

  /** Lines handled, text left in the buffer and error once the buffer holds s. */
  function Consume(handle: Handler, s: string): (r: (seq<string>, string, int))
    ensures |r.1| <= |s|
    decreases |s|
  {
    if '\n' !in s then ([], s, 0)
    else
      var i := First(s);
      match handle(s[..i + 1])
      case Refused(err) => ([], s, err)
      case NoData => ([s[..i + 1]], s[i + 1..], -ENODATA)
      case Done => var (ls, text, e) := Consume(handle, s[i + 1..]); ([s[..i + 1]] + ls, text, e)
  }

  function First(s: string): (i: nat)
    requires '\n' in s
    ensures i < |s| && s[i] == '\n' && '\n' !in s[..i]
  {
    if s[0] == '\n' then 0
    else
      assert '\n' in s[1..];
      var i := First(s[1..]);
      assert s[..i + 1] == [s[0]] + s[1..][..i];
      i + 1
  }

  /** One pcan_write call on a buffer holding `text`: lines handled, text left, result. */
  function WriteCall(handle: Handler, text: string, chunk: string): (seq<string>, string, int)
    requires |text| <= WRITEBUFFER_SIZE
  {
    var n := Min(|chunk|, WRITEBUFFER_SIZE - |text|);
    var (ls, left, err) := Consume(handle, text + chunk[..n]);
    if err != 0 then (ls, left, err)
    else if |left| >= WRITEBUFFER_SIZE then (ls, [], -EINVAL)
    else (ls, left, n)
  }

  class LineBuffer {
    const handle: Handler
    const pcWriteBuffer: array<char>
    var writePointer: nat
    var handled: seq<string>

    ghost predicate Valid()
      reads this
    {
      pcWriteBuffer.Length == WRITEBUFFER_SIZE && writePointer <= WRITEBUFFER_SIZE
    }

    function Text(): string
      requires Valid()
      reads this, pcWriteBuffer
    {
      pcWriteBuffer[..writePointer]
    }

    constructor (handle: Handler, buffer: array<char>)
      requires buffer.Length == WRITEBUFFER_SIZE
      ensures Valid() && Text() == [] && handled == [] && this.handle == handle && pcWriteBuffer == buffer
    {
      this.handle, this.pcWriteBuffer := handle, buffer;
      writePointer, handled := 0, [];
    }

    /** Handles the line ending at i and moves what follows it to the front. */
    method WriteLine(i: nat) returns (err: int)
      requires Valid() && i < writePointer
      modifies this, pcWriteBuffer
      ensures Valid()
      ensures var line := old(Text())[..i + 1];
              && err == handle(line).Code()
              && if handle(line).Refused? then Text() == old(Text()) && handled == old(handled)
                 else Text() == old(Text())[i + 1..] && handled == old(handled) + [line]
    {
      var amount, offset := writePointer - i - 1, i + 1;
      assert Text()[..i + 1] == pcWriteBuffer[..i + 1];
      var answer := handle(pcWriteBuffer[..i + 1]);
      err := answer.Code();
      if answer.Refused? {
        return;
      }
      handled := handled + [pcWriteBuffer[..i + 1]];
      forall k | 0 <= k < amount {
        pcWriteBuffer[k] := pcWriteBuffer[i + 1 + k];
      }
      writePointer := writePointer - offset;
    }

    /** Where the first line in the buffer ends, if it does. */
    method FindEnd() returns (i: nat)
      requires Valid()
      ensures i <= writePointer && '\n' !in Text()[..i] && (i < writePointer ==> Text()[i] == '\n')
    {
      i := 0;
      while i < writePointer && pcWriteBuffer[i] != '\n'
        invariant 0 <= i <= writePointer
        invariant '\n' !in Text()[..i]
      {
        assert Text()[..i + 1] == Text()[..i] + [pcWriteBuffer[i]];
        i := i + 1;
      }
    }

    /** Handles every finished line in the buffer, in order, until one is refused. */
    method Drain() returns (err: int)
      requires Valid()
      modifies this, pcWriteBuffer
      ensures Valid()
      ensures (handled, Text(), err) == Prepend(old(handled), Consume(handle, old(Text())))
    {
      hide Consume;
      while true
        invariant Valid()
        invariant Prepend(handled, Consume(handle, Text())) == Prepend(old(handled), Consume(handle, old(Text())))
        decreases writePointer
      {
        var i := FindEnd();
        if i == writePointer {
          assert Text()[..i] == Text();
          ConsumeNone(handle, Text(), handled);
          return 0;
        }
        ConsumeFirst(handle, Text(), i, handled);
        err := WriteLine(i);
        if err != 0 {
          return;
        }
      }
    }

    /** Takes as many of the offered bytes as the buffer has room for and handles the finished lines. */
    method Write(chunk: string) returns (r: int)
      requires Valid()
      modifies this, pcWriteBuffer
      ensures Valid()
      ensures var (ls, left, code) := WriteCall(handle, old(Text()), chunk);
              handled == old(handled) + ls && Text() == left && r == code
    {
      hide Consume;
      var dwRest := WRITEBUFFER_SIZE - writePointer;
      var count := if |chunk| > dwRest then dwRest else |chunk|;
      forall k | 0 <= k < count {
        pcWriteBuffer[writePointer + k] := chunk[k];
      }
      writePointer := writePointer + count;
      assert Text() == old(Text()) + chunk[..count];
      var err := Drain();
      if err != 0 {
        return err;
      }
      if writePointer >= WRITEBUFFER_SIZE {
        writePointer := 0;
        return -EINVAL;
      }
      return count;
    }
  }

  function Prepend(done: seq<string>, r: (seq<string>, string, int)): (seq<string>, string, int) { (done + r.0, r.1, r.2) }

  lemma ConsumeNone(handle: Handler, s: string, done: seq<string>)
    requires '\n' !in s
    ensures Prepend(done, Consume(handle, s)) == (done, s, 0)
  {
    assert done + [] == done;
  }

  /** Handling the first line of the buffer. */
  lemma ConsumeFirst(handle: Handler, s: string, i: nat, done: seq<string>)
    requires i < |s| && s[i] == '\n' && '\n' !in s[..i]
    ensures Prepend(done, Consume(handle, s)) ==
              match handle(s[..i + 1])
              case Refused(err) => (done, s, err)
              case NoData => (done + [s[..i + 1]], s[i + 1..], -ENODATA)
              case Done => Prepend(done + [s[..i + 1]], Consume(handle, s[i + 1..]))
  {
    hide Consume;
    ConsumeStep(handle, s, i);
    var ls := Consume(handle, s[i + 1..]).0;
    assert done + [] == done && done + ([s[..i + 1]] + ls) == done + [s[..i + 1]] + ls;
  }

  lemma ConsumeStep(handle: Handler, s: string, i: nat)
    requires i < |s| && s[i] == '\n' && '\n' !in s[..i]
    ensures Consume(handle, s) ==
              match handle(s[..i + 1])
              case Refused(err) => ([], s, err)
              case NoData => ([s[..i + 1]], s[i + 1..], -ENODATA)
              case Done => var rest := Consume(handle, s[i + 1..]); ([s[..i + 1]] + rest.0, rest.1, rest.2)
  {
    hide First;
    FirstIs(s, i);
  }

  lemma FirstIs(s: string, i: nat)
    requires i < |s| && s[i] == '\n' && '\n' !in s[..i]
    ensures '\n' in s && First(s) == i
  {
    if i > 0 {
      assert s[0] == s[..i][0] && s[1..][..i - 1] == s[..i][1..];
      FirstIs(s[1..], i - 1);
    }
  }

  /** While the handler accepts every line, exactly the finished lines are handled. */
  lemma {:induction false} ConsumeAll(handle: Handler, s: string)
    requires Accepts(handle, s)
    ensures Consume(handle, s) == (Lines(s), Rest(s), 0)
    decreases |s|
  {
    if '\n' in s {
      var i := First(s);
      SplitFirst(s, i);
      assert s[..i + 1] in Lines(s);
      ConsumeAll(handle, s[i + 1..]);
    } else {
      RestIsOpen(s);
    }
  }

  // ---------------------------------------------------------------- chunk independence

  /** How far the writing of a stream has come; failed means that a call returned an error. */
  datatype Progress = Progress(pos: nat, text: string, handled: seq<string>, failed: bool)

  const START := Progress(0, [], [], false)

  /** The user offers k more bytes and resubmits what was not consumed. */
  function Offer(handle: Handler, stream: string, p: Progress, k: nat): Progress {
    if p.failed || p.pos > |stream| || |p.text| > WRITEBUFFER_SIZE then p
    else
      var (ls, left, r) := WriteCall(handle, p.text, stream[p.pos..][..Min(k, |stream| - p.pos)]);
      if r < 0 then Progress(p.pos, left, p.handled + ls, true) else Progress(p.pos + r, left, p.handled + ls, false)
  }

  function Offers(handle: Handler, stream: string, ks: seq<nat>): Progress
    decreases |ks|
  {
    if ks == [] then START else Offer(handle, stream, Offers(handle, stream, ks[..|ks| - 1]), ks[|ks| - 1])
  }

  /** No line, newline included, exceeds the buffer, and the unfinished tail leaves room for one byte. */
  predicate Short(s: string) {
    (forall i :: 0 <= i < |Lines(s)| ==> |Lines(s)[i]| <= WRITEBUFFER_SIZE) && |Rest(s)| < WRITEBUFFER_SIZE
  }

  lemma {:induction false} ShortPrefix(s: string, n: nat)
    requires Short(s) && n <= |s|
    ensures Short(s[..n]) && Lines(s[..n]) <= Lines(s)
    decreases |s|
  {
    if n == |s| {
      assert s[..n] == s;
    } else {
      var front := s[..|s| - 1];
      assert Lines(front) <= Lines(s);
      assert forall i :: 0 <= i < |Lines(front)| ==> Lines(front)[i] == Lines(s)[i];
      if s[|s| - 1] == '\n' {
        assert Lines(s)[|Lines(front)|] == Rest(front) + ['\n'];
      }
      ShortPrefix(front, n);
      assert front[..n] == s[..n];
    }
  }

  /** What has been handled and what waits depends only on how much has been consumed. */
  ghost predicate OnTrack(stream: string, p: Progress) {
    && !p.failed && p.pos <= |stream|
    && p.handled == Lines(stream[..p.pos]) && p.text == Rest(stream[..p.pos])
  }

  ghost predicate Accepts(handle: Handler, stream: string) {
    forall l :: l in Lines(stream) ==> handle(l).Done?
  }

  /** One call consumes min(k, room) bytes and stays on track unless the unfinished line fills the buffer. */
  lemma OfferStep(handle: Handler, stream: string, p: Progress, k: nat)
    requires OnTrack(stream, p) && |p.text| < WRITEBUFFER_SIZE && Accepts(handle, stream)
    ensures var n := Min(Min(k, |stream| - p.pos), WRITEBUFFER_SIZE - |p.text|);
            var p' := Offer(handle, stream, p, k);
            if |Rest(stream[..p.pos + n])| < WRITEBUFFER_SIZE then OnTrack(stream, p') && p'.pos == p.pos + n
            else p'.failed
  {
    hide Lines, Rest, Consume;
    var n := Min(Min(k, |stream| - p.pos), WRITEBUFFER_SIZE - |p.text|);
    var chunk := stream[p.pos..][..Min(k, |stream| - p.pos)];
    assert stream[p.pos..p.pos + n] == chunk[..n];
    StepLines(stream, p.pos, n);
    ConsumeAll(handle, p.text + chunk[..n]);
  }

  /** The lines that n more characters finish are lines of the stream. */
  lemma StepLines(stream: string, pos: nat, n: nat)
    requires pos + n <= |stream|
    ensures var s := Rest(stream[..pos]) + stream[pos..pos + n];
            && Lines(stream[..pos + n]) == Lines(stream[..pos]) + Lines(s)
            && Rest(stream[..pos + n]) == Rest(s)
            && forall l :: l in Lines(s) ==> l in Lines(stream)
  {
    hide Lines, Rest;
    assert stream[..pos + n] == stream[..pos] + stream[pos..pos + n];
    SplitAppend(stream[..pos], stream[pos..pos + n]);
    PrefixLines(stream, pos + n);
    var before, more := Lines(stream[..pos]), Lines(Rest(stream[..pos]) + stream[pos..pos + n]);
    forall l | l in more
      ensures l in Lines(stream)
    {
      var k :| 0 <= k < |more| && more[k] == l;
      assert (before + more)[|before| + k] == l;
    }
  }

  lemma {:induction false} PrefixLines(s: string, n: nat)
    requires n <= |s|
    ensures Lines(s[..n]) <= Lines(s)
    decreases |s|
  {
    if n == |s| {
      assert s[..n] == s;
    } else {
      PrefixLines(s[..|s| - 1], n);
      assert s[..|s| - 1][..n] == s[..n];
    }
  }

  /** However a stream of short lines is cut into calls, the lines handled are the finished lines of what
      has been consumed, the buffer holds the unfinished one, and every non-empty offer consumes something. */
  lemma {:induction false} ChunkIndependence(handle: Handler, stream: string, ks: seq<nat>)
    requires Short(stream) && Accepts(handle, stream)
    ensures var p := Offers(handle, stream, ks);
            && OnTrack(stream, p) && |p.text| < WRITEBUFFER_SIZE
            && (p.pos == |stream| ==> p.handled == Lines(stream) && p.text == Rest(stream))
            && forall k: nat :: k > 0 && p.pos < |stream| ==> Offer(handle, stream, p, k).pos > p.pos
    decreases |ks|
  {
    hide Offer, Offers, Lines, Rest;
    var p := Offers(handle, stream, ks);
    if ks == [] {
      StartOnTrack(handle, stream);
    } else {
      var front, k := ks[..|ks| - 1], ks[|ks| - 1];
      var before := Offers(handle, stream, front);
      ChunkIndependence(handle, stream, front);
      assert front + [k] == ks;
      OffersSnoc(handle, stream, front, k);
      OfferStep(handle, stream, before, k);
      ShortPrefix(stream, before.pos + Min(Min(k, |stream| - before.pos), WRITEBUFFER_SIZE - |before.text|));
    }
    assert stream[..|stream|] == stream;
    forall k: nat | k > 0 && p.pos < |stream|
      ensures Offer(handle, stream, p, k).pos > p.pos
    {
      OfferStep(handle, stream, p, k);
      ShortPrefix(stream, p.pos + Min(Min(k, |stream| - p.pos), WRITEBUFFER_SIZE - |p.text|));
    }
  }

  lemma OffersSnoc(handle: Handler, stream: string, ks: seq<nat>, k: nat)
    ensures Offers(handle, stream, ks + [k]) == Offer(handle, stream, Offers(handle, stream, ks), k)
  {
    assert (ks + [k])[..|ks|] == ks;
  }

  /** n single-byte offers. */
  function Ones(n: nat): (ks: seq<nat>)
    ensures |ks| == n
  {
    if n == 0 then [] else Ones(n - 1) + [1]
  }

  /** Byte by byte, the first unfinished line to fill the buffer makes a call fail. */
  lemma {:induction false} LongLineFails(handle: Handler, stream: string, n: nat)
    requires n <= |stream| && Accepts(handle, stream)
    ensures Offers(handle, stream, Ones(n)).failed || (OnTrack(stream, Offers(handle, stream, Ones(n)))
              && Offers(handle, stream, Ones(n)).pos == n && |Rest(stream[..n])| < WRITEBUFFER_SIZE)
  {
    hide Offer, Offers, Lines, Rest;
    if n == 0 {
      StartOnTrack(handle, stream);
    } else {
      LongLineFails(handle, stream, n - 1);
      OffersSnoc(handle, stream, Ones(n - 1), 1);
      var p := Offers(handle, stream, Ones(n - 1));
      if p.failed {
        FailedStays(handle, stream, p, 1);
      } else {
        OfferStep(handle, stream, p, 1);
      }
    }
  }

  lemma StartOnTrack(handle: Handler, stream: string)
    ensures Offers(handle, stream, []) == START && OnTrack(stream, START) && Rest(stream[..0]) == []
  {
    assert stream[..0] == [];
  }

  lemma FailedStays(handle: Handler, stream: string, p: Progress, k: nat)
    requires p.failed
    ensures Offer(handle, stream, p, k) == p
  {
  }

  lemma {:induction false} LongHasPoint(s: string) returns (n: nat)
    requires !Short(s)
    ensures n <= |s| && |Rest(s[..n])| >= WRITEBUFFER_SIZE
    decreases |s|
  {
    assert s[..|s|] == s;
    if |Rest(s)| >= WRITEBUFFER_SIZE {
      n := |s|;
    } else {
      var front := s[..|s| - 1];
      if |Rest(front)| >= WRITEBUFFER_SIZE {
        n := |s| - 1;
      } else {
        var i :| 0 <= i < |Lines(s)| && |Lines(s)[i]| > WRITEBUFFER_SIZE;
        assert i < |Lines(front)| && Lines(front)[i] == Lines(s)[i];
        n := LongHasPoint(front);
        assert front[..n] == s[..n];
      }
    }
  }

  /** The limit is exact: no way of cutting the stream ever makes a call fail precisely when its lines are
      short. */
  lemma FailsExactly(handle: Handler, stream: string)
    requires Accepts(handle, stream)
    ensures (forall ks: seq<nat> :: !Offers(handle, stream, ks).failed) <==> Short(stream)
  {
    if Short(stream) {
      forall ks: seq<nat>
        ensures !Offers(handle, stream, ks).failed
      {
        ChunkIndependence(handle, stream, ks);
      }
    } else {
      var n := LongHasPoint(stream);
      LongLineFails(handle, stream, n);
      assert Offers(handle, stream, Ones(n)).failed;
    }
  }

  // ---------------------------------------------------------------- resubmitting after an error

  lemma {:induction false} LineCount(a: string, b: string)
    ensures |Lines(a + b)| == |Lines(a)| + |Lines(b)|
    ensures |Lines(b)| > 0 <==> '\n' in b
    decreases |b|
  {
    hide Lines, Rest;
    if b == [] {
      SplitNil();
      assert a + b == a;
    } else {
      var front, c := b[..|b| - 1], b[|b| - 1];
      LineCount(a, front);
      assert a + b == (a + front) + [c] && b == front + [c];
      SplitSnoc(a + front, c);
      SplitSnoc(front, c);
    }
  }

  lemma NoLine(handle: Handler, s: string)
    requires '\n' !in s
    ensures Consume(handle, s) == ([], s, 0)
  {
  }

  /** A call that an answer ends has handed on some lines and keeps all other bytes it took. */
  lemma {:induction false} ConsumeKeeps(handle: Handler, s: string)
    ensures var (ls, left, _) := Consume(handle, s); ls + Lines(left) == Lines(s) && Rest(left) == Rest(s)
    decreases |s|
  {
    hide Lines, Rest, First, Consume;
    assert [] + Lines(s) == Lines(s);
    if '\n' in s {
      var i := First(s);
      var line, tail := s[..i + 1], s[i + 1..];
      SplitFirst(s, i);
      ConsumeStep(handle, s, i);
      ConsumeKeeps(handle, tail);
      var ls, left := Consume(handle, tail).0, Consume(handle, tail).1;
      assert [line] + ls + Lines(left) == [line] + (ls + Lines(left));
    } else {
      NoLine(handle, s);
    }
  }

  /** A call that returns an error because of an answer has taken its bytes all the same. A user who then
      resubmits them hands on exactly one line more for every newline the failed call had taken: some line
      goes out more than once if and only if there was one. */
  lemma RetryRepeats(handle: Handler, later: Handler, text: string, chunk: string)
    requires |text| <= WRITEBUFFER_SIZE
    requires var taken := chunk[..Min(|chunk|, WRITEBUFFER_SIZE - |text|)];
             var (_, left, err) := Consume(handle, text + taken);
             err != 0 && Accepts(later, left + chunk[..Min(|chunk|, WRITEBUFFER_SIZE - |left|)])
    ensures var taken := chunk[..Min(|chunk|, WRITEBUFFER_SIZE - |text|)];
            var (ls, left, err) := WriteCall(handle, text, chunk);
            var again := chunk[..Min(|chunk|, WRITEBUFFER_SIZE - |left|)];
            var ls' := WriteCall(later, left, chunk).0;
            && err != 0 && ls + ls' == Lines(text + taken + again)
            && |ls + ls'| == |Lines(text + again)| + |Lines(taken)|
            && (|ls + ls'| > |Lines(text + again)| <==> '\n' in taken)
  {
    hide Lines, Rest, Consume;
    var taken := chunk[..Min(|chunk|, WRITEBUFFER_SIZE - |text|)];
    var s := text + taken;
    var (ls, left, err) := Consume(handle, s);
    var again := chunk[..Min(|chunk|, WRITEBUFFER_SIZE - |left|)];
    ConsumeKeeps(handle, s);
    ConsumeAll(later, left + again);
    SplitAppend(s, again);
    SplitAppend(left, again);
    assert ls + (Lines(left) + Lines(Rest(left) + again)) == (ls + Lines(left)) + Lines(Rest(s) + again);
    LineCount(s, again);
    LineCount(text, taken);
    LineCount(text, again);
  }

  /** For example one line, refused at the first try because the transmit FIFO is full: at the second it goes
      out twice. */
  lemma RetryTwice(handle: Handler, later: Handler, line: string)
    requires IsLine(line) && 2 * |line| <= WRITEBUFFER_SIZE && handle(line) == Refused(-EAGAIN) && later(line).Done?
    ensures WriteCall(handle, [], line) == ([], line, -EAGAIN)
    ensures WriteCall(later, line, line) == ([line, line], [], |line|)
  {
    hide Consume;
    assert [] + line == line && line[..|line|] == line;
    FirstLine(handle, line, []);
    FirstLine(later, line, line);
    FirstLine(later, line, []);
    NoLine(later, []);
    assert Consume(later, line) == ([line] + [], [], 0) && [line] + [] == [line];
    assert [line] + [line] == [line, line];
    assert line[..Min(|line|, WRITEBUFFER_SIZE - |line|)] == line;
  }

  lemma FirstLine(handle: Handler, line: string, tail: string)
    requires IsLine(line)
    ensures Consume(handle, line + tail) ==
              match handle(line)
              case Refused(err) => ([], line + tail, err)
              case NoData => ([line], tail, -ENODATA)
              case Done => var rest := Consume(handle, tail); ([line] + rest.0, rest.1, rest.2)
    ensures line + [] == line
  {
    hide Consume;
    var i, s := |line| - 1, line + tail;
    assert s[..i + 1] == line && s[i + 1..] == tail && s[..i] == line[..i];
    ConsumeStep(handle, s, i);
  }

  // ---------------------------------------------------------------- a full buffer

  /** A call that fills the buffer without finishing a line returns -EINVAL and empties it; the next line is
      then taken and handled as from the start. */
  lemma FullBufferEmptied(handle: Handler, text: string, chunk: string, line: string)
    requires |text| <= WRITEBUFFER_SIZE && '\n' !in text + chunk && |text| + |chunk| >= 512
    requires IsLine(line) && |line| <= 512 && handle(line).Done?
    ensures WriteCall(handle, text, chunk) == ([], [], -22)
    ensures WriteCall(handle, WriteCall(handle, text, chunk).1, line) == ([line], [], |line|)
  {
    hide Consume;
    var n := Min(|chunk|, WRITEBUFFER_SIZE - |text|);
    assert forall c :: c in text + chunk[..n] ==> c in text + chunk;
    NoLine(handle, text + chunk[..n]);
    assert [] + line == line && line[..|line|] == line && [line] + [] == [line];
    FirstLine(handle, line, []);
    NoLine(handle, []);
  }

  /** What a call that does not fail returns is the number of bytes taken: all of them, or as many as fit. */
  lemma BytesTaken(handle: Handler, text: string, chunk: string)
    requires |text| <= WRITEBUFFER_SIZE && WriteCall(handle, text, chunk).2 >= 0
    requires forall l :: handle(l).Code() <= 0
    ensures var (ls, left, r) := WriteCall(handle, text, chunk);
            && r == (if |text| + |chunk| <= 512 then |chunk| else 512 - |text|)
            && Concat(ls) + left == text + chunk[..r]
  {
    hide Consume, Concat;
    ConsumeConcat(handle, text + chunk[..Min(|chunk|, WRITEBUFFER_SIZE - |text|)]);
  }

  lemma {:induction false} ConsumeConcat(handle: Handler, s: string)
    requires forall l :: handle(l).Code() <= 0
    ensures Concat(Consume(handle, s).0) + Consume(handle, s).1 == s && Consume(handle, s).2 <= 0
    decreases |s|
  {
    hide Consume, Concat, First;
    ConcatFew(s);
    if '\n' in s {
      var i := First(s);
      var line, tail := s[..i + 1], s[i + 1..];
      ConsumeStep(handle, s, i);
      ConsumeConcat(handle, tail);
      ConcatFew(line);
      ConcatBefore(line, Consume(handle, tail).0, Consume(handle, tail).1);
      assert line + tail == s && handle(line).Code() <= 0;
    } else {
      NoLine(handle, s);
    }
  }

  lemma ConcatFew(s: string)
    ensures Concat([]) + s == s == Concat([s])
  {
    hide Concat;
    SplitNil();
    ConcatCons(s, []);
    assert [s] + [] == [s] && [] + s == s && s + [] == s;
  }

  lemma ConcatBefore(line: string, ls: seq<string>, left: string)
    ensures Concat([line] + ls) + left == line + (Concat(ls) + left)
  {
    hide Concat;
    ConcatCons(line, ls);
  }

  lemma {:induction false} ConcatCons(line: string, ls: seq<string>)
    ensures Concat([line] + ls) == line + Concat(ls)
    decreases |ls|
  {
    hide Concat;
    if ls == [] {
      SplitNil();
      ConcatSnoc([], line);
      assert [line] + ls == [] + [line] && [] + line == line + [];
    } else {
      var front, last := ls[..|ls| - 1], ls[|ls| - 1];
      ConcatCons(line, front);
      assert [line] + ls == ([line] + front) + [last] && ls == front + [last];
      ConcatSnoc([line] + front, last);
      ConcatSnoc(front, last);
    }
  }
}
