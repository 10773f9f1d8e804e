/** Recorded traffic played back: what was read from one channel as text may be written to another. */
module Replay {
  import opened LineInput
  import opened TextFormat

  predicate AllWellFormed(frames: seq<Msg>) { forall i :: 0 <= i < |frames| ==> WellFormed(frames[i]) }

  /** The frames' printed lines. */
  function Printed(frames: seq<Msg>): (ls: seq<string>)
    requires AllWellFormed(frames)
    ensures |ls| == |frames| && forall i :: 0 <= i < |ls| ==> ls[i] == Line(frames[i])
  {
    if frames == [] then [] else [Line(frames[0])] + Printed(frames[1..])
  }

  /** The text they make together. */
  function Recording(frames: seq<Msg>): string
    requires AllWellFormed(frames)
  {
    if frames == [] then "" else Line(frames[0]) + Recording(frames[1..])
  }

  /** The line splitter cuts a recording where the printer ended its lines. */
  lemma {:induction false} RecordingLines(frames: seq<Msg>)
    requires AllWellFormed(frames)
    ensures Lines(Recording(frames)) == Printed(frames) && Rest(Recording(frames)) == []
  {
    hide Lines, Rest, Line;
    if frames == [] {
      SplitNil();
    } else {
      var line, tail := Line(frames[0]), Recording(frames[1..]);
      LineShape(frames[0]);
      RecordingLines(frames[1..]);
      var head := line[..|line| - 1];
      assert line == head + ['\n'];
      SplitLine(head, tail);
    }
  }

  /** However a recording of well-formed frames is cut into write calls, no call fails, and the lines
      handled so far parse to the first frames of the recording, to all of them once it is consumed. The
      parser is given the whole buffer: whatever text follows a line there makes no difference. */
  lemma ReplayRecovers(handle: Handler, frames: seq<Msg>, ks: seq<nat>, initial: Msg, behind: string)
    requires AllWellFormed(frames) && forall i :: 0 <= i < |frames| ==> handle(Line(frames[i])).Done?
    ensures var p := Offers(handle, Recording(frames), ks);
            && !p.failed && |p.handled| <= |frames|
            && (p.pos == |Recording(frames)| ==> |p.handled| == |frames| && p.text == [])
            && forall i :: 0 <= i < |p.handled| ==>
                 && Parsed(p.handled[i] + behind, initial).1 == 0
                 && SameFrame(Parsed(p.handled[i] + behind, initial).0, frames[i])
  {
    hide Lines, Rest, Line, Offers, Parsed, SameFrame, WellFormed;
    var stream := Recording(frames);
    RecordingLines(frames);
    forall i | 0 <= i < |frames|
      ensures |Printed(frames)[i]| <= WRITEBUFFER_SIZE
    {
      LineLimit(frames[i]);
    }
    ChunkIndependence(handle, stream, ks);
    var p := Offers(handle, stream, ks);
    PrefixLines(stream, p.pos);
    forall i | 0 <= i < |p.handled|
      ensures Parsed(p.handled[i] + behind, initial).1 == 0 && SameFrame(Parsed(p.handled[i] + behind, initial).0, frames[i])
    {
      assert p.handled[i] == Printed(frames)[i];
      LineEnds(frames[i]);
      ParsedInLine(p.handled[i], behind, initial);
      WellFormedRecovers(frames[i], initial);
    }
  }

  lemma LineEnds(pf: Msg)
    requires WellFormed(pf)
    ensures '\n' in Line(pf)
  {
    hide Line;
    LineShape(pf);
    assert Line(pf)[|Line(pf)| - 1] == '\n';
  }

  lemma LineLimit(pf: Msg)
    requires WellFormed(pf)
    ensures |Line(pf)| <= WRITEBUFFER_SIZE
  {
    hide Line;
    LineShape(pf);
  }
}
