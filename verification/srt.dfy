/**
 The SubRip document that `transcribe` builds from the model's segments
 (app.py, the loop over `enumerate(result["segments"], 1)`).

 Per segment the loop computes three strings (the two timecodes and the
 stripped text), here a `Cue`, and appends one numbered block made of them.
 */
module Srt {
  import opened Digits
  import opened Timecode
  import opened Whitespace

  /** One utterance span; times are the microseconds a timedelta holds. */
  datatype Segment = Segment(start: int, end: int, text: string)

  /** The three strings the loop derives from one segment. */
  datatype Cue = Cue(startCode: string, endCode: string, text: string)

  function CueOf(seg: Segment): (cue: Cue)
    ensures IsTimecode(cue.startCode) && IsTimecode(cue.endCode)
    ensures Stripped(cue.text)
  {
    Cue(FormatTimestamp(seg.start), FormatTimestamp(seg.end), Strip(seg.text))
  }

  function CuesOf(segs: seq<Segment>): (cues: seq<Cue>)
    ensures |cues| == |segs|
    ensures forall k :: 0 <= k < |segs| ==> cues[k] == CueOf(segs[k])
  {
    seq(|segs|, k requires 0 <= k < |segs| => CueOf(segs[k]))
  }

  /** `f"{i}\n{start_time} --> {end_time}\n{text}\n\n"`. */
  function Block(index: nat, cue: Cue): string {
    Decimal(index) + "\n" + cue.startCode + " --> " + cue.endCode + "\n" + cue.text + "\n\n"
  }

  /** The blocks of `cues`, numbered upward from `first`. */
  function SrtFrom(first: nat, cues: seq<Cue>): (doc: string)
    ensures cues == [] <==> doc == []
    decreases |cues|
  {
    if cues == [] then "" else Block(first, cues[0]) + SrtFrom(first + 1, cues[1..])
  }

  /** The `srt_output` string: one block per segment, numbered from 1. */
  function SrtOf(segs: seq<Segment>): (doc: string)
    ensures segs == [] <==> doc == ""
  {
    SrtFrom(1, CuesOf(segs))
  }

  /** Every block, and so every nonempty document, ends in a blank line. */
  lemma {:induction false} SrtFromEndsBlank(first: nat, cues: seq<Cue>)
    requires cues != []
    ensures var doc := SrtFrom(first, cues);
            |doc| >= 2 && doc[|doc| - 2..] == "\n\n"
    decreases |cues|
  {
    var head := Block(first, cues[0]);
    var rest := SrtFrom(first + 1, cues[1..]);
    if rest == [] {
      assert (head + rest)[|head + rest| - 2..] == head[|head| - 2..];
    } else {
      SrtFromEndsBlank(first + 1, cues[1..]);
      assert (head + rest)[|head + rest| - 2..] == rest[|rest| - 2..];
    }
  }

  lemma SrtOfEndsBlank(segs: seq<Segment>)
    requires segs != []
    ensures var doc := SrtOf(segs);
            |doc| >= 2 && doc[|doc| - 2..] == "\n\n"
  {
    SrtFromEndsBlank(1, CuesOf(segs));
  }

  /** Appending a cue appends exactly its block, numbered one past the count so far. */
  lemma {:induction false} SrtFromSnoc(first: nat, cues: seq<Cue>, x: Cue)
    ensures SrtFrom(first, cues + [x]) == SrtFrom(first, cues) + Block(first + |cues|, x)
    decreases |cues|
  {
    if cues == [] {
      assert cues + [x] == [x];
      assert [x][1..] == [];
    } else {
      assert (cues + [x])[0] == cues[0];
      assert (cues + [x])[1..] == cues[1..] + [x];
      SrtFromSnoc(first + 1, cues[1..], x);
    }
  }

  lemma SrtSnoc(segs: seq<Segment>, x: Segment)
    ensures SrtOf(segs + [x]) == SrtOf(segs) + Block(|segs| + 1, CueOf(x))
  {
    CuesOfSnoc(segs, x);
    SrtFromSnoc(1, CuesOf(segs), CueOf(x));
  }

  lemma CuesOfSnoc(segs: seq<Segment>, x: Segment)
    ensures CuesOf(segs + [x]) == CuesOf(segs) + [CueOf(x)]
  {
    var a := CuesOf(segs + [x]);
    var b := CuesOf(segs) + [CueOf(x)];
    assert |a| == |b|;
    forall k | 0 <= k < |a|
      ensures a[k] == b[k]
    {
      if k < |segs| {
        assert (segs + [x])[k] == segs[k];
      }
    }
  }

  /** The loop of `transcribe`: `srt_output += ...` once per enumerated segment. */
  method AssembleSrt(segs: seq<Segment>) returns (srt: string)
    ensures srt == SrtOf(segs)
  {
    srt := "";
    var i := 1;
    while i <= |segs|
      invariant 1 <= i <= |segs| + 1
      invariant srt == SrtOf(segs[..i - 1])
    {
      var cue := CueOf(segs[i - 1]);
      AssembleStep(segs, i);
      srt := srt + Block(i, cue);
      i := i + 1;
    }
    assert segs[..i - 1] == segs;
  }

  /** One iteration: the first `i` segments give the first `i - 1` blocks and block `i`. */
  lemma AssembleStep(segs: seq<Segment>, i: nat)
    requires 1 <= i <= |segs|
    ensures SrtOf(segs[..i]) == SrtOf(segs[..i - 1]) + Block(i, CueOf(segs[i - 1]))
  {
    assert segs[..i] == segs[..i - 1] + [segs[i - 1]];
    SrtSnoc(segs[..i - 1], segs[i - 1]);
  }

  /** Concatenation of a list of strings, in order. */
  function Concat(parts: seq<string>): string {
    if parts == [] then "" else parts[0] + Concat(parts[1..])
  }

  /** Block `k` of the list is the `k`-th cue, numbered from `first`. */
  function Blocks(first: nat, cues: seq<Cue>): (bs: seq<string>)
    ensures |bs| == |cues|
    ensures forall k :: 0 <= k < |cues| ==> bs[k] == Block(first + k, cues[k])
  {
    seq(|cues|, k requires 0 <= k < |cues| => Block(first + k, cues[k]))
  }

  /**
   An independent reading of the document: one block per cue, the k-th
   numbered `first + k`, concatenated in order.
   */
  lemma {:induction false} SrtFromIsConcat(first: nat, cues: seq<Cue>)
    ensures SrtFrom(first, cues) == Concat(Blocks(first, cues))
    decreases |cues|
  {
    if cues != [] {
      SrtFromIsConcat(first + 1, cues[1..]);
      assert Blocks(first, cues)[1..] == Blocks(first + 1, cues[1..]);
    }
  }

  /** Block k of the document belongs to segment k and carries the number k + 1. */
  lemma SrtOfIsConcat(segs: seq<Segment>)
    ensures SrtOf(segs) == Concat(Blocks(1, CuesOf(segs)))
    ensures forall k :: 0 <= k < |segs| ==> Blocks(1, CuesOf(segs))[k] == Block(k + 1, CueOf(segs[k]))
  {
    SrtFromIsConcat(1, CuesOf(segs));
  }

  /**
   The lines after a block's index: a newline, the two timecodes around
   ` --> `, a newline, the cue's text and a blank line.
   */
  predicate CueLines(r: string, cue: Cue) {
    && |r| == 33 + |cue.text|
    && r[0] == '\n'
    && r[1..13] == cue.startCode
    && r[13..18] == " --> "
    && r[18..30] == cue.endCode
    && r[30] == '\n'
    && r[31..|r| - 2] == cue.text
    && r[|r| - 2..] == "\n\n"
  }

  /** A block reads back: a line holding the index, then the cue's lines. */
  lemma BlockLayout(index: nat, cue: Cue)
    requires IsTimecode(cue.startCode) && IsTimecode(cue.endCode)
    ensures var b := Block(index, cue);
            var k := |Decimal(index)|;
            && AllDigits(b[..k]) && Parse(b[..k]) == index
            && CueLines(b[k..], cue)
  {
    var b := Block(index, cue);
    var d := Decimal(index);
    var rest := ['\n'] + cue.startCode + " --> " + cue.endCode + ['\n'] + cue.text + "\n\n";
    assert b == d + rest;
    assert b[..|d|] == d;
    assert b[|d|..] == rest;
    CueLinesOf(cue);
  }

  lemma CueLinesOf(cue: Cue)
    requires IsTimecode(cue.startCode) && IsTimecode(cue.endCode)
    ensures CueLines(['\n'] + cue.startCode + " --> " + cue.endCode + ['\n'] + cue.text + "\n\n", cue)
  {
    var line := cue.startCode + " --> " + cue.endCode;
    var r := ['\n'] + cue.startCode + " --> " + cue.endCode + ['\n'] + cue.text + "\n\n";
    assert r == ['\n'] + line + (['\n'] + cue.text + "\n\n");
    assert r[1..30] == line;
    assert line[..12] == cue.startCode && line[12..17] == " --> " && line[17..] == cue.endCode;
    assert r[30..] == ['\n'] + cue.text + "\n\n";
  }

  /**
   The block of a segment shows the segment's start and end offsets into their
   day, to the millisecond, and its text without surrounding whitespace.
   */
  lemma SegmentBlockDecodes(index: nat, seg: Segment)
    ensures var r := Block(index, CueOf(seg))[|Decimal(index)|..];
            && |r| >= 33
            && ReadClock(r[1..13]).Some? && ReadClock(r[1..13]).value.Millis() == DayMillis(seg.start)
            && ReadClock(r[18..30]).Some? && ReadClock(r[18..30]).value.Millis() == DayMillis(seg.end)
            && r[31..|r| - 2] == Strip(seg.text)
            && Stripped(r[31..|r| - 2])
  {
    BlockLayout(index, CueOf(seg));
    ParseFormat(seg.start);
    ParseFormat(seg.end);
  }
}
