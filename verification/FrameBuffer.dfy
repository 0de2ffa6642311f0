/** The gateway's offline frame buffer: a file of JSON lines that every append trims to a number of frames and a
    number of bytes.
 */
module FrameBuffer {
  import opened Common

  /** The compact JSON text of a frame. */
  type Frame = string

  /** A line of the file; what does not parse is skipped by every reader. */
  datatype Line = Whole(frame: Frame) | Garbage

  /** Bytes a frame takes in the file, newline included. */
  function Size(f: Frame): nat {
    |f| + 1
  }

  function Total(frames: seq<Frame>): nat {
    if frames == [] then 0 else Total(frames[..|frames| - 1]) + Size(frames[|frames| - 1])
  }

  /** The text of the file. */
  function Text(frames: seq<Frame>): string {
    if frames == [] then "" else Text(frames[..|frames| - 1]) + frames[|frames| - 1] + "\n"
  }

  /** The bytes counted are the length of the file's text. */
  lemma {:induction false} TotalIsFileSize(frames: seq<Frame>)
    ensures Total(frames) == |Text(frames)|
  {
    if frames != [] {
      TotalIsFileSize(frames[..|frames| - 1]);
    }
  }

  /** The frames a reader sees. */
  function Parsed(file: seq<Line>): seq<Frame> {
    if file == [] then []
    else
      var last := file[|file| - 1];
      Parsed(file[..|file| - 1]) + if last.Whole? then [last.frame] else []
  }

  function AsLines(frames: seq<Frame>): seq<Line> {
    seq(|frames|, i requires 0 <= i < |frames| => Whole(frames[i]))
  }

  lemma {:induction false} ParsedAsLines(frames: seq<Frame>)
    ensures Parsed(AsLines(frames)) == frames
  {
    if frames != [] {
      ParsedAsLines(frames[..|frames| - 1]);
      assert AsLines(frames)[..|frames| - 1] == AsLines(frames[..|frames| - 1]);
    }
  }

  /** Are the frames those of the whole lines, each once and in the order of the file? `at` are their positions. */
  ghost predicate ReadFrom(frames: seq<Frame>, file: seq<Line>, at: seq<nat>) {
    && Increasing(at, |file|) && |frames| == |at|
    && (forall i: nat | i < |file| :: file[i].Whole? <==> i in at)
    && forall k :: 0 <= k < |at| ==> file[at[k]] == Whole(frames[k])
  }

  lemma ReadSnoc(frames: seq<Frame>, file: seq<Line>, at: seq<nat>, line: Line)
    requires ReadFrom(frames, file, at)
    ensures line.Garbage? ==> ReadFrom(frames, file + [line], at)
    ensures line.Whole? ==> ReadFrom(frames + [line.frame], file + [line], at + [|file|])
  {
    if line.Whole? {
      var now := at + [|file|];
      forall i: nat | i < |file + [line]|
        ensures (file + [line])[i].Whole? <==> i in now
      {
        assert now[|at|] == |file|;
        assert forall k :: 0 <= k < |at| ==> now[k] == at[k];
        assert i in at ==> i in now;
      }
    }
  }

  /** A reader sees exactly the whole lines, whatever lies between them. */
  lemma {:induction false} ParsedIs(file: seq<Line>) returns (at: seq<nat>)
    ensures ReadFrom(Parsed(file), file, at)
    decreases |file|
  {
    at := [];
    if file != [] {
      var n := |file| - 1;
      at := ParsedIs(file[..n]);
      assert file == file[..n] + [file[n]];
      assert Parsed(file[..n]) + [] == Parsed(file[..n]);
      hide Parsed, ReadFrom;
      ReadSnoc(Parsed(file[..n]), file[..n], at, file[n]);
      ParsedSnoc(file[..n], file[n]);
      if file[n].Whole? {
        at := at + [n];
      }
    }
  }

  lemma ParsedSnoc(file: seq<Line>, line: Line)
    ensures Parsed(file + [line]) == if line.Whole? then Parsed(file) + [line.frame] else Parsed(file)
  {
    assert (file + [line])[..|file|] == file;
  }

  lemma {:induction false} ParsedConcat(a: seq<Line>, b: seq<Line>)
    ensures Parsed(a + b) == Parsed(a) + Parsed(b)
    decreases |b|
  {
    if b == [] {
      assert a + b == a;
    } else {
      var n := |b| - 1;
      ParsedConcat(a, b[..n]);
      assert a + b == (a + b[..n]) + [b[n]] && b == b[..n] + [b[n]];
      ParsedSnoc(a + b[..n], b[n]);
      ParsedSnoc(b[..n], b[n]);
    }
  }

  /** Lines torn by a power cut, wherever they lie, change neither what a reader sees nor what an append keeps. */
  lemma TornLinesInvisible(before: seq<Line>, torn: seq<Line>, behind: seq<Line>, f: Frame, count: int, room: int)
    requires forall line <- torn :: line.Garbage?
    ensures Parsed(before + torn + behind) == Parsed(before + behind)
    ensures Keep(Parsed(before + torn + behind) + [f], count, room) == Keep(Parsed(before + behind) + [f], count, room)
  {
    ParsedConcat(before + torn, behind);
    ParsedConcat(before, torn);
    ParsedConcat(before, behind);
    NothingParsed(torn);
    assert Parsed(before) + [] == Parsed(before);
  }

  lemma {:induction false} NothingParsed(torn: seq<Line>)
    requires forall line <- torn :: line.Garbage?
    ensures Parsed(torn) == []
    decreases |torn|
  {
    if torn != [] {
      var n := |torn| - 1;
      assert torn == torn[..n] + [torn[n]] && torn[n] in torn;
      NothingParsed(torn[..n]);
      ParsedSnoc(torn[..n], torn[n]);
    }
  }

  // ---------------------------------------------------------------- what trimming keeps

  /** Newest first, keep what still fits the count and the room, and go on past what does not. */
  function Keep(frames: seq<Frame>, count: int, room: int): seq<Frame> {
    if frames == [] then []
    else
      var older, newest := frames[..|frames| - 1], frames[|frames| - 1];
      if Size(newest) > room || count <= 0 then Keep(older, count, room)
      else Keep(older, count - 1, room - Size(newest)) + [newest]
  }

  class FrameBuffer {
    const maxFrames: int
    const maxBytes: int
    var file: seq<Line>

    constructor (maxFrames: int, maxBytes: int)
      ensures this.maxFrames == maxFrames && this.maxBytes == maxBytes && file == []
    {
      this.maxFrames, this.maxBytes, file := maxFrames, maxBytes, [];
    }

    /** `append`; the flags say whether the flash file can be opened for appending and for rewriting. */
    method Append(f: Frame, canAppend: bool, canRewrite: bool) returns (ok: bool)
      modifies this
      ensures ok == canAppend
      ensures !canAppend ==> file == old(file)
      ensures canAppend && canRewrite ==> Parsed(file) == Keep(Parsed(old(file)) + [f], maxFrames, maxBytes)
      ensures canAppend && !canRewrite ==> file == old(file) + [Whole(f)]
    {
      if !canAppend {
        return false;
      }
      assert (file + [Whole(f)])[..|file|] == file;
      file := file + [Whole(f)];
      Trim(canRewrite);
      return true;
    }

    method Snapshot() returns (frames: seq<Frame>)
      ensures frames == Parsed(file)
      ensures exists at: seq<nat> :: ReadFrom(frames, file, at)
    {
      ghost var _ := ParsedIs(file);
      frames := [];
      for i := 0 to |file|
        invariant frames == Parsed(file[..i])
      {
        assert file[..i + 1][..i] == file[..i];
        if file[i].Whole? {
          frames := frames + [file[i].frame];
        }
      }
      assert file[..|file|] == file;
    }

    method Trim(canRewrite: bool)
      modifies this
      ensures canRewrite ==> Parsed(file) == Keep(Parsed(old(file)), maxFrames, maxBytes)
      ensures !canRewrite ==> file == old(file)
    {
      var frames := Snapshot();
      var kept := ChooseKept(frames);
      KeepsAllIff(frames, maxFrames, maxBytes);
      if |kept| == |frames| {
        return;
      }
      if canRewrite {
        ParsedAsLines(kept);
        file := AsLines(kept);
      }
    }

    /** The loop of `_trim`, newest to oldest. */
    method ChooseKept(frames: seq<Frame>) returns (kept: seq<Frame>)
      ensures kept == Keep(frames, maxFrames, maxBytes)
    {
      hide Size;
      var total := 0;
      kept := [];
      assert frames[..|frames|] == frames;
      for i := |frames| downto 0
        invariant Keep(frames, maxFrames, maxBytes)
               == Keep(frames[..i], maxFrames - |kept|, maxBytes - total) + Reverse(kept)
      {
        var older := frames[..i];
        assert frames[..i + 1][..i] == older;
        var size := Size(frames[i]);
        if total + size > maxBytes || |kept| >= maxFrames {
          continue;
        }
        ReverseAppend(kept, [frames[i]]);
        assert Reverse([frames[i]]) == [frames[i]];
        kept := kept + [frames[i]];
        total := total + size;
      }
      kept := Reverse(kept);
    }
  }

  // ---------------------------------------------------------------- what that means

  /** The positions of the kept frames. */
  function KeptAt(frames: seq<Frame>, count: int, room: int): seq<nat> {
    if frames == [] then []
    else
      var last := |frames| - 1;
      if Size(frames[last]) > room || count <= 0 then KeptAt(frames[..last], count, room)
      else KeptAt(frames[..last], count - 1, room - Size(frames[last])) + [last]
  }

  /** Does `kept` consist of the frames at these places? */
  ghost predicate TakenFrom(kept: seq<Frame>, frames: seq<Frame>, at: seq<nat>) {
    && Increasing(at, |frames|) && |kept| == |at|
    && forall i :: 0 <= i < |at| ==> kept[i] == frames[at[i]]
  }

  lemma TakenSnoc(kept: seq<Frame>, frames: seq<Frame>, at: seq<nat>, f: Frame)
    requires TakenFrom(kept, frames, at)
    ensures TakenFrom(kept, frames + [f], at)
    ensures TakenFrom(kept + [f], frames + [f], at + [|frames|])
  {
  }

  /** Trimming keeps frames in their order, each from its own place. */
  lemma {:induction false} KeepsInOrder(frames: seq<Frame>, count: int, room: int)
    ensures TakenFrom(Keep(frames, count, room), frames, KeptAt(frames, count, room))
  {
    hide TakenFrom;
    if frames == [] {
      NothingTaken();
    } else {
      var last := |frames| - 1;
      var older, f := frames[..last], frames[last];
      var drops := Size(f) > room || count <= 0;
      var count', room' := if drops then count else count - 1, if drops then room else room - Size(f);
      KeepsInOrder(older, count', room');
      TakenSnoc(Keep(older, count', room'), older, KeptAt(older, count', room'), f);
      assert older + [f] == frames;
    }
  }

  lemma NothingTaken()
    ensures TakenFrom([], [], [])
  {
  }

  /** What is kept stays within both bounds. */
  lemma {:induction false} KeepWithinBounds(frames: seq<Frame>, count: int, room: int)
    ensures |Keep(frames, count, room)| <= if count > 0 then count else 0
    ensures Total(Keep(frames, count, room)) <= if room > 0 then room else 0
  {
    if frames != [] {
      var last := |frames| - 1;
      var older := frames[..last];
      if Size(frames[last]) > room || count <= 0 {
        KeepWithinBounds(older, count, room);
      } else {
        KeepWithinBounds(older, count - 1, room - Size(frames[last]));
        TotalSnoc(Keep(older, count - 1, room - Size(frames[last])), frames[last]);
      }
    }
  }

  lemma TotalSnoc(frames: seq<Frame>, f: Frame)
    ensures Total(frames + [f]) == Total(frames) + Size(f) && Size(f) > 0
  {
  }

  /** One step of the trimming loop, seen from the list with one more newest frame. */
  lemma KeepSnoc(older: seq<Frame>, f: Frame, count: int, room: int)
    ensures Size(f) > room || count <= 0 ==>
              && Keep(older + [f], count, room) == Keep(older, count, room)
              && KeptAt(older + [f], count, room) == KeptAt(older, count, room)
              && FittingSuffix(older + [f], count, room) == 0
    ensures !(Size(f) > room || count <= 0) ==>
              && Keep(older + [f], count, room) == Keep(older, count - 1, room - Size(f)) + [f]
              && KeptAt(older + [f], count, room) == KeptAt(older, count - 1, room - Size(f)) + [|older|]
              && FittingSuffix(older + [f], count, room) == FittingSuffix(older, count - 1, room - Size(f)) + 1
  {
  }

  /** A frame is kept exactly when it fits beside the frames kept among the newer ones. */
  lemma {:induction false} KeptIff(frames: seq<Frame>, count: int, room: int, i: nat)
    requires i < |frames|
    ensures var newer := Keep(frames[i + 1..], count, room);
            i in KeptAt(frames, count, room) <==> |newer| < count && Total(newer) + Size(frames[i]) <= room
    decreases |frames|
  {
    var last := |frames| - 1;
    var older, f := frames[..last], frames[last];
    assert frames == older + [f];
    var drops := Size(f) > room || count <= 0;
    var count', room' := if drops then count else count - 1, if drops then room else room - Size(f);
    KeepSnoc(older, f, count, room);
    KeepsInOrder(older, count', room');
    assert last !in KeptAt(older, count', room');
    if i == last {
      assert frames[i + 1..] == [];
    } else {
      KeptIff(older, count', room', i);
      var newer := older[i + 1..];
      assert frames[i + 1..] == newer + [f];
      hide Size, KeptAt, Keep;
      KeepSnoc(newer, f, count, room);
      TotalSnoc(Keep(newer, count', room'), f);
    }
  }

  /** Trimming changes nothing exactly when everything fits; so it is idempotent. */
  lemma {:induction false} KeepsAllIff(frames: seq<Frame>, count: int, room: int)
    ensures |Keep(frames, count, room)| == |frames| ==> Keep(frames, count, room) == frames
    ensures Keep(frames, count, room) == frames <==> frames == [] || (|frames| <= count && Total(frames) <= room)
    ensures |Keep(frames, count, room)| <= |frames|
  {
    hide Keep, Size, Total;
    KeepOfNone(count, room);
    if frames != [] {
      var last := |frames| - 1;
      var older, f := frames[..last], frames[last];
      assert frames == older + [f];
      KeepSnoc(older, f, count, room);
      TotalSnoc(older, f);
      if Size(f) > room || count <= 0 {
        KeepsAllIff(older, count, room);
      } else {
        KeepsAllIff(older, count - 1, room - Size(f));
      }
    }
  }

  lemma KeepIdempotent(frames: seq<Frame>, count: int, room: int)
    ensures Keep(Keep(frames, count, room), count, room) == Keep(frames, count, room)
  {
    KeepWithinBounds(frames, count, room);
    KeepsAllIff(Keep(frames, count, room), count, room);
    if Keep(frames, count, room) != [] {
      assert Total(Keep(frames, count, room)) > 0;
    }
  }

  // ---------------------------------------------------------------- oldest first?

  /** How many of the newest frames fit together. */
  function FittingSuffix(frames: seq<Frame>, count: int, room: int): (s: nat)
    ensures s <= |frames|
  {
    if frames == [] then 0
    else
      var newest := frames[|frames| - 1];
      if Size(newest) > room || count <= 0 then 0
      else FittingSuffix(frames[..|frames| - 1], count - 1, room - Size(newest)) + 1
  }

  ghost predicate NoneFits(frames: seq<Frame>, room: int) {
    forall f <- frames :: Size(f) > room
  }

  function Newer(frames: seq<Frame>, s: nat): seq<Frame>
    requires s <= |frames|
  {
    frames[|frames| - s..]
  }

  function Older(frames: seq<Frame>, s: nat): seq<Frame>
    requires s <= |frames|
  {
    frames[..|frames| - s]
  }

  lemma SplitSnoc(frames: seq<Frame>, s: nat, f: Frame)
    requires s <= |frames|
    ensures Newer(frames + [f], s + 1) == Newer(frames, s) + [f] && Older(frames + [f], s + 1) == Older(frames, s)
    ensures Newer(frames, 0) == [] && Older(frames, 0) == frames
  {
  }

  /** Trimming keeps the newest frames that fit together, and below them what fits into the room they leave. */
  lemma {:induction false} KeepSplits(frames: seq<Frame>, count: int, room: int)
    ensures var s := FittingSuffix(frames, count, room);
            Keep(frames, count, room)
            == Keep(Older(frames, s), count - s, room - Total(Newer(frames, s))) + Newer(frames, s)
  {
    hide Size, Older, Newer, Total, Keep, FittingSuffix;
    if frames == [] {
      SplitSnoc([], 0, "");
      KeepOfNone(count, room);
    } else {
      var last := |frames| - 1;
      var older, f := frames[..last], frames[last];
      assert frames == older + [f];
      KeepSnoc(older, f, count, room);
      if Size(f) > room || count <= 0 {
        SplitSnoc(frames, 0, "");
        KeepOfNone(count, room);
      } else {
        var s := FittingSuffix(older, count - 1, room - Size(f));
        KeepSplits(older, count - 1, room - Size(f));
        SplitSnoc(older, s, f);
        TotalSnoc(Newer(older, s), f);
      }
    }
  }

  lemma KeepOfNone(count: int, room: int)
    ensures Keep([], count, room) == [] && FittingSuffix([], count, room) == 0 && Total([]) == 0
  {
  }

  /** Trimming drops the oldest frames first, as the firmware's documentation says, if and only if the count is used
      up or no older frame fits into the room left. */
  lemma OldestFirstIff(frames: seq<Frame>, count: int, room: int)
    ensures var s := FittingSuffix(frames, count, room);
            Keep(frames, count, room) == Newer(frames, s)
            <==> count <= s || NoneFits(Older(frames, s), room - Total(Newer(frames, s)))
  {
    hide Keep, NoneFits, Total, FittingSuffix;
    var s := FittingSuffix(frames, count, room);
    KeepSplits(frames, count, room);
    KeepsNothingIff(Older(frames, s), count - s, room - Total(Newer(frames, s)));
  }

  lemma {:induction false} KeepsNothingIff(frames: seq<Frame>, count: int, room: int)
    ensures Keep(frames, count, room) == [] <==> count <= 0 || NoneFits(frames, room)
  {
    if frames != [] {
      KeepsNothingIff(frames[..|frames| - 1], count, room);
    }
  }

  /** Three frames of 2, 5 and 2 bytes and room for 6: the middle one goes, the oldest stays. */
  lemma NotAlwaysOldestFirst()
    ensures Keep(["a", "bbbb", "c"], 3, 6) == ["a", "c"]
  {
    var frames := ["a", "bbbb", "c"];
    assert frames[..2] == ["a", "bbbb"] && frames[..2][..1] == ["a"] && ["a"][..0] == [];
    assert Keep(["a"], 2, 4) == ["a"];
    assert Keep(["a", "bbbb"], 2, 4) == ["a"];
  }

  // ---------------------------------------------------------------- sequences of appends

  /** The buffer after appending a history of frames to an empty file. */
  function Appended(history: seq<Frame>, count: int, room: int): seq<Frame> {
    if history == [] then []
    else Keep(Appended(history[..|history| - 1], count, room) + [history[|history| - 1]], count, room)
  }

  /** The newest `n` frames, or all of them. */
  function Newest(frames: seq<Frame>, n: nat): seq<Frame> {
    if n < |frames| then frames[|frames| - n..] else frames
  }

  function Fit(count: nat, room: nat, size: nat): nat
    requires size > 0
  {
    if count < room / size then count else room / size
  }

  /** One more frame fits exactly when there is room for it, and then one fewer fits after it. */
  lemma FitStep(count: nat, room: nat, size: nat)
    requires size > 0
    ensures Fit(count, room, size) == 0 <==> count == 0 || size > room
    ensures count > 0 && size <= room ==> Fit(count, room, size) == Fit(count - 1, room - size, size) + 1
  {
    QuotientStep(size, room, room / size, room % size);
    if size <= room {
      QuotientStep(size, room - size, (room - size) / size, (room - size) % size);
      assert size * ((room - size) / size + 1) == size * ((room - size) / size) + size;
      QuotientUnique(size, room / size, room % size, (room - size) / size + 1, (room - size) % size);
    }
  }

  lemma QuotientStep(size: int, n: int, q: int, r: int)
    requires size > 0 && n >= 0 && q == n / size && r == n % size
    ensures n == size * q + r && 0 <= r < size && q >= 0
    ensures n < size ==> q == 0
  {
  }

  lemma QuotientUnique(size: int, q: int, r: int, q': int, r': int)
    requires 0 <= r < size && 0 <= r' < size && size * q + r == size * q' + r'
    ensures q == q'
  {
    if q < q' {
      MultiplesApart(size, q, q');
    } else if q' < q {
      MultiplesApart(size, q', q);
    }
  }

  lemma {:induction false} MultiplesApart(size: int, a: int, b: int)
    requires size > 0 && a < b
    ensures size * a + size <= size * b
    decreases b - a
  {
    assert size * b == size * (b - 1) + size;
    if a < b - 1 {
      MultiplesApart(size, a, b - 1);
    }
  }

  /** With frames of one size, trimming keeps exactly the newest that fit. */
  lemma {:induction false} EqualSizesKeepNewest(frames: seq<Frame>, count: nat, room: nat, size: nat)
    requires size > 0 && forall f <- frames :: Size(f) == size
    ensures Keep(frames, count, room) == Newest(frames, Fit(count, room, size))
  {
    hide Fit, Size, Keep, Newest;
    FitStep(count, room, size);
    if frames == [] {
      KeepOfNone(count, room);
      NewestOfNone(Fit(count, room, size));
    } else {
      var last := |frames| - 1;
      var older, f := frames[..last], frames[last];
      assert f in frames && frames == older + [f];
      KeepSnoc(older, f, count, room);
      if size > room || count == 0 {
        EqualSizesKeepNewest(older, count, room, size);
        NewestZero(older);
        NewestZero(frames);
      } else {
        EqualSizesKeepNewest(older, count - 1, room - size, size);
        NewestSnoc(older, Fit(count - 1, room - size, size), f);
      }
    }
  }

  lemma NewestZero(frames: seq<Frame>)
    ensures Newest(frames, 0) == []
  {
  }

  lemma NewestSnoc(frames: seq<Frame>, n: nat, f: Frame)
    ensures Newest(frames + [f], n + 1) == Newest(frames, n) + [f]
    ensures Newest(Newest(frames, n) + [f], n) == Newest(frames + [f], n)
    ensures forall g <- Newest(frames, n) :: g in frames
  {
  }

  lemma NewestOfNone(n: nat)
    ensures Newest([], n) == []
  {
  }

  /** With frames of one size, any sequence of appends leaves exactly the newest
      `min(n, max_frames, max_bytes / size)` frames. */
  lemma {:induction false} EqualSizesHoldNewest(history: seq<Frame>, count: nat, room: nat, size: nat)
    requires size > 0 && forall f <- history :: Size(f) == size
    ensures Appended(history, count, room) == Newest(history, Fit(count, room, size))
  {
    hide Fit, Size, Newest, Keep;
    if history == [] {
      EqualSizesKeepNewest([], count, room, size);
      NewestOfNone(Fit(count, room, size));
    } else {
      var last := |history| - 1;
      assert history[last] in history;
      var older, n := history[..last], Fit(count, room, size);
      EqualSizesHoldNewest(older, count, room, size);
      NewestSnoc(older, n, history[last]);
      EqualSizesKeepNewest(Newest(older, n) + [history[last]], count, room, size);
      assert older + [history[last]] == history;
    }
  }

  /** Whatever the sizes: the buffer always fits, and the frame just appended is in it exactly when it fits alone. */
  lemma {:induction false} AppendedFits(history: seq<Frame>, count: int, room: int)
    requires history != []
    ensures var buffer, f := Appended(history, count, room), history[|history| - 1];
            && |buffer| <= (if count > 0 then count else 0) && Total(buffer) <= (if room > 0 then room else 0)
            && (count >= 1 && Size(f) <= room ==> buffer != [] && buffer[|buffer| - 1] == f)
            && (count < 1 || Size(f) > room ==> buffer == Appended(history[..|history| - 1], count, room))
  {
    var older, f := Appended(history[..|history| - 1], count, room), history[|history| - 1];
    KeepWithinBounds(older + [f], count, room);
    assert (older + [f])[..|older|] == older;
    if count < 1 || Size(f) > room {
      if |history| > 1 {
        var was := history[..|history| - 1];
        KeepIdempotent(Appended(was[..|was| - 1], count, room) + [was[|was| - 1]], count, room);
      }
    }
  }
}
