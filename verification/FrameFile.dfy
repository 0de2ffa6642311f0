/** How the gateway reads its buffer file: in reads of a fixed number of characters, each split into lines on its own,
    so that a line may be cut where one read ends and the next begins.
 */
module FrameFile {
  import opened Common
  import opened FrameBuffer

  /** Which texts the JSON reader accepts as a frame. */
  datatype Reader = Reader(parses: string -> bool)

  /** `splitlines` for line feeds, the only line ends in the file. */
  function SplitLines(s: string): (lines: seq<string>)
    ensures s != "" ==> lines != []
  {
    if s == "" then []
    else
      var rest := SplitLines(s[1..]);
      if s[0] == '\n' then [""] + rest
      else if rest == [] then [s]
      else [s[..1] + rest[0]] + rest[1..]
  }

  function Accepted(reader: Reader, lines: seq<string>): seq<string> {
    if lines == [] then []
    else (if reader.parses(lines[0]) then [lines[0]] else []) + Accepted(reader, lines[1..])
  }

  /** `snapshot` on the text of the file: `room` characters are left in the first read, `chunk` in every other. */
  function Seen(reader: Reader, text: string, room: nat, chunk: nat): seq<string>
    requires 0 < room <= chunk
    decreases |text|
  {
    if |text| <= room then Accepted(reader, SplitLines(text))
    else Accepted(reader, SplitLines(text[..room])) + Seen(reader, text[room..], chunk, chunk)
  }

  /** The characters left in the current read after `n` more. */
  function RoomAfter(room: nat, n: nat, chunk: nat): (r: nat)
    requires 0 < room <= chunk
    ensures 0 < r <= chunk
    decreases n
  {
    if n < room then room - n else RoomAfter(chunk, n - room, chunk)
  }

  /** The loops of `_iter_lines` and `snapshot`. */
  method ReadFrames(reader: Reader, text: string, chunk: nat) returns (frames: seq<string>)
    requires chunk > 0
    ensures frames == Seen(reader, text, chunk, chunk)
  {
    hide SplitLines;
    frames := [];
    var at := 0;
    NothingSeen(reader, chunk);
    assert text[0..] == text;
    while at < |text|
      invariant at <= |text| && frames + Seen(reader, text[at..], chunk, chunk) == Seen(reader, text, chunk, chunk)
    {
      ghost var before, rest := frames, text[at..];
      var n := if |text| - at < chunk then |text| - at else chunk;
      var lines := SplitLines(text[at..at + n]);
      for i := 0 to |lines|
        invariant frames == before + Accepted(reader, lines[..i])
      {
        assert lines[..i + 1] == lines[..i] + [lines[i]];
        AcceptedConcat(reader, lines[..i], [lines[i]]);
        AcceptedOne(reader, lines[i]);
        if reader.parses(lines[i]) {
          frames := frames + [lines[i]];
        }
      }
      assert lines[..|lines|] == lines;
      assert rest[..n] == text[at..at + n] && rest[n..] == text[at + n..] && (n == |rest| ==> rest[..n] == rest);
      at := at + n;
    }
    assert text[at..] == "";
  }

  // ---------------------------------------------------------------- texts that end with a line

  predicate LineEnds(text: string) {
    text == "" || text[|text| - 1] == '\n'
  }

  lemma {:induction false} SplitConcat(x: string, y: string)
    requires LineEnds(x)
    ensures SplitLines(x + y) == SplitLines(x) + SplitLines(y)
    decreases |x|
  {
    if x == "" {
      assert x + y == y;
    } else {
      assert (x + y)[0] == x[0] && (x + y)[1..] == x[1..] + y && (x + y)[..1] == x[..1];
      SplitConcat(x[1..], y);
    }
  }

  lemma {:induction false} AcceptedConcat(reader: Reader, a: seq<string>, b: seq<string>)
    ensures Accepted(reader, a + b) == Accepted(reader, a) + Accepted(reader, b)
    decreases |a|
  {
    if a == [] {
      assert a + b == b;
    } else {
      AcceptedConcat(reader, a[1..], b);
      assert (a + b)[1..] == a[1..] + b;
    }
  }

  /** What follows a line end is read as if the file began there, in the middle of a read. */
  lemma {:induction false} SeenConcat(reader: Reader, x: string, y: string, room: nat, chunk: nat)
    requires 0 < room <= chunk && LineEnds(x)
    ensures Seen(reader, x + y, room, chunk)
         == Seen(reader, x, room, chunk) + Seen(reader, y, RoomAfter(room, |x|, chunk), chunk)
    decreases |x|
  {
    hide SplitLines, Accepted;
    if |x| < room {
      ConcatInRoom(reader, x, y, room, chunk);
    } else {
      var x' := x[room..];
      assert (x + y)[..room] == x[..room] && (x + y)[room..] == x' + y;
      SeenConcat(reader, x', y, chunk, chunk);
      assert |x| == room ==> x' == "" && x[..room] == x;
      NothingSeen(reader, chunk);
      SeenFirstRead(reader, x + y, room, chunk);
      SeenFirstRead(reader, x, room, chunk);
    }
  }

  lemma NothingSeen(reader: Reader, chunk: nat)
    requires chunk > 0
    ensures Seen(reader, "", chunk, chunk) == []
  {
  }

  lemma SeenFirstRead(reader: Reader, text: string, room: nat, chunk: nat)
    requires 0 < room <= chunk && room <= |text|
    ensures Seen(reader, text, room, chunk)
         == Accepted(reader, SplitLines(text[..room])) + Seen(reader, text[room..], chunk, chunk)
  {
    if |text| == room {
      assert text[..room] == text && text[room..] == "";
    }
  }

  lemma ConcatInRoom(reader: Reader, x: string, y: string, room: nat, chunk: nat)
    requires 0 < room <= chunk && LineEnds(x) && |x| < room
    ensures Seen(reader, x + y, room, chunk)
         == Seen(reader, x, room, chunk) + Seen(reader, y, room - |x|, chunk)
  {
    var left := room - |x|;
    hide SplitLines, Accepted, LineEnds;
    if |y| <= left {
      SplitConcat(x, y);
      AcceptedConcat(reader, SplitLines(x), SplitLines(y));
    } else {
      assert (x + y)[..room] == x + y[..left] && (x + y)[room..] == y[left..];
      SplitConcat(x, y[..left]);
      AcceptedConcat(reader, SplitLines(x), SplitLines(y[..left]));
    }
  }

  // ---------------------------------------------------------------- one frame

  /** A frame is one line that the reader accepts, and no other part of it, the empty one included, is a frame. */
  ghost predicate Sound(reader: Reader, f: Frame) {
    && f != "" && '\n' !in f && reader.parses(f)
    && forall i, j :: 0 <= i <= j <= |f| && reader.parses(f[i..j]) ==> i == 0 && j == |f|
  }

  lemma {:induction false} SplitOne(f: string)
    requires '\n' !in f
    ensures SplitLines(f) == if f == "" then [] else [f]
    ensures SplitLines(f + "\n") == [f]
  {
    if f == "" {
      assert f + "\n" == "\n" && "\n"[1..] == "";
    } else {
      SplitOne(f[1..]);
      assert (f + "\n")[1..] == f[1..] + "\n" && (f + "\n")[..1] == f[..1] && f == f[..1] + f[1..];
    }
  }

  lemma AcceptedOne(reader: Reader, line: string)
    ensures Accepted(reader, [line]) == if reader.parses(line) then [line] else []
  {
    assert [line][1..] == [];
  }

  /** Of the end of a frame, once its beginning is gone, nothing is seen. */
  lemma {:induction false} NothingOfTail(reader: Reader, f: Frame, from: nat, room: nat, chunk: nat)
    requires Sound(reader, f) && 0 < from <= |f| && 0 < room <= chunk
    ensures Seen(reader, f[from..] + "\n", room, chunk) == []
    decreases |f| - from
  {
    var tail := f[from..];
    var text := tail + "\n";
    if |text| <= room {
      SplitOne(tail);
      assert tail == f[from..|f|];
      AcceptedOne(reader, tail);
    } else {
      assert text[..room] == f[from..from + room] && text[room..] == f[from + room..] + "\n";
      SplitOne(f[from..from + room]);
      AcceptedOne(reader, f[from..from + room]);
      NothingOfTail(reader, f, from + room, chunk, chunk);
    }
  }

  /** A frame is seen exactly when the read it begins in reaches to its end. */
  lemma FrameSeenIff(reader: Reader, f: Frame, room: nat, chunk: nat)
    requires Sound(reader, f) && 0 < room <= chunk
    ensures Seen(reader, f + "\n", room, chunk) == if |f| <= room then [f] else []
  {
    var text := f + "\n";
    if |text| <= room {
      SplitOne(f);
      AcceptedOne(reader, f);
    } else {
      assert text[..room] == f[0..room] && text[room..] == f[room..] + "\n";
      SplitOne(f[0..room]);
      AcceptedOne(reader, f[0..room]);
      assert |f| == room ==> f[0..room] == f;
      NothingOfTail(reader, f, room, chunk, chunk);
    }
  }

  // ---------------------------------------------------------------- the whole file

  lemma {:induction false} RoomIs(room: nat, n: nat, chunk: nat)
    requires 0 < room <= chunk
    ensures RoomAfter(room, n, chunk) == chunk - (chunk - room + n) % chunk
    decreases n
  {
    if n < room {
      SmallModulo(chunk - room + n, chunk);
    } else {
      RoomIs(chunk, n - room, chunk);
      ModuloTurn(n - room, chunk);
      assert n - room + chunk == chunk - room + n;
    }
  }

  lemma ModuloTurn(n: nat, chunk: nat)
    requires chunk > 0
    ensures (n + chunk) % chunk == n % chunk
  {
    var m, q := n + chunk, n / chunk;
    QuotientStep(chunk, m, m / chunk, m % chunk);
    QuotientStep(chunk, n, q, n % chunk);
    assert chunk * (q + 1) == chunk * q + chunk;
    QuotientUnique(chunk, m / chunk, m % chunk, q + 1, n % chunk);
  }

  lemma SmallModulo(n: nat, chunk: nat)
    requires n < chunk
    ensures n % chunk == n
  {
  }

  /** Does the read in which frame `i` begins reach to the frame's end? */
  predicate Uncut(frames: seq<Frame>, i: nat, chunk: nat)
    requires i < |frames| && chunk > 0
  {
    |frames[i]| <= chunk - |Text(frames[..i])| % chunk
  }

  lemma TextEnds(frames: seq<Frame>)
    ensures LineEnds(Text(frames))
  {
  }

  /** The exact loss: of the frames written, a reader sees those that do not reach beyond the end of the read they begin
      in, each once and in order, and no others. */
  lemma {:induction false} SnapshotSeesIff(reader: Reader, frames: seq<Frame>, chunk: nat) returns (at: seq<nat>)
    requires chunk > 0 && forall f <- frames :: Sound(reader, f)
    ensures Picked(Seen(reader, Text(frames), chunk, chunk), frames,
                   seq(|frames|, i requires 0 <= i < |frames| => Uncut(frames, i, chunk)), at)
    decreases |frames|
  {
    hide Seen, Sound;
    at := [];
    if frames == [] {
      NothingSeen(reader, chunk);
    } else {
      var n := |frames| - 1;
      var older, f := frames[..n], frames[n];
      assert f in frames && forall g <- older :: g in frames;
      at := SnapshotSeesIff(reader, older, chunk);
      TextEnds(older);
      SeenConcat(reader, Text(older), f + "\n", chunk, chunk);
      assert Text(older) + f + "\n" == Text(older) + (f + "\n");
      RoomIs(chunk, |Text(older)|, chunk);
      FrameSeenIff(reader, f, RoomAfter(chunk, |Text(older)|, chunk), chunk);
      var marks := seq(n, i requires 0 <= i < n => Uncut(older, i, chunk));
      MarksSnoc(frames, chunk);
      assert older + [f] == frames;
      var seen := Seen(reader, Text(older), chunk, chunk);
      assert seen + [] == seen;
      PickedSnoc(seen, older, marks, at, f);
      if Uncut(frames, n, chunk) {
        at := at + [n];
      }
    }
  }

  lemma MarksSnoc(frames: seq<Frame>, chunk: nat)
    requires chunk > 0 && frames != []
    ensures var n := |frames| - 1;
            seq(|frames|, i requires 0 <= i < |frames| => Uncut(frames, i, chunk))
            == seq(n, i requires 0 <= i < n => Uncut(frames[..n], i, chunk)) + [Uncut(frames, n, chunk)]
  {
    var n := |frames| - 1;
    forall i | 0 <= i < n
      ensures Uncut(frames[..n], i, chunk) == Uncut(frames, i, chunk)
    {
      assert frames[..n][..i] == frames[..i];
    }
  }

  /** So nothing is lost from a file that fits into one read. */
  lemma OneReadSeesAll(reader: Reader, frames: seq<Frame>, chunk: nat)
    requires chunk > 0 && (forall f <- frames :: Sound(reader, f)) && Total(frames) <= chunk
    ensures Seen(reader, Text(frames), chunk, chunk) == frames
  {
    TotalIsFileSize(frames);
    OneRead(reader, frames);
  }

  lemma {:induction false} OneRead(reader: Reader, frames: seq<Frame>)
    requires forall f <- frames :: Sound(reader, f)
    ensures Accepted(reader, SplitLines(Text(frames))) == frames
    decreases |frames|
  {
    if frames != [] {
      var n := |frames| - 1;
      var older, f := frames[..n], frames[n];
      assert f in frames && forall g <- older :: g in frames;
      OneRead(reader, older);
      TextEnds(older);
      SplitConcat(Text(older), f + "\n");
      assert Text(older) + f + "\n" == Text(older) + (f + "\n");
      SplitOne(f);
      AcceptedConcat(reader, SplitLines(Text(older)), [f]);
      assert older + [f] == frames;
    }
  }
}
