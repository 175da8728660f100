/** The tailer of eve.json: which lines reach the queue, over every run of a writer, log
    rotations and polls that may fail.

    A file is ASCII text whose lines end in '\n' alone; `parse` is the JSON parser followed by
    the event model. */
module Tailer {
  import opened Optional

  // ---------------------------------------------------------------- lines

  /** Where the first line ends: the position after its newline, or the end of the text. */
  function LineEnd(s: string): (n: nat)
    requires s != ""
    ensures 1 <= n <= |s| && '\n' !in s[..n - 1] && (n < |s| ==> s[n - 1] == '\n')
  {
    if s[0] == '\n' || |s| == 1 then 1
    else
      var n := LineEnd(s[1..]);
      assert s[..n] == [s[0]] + s[1..][..n - 1];
      n + 1
  }

  function Trimmed(line: string): string {
    if line != "" && line[|line| - 1] == '\n' then line[..|line| - 1] else line
  }

  /** What iterating over an open file gives, each line without its newline. */
  function Lines(s: string): seq<string>
    decreases |s|
  {
    if s == "" then [] else [Trimmed(s[..LineEnd(s)])] + Lines(s[LineEnd(s)..])
  }

  /** The lines that are not skipped as empty. */
  function Kept(lines: seq<string>): seq<string> {
    if lines == [] then [] else (if lines[0] == "" then [] else [lines[0]]) + Kept(lines[1..])
  }

  /** The events of the lines that parse. */
  function Events<E>(lines: seq<string>, parse: string -> Option<E>): seq<E> {
    if lines == [] then []
    else Events(lines[..|lines| - 1], parse) + EventOf(lines[|lines| - 1], parse)
  }

  function EventOf<E>(line: string, parse: string -> Option<E>): seq<E> {
    if line == "" || parse(line).None? then [] else [parse(line).value]
  }

  /** The text of whole lines. */
  function Text(lines: seq<string>): string {
    if lines == [] then "" else lines[0] + "\n" + Text(lines[1..])
  }

  predicate Whole(lines: seq<string>) {
    forall l :: l in lines ==> '\n' !in l
  }

  lemma {:induction false} FirstLine(a: string, b: string)
    requires '\n' !in a
    ensures LineEnd(a + "\n" + b) == |a| + 1
  {
    var s := a + "\n" + b;
    if a != "" {
      assert s[1..] == a[1..] + "\n" + b;
      FirstLine(a[1..], b);
    }
  }

  lemma LinesCons(a: string, b: string)
    requires '\n' !in a
    ensures Lines(a + "\n" + b) == [a] + Lines(b)
  {
    hide LineEnd;
    var s := a + "\n" + b;
    FirstLine(a, b);
    assert s[..|a| + 1] == a + "\n" && s[|a| + 1..] == b;
    assert Trimmed(a + "\n") == a;
  }

  lemma {:induction false} PartialLine(a: string)
    requires '\n' !in a && a != ""
    ensures Lines(a) == [a]
  {
    hide LineEnd;
    var n := LineEnd(a);
    assert n == |a|;
    assert a[..n] == a && a[n..] == "";
  }

  /** The first line of a text that has a newline. */
  lemma SplitFirst(s: string) returns (a: string, b: string)
    requires '\n' in s
    ensures s == a + "\n" + b && '\n' !in a
  {
    var n := LineEnd(s);
    a, b := s[..n - 1], s[n..];
    assert s == a + [s[n - 1]] + b;
  }

  predicate EndsLine(a: string) {
    a == "" || a[|a| - 1] == '\n'
  }

  lemma NoLines()
    ensures Lines("") == []
  {
  }

  /** A text that has a newline, first line and rest, with or without text after it. */
  lemma SplitLines(a: string, b: string) returns (h: string, t: string)
    requires '\n' in a
    ensures a == h + "\n" + t && |t| < |a| && '\n' !in h && (t != "" ==> t[|t| - 1] == a[|a| - 1])
    ensures Lines(a) == [h] + Lines(t) && Lines(a + b) == [h] + Lines(t + b)
  {
    h, t := SplitFirst(a);
    hide Lines;
    assert a + b == h + "\n" + (t + b);
    LinesCons(h, t);
    LinesCons(h, t + b);
  }

  /** A text cut at the end of a line gives the same lines. */
  lemma {:induction false} LinesConcat(a: string, b: string)
    requires EndsLine(a)
    ensures Lines(a + b) == Lines(a) + Lines(b)
    decreases |a|
  {
    hide Lines;
    NoLines();
    if a == "" {
      assert a + b == b;
    } else {
      assert a[|a| - 1] in a;
      var h, t := SplitLines(a, b);
      LinesConcat(t, b);
    }
  }

  lemma {:induction false} LinesOfText(lines: seq<string>)
    requires Whole(lines)
    ensures Lines(Text(lines)) == lines && EndsLine(Text(lines))
  {
    if lines != [] {
      assert lines[0] in lines;
      LinesOfText(lines[1..]);
      LinesCons(lines[0], Text(lines[1..]));
    }
  }

  lemma {:induction false} KeptConcat(a: seq<string>, b: seq<string>)
    ensures Kept(a + b) == Kept(a) + Kept(b)
  {
    if a == [] {
      assert a + b == b;
    } else {
      assert (a + b)[1..] == a[1..] + b;
      KeptConcat(a[1..], b);
    }
  }

  lemma {:induction false} EventsConcat<E>(a: seq<string>, b: seq<string>, parse: string -> Option<E>)
    ensures Events(a + b, parse) == Events(a, parse) + Events(b, parse)
  {
    if b == [] {
      assert a + b == a;
    } else {
      assert (a + b)[..|a + b| - 1] == a + b[..|b| - 1];
      EventsConcat(a, b[..|b| - 1], parse);
    }
  }

  // ---------------------------------------------------------------- torn lines

  predicate CutsCleanly(a: string, b: string) {
    EndsLine(a) || b == "" || b[0] == '\n'
  }

  /** A partial line joined with what follows. */
  lemma TornLine(a: string, b: string)
    requires '\n' !in a && a != "" && b != "" && b[0] != '\n'
    ensures |Kept(Lines(a + b))| == |Kept(Lines(b))|
  {
    if '\n' in b {
      TornBeforeNewline(a, b);
    } else {
      hide Lines, Kept;
      PartialLine(b);
      PartialLine(a + b);
      KeptOne(b);
      KeptOne(a + b);
    }
  }

  lemma TornBeforeNewline(a: string, b: string)
    requires '\n' !in a && a != "" && '\n' in b && b[0] != '\n'
    ensures |Kept(Lines(a + b))| == |Kept(Lines(b))|
  {
    hide Lines, Kept;
    var h, t := SplitFirst(b);
    assert h != "";
    assert a + b == (a + h) + "\n" + t;
    LinesCons(h, t);
    LinesCons(a + h, t);
    KeptConcat([h], Lines(t));
    KeptConcat([a + h], Lines(t));
    KeptOne(h);
    KeptOne(a + h);
  }

  lemma {:induction false} CleanCut(a: string, b: string)
    requires a != "" && '\n' !in a && b != "" && b[0] == '\n'
    ensures Kept(Lines(a + b)) == [a] + Kept(Lines(b))
  {
    hide Lines;
    assert a + b == a + "\n" + b[1..];
    assert b == "" + "\n" + b[1..];
    LinesCons(a, b[1..]);
    LinesCons("", b[1..]);
  }

  /** Text read in two polls gives the same non-empty lines as text read in one exactly when the
      cut falls at a line end; otherwise the torn line counts twice. */
  lemma {:induction false} TwoPollsAreOneExactlyWhen(a: string, b: string)
    ensures Kept(Lines(a + b)) == Kept(Lines(a)) + Kept(Lines(b)) <==> CutsCleanly(a, b)
    ensures !CutsCleanly(a, b) ==> |Kept(Lines(a + b))| + 1 == |Kept(Lines(a))| + |Kept(Lines(b))|
    decreases |a|
  {
    hide Lines, Kept;
    NoLines();
    NoneKept();
    if EndsLine(a) {
      LinesConcat(a, b);
      KeptConcat(Lines(a), Lines(b));
    } else if b == "" {
      assert a + b == a;
    } else if '\n' in a {
      var h, t := SplitLines(a, b);
      assert t == "" ==> a == h + "\n";
      TwoPollsAreOneExactlyWhen(t, b);
      KeptConcat([h], Lines(t));
      KeptConcat([h], Lines(t + b));
      SamePrefix(Kept([h]), Kept(Lines(t + b)), Kept(Lines(t)), Kept(Lines(b)));
    } else {
      PartialLine(a);
      KeptOne(a);
      if b[0] == '\n' { CleanCut(a, b); } else { TornLine(a, b); }
    }
  }

  lemma NoneKept()
    ensures Kept([]) == []
  {
  }

  lemma KeptOne(l: string)
    requires l != ""
    ensures Kept([l]) == [l]
  {
  }

  lemma SamePrefix(p: seq<string>, x: seq<string>, y: seq<string>, z: seq<string>)
    ensures p + x == (p + y) + z <==> x == y + z
  {
    if p + x == (p + y) + z {
      assert (p + x)[|p|..] == x && ((p + y) + z)[|p|..] == y + z;
    }
    assert (p + y) + z == p + (y + z);
  }

  // ---------------------------------------------------------------- a poll

  datatype File = File(inode: int, content: string)

  /** What a poll meets: no file, a file it may not look at, or a file whose reading may break
      off after some lines. */
  datatype Sight = Missing | Denied | Seen(file: File, failAfter: Option<nat>)

  datatype Cursor = Cursor(position: nat, inode: int)

  /** A new nonzero inode, or a file smaller than the position. */
  predicate RotationShows(c: Cursor, f: File) {
    (f.inode != 0 && f.inode != c.inode) || |f.content| < c.position
  }

  function Located(c: Cursor, f: File): (r: Cursor)
    ensures r.position <= |f.content|
  {
    if RotationShows(c, f) then Cursor(0, f.inode) else c
  }

  function Rest(c: Cursor, f: File): string
    requires c.position <= |f.content|
  {
    f.content[c.position..]
  }

  function ReadLines(lines: seq<string>, failAfter: Option<nat>): seq<string> {
    if failAfter.Some? && failAfter.value <= |lines| then lines[..failAfter.value] else lines
  }

  function CursorAfter(c: Cursor, look: Sight): Cursor {
    if !look.Seen? then c
    else if look.failAfter.Some? then Located(c, look.file)
    else Located(c, look.file).(position := |look.file.content|)
  }

  function Emitted<E>(c: Cursor, look: Sight, parse: string -> Option<E>): seq<E> {
    if !look.Seen? then []
    else Events(ReadLines(Lines(Rest(Located(c, look.file), look.file)), look.failAfter), parse)
  }

  class EveTailer<E> {
    var position: nat
    var inode: int
    var queue: seq<E>

    /** Starts at the end of the file. */
    constructor (file: File)
      ensures position == |file.content| && inode == file.inode && queue == []
    {
      position, inode, queue := |file.content|, file.inode, [];
    }

    method Poll(look: Sight, parse: string -> Option<E>)
      modifies this
      ensures Cursor(position, inode) == CursorAfter(old(Cursor(position, inode)), look)
      ensures queue == old(queue) + Emitted(old(Cursor(position, inode)), look, parse)
    {
      if look.Missing? || look.Denied? {
        return;
      }
      var file := look.file;
      var inodeChanged := file.inode != 0 && file.inode != inode;
      var sizeRegressed := |file.content| < position;
      if inodeChanged || sizeRegressed {
        position, inode := 0, file.inode;
      }
      ReadNewLines(file, look.failAfter, parse);
    }

    method ReadNewLines(file: File, failAfter: Option<nat>, parse: string -> Option<E>)
      requires position <= |file.content|
      modifies this
      ensures queue == old(queue) + Events(ReadLines(Lines(file.content[old(position)..]), failAfter), parse)
      ensures position == (if failAfter.Some? then old(position) else |file.content|) && inode == old(inode)
    {
      hide Lines, Events, EventOf;
      var lines := Lines(file.content[position..]);
      NoEvents(parse);
      for i := 0 to |lines|
        invariant position == old(position) && inode == old(inode)
        invariant failAfter.Some? ==> i <= failAfter.value
        invariant queue == old(queue) + Events(lines[..i], parse)
      {
        if failAfter == Some(i) {
          return;
        }
        var line := lines[i];
        EventsNext(lines, i, parse);
        if line == "" {
          continue;
        }
        var data := parse(line);
        if data.None? {
          continue;
        }
        queue := queue + [data.value];
      }
      assert lines[..|lines|] == lines;
      if failAfter.Some? {
        return;
      }
      position := |file.content|;
    }
  }

  // ---------------------------------------------------------------- every run

  /** What one poll put on the queue, and whether its read went to the end. */
  datatype Segment<E> = Segment(events: seq<E>, complete: bool)

  /** `rotated`: the file has been replaced since the last poll that saw it. */
  datatype World<E> = World(file: File, cursor: Cursor, rotated: bool, written: seq<string>, log: seq<Segment<E>>)

  datatype Step = Write(lines: seq<string>) | Rotate(inode: int) | PollMissing | PollDenied | PollRead(failAfter: Option<nat>)

  ghost predicate Initial<E>(w: World<E>) {
    w.cursor == Cursor(|w.file.content|, w.file.inode) && !w.rotated && w.written == [] && w.log == []
  }

  function Unread<E>(w: World<E>): string {
    if w.rotated then w.file.content
    else if w.cursor.position <= |w.file.content| then w.file.content[w.cursor.position..]
    else ""
  }

  /** The writer appends whole lines; a rotation happens when the tailer has caught up, and shows. */
  predicate Enabled<E>(w: World<E>, a: Step) {
    match a
    case Write(lines) => Whole(lines)
    case Rotate(_) => Unread(w) == ""
    case PollRead(_) => w.rotated ==> RotationShows(w.cursor, w.file) || w.cursor.position == 0
    case _ => true
  }

  /** What is asked of the world, and nothing else: lines without inner newlines, rotations after
      everything was read, and a rotation that shows or a tailer that is at the start anyway. */
  lemma WorldExactly<E>(w: World<E>)
    ensures forall lines :: Enabled(w, Write(lines)) <==> forall l :: l in lines ==> '\n' !in l
    ensures forall inode :: Enabled(w, Rotate(inode)) <==> Unread(w) == ""
    ensures Enabled(w, PollMissing) && Enabled(w, PollDenied)
    ensures forall failAfter :: Enabled(w, PollRead(failAfter)) <==>
      || !w.rotated || w.cursor.position == 0 || |w.file.content| < w.cursor.position
      || (w.file.inode != 0 && w.file.inode != w.cursor.inode)
  {
  }

  function Apply<E>(w: World<E>, a: Step, parse: string -> Option<E>): World<E> {
    match a
    case Write(lines) =>
      w.(file := w.file.(content := w.file.content + Text(lines)), written := w.written + lines)
    case Rotate(inode) => w.(file := File(inode, ""), rotated := true)
    case PollRead(failAfter) =>
      var look := Seen(w.file, failAfter);
      w.(cursor := CursorAfter(w.cursor, look), rotated := false,
         log := w.log + [Segment(Emitted(w.cursor, look, parse), failAfter.None?)])
    case _ => w
  }

  ghost predicate IsRun<E>(ws: seq<World<E>>, steps: seq<Step>, parse: string -> Option<E>) {
    && |ws| == |steps| + 1 && Initial(ws[0])
    && forall i :: 0 <= i < |steps| ==> Enabled(ws[i], steps[i]) && ws[i + 1] == Apply(ws[i], steps[i], parse)
  }

  /** The events of the reads that went to the end. */
  function Completed<E>(log: seq<Segment<E>>): seq<E> {
    if log == [] then []
    else Completed(log[..|log| - 1]) + if log[|log| - 1].complete then log[|log| - 1].events else []
  }

  function Everything<E>(log: seq<Segment<E>>): seq<E> {
    if log == [] then [] else Everything(log[..|log| - 1]) + log[|log| - 1].events
  }

  ghost predicate Inv<E>(w: World<E>, parse: string -> Option<E>) {
    && EndsLine(Unread(w))
    && (!w.rotated ==> w.cursor.position <= |w.file.content| && (w.file.inode == 0 || w.file.inode == w.cursor.inode))
    && Completed(w.log) + Events(Lines(Unread(w)), parse) == Events(w.written, parse)
  }

  lemma UnreadGrows<E>(w: World<E>, lines: seq<string>, parse: string -> Option<E>)
    requires !w.rotated ==> w.cursor.position <= |w.file.content|
    ensures Unread(Apply(w, Write(lines), parse)) == Unread(w) + Text(lines)
  {
    hide Text;
  }

  lemma EndsLineConcat(a: string, b: string)
    requires EndsLine(a) && EndsLine(b)
    ensures EndsLine(a + b)
  {
  }

  lemma WriteKeeps<E>(w: World<E>, lines: seq<string>, parse: string -> Option<E>)
    requires Inv(w, parse) && Whole(lines)
    ensures Inv(Apply(w, Write(lines), parse), parse)
  {
    hide Lines, Events, Completed, Unread, EndsLine, Text;
    var old', t := Unread(w), Text(lines);
    UnreadGrows(w, lines, parse);
    LinesOfText(lines);
    EndsLineConcat(old', t);
    LinesConcat(old', t);
    EventsConcat(Lines(old'), lines, parse);
    EventsConcat(w.written, lines, parse);
  }

  /** A poll reads what is unread, and all of it unless it breaks off. */
  lemma PollReads<E>(w: World<E>, failAfter: Option<nat>, parse: string -> Option<E>)
    requires Inv(w, parse) && Enabled(w, PollRead(failAfter))
    ensures var t := Apply(w, PollRead(failAfter), parse);
            && Rest(Located(w.cursor, w.file), w.file) == Unread(w)
            && Unread(t) == if failAfter.None? then "" else Unread(w)
  {
    hide Lines, Events, Completed, EndsLine;
    var f, c := w.file, w.cursor;
    if RotationShows(c, f) {
      assert Located(c, f) == Cursor(0, f.inode) && f.content[0..] == f.content;
      assert w.rotated;
    } else if w.rotated {
      assert c.position == 0 && f.content[0..] == f.content;
    }
    assert f.content[|f.content|..] == "";
  }

  lemma PollKeeps<E>(w: World<E>, failAfter: Option<nat>, parse: string -> Option<E>)
    requires Inv(w, parse) && Enabled(w, PollRead(failAfter))
    ensures Inv(Apply(w, PollRead(failAfter), parse), parse)
  {
    hide Lines, Events, Completed;
    PollReads(w, failAfter, parse);
    NoLines();
    NoEvents(parse);
    LogGrows(w.log, Segment(Emitted(w.cursor, Seen(w.file, failAfter), parse), failAfter.None?));
  }

  lemma EventsNext<E>(lines: seq<string>, i: nat, parse: string -> Option<E>)
    requires i < |lines|
    ensures Events(lines[..i + 1], parse) == Events(lines[..i], parse)
      + if lines[i] == "" || parse(lines[i]).None? then [] else [parse(lines[i]).value]
  {
    assert lines[..i + 1][..i] == lines[..i];
  }

  lemma NoEvents<E>(parse: string -> Option<E>)
    ensures Events([], parse) == []
  {
  }

  lemma LogGrows<E>(log: seq<Segment<E>>, s: Segment<E>)
    ensures Completed(log + [s]) == Completed(log) + if s.complete then s.events else []
    ensures Everything(log + [s]) == Everything(log) + s.events
  {
  }

  lemma {:induction false} InvariantHolds<E>(ws: seq<World<E>>, steps: seq<Step>, parse: string -> Option<E>)
    requires IsRun(ws, steps, parse)
    ensures Inv(ws[|steps|], parse)
  {
    if steps == [] {
      NoLines();
      NoEvents(parse);
      hide Lines, Events;
      assert Unread(ws[0]) == "";
    } else {
      hide Inv, Enabled, Apply;
      var n := |steps| - 1;
      assert IsRun(ws[..n + 1], steps[..n], parse);
      InvariantHolds(ws[..n + 1], steps[..n], parse);
      StepKeeps(ws[n], steps[n], parse);
    }
  }

  lemma StepKeeps<E>(w: World<E>, a: Step, parse: string -> Option<E>)
    requires Inv(w, parse) && Enabled(w, a)
    ensures Inv(Apply(w, a, parse), parse)
  {
    hide Lines, Events, Completed;
    match a
    case Write(lines) => WriteKeeps(w, lines, parse);
    case PollRead(failAfter) => PollKeeps(w, failAfter, parse);
    case _ =>
  }

  /** At every moment of every run the events of the complete reads, followed by those of the
      lines not yet read, are the events of all lines written since the start: each once and in
      order, whatever reads failed before. */
  lemma EveryLineOnce<E>(ws: seq<World<E>>, steps: seq<Step>, parse: string -> Option<E>)
    requires IsRun(ws, steps, parse)
    ensures var w := ws[|steps|];
            && Completed(w.log) + Events(Lines(Unread(w)), parse) == Events(w.written, parse)
            && ((forall s :: s in w.log ==> s.complete) ==>
                  Everything(w.log) + Events(Lines(Unread(w)), parse) == Events(w.written, parse))
  {
    hide Lines, Events;
    InvariantHolds(ws, steps, parse);
    if forall s :: s in ws[|steps|].log ==> s.complete { AllComplete(ws[|steps|].log); }
  }

  lemma {:induction false} AllComplete<E>(log: seq<Segment<E>>)
    requires forall s :: s in log ==> s.complete
    ensures Everything(log) == Completed(log)
  {
    if log != [] {
      assert log[|log| - 1] in log;
      AllComplete(log[..|log| - 1]);
    }
  }

  lemma {:induction false} EventsPrefix<E>(lines: seq<string>, k: nat, parse: string -> Option<E>)
    requires k <= |lines|
    ensures Events(lines[..k], parse) <= Events(lines, parse)
  {
    assert lines == lines[..k] + lines[k..];
    EventsConcat(lines[..k], lines[k..], parse);
  }

  /** A repeat comes only from a failed read: what such a read put on the queue is a prefix of
      the events of the lines that stay unread, and so come again. */
  lemma RepeatsOnlyFromFailedReads<E>(ws: seq<World<E>>, steps: seq<Step>, i: nat, parse: string -> Option<E>)
    requires IsRun(ws, steps, parse) && i < |steps| && steps[i].PollRead? && steps[i].failAfter.Some?
    ensures var w, w' := ws[i], ws[i + 1];
            exists events :: w'.log == w.log + [Segment(events, false)]
              && events <= Events(Lines(Unread(w)), parse) && Unread(w') == Unread(w)
  {
    hide Lines, Events;
    assert IsRun(ws[..i + 1], steps[..i], parse);
    InvariantHolds(ws[..i + 1], steps[..i], parse);
    var w, failAfter := ws[i], steps[i].failAfter;
    PollReads(w, failAfter, parse);
    var lines := Lines(Unread(w));
    EventsPrefix(lines, if failAfter.value <= |lines| then failAfter.value else |lines|, parse);
    assert lines[..|lines|] == lines;
    assert ws[i + 1] == Apply(w, steps[i], parse);
    assert ws[i + 1].log == w.log + [Segment(Emitted(w.cursor, Seen(w.file, failAfter), parse), false)];
  }
}
