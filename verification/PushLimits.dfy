/** What the constants and the branches of a push come to: which files are pushed,
    which streams of frames are taken, and the bytes that go over the wire. */
module PushLimits {
  import opened Bytes
  import opened JsonNumbers
  import opened Lists
  import opened PushSession
  import opened Words

  // ------------------------------------------------------ which files

  /** A regular file is pushed whatever its permissions are; a pipe, a device, a
      directory, a link or a socket never is. */
  lemma FileTypes(p: Push, bits: nat)
    requires bits < 0x1000 && 0 !in p.path && |p.path| <= 1024 && p.mtime < 0x1_0000_0000
    requires forall i :: 0 <= i < |p.chunks| ==> 0 < |p.chunks[i]| <= 65536
    ensures Sendable(p.(mode := 0x8000 + bits))
    ensures !Sendable(p.(mode := 0x1000 + bits)) && !Sendable(p.(mode := 0x2000 + bits))
    ensures !Sendable(p.(mode := 0x4000 + bits)) && !Sendable(p.(mode := 0x6000 + bits))
    ensures !Sendable(p.(mode := 0xa000 + bits)) && !Sendable(p.(mode := 0xc000 + bits))
  {
    RegularModes(0x8000 + bits);
    RegularModes(0x1000 + bits);
    RegularModes(0x2000 + bits);
    RegularModes(0x4000 + bits);
    RegularModes(0x6000 + bits);
    RegularModes(0xa000 + bits);
    RegularModes(0xc000 + bits);
    hide IsRegular;
  }

  lemma OneMoreDigit(n: nat)
    ensures |Decimal(n)| == if n < 10 then 1 else |Decimal(n / 10)| + 1
  {
  }

  lemma FiveDigits(n: nat)
    requires 10000 <= n < 100000
    ensures |Decimal(n)| == 5
  {
    hide Decimal;
    OneMoreDigit(n);
    OneMoreDigit(n / 10);
    OneMoreDigit(n / 10 / 10);
    OneMoreDigit(n / 10 / 10 / 10);
    OneMoreDigit(n / 10 / 10 / 10 / 10);
  }

  /** A regular file is served, and the service stays in step, exactly if its path has
      at most 1018 bytes: the client takes six more than there is room for. */
  lemma RegularFilesAreServed(p: Push, bits: nat, later: bytes, disk: Disk, strtoul: bytes -> PushSession.Number, files: Files)
    requires bits < 0x1000 && p.mode == 0x8000 + bits && 0 !in p.path && |p.path| <= 1024 && p.mtime < 0x1_0000_0000
    requires forall i :: 0 <= i < |p.chunks| ==> 0 < |p.chunks[i]| <= 65536
    requires ReadsDecimals(strtoul) && |StatusOf(p, disk)| <= disk.room
    ensures var served := Command(ClientBytes(p) + later, disk, strtoul, files);
            && (served.ok && served.input == later <==> |p.path| <= 1018)
            && (|p.path| <= 1018 ==> served.output == StatusOf(p, disk) && served.files == FilesAfter(p, disk, files))
  {
    FileTypes(p, bits);
    assert p.(mode := 0x8000 + bits) == p;
    FiveDigits(p.mode);
    hide Command, ClientBytes, StatusOf, FilesAfter, ReadsDecimals, Sendable, Decimal;
    assert |ModeSuffix(p.mode)| == 6;
    ServedExactly(p, later, disk, strtoul, files);
    if |p.path| <= 1018 {
      PushServed(p, later, disk, strtoul, files);
    }
  }

  // ------------------------------------------------------ the mode of a file

  /** A name without a comma, or with a number that is too big, stands for 0644,
      which is 0666 when the user's permissions have spread. */
  lemma ModeByDefault(name: bytes, strtoul: bytes -> PushSession.Number)
    ensures COMMA !in name ==> ModeOf(name, strtoul) == 0x1b6
    ensures LastComma(name) < |name| && strtoul(name[LastComma(name) + 1..]).Overflow? ==>
              ModeOf(name, strtoul) == 0x1b6
  {
    hide Mode, LastComma;
    if LastComma(name) < |name| {
      assert name[LastComma(name)] in name;
    }
    DefaultMode();
  }

  lemma DefaultMode()
    ensures Mode(0x1a4) == 0x1b6
  {
    assert Spread(0x1a4) == 0x1b6;
    hide Spread;
  }

  // ------------------------------------------------------ writing into a file

  /** A write puts its bytes behind those before it and leaves all others as they
      are. */
  lemma OverAt(data: bytes, pos: nat, chunk: bytes, i: nat)
    requires pos <= |data|
    ensures |Over(data, pos, chunk)| == if pos + |chunk| >= |data| then pos + |chunk| else |data|
    ensures i < |Over(data, pos, chunk)| ==>
              Over(data, pos, chunk)[i] == if pos <= i < pos + |chunk| then chunk[i - pos] else data[i]
  {
  }

  // ------------------------------------------------------ which streams of frames

  /** A stream that begins with the frames of a file, each of at most 65536 bytes, up
      to the one that ends it. */
  ghost predicate FramedAs(d: bytes, chunks: seq<bytes>, mtime: nat, later: bytes) {
    && d == Frames(chunks) + (DoneFrame(mtime) + later) && mtime < 0x1_0000_0000
    && forall i :: 0 <= i < |chunks| ==> |chunks[i]| <= 65536
  }

  ghost predicate Framed(d: bytes) {
    exists chunks, mtime, later :: FramedAs(d, chunks, mtime, later)
  }

  lemma TheFrame(d: bytes, id: bytes)
    requires |d| >= 8 && d[..4] == id
    ensures d == id + Word(WordValue(d[4..8])) + d[8..] && WordValue(d[4..8]) < 0x1_0000_0000
  {
    hide Word, WordValue;
    ValueOfWord(d[4..8]);
    assert d == d[..4] + d[4..8] + d[8..];
  }

  lemma EndFramed(d: bytes)
    requires |d| >= 8 && d[..4] == ID_DONE
    ensures Framed(d)
  {
    hide Word, WordValue, DoneFrame;
    TheFrame(d, ID_DONE);
    assert DoneFrame(WordValue(d[4..8])) == ID_DONE + Word(WordValue(d[4..8])) by { DoneIs(WordValue(d[4..8])); }
    var end := DoneFrame(WordValue(d[4..8])) + d[8..];
    assert Frames([]) + end == end == d;
    assert FramedAs(d, [], WordValue(d[4..8]), d[8..]);
  }

  lemma DoneIs(mtime: nat)
    ensures DoneFrame(mtime) == ID_DONE + Word(mtime)
  {
  }

  lemma OneMoreFrame(d: bytes)
    requires |d| >= 8 && d[..4] == ID_DATA && WordValue(d[4..8]) <= 65536 && |d[8..]| >= WordValue(d[4..8])
    requires Framed(d[8..][WordValue(d[4..8])..])
    ensures Framed(d)
  {
    hide Word, WordValue, DoneFrame;
    TheFrame(d, ID_DATA);
    var size, rest := WordValue(d[4..8]), d[8..];
    var chunks, mtime, later :| FramedAs(rest[size..], chunks, mtime, later);
    var c := rest[..size];
    hide Frames, Frame;
    FramesOfMore(c, chunks);
    FrontFrame(d, c, rest[size..]);
    Regroup(Frame(c), Frames(chunks), DoneFrame(mtime) + later);
    assert FramedAs(d, [c] + chunks, mtime, later);
  }

  lemma FrontFrame(d: bytes, c: bytes, rest: bytes)
    requires d == ID_DATA + Word(|c|) + (c + rest)
    ensures d == Frame(c) + rest
  {
    hide Word;
  }

  lemma FramesOfMore(c: bytes, chunks: seq<bytes>)
    ensures Frames([c] + chunks) == Frame(c) + Frames(chunks)
  {
    assert ([c] + chunks)[1..] == chunks;
  }

  /** The service goes on behind a file only if it found all the frames of one. */
  lemma {:induction false} GoesOnOnlyIfFramed(d: bytes, path: bytes, k: nat, pos: nat, disk: Disk, open: bool,
                                              files: Files, room: nat)
    requires SendFile(d, path, k, pos, disk, open, files, room).ok
    ensures Framed(d)
    decreases |d|
  {
    hide Framed, Message, Word, WordValue, WriteAt, GivenUp, Unlinked, Text, Stamp;
    if d[..4] == ID_DONE {
      EndFramed(d);
    } else {
      var size, rest := WordValue(d[4..8]), d[8..];
      ChunkArrives(d, path, k, pos, disk, open, files, room);
      hide SendFile;
      if !open {
        GoesOnOnlyIfFramed(rest[size..], path, k, pos, disk, false, files, room);
      } else if WriteAttempt(disk, k).Done? {
        GoesOnOnlyIfFramed(rest[size..], path, k + 1, pos + size, disk, true, WriteAt(files, path, pos, rest[..size]), room);
      } else {
        var m := Message(WriteAttempt(disk, k).reason);
        GoesOnOnlyIfFramed(rest[size..], path, k + 1, pos, disk, false, GivenUp(files, path, pos, rest[..size], disk), room - |m|);
      }
      OneMoreFrame(d);
    }
  }

  /** Over all inputs: a service that has no file open goes on exactly if the input
      begins with the frames of a file, and one that has, exactly if besides the
      connection takes the status. */
  lemma GoesOnExactly(d: bytes, path: bytes, k: nat, pos: nat, disk: Disk, open: bool, files: Files, room: nat)
    requires open ==> path in files
    ensures SendFile(d, path, k, pos, disk, open, files, room).ok <==>
            exists chunks, mtime, later ::
              && FramedAs(d, chunks, mtime, later)
              && (open ==> |(match FirstFailure(disk, k, |chunks|)
                             case Failed(reason) => Message(reason)
                             case Done => OKAY_STATUS)| <= room)
  {
    hide SendFile, Frames, DoneFrame, Message, FirstFailure;
    if SendFile(d, path, k, pos, disk, open, files, room).ok {
      GoesOnOnlyIfFramed(d, path, k, pos, disk, open, files, room);
      var chunks, mtime, later :| FramedAs(d, chunks, mtime, later);
      FramesServed(chunks, mtime, later, path, k, pos, disk, open, files, room);
    }
    forall chunks, mtime, later | FramedAs(d, chunks, mtime, later)
      ensures SendFile(d, path, k, pos, disk, open, files, room).ok <==>
              (open ==> |(match FirstFailure(disk, k, |chunks|)
                          case Failed(reason) => Message(reason)
                          case Done => OKAY_STATUS)| <= room)
    {
      FramesServed(chunks, mtime, later, path, k, pos, disk, open, files, room);
    }
  }

  // ------------------------------------------------------ which commands

  /** The input begins with a command and its name. */
  ghost predicate Requests(d: bytes, id: bytes, name: bytes, rest: bytes) {
    |id| == 4 && |name| <= 1024 && d == id + Word(|name|) + (name + rest)
  }

  ghost predicate Says(served: Served, reason: string, room: nat) {
    served.output == Cut(Message(Text(reason)), room)
  }

  lemma RequestRead(d: bytes, id: bytes, name: bytes, rest: bytes)
    requires Requests(d, id, name, rest)
    ensures |d| >= 8 && d[..4] == id && WordValue(d[4..8]) == |name| && d[8..] == name + rest
    ensures d[8..][..|name|] == name && d[8..][|name|..] == rest
  {
    hide Word, WordValue;
    FrameParts(id, |name|, name, rest);
    assert d == id + Word(|name|) + name + rest;
  }

  lemma RequestFound(d: bytes)
    requires |d| >= 8 && WordValue(d[4..8]) <= 1024 && |d[8..]| >= WordValue(d[4..8])
    ensures var size := WordValue(d[4..8]); Requests(d, d[..4], d[8..][..size], d[8..][size..])
  {
    hide Word, WordValue;
    TheFrame(d, d[..4]);
    var size, rest := WordValue(d[4..8]), d[8..];
    assert rest == rest[..size] + rest[size..];
  }

  /** What the service does with a command: SEND, one of the three that only send an
      answer, QUIT, of which nothing is said, and any other, which is refused. */
  lemma CommandServed(d: bytes, id: bytes, name: bytes, rest: bytes, disk: Disk,
                      strtoul: bytes -> PushSession.Number, files: Files)
    requires Requests(d, id, name, rest)
    ensures var served := Command(d, disk, strtoul, files);
            && (id == [83, 69, 78, 68] ==> served == DoSend(CString(name), rest, disk, strtoul, files))
            && (id != [83, 69, 78, 68] ==> served.files == files)
            && (id == [83, 84, 65, 84] || id == [76, 73, 83, 84] || id == [82, 69, 67, 86] ==>
                  served.output == Cut(disk.answer, disk.room)
                  && (served.ok <==> disk.answered && |disk.answer| <= disk.room) && (served.ok ==> served.input == rest))
            && (id == [81, 85, 73, 84] ==> !served.ok && served.output == [])
            && (id !in {[83, 69, 78, 68], [83, 84, 65, 84], [76, 73, 83, 84], [82, 69, 67, 86], [81, 85, 73, 84]} ==>
                  !served.ok && served.output == Cut(Message(Text("unknown command")), disk.room))
  {
    hide Word, WordValue, DoSend, Message, Text, CString;
    RequestRead(d, id, name, rest);
    hide Requests;
  }

  /** Over all inputs: whatever does not begin with a command and a name of at most 1024
      bytes ends the service with a message and without a change to a file. */
  lemma OtherInputRefused(d: bytes, disk: Disk, strtoul: bytes -> PushSession.Number, files: Files)
    requires forall id: bytes, name: bytes, rest: bytes :: !Requests(d, id, name, rest)
    ensures var served := Command(d, disk, strtoul, files);
            && !served.ok && served.files == files
            && (|| Says(served, "command read failure", disk.room) || Says(served, "invalid namelen", disk.room)
                || Says(served, "filename read failure", disk.room))
  {
    hide Requests, Command, WordValue;
    if |d| >= 8 && WordValue(d[4..8]) <= 1024 && |d[8..]| >= WordValue(d[4..8]) {
      RequestFound(d);
    } else {
      NoRequest(d, disk, strtoul, files);
    }
  }

  lemma NoRequest(d: bytes, disk: Disk, strtoul: bytes -> PushSession.Number, files: Files)
    requires |d| >= 8 ==> WordValue(d[4..8]) > 1024 || |d[8..]| < WordValue(d[4..8])
    ensures var served := Command(d, disk, strtoul, files);
            && !served.ok && served.files == files
            && (|| Says(served, "command read failure", disk.room) || Says(served, "invalid namelen", disk.room)
                || Says(served, "filename read failure", disk.room))
  {
    hide WordValue, DoSend, Message, Text, Cut;
  }

  // ------------------------------------------------------ the bytes themselves

  lemma SmallWord(c: byte)
    requires c < 8
    ensures Word(ValueOf(c)) == [c, 0, 0, 0]
  {
    hide Word, ByteOf;
    ValueOfWord([c, 0, 0, 0]);
  }

  lemma TheMode()
    ensures Decimal(0x81a4) == [51, 51, 49, 56, 56]
  {
    assert Decimal(3) == [51];
    assert Decimal(33) == [51, 51];
    assert Decimal(331) == [51, 51, 49];
    assert Decimal(3318) == [51, 51, 49, 56];
  }

  /** Pushing one byte to "/" with mode 0100644 and time stamp 2, byte for byte, and
      the answers to a push. */
  lemma OnTheWire()
    ensures RequestFrame([47], 0x81a4) == [83, 69, 78, 68, 7, 0, 0, 0, 47, 44, 51, 51, 49, 56, 56]
    ensures Frame([7]) == [68, 65, 84, 65, 1, 0, 0, 0, 7] && DoneFrame(2) == [68, 79, 78, 69, 2, 0, 0, 0]
    ensures ClientBytes(Push([47], 0x81a4, [[7]], 2)) == RequestFrame([47], 0x81a4) + Frame([7]) + DoneFrame(2)
    ensures OKAY_STATUS == [79, 75, 65, 89, 0, 0, 0, 0] && Message([7]) == [70, 65, 73, 76, 1, 0, 0, 0, 7]
  {
    hide Word, Decimal;
    TheMode();
    SmallWord(0);
    SmallWord(1);
    SmallWord(2);
    SmallWord(7);
    assert Frames([[7]]) == Frame([7]);
    hide Frames;
  }

  lemma {:induction false} TextLength(s: string)
    ensures |Text(s)| == |s|
  {
    if s != "" {
      TextLength(s[1..]);
    }
  }

  /** Any other answer is no success: one that ends too early is none at all, and one
      of another kind gives no reason. */
  lemma OtherAnswers(d: bytes)
    ensures |d| < 8 ==> ReadStatus(d).0 == Broken
    ensures ReadStatus(d).0 == Sent <==> |d| >= 8 && d[..4] == [79, 75, 65, 89]
    ensures |d| >= 8 && d[..4] != [79, 75, 65, 89] && d[..4] != [70, 65, 73, 76] ==>
              ReadStatus(d).0.Refused? && |ReadStatus(d).0.reason| == 14
  {
    hide WordValue, Text;
    TextLength("unknown reason");
  }
}
