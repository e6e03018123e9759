/** The two ends of a push as they run: loops over frames that consume one stream
    and append to another.  Each method is tied to the function of PushSession
    that says what it does. */
module FileSync {
  import opened Bytes
  import opened PushSession
  import opened Words

  lemma PrefixedTwice(a: bytes, b: bytes, s: Served)
    ensures Prefixed(a, Prefixed(b, s)) == Prefixed(a + b, s)
  {
    assert a + (b + s.output) == (a + b) + s.output;
  }

  /** The service's side of the connection, which takes `room` more bytes before it
      breaks, and its files. */
  class SyncService {
    const strtoul: bytes -> Number
    var input: bytes
    var output: bytes
    var room: nat
    var files: Files

    constructor (strtoul: bytes -> Number, input: bytes, room: nat, files: Files)
      ensures this.strtoul == strtoul && this.input == input && output == [] && this.room == room && this.files == files
    {
      this.strtoul, this.input, this.room, this.files := strtoul, input, room, files;
      output := [];
    }

    ghost function State(ok: bool): Served
      reads this
    {
      Served(ok, input, output, files)
    }

    /** readx: all the bytes that are wanted, or failure at the end of the stream. */
    method ReadX(n: nat) returns (ok: bool, data: bytes)
      modifies this`input
      ensures ok <==> |old(input)| >= n
      ensures ok ==> data == old(input)[..n] && input == old(input)[n..]
      ensures !ok ==> input == []
    {
      if |input| < n {
        input := [];
        return false, [];
      }
      ok, data := true, input[..n];
      input := input[n..];
    }

    /** writex. */
    method WriteX(data: bytes) returns (failed: bool)
      modifies this`output, this`room
      ensures output == old(output) + Cut(data, old(room)) && room == old(room) - |Cut(data, old(room))|
      ensures failed == (|data| > old(room))
    {
      failed := |data| > room;
      if failed {
        output := output + data[..room];
        room := 0;
      } else {
        output := output + data;
        room := room - |data|;
      }
    }

    /** fail_message. */
    method FailMessage(reason: bytes) returns (failed: bool)
      modifies this`output, this`room
      ensures output == old(output) + Cut(Message(reason), old(room))
      ensures room == old(room) - |Cut(Message(reason), old(room))|
      ensures failed == (|Message(reason)| > old(room))
    {
      hide Word;
      ghost var full := room;
      var head := ID_FAIL + Word(|reason|);
      CutAppend(head, reason, full);
      assert Message(reason) == head + reason;
      failed := WriteX(head);
      if !failed {
        failed := WriteX(reason);
        assert output == old(output) + (Cut(head, full) + Cut(reason, full - |head|));
      }
    }

    /** The beginning of handle_send_file. */
    method Open(path: bytes, mode: bv32, disk: Disk) returns (fd: Fd)
      modifies this`files
      ensures fd == OpenFile(disk) && files == Opened(old(files), path, mode, fd)
    {
      var created := disk.create;
      if created.NoDirectory? {
        created := disk.again;
      }
      match created {
        case Created =>
          files := files[path := File([], mode, 0)];
          fd := NewFile;
        case Exists(_) =>
          if disk.reopen.Done? {
            if path !in files {
              files := files[path := File([], mode, 0)];
            }
            fd := OldFile;
          } else {
            fd := NoFd(disk.reopen.reason);
          }
        case NoDirectory(reason) => fd := NoFd(reason);
        case Denied(reason) => fd := NoFd(reason);
      }
    }

    /** handle_send_file. */
    method HandleSendFile(path: bytes, mode: bv32, disk: Disk) returns (ok: bool)
      modifies this`input, this`output, this`room, this`files
      ensures var fd := OpenFile(disk);
              State(ok) == Prefixed(old(output), HandleFile(old(input), path, disk, fd, Opened(old(files), path, mode, fd), old(room)))
    {
      hide Message, SendFile, OpenFile, Opened, Cut;
      ghost var before, full := output, room;
      var fd := Open(path, mode, disk);
      ghost var files1 := files;
      if fd.NoFd? {
        ghost var m := Message(fd.reason);
        FitsWhole(m, full);
        var failed := FailMessage(fd.reason);
        if failed {
          return false;
        }
        PrefixedTwice(before, m, SendFile(input, path, 0, 0, disk, false, files1, full - |m|));
      }
      var open := !fd.NoFd?;
      var k, done := 0, false;
      var pos := 0;   // where the fd stands in the file
      ok := false;
      ghost var target := Prefixed(output, SendFile(input, path, 0, 0, disk, open, files, room));
      while !done
        invariant 0 <= k
        invariant !done ==> Prefixed(output, SendFile(input, path, k, pos, disk, open, files, room)) == target
        invariant done ==> State(ok) == target
        decreases !done, |input|
      {
        done, ok, k, pos, open := ReceiveFrame(path, k, pos, disk, open, target);
      }
    }

    lemma FitsWhole(data: bytes, n: nat)
      ensures |data| <= n ==> Cut(data, n) == data
    {
    }

    /** One round of the loop of handle_send_file. */
    method ReceiveFrame(path: bytes, k: nat, pos: nat, disk: Disk, open: bool, ghost target: Served)
      returns (done: bool, ok: bool, k': nat, pos': nat, open': bool)
      requires Prefixed(output, SendFile(input, path, k, pos, disk, open, files, room)) == target
      modifies this`input, this`output, this`room, this`files
      ensures !done ==> Prefixed(output, SendFile(input, path, k', pos', disk, open', files, room)) == target
      ensures !done ==> |input| < |old(input)|
      ensures done ==> State(ok) == target
    {
      hide Message, Word, WordValue, Text, WriteAt, GivenUp, Unlinked, Stamp, Cut;
      done, ok, k', pos', open' := true, false, k, pos, open;
      ghost var d := input;
      assert output + [] == output;
      var got, msg := ReadX(8);
      if !got {
        Unlink(path, disk.dropped);
        return;
      }
      assert msg[..4] == d[..4] && msg[4..8] == d[4..8];
      if msg[..4] != ID_DATA {
        FitsWhole([], room);
        ok := EndOfFile(path, open, msg[..4], WordValue(msg[4..8]), disk);
        return;
      }
      assert ID_DATA != ID_DONE by { assert ID_DATA[1] != ID_DONE[1]; }
      var len := WordValue(msg[4..8]);
      if len > SYNC_DATA_MAX {
        var failed := FailMessage(Text("oversize data message"));
        Unlink(path, disk.dropped);
        return;
      }
      var buffer;
      got, buffer := ReadX(len);
      if !got {
        Unlink(path, disk.dropped);
        return;
      }
      ChunkArrives(d, path, k, pos, disk, open, files, room);
      hide SendFile, ChunkServed;
      done := false;
      if open {
        var broken;
        pos', open', broken := StoreChunk(path, k, pos, disk, buffer, target);
        k', done := k + 1, broken;
      } else {
        ClosedChunk(buffer, input, path, k, pos, disk, files, room);
      }
    }

    /** adb_unlink. */
    method Unlink(path: bytes, works: bool)
      modifies this`files
      ensures files == Unlinked(old(files), path, works)
    {
      if works {
        files := files - {path};
      }
    }

    /** A message other than data: the end of the file, or a violation. */
    method EndOfFile(path: bytes, open: bool, id: bytes, size: nat, disk: Disk) returns (ok: bool)
      modifies this`output, this`room, this`files
      ensures var message := if id != ID_DONE then Message(Text("invalid data message")) else if open then OKAY_STATUS else [];
              && output == old(output) + Cut(message, old(room))
              && (ok <==> id == ID_DONE && |message| <= old(room))
      ensures files == if id != ID_DONE then Unlinked(old(files), path, disk.dropped)
                       else if open then Stamp(old(files), path, size) else old(files)
    {
      hide Message, Text, Stamp, Word, Unlinked;
      assert output + [] == output;
      if id != ID_DONE {
        var failed := FailMessage(Text("invalid data message"));
        Unlink(path, disk.dropped);
        return false;
      }
      ok := true;
      if open {
        files := Stamp(files, path, size);
        var failed := WriteX(OKAY_STATUS);
        ok := !failed;
      }
    }

    /** The write of one chunk; a failure closes and unlinks the file and is told, and
        if that fails too the service gives up. */
    method StoreChunk(path: bytes, k: nat, pos: nat, disk: Disk, buffer: bytes, ghost target: Served)
      returns (pos': nat, open: bool, broken: bool)
      requires Prefixed(output, ChunkServed(buffer, input, path, k, pos, disk, true, files, room)) == target
      modifies this`output, this`room, this`files
      ensures !broken ==> Prefixed(output, SendFile(input, path, k + 1, pos', disk, open, files, room)) == target
      ensures broken ==> State(false) == target
    {
      hide Message, WriteAt, Unlinked, SendFile, ChunkServed, Cut;
      match WriteAttempt(disk, k) {
        case Done =>
          StoredChunk(buffer, input, path, k, pos, disk, files, room);
          files := WriteAt(files, path, pos, buffer);
          pos', open, broken := pos + |buffer|, true, false;
        case Failed(reason) =>
          ghost var m, given := Message(reason), GivenUp(files, path, pos, buffer, disk);
          FailedChunk(buffer, input, path, k, pos, disk, files, room);
          FitsWhole(m, room);
          if |m| <= room {
            PrefixedTwice(output, m, SendFile(input, path, k + 1, pos, disk, false, given, room - |m|));
          }
          files := WriteAt(files, path, pos, Head(buffer, disk.partial));
          Unlink(path, disk.dropped);
          broken := FailMessage(reason);
          pos', open := pos, false;
      }
    }

    /** do_send. */
    method SendCommand(name: bytes, disk: Disk) returns (ok: bool)
      requires room == disk.room
      modifies this`input, this`output, this`room, this`files
      ensures State(ok) == Prefixed(old(output), DoSend(name, old(input), disk, strtoul, old(files)))
    {
      hide HandleFile, Unlinked, Opened, OpenFile;
      var comma := LastComma(name);
      var path := name[..comma];
      var mode := ModeOf(name, strtoul);
      Unlink(path, disk.cleared);
      ok := HandleSendFile(path, mode, disk);
    }

    /** One round of the command loop. */
    method RunCommand(disk: Disk) returns (ok: bool)
      requires room == disk.room
      modifies this`input, this`output, this`room, this`files
      ensures State(ok) == Prefixed(old(output), Command(old(input), disk, strtoul, old(files)))
    {
      hide DoSend, Message, Word, WordValue, Text, Cut;
      ghost var d := input;
      ok := false;
      assert output + [] == output;
      var got, msg := ReadX(8);
      if !got {
        var failed := FailMessage(Text("command read failure"));
        return;
      }
      assert msg[..4] == d[..4] && msg[4..8] == d[4..8];
      var namelen := WordValue(msg[4..8]);
      if namelen > 1024 {
        var failed := FailMessage(Text("invalid namelen"));
        return;
      }
      var name;
      got, name := ReadX(namelen);
      if !got {
        var failed := FailMessage(Text("filename read failure"));
        return;
      }
      var id := msg[..4];
      if id == ID_SEND {
        ok := SendCommand(CString(name), disk);
      } else if id == ID_STAT || id == ID_LIST || id == ID_RECV {
        var failed := WriteX(disk.answer);
        ok := disk.answered && !failed;
      } else if id != ID_QUIT {
        var failed := FailMessage(Text("unknown command"));
      }
    }
  }

  // ---------------------------------------------------------- the client

  /** A buffer in pieces of at most 64 KB. */
  function Pieces(buffer: bytes): (r: seq<bytes>)
    ensures forall i :: 0 <= i < |r| ==> 0 < |r[i]| <= SYNC_DATA_MAX
    decreases |buffer|
  {
    if buffer == [] then []
    else if |buffer| <= SYNC_DATA_MAX then [buffer]
    else [buffer[..SYNC_DATA_MAX]] + Pieces(buffer[SYNC_DATA_MAX..])
  }

  lemma {:induction false} PiecesKeepBytes(buffer: bytes)
    ensures Flat(Pieces(buffer)) == buffer
    decreases |buffer|
  {
    if |buffer| > SYNC_DATA_MAX {
      PiecesKeepBytes(buffer[SYNC_DATA_MAX..]);
      assert Pieces(buffer)[1..] == Pieces(buffer[SYNC_DATA_MAX..]);
      assert buffer == buffer[..SYNC_DATA_MAX] + buffer[SYNC_DATA_MAX..];
    } else if buffer != [] {
      assert [buffer][1..] == [] && buffer + [] == buffer;
    }
  }

  /** One answer to adb_read on the local file. */
  datatype Read = Chunk(data: bytes) | Interrupted | Error

  /** The pieces that write_data_file gets from a file: it stops at the end of the
      file and at an error alike. */
  function PiecesRead(answers: seq<Read>): (r: seq<bytes>)
    ensures forall i :: 0 <= i < |r| ==> 0 < |r[i]| <= SYNC_DATA_MAX
  {
    if answers == [] || answers[0].Error? || answers[0] == Chunk([]) then []
    else if answers[0].Interrupted? then PiecesRead(answers[1..])
    else
      var x := answers[0].data;
      [if |x| > SYNC_DATA_MAX then x[..SYNC_DATA_MAX] else x] + PiecesRead(answers[1..])
  }

  lemma FramesStep(chunk: bytes, rest: seq<bytes>)
    ensures Frames([chunk] + rest) == Frame(chunk) + Frames(rest)
  {
    assert ([chunk] + rest)[1..] == rest;
  }

  /** Where the contents of the pushed file come from: memory, after the check of an
      APK, or the file; the check may fail, and the file may not open. */
  datatype Source = InMemory(buffer: bytes) | BadApk | FromFile(answers: seq<Read>) | CannotOpen

  /** The pieces in which the contents are sent. */
  function SourcePieces(source: Source): (r: seq<bytes>)
    ensures forall i :: 0 <= i < |r| ==> 0 < |r[i]| <= SYNC_DATA_MAX
  {
    match source
    case InMemory(buffer) => Pieces(buffer)
    case FromFile(answers) => PiecesRead(answers)
    case _ => []
  }

  /** The answers are those of a local file with these contents: every chunk is the
      next piece of it and the end is seen at its end, but reads may fail anywhere. */
  predicate ReadsFrom(answers: seq<Read>, file: bytes)
    decreases |answers|
  {
    if answers == [] then file == []
    else match answers[0]
      case Error => true
      case Interrupted => ReadsFrom(answers[1..], file)
      case Chunk(x) =>
        if x == [] then file == []
        else |x| <= SYNC_DATA_MAX && x <= file && ReadsFrom(answers[1..], file[|x|..])
  }

  /** A read fails before the end of the file is reached. */
  predicate FailsEarly(answers: seq<Read>, file: bytes)
    requires ReadsFrom(answers, file)
    decreases |answers|
  {
    answers != [] &&
    match answers[0]
    case Error => file != []
    case Interrupted => FailsEarly(answers[1..], file)
    case Chunk(x) => x != [] && FailsEarly(answers[1..], file[|x|..])
  }

  /** What is read of a file is a beginning of it, and all of it exactly if no read
      fails early. */
  lemma {:induction false} ReadIsWhole(answers: seq<Read>, file: bytes)
    requires ReadsFrom(answers, file)
    ensures Flat(PiecesRead(answers)) <= file
    ensures Flat(PiecesRead(answers)) == file <==> !FailsEarly(answers, file)
    decreases |answers|
  {
    if answers != [] && answers[0].Interrupted? {
      ReadIsWhole(answers[1..], file);
    } else if answers != [] && answers[0].Chunk? && answers[0].data != [] {
      hide PiecesRead, Flat, ReadsFrom, FailsEarly;
      var x, more := answers[0].data, answers[1..];
      ChunkOfFile(answers, file);
      ReadIsWhole(more, file[|x|..]);
      assert file == x + file[|x|..];
      SameBehind(x, Flat(PiecesRead(more)), file[|x|..]);
    }
  }

  lemma ChunkOfFile(answers: seq<Read>, file: bytes)
    requires ReadsFrom(answers, file) && answers != [] && answers[0].Chunk? && answers[0].data != []
    ensures var x, more := answers[0].data, answers[1..];
            && x <= file && ReadsFrom(more, file[|x|..])
            && (FailsEarly(answers, file) <==> FailsEarly(more, file[|x|..]))
            && Flat(PiecesRead(answers)) == x + Flat(PiecesRead(more))
  {
    var x, rest := answers[0].data, PiecesRead(answers[1..]);
    assert PiecesRead(answers) == [x] + rest;
    assert ([x] + rest)[1..] == rest;
  }

  lemma SameBehind(x: bytes, a: bytes, b: bytes)
    ensures x + a == x + b <==> a == b
    ensures a <= b ==> x + a <= x + b
  {
    assert (x + a)[|x|..] == a && (x + b)[|x|..] == b;
    if a <= b {
      assert b == a + b[|a|..];
      assert x + b == (x + a) + b[|a|..];
    }
  }

  /** The source is the local file with these contents. */
  predicate IsLocalFile(source: Source, file: bytes) {
    match source
    case InMemory(buffer) => buffer == file
    case FromFile(answers) => ReadsFrom(answers, file)
    case _ => true
  }

  /** The client gets hold of the whole file. */
  predicate ReadsAll(source: Source, file: bytes)
    requires IsLocalFile(source, file)
  {
    match source
    case FromFile(answers) => !FailsEarly(answers, file)
    case InMemory(_) => true
    case _ => file == []
  }

  /** A push that is answered with OKAY, and that does not write over an old file,
      has stored the local file, with its bytes, mode and time stamp, if and only if
      the client could read all of it: nobody tells when it could not. */
  lemma LocalFileStoredExactly(path: bytes, mode: nat, source: Source, file: bytes, mtime: nat,
                               disk: Disk, files: Files)
    requires IsLocalFile(source, file) && !source.BadApk?
    requires var p := Push(path, mode, SourcePieces(source), mtime);
             Fate(p, disk).Done? && !WritesOver(p, disk, files)
    ensures var p := Push(path, mode, SourcePieces(source), mtime);
            && path in FilesAfter(p, disk, files)
            && (FilesAfter(p, disk, files)[path] == File(file, Mode(mode), mtime) <==> ReadsAll(source, file))
  {
    hide Mode, Flat, Pieces, PiecesRead, FilesAfter, Fate, WritesOver, FailsEarly, ReadsFrom;
    var p := Push(path, mode, SourcePieces(source), mtime);
    StoredExactly(p, disk, files);
    match source
    case InMemory(buffer) => PiecesKeepBytes(buffer);
    case FromFile(answers) => ReadIsWhole(answers, file);
    case _ => NothingIsFlat();
  }

  lemma NothingIsFlat()
    ensures Flat([]) == []
  {
  }

  /** The code does let this happen: a read that fails after `x` stores `x` alone and
      is answered with OKAY. */
  lemma FailedReadTruncates(path: bytes, mode: nat, x: bytes, y: bytes, mtime: nat, disk: Disk, files: Files)
    requires 0 < |x| <= SYNC_DATA_MAX && y != []
    requires OpenFile(disk).NewFile? && WriteAttempt(disk, 0).Done?
    ensures var source := FromFile([Chunk(x), Error]);
            var p := Push(path, mode, SourcePieces(source), mtime);
            && IsLocalFile(source, x + y) && Fate(p, disk) == Done
            && path in FilesAfter(p, disk, files) && FilesAfter(p, disk, files)[path] == File(x, Mode(mode), mtime)
  {
    hide Mode, Flat, FilesAfter, FirstFailure, PiecesRead, ReadsFrom;
    OneChunkRead(x, y);
    OneWrite(disk);
    StoredExactly(Push(path, mode, PiecesRead([Chunk(x), Error]), mtime), disk, files);
  }

  lemma OneChunkRead(x: bytes, y: bytes)
    requires 0 < |x| <= SYNC_DATA_MAX
    ensures PiecesRead([Chunk(x), Error]) == [x] && Flat([x]) == x && ReadsFrom([Chunk(x), Error], x + y)
  {
    var answers := [Chunk(x), Error];
    assert answers[1..] == [Error] && PiecesRead([Error]) == [] && ReadsFrom([Error], (x + y)[|x|..]);
    assert PiecesRead(answers) == [x] + [];
    assert [x][1..] == [] && x + [] == x;
  }

  lemma OneWrite(disk: Disk)
    ensures FirstFailure(disk, 0, 1) == if WriteAttempt(disk, 0).Failed? then WriteAttempt(disk, 0) else Done
  {
  }

  /** A local file that does not open is pushed as an empty one, and nobody is told. */
  lemma UnreadableFileIsPushedEmpty(path: bytes, mode: nat, mtime: nat, disk: Disk, files: Files)
    requires OpenFile(disk).NewFile?
    ensures var p := Push(path, mode, SourcePieces(CannotOpen), mtime);
            && Fate(p, disk) == Done && path in FilesAfter(p, disk, files)
            && FilesAfter(p, disk, files)[path] == File([], Mode(mode), mtime)
  {
    LocalFileStoredExactly(path, mode, CannotOpen, [], mtime, disk, files);
    hide Mode, FilesAfter;
  }

  /** The client's side of the connection, which takes `room` more bytes before it
      breaks. */
  class SyncClient {
    var input: bytes
    var output: bytes
    var room: nat
    var closed: bool

    constructor (input: bytes, room: nat)
      ensures this.input == input && output == [] && this.room == room && !closed
    {
      this.input, output, this.room, closed := input, [], room, false;
    }

    /** `all` has been passed to writex since `before` was the output and `full` the
        room: what the connection could take has gone out. */
    ghost predicate Passed(before: bytes, full: nat, all: bytes)
      reads this`output, this`room
    {
      output == before + Cut(all, full) && room == full - |Cut(all, full)|
    }

    /** writex. */
    method WriteX(data: bytes) returns (failed: bool)
      modifies this`output, this`room
      ensures Passed(old(output), old(room), data) && failed == (|data| > old(room))
    {
      failed := |data| > room;
      if failed {
        output := output + data[..room];
        room := 0;
      } else {
        output := output + data;
        room := room - |data|;
      }
    }

    twostate lemma PassedTwice(new before: bytes, new full: nat, new a: bytes, new b: bytes)
      requires old(Passed(before, full, a)) && Passed(old(output), old(room), b)
      ensures Passed(before, full, a + b)
    {
      CutAppend(a, b, full);
      assert (before + Cut(a, full)) + Cut(b, full - |Cut(a, full)|) == before + Cut(a + b, full);
    }

    /** After a write has failed the rest does not matter. */
    lemma PassedEnough(before: bytes, full: nat, a: bytes, b: bytes)
      requires Passed(before, full, a) && |a| > full
      ensures Passed(before, full, a + b)
    {
      CutAppend(a, b, full);
    }

    lemma PassedNothing()
      ensures Passed(output, room, [])
    {
      assert output + [] == output;
    }

    /** write_data_buffer. */
    method WriteDataBuffer(buffer: bytes) returns (err: bool)
      modifies this`output, this`room
      ensures var all := Frames(Pieces(buffer));
              Passed(old(output), old(room), all) && err == (|all| > old(room))
    {
      hide Frame, Passed;
      ghost var before, full := output, room;
      ghost var done: bytes := [];
      err := false;
      PassedNothing();
      var total := 0;
      assert buffer[0..] == buffer;
      assert [] + Frames(Pieces(buffer)) == Frames(Pieces(buffer));
      while total < |buffer|
        invariant 0 <= total <= |buffer|
        invariant Passed(before, full, done) && |done| <= full
        invariant done + Frames(Pieces(buffer[total..])) == Frames(Pieces(buffer))
      {
        var count := |buffer| - total;
        if count > SYNC_DATA_MAX {
          count := SYNC_DATA_MAX;
        }
        var data := buffer[total..total + count];
        PieceTaken(buffer, total, count);
        FramesStep(data, Pieces(buffer[total + count..]));
        hide Frames;
        ghost var rest := Frames(Pieces(buffer[total + count..]));
        assert done + (Frame(data) + rest) == (done + Frame(data)) + rest;
        err := SendChunk(data, before, full, done, rest);
        if err {
          return;
        }
        done := done + Frame(data);
        total := total + count;
      }
      assert Pieces(buffer[total..]) == [] && done + [] == done;
    }

    lemma PieceTaken(buffer: bytes, total: nat, count: nat)
      requires total < |buffer|
      requires count == if |buffer| - total > SYNC_DATA_MAX then SYNC_DATA_MAX else |buffer| - total
      ensures Pieces(buffer[total..]) == [buffer[total..total + count]] + Pieces(buffer[total + count..])
    {
      var rest := buffer[total..];
      assert rest[..count] == buffer[total..total + count] && rest[count..] == buffer[total + count..];
      assert |rest| <= SYNC_DATA_MAX ==> rest[..count] == rest && Pieces(rest) == [rest] + [] && rest[count..] == [];
    }

    /** Sends one frame, with `rest` to come behind it. */
    method SendChunk(data: bytes, ghost before: bytes, ghost full: nat, ghost done: bytes, ghost rest: bytes)
      returns (err: bool)
      requires Passed(before, full, done) && |done| <= full
      modifies this`output, this`room
      ensures err == (|done + Frame(data)| > full)
      ensures Passed(before, full, done + Frame(data))
      ensures err ==> Passed(before, full, (done + Frame(data)) + rest) && |(done + Frame(data)) + rest| > full
    {
      hide Frame;
      assert Frame(data) == ID_DATA + Word(|data|) + data by { FrameIs(data); }
      assert room == full - |done|;
      label sending:
      err := WriteX(ID_DATA + Word(|data|) + data);
      hide Passed, Cut;
      PassedTwice@sending(before, full, done, Frame(data));
      if err {
        PassedEnough(before, full, done + Frame(data), rest);
      }
    }

    lemma FrameIs(data: bytes)
      ensures Frame(data) == ID_DATA + Word(|data|) + data
    {
    }

    /** write_data_file, once the file is open. */
    method WriteDataFile(answers: seq<Read>) returns (err: bool)
      modifies this`output, this`room
      ensures var all := Frames(PiecesRead(answers));
              Passed(old(output), old(room), all) && err == (|all| > old(room))
    {
      hide Frame, Passed;
      ghost var before, full := output, room;
      ghost var done: bytes := [];
      err := false;
      PassedNothing();
      assert [] + Frames(PiecesRead(answers)) == Frames(PiecesRead(answers));
      var left := answers;
      while left != []
        invariant Passed(before, full, done) && |done| <= full
        invariant done + Frames(PiecesRead(left)) == Frames(PiecesRead(answers))
        decreases |left|
      {
        if left[0].Error? || left[0] == Chunk([]) {
          break;
        }
        if left[0].Chunk? {
          var x := left[0].data;
          var data := if |x| > SYNC_DATA_MAX then x[..SYNC_DATA_MAX] else x;
          FramesStep(data, PiecesRead(left[1..]));
          ghost var rest := Frames(PiecesRead(left[1..]));
          assert done + (Frame(data) + rest) == (done + Frame(data)) + rest;
          err := SendChunk(data, before, full, done, rest);
          if err {
            return;
          }
          done := done + Frame(data);
        }
        left := left[1..];
      }
      assert done + Frames([]) == done;
    }

    /** sync_send up to the status.  What reaches the connection is always a beginning
        of the client's bytes, and failure is reported exactly if it is not all of
        them, although nobody looks at the results of the two methods above. */
    method SendPush(path: bytes, mode: nat, source: Source, mtime: nat) returns (sent: bool)
      modifies this`output, this`room, this`closed
      ensures if |path| > 1024 then
                !sent && closed && output == old(output) && room == old(room)
              else if source.BadApk? then
                !sent && closed == old(closed) && output == old(output) && room == old(room)
              else if !source.InMemory? && !(0x8000 <= mode % 0x1_0000 < 0x9000) then
                !sent && closed && Passed(old(output), old(room), RequestFrame(path, mode))
              else
                var all := ClientBytes(Push(path, mode, SourcePieces(source), mtime));
                && Passed(old(output), old(room), all)
                && sent == (|all| <= old(room)) && closed == (old(closed) || !sent)
    {
      hide Frames, Word, ModeSuffix, Pieces, PiecesRead, Passed, RequestFrame, DoneFrame;
      ghost var before, full := output, room;
      sent := false;
      if |path| > 1024 {
        closed := true;
        return;
      }
      if source.BadApk? {
        return;
      }
      var failed := SendRequest(path, mode);
      ghost var request := RequestFrame(path, mode);
      ghost var data := Frames(SourcePieces(source));
      if failed {
        PassedEnough(before, full, request, data + DoneFrame(mtime));
        closed := true;
        return;
      }
      RegularModes(mode);
      if !source.InMemory? && !IsRegular(mode) {
        closed := true;
        return;
      }
      label requested:
      SendContents(source);
      PassedTwice@requested(before, full, request, data);
      assert Passed(before, full, request + data);
      RoomAfter(before, full, request + data);
      label filled:
      failed := SendDone(mtime);
      PassedTwice@filled(before, full, request + data, DoneFrame(mtime));
      assert (request + data) + DoneFrame(mtime) == request + (data + DoneFrame(mtime));
      if failed {
        closed := true;
        return;
      }
      sent := true;
    }

    /** The request, in three writes of which a failing one is the last. */
    method SendRequest(path: bytes, mode: nat) returns (failed: bool)
      modifies this`output, this`room
      ensures Passed(old(output), old(room), RequestFrame(path, mode))
      ensures failed == (|RequestFrame(path, mode)| > old(room))
    {
      hide Passed, Word, ModeSuffix;
      ghost var before, full := output, room;
      var tmp := ModeSuffix(mode);
      var head := ID_SEND + Word(|path| + |tmp|);
      assert RequestFrame(path, mode) == head + (path + tmp) == (head + path) + tmp;
      failed := WriteX(head);
      assert room == full - |Cut(head, full)| by { RoomAfter(before, full, head); }
      if failed {
        PassedEnough(before, full, head, path + tmp);
        return;
      }
      label headed:
      failed := WriteX(path);
      PassedTwice@headed(before, full, head, path);
      assert room == full - |Cut(head + path, full)| by { RoomAfter(before, full, head + path); }
      if failed {
        PassedEnough(before, full, head + path, tmp);
        return;
      }
      label named:
      failed := WriteX(tmp);
      PassedTwice@named(before, full, head + path, tmp);
    }

    lemma RoomAfter(before: bytes, full: nat, all: bytes)
      requires Passed(before, full, all)
      ensures room == full - |Cut(all, full)|
    {
    }

    method SendContents(source: Source)
      modifies this`output, this`room
      ensures Passed(old(output), old(room), Frames(SourcePieces(source)))
    {
      hide Frame, Passed, Pieces, PiecesRead;
      PassedNothing();
      match source {
        case InMemory(buffer) => var err := WriteDataBuffer(buffer);
        case FromFile(answers) => var err := WriteDataFile(answers);
        case _ =>
      }
    }

    method SendDone(mtime: nat) returns (failed: bool)
      modifies this`output, this`room
      ensures Passed(old(output), old(room), DoneFrame(mtime)) && failed == (8 > old(room))
      ensures |DoneFrame(mtime)| == 8
    {
      failed := WriteX(ID_DONE + Word(mtime));
    }

    /** The end of sync_send. */
    method ReceiveStatus() returns (status: Status)
      modifies this`input
      ensures (status, input) == ReadStatus(old(input))
    {
      hide Word, WordValue;
      var d := input;
      if |d| < 8 {
        input := [];
        return Broken;
      }
      input := d[8..];
      if d[..4] == ID_OKAY {
        return Sent;
      }
      if d[..4] != ID_FAIL {
        return Refused(Text("unknown reason"));
      }
      var len := WordValue(d[4..8]);
      if len > 256 {
        len := 256;
      }
      if |input| < len {
        input := [];
        return Broken;
      }
      status := Refused(input[..len]);
      input := input[len..];
    }
  }
}
