/** Pushing files through the file-sync service: the client's frames, the service
    that takes them apart, and the status that it sends back. */
module PushSession {
  import opened Bytes
  import opened JsonNumbers
  import opened Words

  const ID_SEND: bytes := [83, 69, 78, 68]
  const ID_DATA: bytes := [68, 65, 84, 65]
  const ID_DONE: bytes := [68, 79, 78, 69]
  const ID_OKAY: bytes := [79, 75, 65, 89]
  const ID_FAIL: bytes := [70, 65, 73, 76]
  const ID_QUIT: bytes := [81, 85, 73, 84]
  const ID_STAT: bytes := [83, 84, 65, 84]
  const ID_LIST: bytes := [76, 73, 83, 84]
  const ID_RECV: bytes := [82, 69, 67, 86]
  const SYNC_DATA_MAX := 65536
  const COMMA: byte := 44

  // ---------------------------------------------------------- the client

  /** A file to push: the remote path, the mode, what was read of the file in the
      pieces in which it was read, and the time stamp. */
  datatype Push = Push(path: bytes, mode: nat, chunks: seq<bytes>, mtime: nat)

  /** S_ISREG. */
  predicate IsRegular(mode: nat) {
    mode / 4096 % 16 == 8
  }

  /** The file type is in the four bits above the permissions. */
  lemma RegularModes(mode: nat)
    ensures IsRegular(mode) <==> 0x8000 <= mode % 0x1_0000 < 0x9000
  {
    assert mode % 0x1_0000 / 4096 == mode / 4096 % 16;
  }

  function ModeSuffix(mode: nat): bytes {
    [COMMA] + Decimal(mode)
  }

  /** A push that the client does not refuse: it looks at the path alone. */
  predicate Sendable(p: Push) {
    && 0 !in p.path && IsRegular(p.mode) && p.mode < 0x1_0000 && p.mtime < 0x1_0000_0000
    && |p.path| <= 1024
    && forall i :: 0 <= i < |p.chunks| ==> 0 < |p.chunks[i]| <= SYNC_DATA_MAX
  }

  /** The service has room for its name. */
  predicate Pushable(p: Push) {
    Sendable(p) && |p.path| + |ModeSuffix(p.mode)| <= 1024
  }

  function Frame(chunk: bytes): bytes {
    ID_DATA + Word(|chunk|) + chunk
  }

  function Frames(chunks: seq<bytes>): bytes {
    if chunks == [] then [] else Frame(chunks[0]) + Frames(chunks[1..])
  }

  function DoneFrame(mtime: nat): bytes {
    ID_DONE + Word(mtime)
  }

  function RequestFrame(path: bytes, mode: nat): bytes {
    ID_SEND + Word(|path| + |ModeSuffix(mode)|) + (path + ModeSuffix(mode))
  }

  /** Everything that sync_send writes for a push. */
  function ClientBytes(p: Push): bytes {
    RequestFrame(p.path, p.mode) + (Frames(p.chunks) + DoneFrame(p.mtime))
  }

  // --------------------------------------------------------- the service

  /** The outcome of a system call on a file; a failure has the text of errno. */
  datatype Attempt = Done | Failed(reason: bytes)

  /** The outcome of an attempt to create the file. */
  datatype Creation = Created | NoDirectory(reason: bytes) | Exists(reason: bytes) | Denied(reason: bytes)

  /** What the service's surroundings do during one command: whether the old file
      goes away (`cleared`), what becomes of creating the file, of creating it again
      when its directories have been made and of opening the file that is there,
      what becomes of each write, how much of a failing write is written, whether a
      file given up goes away (`dropped`), for the commands that only send an answer
      that answer, and how many bytes the connection takes before it breaks. */
  datatype Disk = Disk(cleared: bool, create: Creation, again: Creation, reopen: Attempt,
                       writes: seq<Attempt>, partial: nat, dropped: bool,
                       answer: bytes, answered: bool, room: nat)

  /** How the file is open, if it is. */
  datatype Fd = NoFd(reason: bytes) | NewFile | OldFile

  function OpenFile(disk: Disk): Fd {
    match if disk.create.NoDirectory? then disk.again else disk.create
    case Created => NewFile
    case Exists(_) => if disk.reopen.Done? then OldFile else NoFd(disk.reopen.reason)
    case NoDirectory(reason) => NoFd(reason)
    case Denied(reason) => NoFd(reason)
  }

  datatype File = File(data: bytes, mode: bv32, mtime: nat)

  type Files = map<bytes, File>

  datatype Number = Number(n: nat) | Overflow

  /** What a command leaves behind: whether the service goes on, the input that is
      left, what was sent, and the files. */
  datatype Served = Served(ok: bool, input: bytes, output: bytes, files: Files)

  function Text(s: string): bytes {
    if s == "" then [] else [if s[0] as int < 128 then s[0] as int as byte else 63] + Text(s[1..])
  }

  /** fail_message. */
  function Message(reason: bytes): bytes {
    ID_FAIL + Word(|reason|) + reason
  }

  const OKAY_STATUS: bytes := ID_OKAY + Word(0)

  function Prefixed(out: bytes, s: Served): Served {
    s.(output := out + s.output)
  }

  /** What of some bytes a connection takes that has room for `n`. */
  function Cut(x: bytes, n: nat): bytes {
    if |x| <= n then x else x[..n]
  }

  lemma CutAppend(a: bytes, b: bytes, n: nat)
    ensures Cut(a + b, n) == Cut(a, n) + Cut(b, n - |Cut(a, n)|)
    ensures |Cut(a + b, n)| == |Cut(a, n)| + |Cut(b, n - |Cut(a, n)|)|
    ensures |a| > n ==> Cut(a + b, n) == Cut(a, n)
  {
  }

  /** A command that ends with a message; it fails if the connection does not take
      the message. */
  function Reply(ok: bool, input: bytes, message: bytes, room: nat, files: Files): Served {
    Served(ok && |message| <= room, input, Cut(message, room), files)
  }

  function WriteAttempt(disk: Disk, k: nat): Attempt {
    if k < |disk.writes| then disk.writes[k] else Done
  }

  /** The bytes of a file after a write at `pos`. */
  function Over(data: bytes, pos: nat, chunk: bytes): bytes {
    if pos > |data| then data + chunk
    else if pos + |chunk| >= |data| then data[..pos] + chunk
    else data[..pos] + chunk + data[pos + |chunk|..]
  }

  function WriteAt(files: Files, path: bytes, pos: nat, chunk: bytes): (r: Files)
    ensures path in files ==> path in r
  {
    if path in files then files[path := files[path].(data := Over(files[path].data, pos, chunk))] else files
  }

  function Stamp(files: Files, path: bytes, mtime: nat): Files {
    if path in files then files[path := files[path].(mtime := mtime)] else files
  }

  /** adb_unlink, which may fail. */
  function Unlinked(files: Files, path: bytes, works: bool): Files {
    if works then files - {path} else files
  }

  function Head(chunk: bytes, n: nat): bytes {
    if n < |chunk| then chunk[..n] else chunk
  }

  /** The loop of handle_send_file; `open` says whether fd is not -1, `k` counts the
      writes, `pos` the bytes written and `room` those that the connection takes. */
  function SendFile(d: bytes, path: bytes, k: nat, pos: nat, disk: Disk, open: bool, files: Files, room: nat): Served
    decreases |d|
  {
    if |d| < 8 then Served(false, [], [], Unlinked(files, path, disk.dropped))
    else
      var id, size, rest := d[..4], WordValue(d[4..8]), d[8..];
      if id == ID_DONE then
        if open then Reply(true, rest, OKAY_STATUS, room, Stamp(files, path, size)) else Served(true, rest, [], files)
      else if id != ID_DATA then
        Reply(false, rest, Message(Text("invalid data message")), room, Unlinked(files, path, disk.dropped))
      else if size > SYNC_DATA_MAX then
        Reply(false, rest, Message(Text("oversize data message")), room, Unlinked(files, path, disk.dropped))
      else if |rest| < size then Served(false, [], [], Unlinked(files, path, disk.dropped))
      else if !open then SendFile(rest[size..], path, k, pos, disk, false, files, room)
      else match WriteAttempt(disk, k)
        case Done =>
          SendFile(rest[size..], path, k + 1, pos + size, disk, true, WriteAt(files, path, pos, rest[..size]), room)
        case Failed(reason) =>
          var files1 := GivenUp(files, path, pos, rest[..size], disk);
          if |Message(reason)| > room then Reply(false, rest[size..], Message(reason), room, files1)
          else
            Prefixed(Message(reason),
                     SendFile(rest[size..], path, k + 1, pos, disk, false, files1, room - |Message(reason)|))
  }

  /** The files after a write has failed: what was written of it, unless the file
      could be unlinked. */
  function GivenUp(files: Files, path: bytes, pos: nat, chunk: bytes, disk: Disk): Files {
    Unlinked(WriteAt(files, path, pos, Head(chunk, disk.partial)), path, disk.dropped)
  }

  /** strrchr( name, ',' ): the position of the last comma, or the length. */
  function LastComma(name: bytes): (i: nat)
    ensures i <= |name|
    ensures i < |name| ==> name[i] == COMMA && COMMA !in name[i + 1..]
    ensures i == |name| ==> COMMA !in name
  {
    if name == [] then 0
    else
      var j := LastComma(name[1..]);
      assert name == [name[0]] + name[1..];
      if j < |name| - 1 then j + 1 else if name[0] == COMMA then 0 else |name|
  }

  /** The permissions of the new file: the user's are copied to group and others. */
  function Spread(mode: bv32): bv32 {
    var m := mode & 0x1ff;
    var g := m | ((m >> 3) & 0x38);
    g | ((g >> 3) & 0x7)
  }

  function Mode(n: nat): bv32 {
    Spread((n % 0x1_0000_0000) as bv32)
  }

  /** The files once the file is open: a new one, or the one that is there, which
      keeps its contents and its mode. */
  function Opened(files: Files, path: bytes, mode: bv32, fd: Fd): Files {
    match fd
    case NoFd(_) => files
    case NewFile => files[path := File([], mode, 0)]
    case OldFile => if path in files then files else files[path := File([], mode, 0)]
  }

  /** handle_send_file behind the attempts to open the file. */
  function HandleFile(d: bytes, path: bytes, disk: Disk, fd: Fd, files: Files, room: nat): Served {
    if !fd.NoFd? then SendFile(d, path, 0, 0, disk, true, files, room)
    else if |Message(fd.reason)| > room then Reply(false, d, Message(fd.reason), room, files)
    else Prefixed(Message(fd.reason), SendFile(d, path, 0, 0, disk, false, files, room - |Message(fd.reason)|))
  }

  /** do_send.  `strtoul` is the library's. */
  function DoSend(name: bytes, d: bytes, disk: Disk, strtoul: bytes -> Number, files: Files): Served {
    var path := name[..LastComma(name)];
    var fd := OpenFile(disk);
    HandleFile(d, path, disk, fd, Opened(Unlinked(files, path, disk.cleared), path, ModeOf(name, strtoul), fd), disk.room)
  }

  function ModeOf(name: bytes, strtoul: bytes -> Number): bv32 {
    var comma := LastComma(name);
    if comma == |name| || strtoul(name[comma + 1..]).Overflow? then Mode(0x1a4)
    else Mode(strtoul(name[comma + 1..]).n)
  }

  /** One round of the command loop of file_sync_service. */
  function Command(d: bytes, disk: Disk, strtoul: bytes -> Number, files: Files): Served {
    if |d| < 8 then Reply(false, [], Message(Text("command read failure")), disk.room, files)
    else
      var id, size, rest := d[..4], WordValue(d[4..8]), d[8..];
      if size > 1024 then Reply(false, rest, Message(Text("invalid namelen")), disk.room, files)
      else if |rest| < size then Reply(false, [], Message(Text("filename read failure")), disk.room, files)
      else
        var name, rest' := CString(rest[..size]), rest[size..];
        if id == ID_SEND then DoSend(name, rest', disk, strtoul, files)
        else if id == ID_STAT || id == ID_LIST || id == ID_RECV then
          Reply(disk.answered, rest', disk.answer, disk.room, files)
        else if id == ID_QUIT then Served(false, rest', [], files)
        else Reply(false, rest', Message(Text("unknown command")), disk.room, files)
  }

  // ---------------------------------------------------------- the status

  /** What sync_send makes of the answer: the reason is cut to 256 bytes. */
  datatype Status = Sent | Refused(reason: bytes) | Broken

  function ReadStatus(d: bytes): (Status, bytes) {
    if |d| < 8 then (Broken, [])
    else
      var id, size, rest := d[..4], WordValue(d[4..8]), d[8..];
      if id == ID_OKAY then (Sent, rest)
      else if id != ID_FAIL then (Refused(Text("unknown reason")), rest)
      else
        var len := if size > 256 then 256 else size;
        if |rest| < len then (Broken, []) else (Refused(rest[..len]), rest[len..])
  }

  // ------------------------------------------------------ one push served

  /** The first failure among `n` writes. */
  function FirstFailure(disk: Disk, k: nat, n: nat): Attempt
    decreases n
  {
    if n == 0 then Done
    else if WriteAttempt(disk, k).Failed? then WriteAttempt(disk, k)
    else FirstFailure(disk, k + 1, n - 1)
  }

  /** What becomes of a push: the failure that the service reports, if any. */
  function Fate(p: Push, disk: Disk): Attempt {
    match OpenFile(disk)
    case NoFd(reason) => Failed(reason)
    case _ => FirstFailure(disk, 0, |p.chunks|)
  }

  lemma FrameParts(id: bytes, n: nat, payload: bytes, rest: bytes)
    requires |id| == 4 && n < 0x1_0000_0000
    ensures var d := id + Word(n) + payload + rest;
            && |d| >= 8 && d[..4] == id && WordValue(d[4..8]) == n
            && d[8..] == payload + rest
            && d[8..][..|payload|] == payload && d[8..][|payload|..] == rest
  {
    hide Word, WordValue;
    WordRoundTrip(n);
    var d := id + Word(n) + payload + rest;
    assert d[4..8] == Word(n);
  }

  lemma DoneServed(mtime: nat, later: bytes, path: bytes, k: nat, pos: nat, disk: Disk, open: bool, files: Files, room: nat)
    requires mtime < 0x1_0000_0000
    ensures SendFile(DoneFrame(mtime) + later, path, k, pos, disk, open, files, room) ==
              if open then Reply(true, later, OKAY_STATUS, room, Stamp(files, path, mtime)) else Served(true, later, [], files)
  {
    hide Word, WordValue, Stamp, Reply;
    FrameParts(ID_DONE, mtime, [], later);
    assert ID_DONE + Word(mtime) + [] + later == DoneFrame(mtime) + later && [] + later == later;
  }

  /** What a data message of an admissible size comes to, with `rest` behind it. */
  function ChunkServed(chunk: bytes, rest: bytes, path: bytes, k: nat, pos: nat, disk: Disk, open: bool,
                       files: Files, room: nat): Served {
    if !open then SendFile(rest, path, k, pos, disk, false, files, room)
    else match WriteAttempt(disk, k)
      case Done => SendFile(rest, path, k + 1, pos + |chunk|, disk, true, WriteAt(files, path, pos, chunk), room)
      case Failed(reason) =>
        var files1 := GivenUp(files, path, pos, chunk, disk);
        if |Message(reason)| > room then Reply(false, rest, Message(reason), room, files1)
        else
          Prefixed(Message(reason),
                   SendFile(rest, path, k + 1, pos, disk, false, files1, room - |Message(reason)|))
  }

  lemma ChunkArrives(d: bytes, path: bytes, k: nat, pos: nat, disk: Disk, open: bool, files: Files, room: nat)
    requires |d| >= 8 && d[..4] == ID_DATA && WordValue(d[4..8]) <= SYNC_DATA_MAX
    requires |d[8..]| >= WordValue(d[4..8])
    ensures var size, rest := WordValue(d[4..8]), d[8..];
            SendFile(d, path, k, pos, disk, open, files, room) ==
              ChunkServed(rest[..size], rest[size..], path, k, pos, disk, open, files, room)
  {
    hide Message, Word, WordValue, WriteAt, GivenUp, Unlinked, WriteAttempt, Prefixed, Text, Stamp, Reply;
    assert ID_DATA != ID_DONE by { assert ID_DATA[1] != ID_DONE[1]; }
  }

  lemma DataServed(chunk: bytes, rest: bytes, path: bytes, k: nat, pos: nat, disk: Disk, open: bool, files: Files, room: nat)
    requires |chunk| <= SYNC_DATA_MAX
    ensures SendFile(Frame(chunk) + rest, path, k, pos, disk, open, files, room)
         == ChunkServed(chunk, rest, path, k, pos, disk, open, files, room)
  {
    hide Word, WordValue, ChunkServed, SendFile;
    FrameParts(ID_DATA, |chunk|, chunk, rest);
    assert ID_DATA + Word(|chunk|) + chunk + rest == Frame(chunk) + rest;
    ChunkArrives(Frame(chunk) + rest, path, k, pos, disk, open, files, room);
  }

  /** What the writes leave in a file: all the chunks, or those before the one that
      fails and the beginning of that one. */
  function Filled(data: bytes, chunks: seq<bytes>, k: nat, pos: nat, disk: Disk): bytes
    decreases |chunks|
  {
    if chunks == [] then data
    else match WriteAttempt(disk, k)
      case Done => Filled(Over(data, pos, chunks[0]), chunks[1..], k + 1, pos + |chunks[0]|, disk)
      case Failed(_) => Over(data, pos, Head(chunks[0], disk.partial))
  }

  /** Writing one chunk behind another is writing both at once. */
  lemma OverTwice(data: bytes, pos: nat, a: bytes, b: bytes)
    requires pos <= |data|
    ensures Over(Over(data, pos, a), pos + |a|, b) == Over(data, pos, a + b)
    ensures Over(data, pos, []) == data
    ensures pos + |a| <= |Over(data, pos, a)|
  {
    var data1, m, n := Over(data, pos, a), pos + |a|, pos + |a + b|;
    assert Over(data, pos, []) == data;
    assert data1[..m] == data[..pos] + a;
    assert data1[..m] + b == data[..pos] + (a + b);
    if n < |data| {
      assert data1[n..] == data[m..][n - m..] == data[n..];
    }
  }

  lemma {:induction false} FilledWhenAllGoesWell(data: bytes, chunks: seq<bytes>, k: nat, pos: nat, disk: Disk)
    requires FirstFailure(disk, k, |chunks|).Done? && pos <= |data|
    ensures Filled(data, chunks, k, pos, disk) == Over(data, pos, Flat(chunks))
    decreases |chunks|
  {
    hide Over;
    if chunks == [] {
      OverTwice(data, pos, [], []);
    } else {
      OverTwice(data, pos, chunks[0], Flat(chunks[1..]));
      FilledWhenAllGoesWell(Over(data, pos, chunks[0]), chunks[1..], k + 1, pos + |chunks[0]|, disk);
    }
  }

  /** What a file's frames come to. */
  function FileServed(chunks: seq<bytes>, mtime: nat, later: bytes, path: bytes, k: nat, pos: nat,
                      disk: Disk, open: bool, files: Files, room: nat): Served
    requires open ==> path in files
  {
    if !open then Served(true, later, [], files)
    else
      var files1 := files[path := files[path].(data := Filled(files[path].data, chunks, k, pos, disk))];
      match FirstFailure(disk, k, |chunks|)
      case Failed(reason) => Reply(true, later, Message(reason), room, Unlinked(files1, path, disk.dropped))
      case Done => Reply(true, later, OKAY_STATUS, room, Stamp(files1, path, mtime))
  }

  /** The same outcome; what is left of the input matters only if the service goes on. */
  ghost predicate SameEnd(a: Served, b: Served) {
    a.ok == b.ok && a.output == b.output && a.files == b.files && (b.ok ==> a.input == b.input)
  }

  /** The service consumes exactly the frames of a file, whatever happens to the
      file, and says so at most once; it gives up only if the connection breaks. */
  lemma {:induction false} FramesServed(chunks: seq<bytes>, mtime: nat, later: bytes, path: bytes, k: nat, pos: nat,
                                        disk: Disk, open: bool, files: Files, room: nat)
    requires forall i :: 0 <= i < |chunks| ==> |chunks[i]| <= SYNC_DATA_MAX
    requires mtime < 0x1_0000_0000 && (open ==> path in files)
    ensures SameEnd(SendFile(Frames(chunks) + (DoneFrame(mtime) + later), path, k, pos, disk, open, files, room),
                    FileServed(chunks, mtime, later, path, k, pos, disk, open, files, room))
    decreases |chunks|
  {
    hide SendFile, Over, Head, Unlinked, Stamp, Message, DoneFrame, Frame, WriteAt, GivenUp, FirstFailure, FileServed,
         ChunkServed;
    var rest := DoneFrame(mtime) + later;
    if chunks == [] {
      assert [] + rest == rest;
      DoneServed(mtime, later, path, k, pos, disk, open, files, room);
      NoChunks(mtime, later, path, k, pos, disk, open, files, room);
    } else {
      var c, cs := chunks[0], chunks[1..];
      assert Frames(chunks) + rest == Frame(c) + (Frames(cs) + rest);
      DataServed(c, Frames(cs) + rest, path, k, pos, disk, open, files, room);
      NextChunk(chunks, mtime, later, path, k, pos, disk, open, files, room);
      if !open {
        FramesServed(cs, mtime, later, path, k, pos, disk, false, files, room);
        ClosedChunk(c, Frames(cs) + rest, path, k, pos, disk, files, room);
      } else if WriteAttempt(disk, k).Done? {
        FramesServed(cs, mtime, later, path, k + 1, pos + |c|, disk, true, WriteAt(files, path, pos, c), room);
        StoredChunk(c, Frames(cs) + rest, path, k, pos, disk, files, room);
      } else {
        var m, given := Message(WriteAttempt(disk, k).reason), GivenUp(files, path, pos, c, disk);
        FailedChunk(c, Frames(cs) + rest, path, k, pos, disk, files, room);
        if |m| <= room {
          FramesServed(cs, mtime, later, path, k + 1, pos, disk, false, given, room - |m|);
          NotOpen(cs, mtime, later, path, k + 1, pos, disk, given, room - |m|);
          assert m + [] == m;
        }
      }
    }
  }

  lemma ClosedChunk(chunk: bytes, rest: bytes, path: bytes, k: nat, pos: nat, disk: Disk, files: Files, room: nat)
    ensures ChunkServed(chunk, rest, path, k, pos, disk, false, files, room)
         == SendFile(rest, path, k, pos, disk, false, files, room)
  {
  }

  lemma StoredChunk(chunk: bytes, rest: bytes, path: bytes, k: nat, pos: nat, disk: Disk, files: Files, room: nat)
    requires WriteAttempt(disk, k).Done?
    ensures ChunkServed(chunk, rest, path, k, pos, disk, true, files, room)
         == SendFile(rest, path, k + 1, pos + |chunk|, disk, true, WriteAt(files, path, pos, chunk), room)
  {
    hide SendFile;
  }

  lemma FailedChunk(chunk: bytes, rest: bytes, path: bytes, k: nat, pos: nat, disk: Disk, files: Files, room: nat)
    requires WriteAttempt(disk, k).Failed?
    ensures var m, files1 := Message(WriteAttempt(disk, k).reason), GivenUp(files, path, pos, chunk, disk);
            ChunkServed(chunk, rest, path, k, pos, disk, true, files, room) ==
              if |m| > room then Reply(false, rest, m, room, files1)
              else Prefixed(m, SendFile(rest, path, k + 1, pos, disk, false, files1, room - |m|))
  {
    hide SendFile, Message, GivenUp, Reply, Prefixed;
  }

  lemma NotOpen(chunks: seq<bytes>, mtime: nat, later: bytes, path: bytes, k: nat, pos: nat, disk: Disk, files: Files, room: nat)
    ensures FileServed(chunks, mtime, later, path, k, pos, disk, false, files, room) == Served(true, later, [], files)
  {
  }

  lemma NoChunks(mtime: nat, later: bytes, path: bytes, k: nat, pos: nat, disk: Disk, open: bool, files: Files, room: nat)
    requires open ==> path in files
    ensures FileServed([], mtime, later, path, k, pos, disk, open, files, room) ==
              if open then Reply(true, later, OKAY_STATUS, room, Stamp(files, path, mtime)) else Served(true, later, [], files)
  {
    hide Stamp, Reply;
    if open { assert files[path := files[path]] == files; }
  }

  /** What the first chunk makes of the rest. */
  lemma NextChunk(chunks: seq<bytes>, mtime: nat, later: bytes, path: bytes, k: nat, pos: nat,
                  disk: Disk, open: bool, files: Files, room: nat)
    requires chunks != [] && (open ==> path in files)
    ensures var c, cs := chunks[0], chunks[1..];
            FileServed(chunks, mtime, later, path, k, pos, disk, open, files, room) ==
              if !open then FileServed(cs, mtime, later, path, k, pos, disk, false, files, room)
              else match WriteAttempt(disk, k)
                case Done =>
                  FileServed(cs, mtime, later, path, k + 1, pos + |c|, disk, true, WriteAt(files, path, pos, c), room)
                case Failed(reason) => Reply(true, later, Message(reason), room, GivenUp(files, path, pos, c, disk))
  {
    hide Over, Head, Unlinked, Stamp, Message, Reply;
    var c, cs := chunks[0], chunks[1..];
    if open {
      hide WriteAt;
      var files1 := WriteAt(files, path, pos, c);
      WrittenOnce(files, path, pos, c, Filled(Over(files[path].data, pos, c), cs, k + 1, pos + |c|, disk));
      WrittenOnce(files, path, pos, Head(c, disk.partial), []);
    }
  }

  lemma WrittenOnce(files: Files, path: bytes, pos: nat, chunk: bytes, data: bytes)
    requires path in files
    ensures var files1 := WriteAt(files, path, pos, chunk);
            && path in files1 && files1[path].data == Over(files[path].data, pos, chunk)
            && files1[path := files1[path].(data := data)] == files[path := files[path].(data := data)]
            && files1 == files[path := files[path].(data := Over(files[path].data, pos, chunk))]
  {
    hide Over;
  }

  // -------------------------------------------------- the name in a request

  /** The comma that the client appends is the last one, even if the path has
      commas of its own. */
  lemma PathIsFound(path: bytes, mode: nat)
    ensures LastComma(path + ModeSuffix(mode)) == |path| < |path + ModeSuffix(mode)|
    ensures (path + ModeSuffix(mode))[..|path|] == path
    ensures (path + ModeSuffix(mode))[|path| + 1..] == Decimal(mode)
    ensures 0 !in path ==> 0 !in path + ModeSuffix(mode)
  {
    var digits := Decimal(mode);
    assert (path + ModeSuffix(mode))[|path| + 1..] == digits;
    forall i | 0 <= i < |digits|
      ensures digits[i] != COMMA && digits[i] != 0
    {
      assert IsDigit(digits[i]);
    }
    hide Decimal;
    CommaBefore(path, digits);
  }

  lemma {:induction false} CommaBefore(path: bytes, digits: bytes)
    requires COMMA !in digits
    ensures LastComma(path + ([COMMA] + digits)) == |path|
  {
    var name := path + ([COMMA] + digits);
    if path == [] {
      assert name == [COMMA] + digits && name[1..] == digits;
    } else {
      assert name[1..] == path[1..] + ([COMMA] + digits);
      CommaBefore(path[1..], digits);
    }
  }

  /** The library's strtoul reads decimal numbers. */
  ghost predicate ReadsDecimals(strtoul: bytes -> Number) {
    forall n: nat :: n < 0x1_0000 ==> strtoul(Decimal(n)) == Number(n)
  }

  /** The user's permissions stay and group and others get them too. */
  lemma PermissionsSpread(mode: bv32)
    ensures Spread(mode) <= 0x1ff
    ensures (Spread(mode) >> 6) & 0x7 == (mode >> 6) & 0x7
    ensures (Spread(mode) >> 3) & 0x7 == ((mode >> 6) | (mode >> 3)) & 0x7
    ensures Spread(mode) & 0x7 == ((mode >> 6) | (mode >> 3) | mode) & 0x7
  {
  }

  // -------------------------------------------------------------- a push

  /** The files after a push. */
  function FilesAfter(p: Push, disk: Disk, files: Files): Files {
    var files0 := Unlinked(files, p.path, disk.cleared);
    var fd := OpenFile(disk);
    if fd.NoFd? then files0
    else
      var file := Opened(files0, p.path, Mode(p.mode), fd)[p.path];
      var filled := file.(data := Filled(file.data, p.chunks, 0, 0, disk));
      if Fate(p, disk).Failed? then Unlinked(files0[p.path := filled], p.path, disk.dropped)
      else files0[p.path := filled.(mtime := p.mtime)]
  }

  /** The file is there although it should have been unlinked, and is written over. */
  predicate WritesOver(p: Push, disk: Disk, files: Files) {
    OpenFile(disk).OldFile? && !disk.cleared && p.path in files
  }

  /** When the service says that all went well, the stored file is the client's, with
      its bytes, mode and time stamp, if and only if it did not have to write over
      the old file, or that was not longer and had the mode already. */
  lemma StoredExactly(p: Push, disk: Disk, files: Files)
    requires Fate(p, disk).Done?
    ensures p.path in FilesAfter(p, disk, files)
    ensures FilesAfter(p, disk, files)[p.path] == File(Flat(p.chunks), Mode(p.mode), p.mtime)
       <==> !WritesOver(p, disk, files)
            || (|files[p.path].data| <= |Flat(p.chunks)| && files[p.path].mode == Mode(p.mode))
  {
    hide Mode, Flat, Filled, FirstFailure, Over;
    var file := Opened(Unlinked(files, p.path, disk.cleared), p.path, Mode(p.mode), OpenFile(disk))[p.path];
    FilledWhenAllGoesWell(file.data, p.chunks, 0, 0, disk);
    OverAll(file.data, Flat(p.chunks));
  }

  lemma OverAll(data: bytes, contents: bytes)
    ensures Over(data, 0, contents) == contents <==> |data| <= |contents|
  {
  }

  /** A push that fails leaves nothing under its path if the file can be unlinked. */
  lemma NothingStored(p: Push, disk: Disk, files: Files)
    requires Fate(p, disk).Failed? && disk.cleared && disk.dropped
    ensures FilesAfter(p, disk, files) == files - {p.path}
  {
    hide Mode, Filled, FirstFailure;
    var files0 := files - {p.path};
    if !OpenFile(disk).NoFd? {
      var file := Opened(files0, p.path, Mode(p.mode), OpenFile(disk))[p.path];
      var filled := file.(data := Filled(file.data, p.chunks, 0, 0, disk));
      assert files0[p.path := filled] - {p.path} == files0;
    }
  }

  /** The other files are left alone. */
  lemma OthersUntouched(p: Push, disk: Disk, files: Files)
    ensures FilesAfter(p, disk, files) - {p.path} == files - {p.path}
  {
    hide Mode, Filled, FirstFailure;
  }

  lemma RequestServed(name: bytes, rest: bytes, disk: Disk, strtoul: bytes -> Number, files: Files)
    requires |name| <= 1024 && 0 !in name
    ensures Command(ID_SEND + Word(|name|) + name + rest, disk, strtoul, files)
         == DoSend(name, rest, disk, strtoul, files)
  {
    hide Word, WordValue;
    FrameParts(ID_SEND, |name|, name, rest);
    hide DoSend, Word, WordValue, Message, Text;
  }

  /** The status that a push is answered with. */
  function StatusOf(p: Push, disk: Disk): bytes {
    if Fate(p, disk).Failed? then Message(Fate(p, disk).reason) else OKAY_STATUS
  }

  lemma SendServed(p: Push, later: bytes, disk: Disk, strtoul: bytes -> Number, files: Files)
    requires Pushable(p) && ReadsDecimals(strtoul)
    ensures SameEnd(DoSend(p.path + ModeSuffix(p.mode), Frames(p.chunks) + (DoneFrame(p.mtime) + later), disk, strtoul, files),
                    Reply(true, later, StatusOf(p, disk), disk.room, FilesAfter(p, disk, files)))
  {
    hide HandleFile, Message, Frames, DoneFrame, Flat, ModeSuffix, Mode, LastComma, Unlinked, Opened, FilesAfter, Fate,
         OpenFile, StatusOf, Reply, SameEnd;
    PathIsFound(p.path, p.mode);
    assert strtoul(Decimal(p.mode)) == Number(p.mode);
    assert ModeOf(p.path + ModeSuffix(p.mode), strtoul) == Mode(p.mode);
    FileHandled(p, later, disk, files);
  }

  lemma FileHandled(p: Push, later: bytes, disk: Disk, files: Files)
    requires Pushable(p)
    ensures var fd := OpenFile(disk);
            var files1 := Opened(Unlinked(files, p.path, disk.cleared), p.path, Mode(p.mode), fd);
            SameEnd(HandleFile(Frames(p.chunks) + (DoneFrame(p.mtime) + later), p.path, disk, fd, files1, disk.room),
                    Reply(true, later, StatusOf(p, disk), disk.room, FilesAfter(p, disk, files)))
  {
    hide SendFile, Message, Frames, DoneFrame, Flat, Mode, Filled, FirstFailure, Unlinked, OpenFile;
    var files0 := Unlinked(files, p.path, disk.cleared);
    var fd := OpenFile(disk);
    var files1 := Opened(files0, p.path, Mode(p.mode), fd);
    if fd.NoFd? {
      var m := Message(fd.reason);
      if |m| <= disk.room {
        FramesServed(p.chunks, p.mtime, later, p.path, 0, 0, disk, false, files1, disk.room - |m|);
        assert m + [] == m;
      }
    } else {
      FramesServed(p.chunks, p.mtime, later, p.path, 0, 0, disk, true, files1, disk.room);
      FileReplaced(files0, files1, p.path, files1[p.path], Filled(files1[p.path].data, p.chunks, 0, 0, disk), p.mtime);
    }
  }

  lemma FileReplaced(files0: Files, files1: Files, path: bytes, file: File, data: bytes, mtime: nat)
    requires path in files1 && files1 == files0[path := file]
    ensures files1[path := file.(data := data)] == files0[path := file.(data := data)]
    ensures Stamp(files1[path := file.(data := data)], path, mtime) == files0[path := file.(data := data, mtime := mtime)]
  {
  }

  /** The service stays in step: it consumes exactly the client's bytes, goes on
      to the next command, and sends exactly one status.  If the connection does not
      take the status the service ends, but the files are the same. */
  lemma PushServed(p: Push, later: bytes, disk: Disk, strtoul: bytes -> Number, files: Files)
    requires Pushable(p) && ReadsDecimals(strtoul)
    ensures var served := Command(ClientBytes(p) + later, disk, strtoul, files);
            && served.output == Cut(StatusOf(p, disk), disk.room) && served.files == FilesAfter(p, disk, files)
            && (served.ok <==> |StatusOf(p, disk)| <= disk.room)
            && (served.ok ==> served.input == later)
  {
    var name := p.path + ModeSuffix(p.mode);
    var rest := Frames(p.chunks) + (DoneFrame(p.mtime) + later);
    PathIsFound(p.path, p.mode);
    hide Command, DoSend, Message, Frames, DoneFrame, ModeSuffix, Word, StatusOf, FilesAfter, ReadsDecimals, Cut;
    assert ClientBytes(p) + later == ID_SEND + Word(|name|) + name + rest;
    RequestServed(name, rest, disk, strtoul, files);
    SendServed(p, later, disk, strtoul, files);
  }

  lemma {:induction false} DecimalIsShort(n: nat)
    ensures |Decimal(n)| <= n + 1
  {
    if n >= 10 {
      DecimalIsShort(n / 10);
    }
  }

  /** Of the pushes that the client does not refuse, exactly those are served whose
      path and mode fit into 1024 bytes together; any other ends the service with
      everything behind the length still unread. */
  lemma ServedExactly(p: Push, later: bytes, disk: Disk, strtoul: bytes -> Number, files: Files)
    requires Sendable(p) && ReadsDecimals(strtoul)
    ensures var served := Command(ClientBytes(p) + later, disk, strtoul, files);
            && (|StatusOf(p, disk)| <= disk.room ==>
                  (served.ok && served.input == later <==> |p.path| + |ModeSuffix(p.mode)| <= 1024))
            && (|p.path| + |ModeSuffix(p.mode)| > 1024 ==>
                  served == Reply(false, p.path + ModeSuffix(p.mode) + (Frames(p.chunks) + (DoneFrame(p.mtime) + later)),
                                  Message(Text("invalid namelen")), disk.room, files))
  {
    hide Command, Message, Text, Frames, DoneFrame, ModeSuffix, ReadsDecimals, RequestFrame, StatusOf;
    if Pushable(p) {
      PushServed(p, later, disk, strtoul, files);
    } else {
      SuffixIsShort(p.mode);
      LongNameRefused(p, later, disk, strtoul, files);
    }
  }

  lemma SuffixIsShort(mode: nat)
    requires mode < 0x1_0000
    ensures |ModeSuffix(mode)| <= 0x1_0001
  {
    DecimalIsShort(mode);
  }

  lemma LongNameRefused(p: Push, later: bytes, disk: Disk, strtoul: bytes -> Number, files: Files)
    requires 1024 < |p.path| + |ModeSuffix(p.mode)| < 0x1_0000_0000
    ensures Command(ClientBytes(p) + later, disk, strtoul, files)
         == Reply(false, p.path + ModeSuffix(p.mode) + (Frames(p.chunks) + (DoneFrame(p.mtime) + later)),
                  Message(Text("invalid namelen")), disk.room, files)
  {
    hide Message, Text, Reply, Frames, DoneFrame, ModeSuffix, Word, WordValue, DoSend;
    var name := p.path + ModeSuffix(p.mode);
    var rest := Frames(p.chunks) + (DoneFrame(p.mtime) + later);
    FrameParts(ID_SEND, |name|, name, rest);
    assert ClientBytes(p) + later == ID_SEND + Word(|name|) + name + rest;
  }

  // ----------------------------------------------------------- a session

  /** Both ends after some pushes: what the client was told, whether the service
      still listens, what it has sent that the client has not read, and the files. */
  datatype Session = Session(told: seq<Status>, alive: bool, unread: bytes, files: Files)

  /** The client writes a push and then reads the status; the service serves it
      in between. */
  function PushOne(s: Session, p: Push, disk: Disk, strtoul: bytes -> Number): Session {
    if !s.alive then s
    else
      var served := Command(ClientBytes(p), disk, strtoul, s.files);
      var status := ReadStatus(s.unread + served.output);
      Session(s.told + [status.0], served.ok && served.input == [] && !status.0.Broken?, status.1, served.files)
  }

  function PushAll(s: Session, ps: seq<Push>, disks: seq<Disk>, strtoul: bytes -> Number): Session
    requires |ps| == |disks|
    decreases |ps|
  {
    if ps == [] then s else PushAll(PushOne(s, ps[0], disks[0], strtoul), ps[1..], disks[1..], strtoul)
  }

  /** What the client should be told about a push. */
  function Verdict(p: Push, disk: Disk): Status {
    if Fate(p, disk).Failed? then Refused(Fate(p, disk).reason) else Sent
  }

  function Verdicts(ps: seq<Push>, disks: seq<Disk>): seq<Status>
    requires |ps| == |disks|
  {
    if ps == [] then [] else [Verdict(ps[0], disks[0])] + Verdicts(ps[1..], disks[1..])
  }

  function FilesAfterAll(ps: seq<Push>, disks: seq<Disk>, files: Files): Files
    requires |ps| == |disks|
    decreases |ps|
  {
    if ps == [] then files
    else FilesAfterAll(ps[1..], disks[1..], FilesAfter(ps[0], disks[0], files))
  }

  /** A failure has a text that the client reads to its end. */
  predicate ShortReason(p: Push, disk: Disk) {
    Fate(p, disk).Failed? ==> |Fate(p, disk).reason| <= 256
  }

  lemma OkayRead(rest: bytes)
    ensures ReadStatus(OKAY_STATUS + rest) == (Sent, rest)
  {
    hide Word, WordValue;
    FrameParts(ID_OKAY, 0, [], rest);
    assert ID_OKAY + Word(0) + [] + rest == OKAY_STATUS + rest && [] + rest == rest;
    hide Word, WordValue;
  }

  lemma FailRead(reason: bytes)
    requires |reason| < 0x1_0000_0000
    ensures ReadStatus(Message(reason)) ==
              if |reason| <= 256 then (Refused(reason), []) else (Refused(reason[..256]), reason[256..])
  {
    hide Word, WordValue;
    FrameParts(ID_FAIL, |reason|, reason, []);
    assert Message(reason) == ID_FAIL + Word(|reason|) + reason + [] && reason + [] == reason;
    hide Message;
    assert ID_FAIL != ID_OKAY by { assert ID_FAIL[0] != ID_OKAY[0]; }
    assert reason[..|reason|] == reason && reason[|reason|..] == [];
  }

  /** One push whose status gets through leaves both ends in step exactly if the
      reason of its failure, if it fails, is not longer than the 256 bytes that the
      client reads. */
  lemma PushKeepsStep(s: Session, p: Push, disk: Disk, strtoul: bytes -> Number)
    requires Pushable(p) && ReadsDecimals(strtoul) && s.alive && s.unread == []
    requires (Fate(p, disk).Failed? ==> |Fate(p, disk).reason| < 0x1_0000_0000) && |StatusOf(p, disk)| <= disk.room
    ensures var s1 := PushOne(s, p, disk, strtoul);
            && s1.alive && s1.files == FilesAfter(p, disk, s.files)
            && (s1.unread == [] <==> ShortReason(p, disk))
            && (ShortReason(p, disk) ==> s1.told == s.told + [Verdict(p, disk)])
  {
    hide Command, ReadStatus, Message, FilesAfter, Fate, ClientBytes, ReadsDecimals, Pushable;
    PushServed(p, [], disk, strtoul, s.files);
    assert ClientBytes(p) + [] == ClientBytes(p);
    assert StatusOf(p, disk) == if Fate(p, disk).Failed? then Message(Fate(p, disk).reason) else OKAY_STATUS;
    var reason := if Fate(p, disk).Failed? then Fate(p, disk).reason else [];
    OkayRead([]);
    FailRead(reason);
    assert [] + OKAY_STATUS == OKAY_STATUS == OKAY_STATUS + [] && [] + Message(reason) == Message(reason);
  }

  /** Pushes that the service has room for, failures with short reasons, and a
      connection that takes every status. */
  ghost predicate Orderly(ps: seq<Push>, disks: seq<Disk>) {
    && |ps| == |disks|
    && forall i :: 0 <= i < |ps| ==>
         Pushable(ps[i]) && ShortReason(ps[i], disks[i]) && |StatusOf(ps[i], disks[i])| <= disks[i].room
  }

  lemma OrderlyRest(ps: seq<Push>, disks: seq<Disk>)
    requires Orderly(ps, disks) && ps != []
    ensures Orderly(ps[1..], disks[1..])
  {
    hide Pushable, ShortReason, StatusOf;
  }

  /** Any number of pushes, some of which may fail at any point: each is answered
      by exactly one status, the client is told the truth about every one of them,
      and the stored files are those of the pushes that succeeded. */
  lemma {:induction false} SessionStaysInStep(s: Session, ps: seq<Push>, disks: seq<Disk>, strtoul: bytes -> Number)
    requires s.alive && s.unread == [] && ReadsDecimals(strtoul) && Orderly(ps, disks)
    ensures PushAll(s, ps, disks, strtoul)
         == Session(s.told + Verdicts(ps, disks), true, [], FilesAfterAll(ps, disks, s.files))
    decreases |ps|
  {
    hide PushOne, FilesAfter, Verdict, ReadsDecimals, Orderly;
    if ps == [] {
      assert s.told + [] == s.told;
    } else {
      OrderlyFirst(s, ps, disks, strtoul);
      OrderlyRest(ps, disks);
      var s1 := PushOne(s, ps[0], disks[0], strtoul);
      SessionStaysInStep(s1, ps[1..], disks[1..], strtoul);
      var v, vs := Verdict(ps[0], disks[0]), Verdicts(ps[1..], disks[1..]);
      assert s.told + ([v] + vs) == (s.told + [v]) + vs;
    }
  }

  lemma OrderlyFirst(s: Session, ps: seq<Push>, disks: seq<Disk>, strtoul: bytes -> Number)
    requires s.alive && s.unread == [] && ReadsDecimals(strtoul) && Orderly(ps, disks) && ps != []
    ensures |ps| == |disks|
    ensures PushOne(s, ps[0], disks[0], strtoul)
         == Session(s.told + [Verdict(ps[0], disks[0])], true, [], FilesAfter(ps[0], disks[0], s.files))
  {
    hide PushOne, FilesAfter, Verdict, ReadsDecimals, Pushable, StatusOf, Fate;
    PushKeepsStep(s, ps[0], disks[0], strtoul);
  }
}
