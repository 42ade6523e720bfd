/**
 * `BackupHandler`: the whole store as one stream, and back.
 *
 * A backup is `writeUTF("v:1.0\n")`, then for each regular file met by the
 * directory walk `writeUTF("F:/<path below the base>")`, `writeLong(length)`
 * and the file's bytes, and finally `writeUTF("$:<checksum>")`, where the
 * checksum is the hex SHA-256 of all file contents in walk order. A restore
 * reads the tags back, writes each file below the base directory and checks
 * the checksum at the end.
 */
module Backup {
  import opened Wrappers
  import opened JavaLang
  import opened Strings
  import opened Streams
  import opened FileTree
  import opened BackupFormat
  import opened Persister

  const Version: string := "1.0"
  const HeaderText: string := "v:" + Version + "\n"

  /* ---------------------------------------------------------------- */
  /* Writing                                                           */
  /* ---------------------------------------------------------------- */

  /** Names joined by `/`: a path below the base directory. */
  function Join(path: seq<string>): string
  {
    if path == [] then "" else if |path| == 1 then path[0] else path[0] + "/" + Join(path[1..])
  }

  /** The tag of a file: `F:` and its absolute path with the base directory's path cut off. */
  function FileTag(v: Visit): (tag: string)
    ensures |tag| >= 3 && tag[..3] == "F:/" && tag[3..] == Join(v.path)
  {
    "F:/" + Join(v.path)
  }

  function ChecksumText(d: seq<Byte>): string
  {
    "$:" + Hex(d)
  }

  /** The header's frame, `writeUTF("v:1.0\n")`. */
  function HeaderFrame(): seq<Byte>
  {
    HeaderFits();
    Frame(HeaderText)
  }

  /** The trailer's frame, `writeUTF("$:" + hex digest)`. */
  function ChecksumFrame(d: seq<Byte>): seq<Byte>
    requires |d| == 32
  {
    ChecksumFits(d);
    Frame(ChecksumText(d))
  }

  /** What the writer has produced so far: the stream's bytes, and what the digest has been fed. */
  datatype Snapshot = Snapshot(written: seq<Byte>, fed: seq<Byte>)

  /** The bytes a visit feeds the digest: a file's content, nothing for a directory. */
  function Content(v: Visit): seq<Byte>
  {
    if v.node.File? then v.node.content else []
  }

  /** The bytes a file's entry takes in the stream (nothing for a directory or an unwritable tag). */
  function Record(v: Visit): seq<Byte>
  {
    if v.node.Dir? then []
    else
      var tag := WriteUTF(FileTag(v));
      if tag.Failure? then [] else tag.value + LongBytes(v.node.length) + v.node.content
  }

  /** A file the writer copies without throwing: its tag fits `writeUTF` and its size is as reported. */
  predicate Writable(v: Visit)
  {
    v.node.File? ==> |ModifiedUtf8(FileTag(v))| <= MaxUtfLength && v.node.length == |v.node.content|
  }

  /**
   * The handler `writeBackup` gives `travers`: directories are passed over; a
   * file's tag, length and bytes are written and its bytes fed to the digest.
   * A tag too long for `writeUTF` throws before anything is written; a copy
   * whose size differs from the reported length throws after everything is.
   */
  function BackupVisit(st: Snapshot, v: Visit): (r: Handled<Snapshot>)
    ensures v.node.Dir? ==> r == Done(st)
    ensures r.Done? ==> r.state == Snapshot(st.written + Record(v), st.fed + Content(v))
    ensures r.Done? <==> Writable(v)
  {
    if v.node.Dir? then Done(st)
    else
      var tag := WriteUTF(FileTag(v));
      if tag.Failure? then Threw(tag.error, st)
      else
        var next := Snapshot(st.written + tag.value + LongBytes(v.node.length) + v.node.content, st.fed + v.node.content);
        if v.node.length != |v.node.content| then Threw(IO("copy error; unequal size"), next) else Done(next)
  }

  /** The pieces `f` gives each visit, joined in visit order. */
  function Concat(f: Visit -> seq<Byte>, vs: seq<Visit>): seq<Byte>
    decreases |vs|
  {
    if vs == [] then [] else f(vs[0]) + Concat(f, vs[1..])
  }

  /** The entries of the visits, in order. */
  function Records(vs: seq<Visit>): seq<Byte>
  {
    Concat(Record, vs)
  }

  /** The contents of the files among the visits, in order. */
  function Contents(vs: seq<Visit>): seq<Byte>
  {
    Concat(Content, vs)
  }

  /**
   * A run of a handler that writes each visit's piece and feeds its content:
   * when it catches nothing it has written every piece and fed every content,
   * in visit order, and nothing else.
   */
  lemma {:induction false} WriterRun(h: Handler<Snapshot>, piece: Visit -> seq<Byte>, st: Snapshot, vs: seq<Visit>)
    requires forall s, v :: h(s, v).Done? ==> h(s, v).state == Snapshot(s.written + piece(v), s.fed + Content(v))
    ensures Run(h, st, vs).caught.None? ==>
      Run(h, st, vs).state == Snapshot(st.written + Concat(piece, vs), st.fed + Concat(Content, vs))
    decreases |vs|
  {
    if vs != [] {
      var r := h(st, vs[0]);
      if r.Done? {
        assert Run(h, st, vs) == Run(h, r.state, vs[1..]);
        WriterRun(h, piece, r.state, vs[1..]);
        var p, c := Concat(piece, vs[1..]), Concat(Content, vs[1..]);
        assert Concat(piece, vs) == piece(vs[0]) + p;
        assert Concat(Content, vs) == Content(vs[0]) + c;
        assert r.state == Snapshot(st.written + piece(vs[0]), st.fed + Content(vs[0]));
        assert st.written + (piece(vs[0]) + p) == (st.written + piece(vs[0])) + p;
        assert st.fed + (Content(vs[0]) + c) == (st.fed + Content(vs[0])) + c;
      }
    }
  }

  /** A run of a handler that throws exactly on the visits it does not accept catches nothing exactly when it accepts them all. */
  lemma {:induction false} RunCatchesNothing<S>(h: Handler<S>, ok: Visit -> bool, st: S, vs: seq<Visit>)
    requires forall s, v :: h(s, v).Done? <==> ok(v)
    ensures Run(h, st, vs).caught.None? <==> forall i :: 0 <= i < |vs| ==> ok(vs[i])
    decreases |vs|
  {
    if vs != [] {
      var r := h(st, vs[0]);
      if r.Done? {
        RunCatchesNothing(h, ok, r.state, vs[1..]);
        assert forall i :: 1 <= i < |vs| ==> vs[1..][i - 1] == vs[i];
      }
    }
  }

  /** The walk of the base directory with the backup handler, from nothing written. */
  function BackupRun(base: Node): RunResult<Snapshot>
  {
    Run(BackupVisit, Snapshot([], []), Walk(Visit([], base)))
  }

  lemma HeaderFits()
    ensures |ModifiedUtf8(HeaderText)| <= MaxUtfLength
  {
  }

  lemma ChecksumFits(d: seq<Byte>)
    requires |d| == 32
    ensures |ModifiedUtf8(ChecksumText(d))| <= MaxUtfLength
  {
  }

  /**
   * The stream `writeBackup` produces, as written: the header, whatever the
   * walk wrote before its handler first threw, and the checksum of what it fed.
   */
  function BackupStream(base: Node, sha: Sha256): seq<Byte>
  {
    var walked := BackupRun(base).state;
    HeaderFrame() + walked.written + ChecksumFrame(sha(walked.fed))
  }

  /**
   * The backup as evidently intended: an exception in the walk (a copy of the
   * wrong size, a tag that does not fit) fails the backup instead of being
   * dropped.
   */
  function CheckedBackup(base: Node, sha: Sha256): (r: Result<seq<Byte>, Exc>)
    ensures r.Failure? <==> BackupRun(base).caught.Some?
  {
    if BackupRun(base).caught.Some? then Failure(BackupRun(base).caught.value) else Success(BackupStream(base, sha))
  }

  /**
   * A backup that succeeds holds an entry for every file of the walk, in walk
   * order, and the checksum of all their contents; it succeeds whenever every
   * file is writable.
   */
  lemma CheckedBackupComplete(base: Node, sha: Sha256)
    ensures CheckedBackup(base, sha).Success? ==>
      var walk := Walk(Visit([], base));
      CheckedBackup(base, sha).value == HeaderFrame() + Records(walk) + ChecksumFrame(sha(Contents(walk)))
    ensures (forall v :: v in Walk(Visit([], base)) ==> Writable(v)) ==> CheckedBackup(base, sha).Success?
  {
    var walk := Walk(Visit([], base));
    WriterRun(BackupVisit, Record, Snapshot([], []), walk);
    RunCatchesNothing(BackupVisit, Writable, Snapshot([], []), walk);
    assert Snapshot([], []).written + Records(walk) == Records(walk);
    assert Snapshot([], []).fed + Contents(walk) == Contents(walk);
  }

  /* ---------------------------------------------------------------- */
  /* Reading                                                           */
  /* ---------------------------------------------------------------- */

  /** What one pass of the restore loop makes of a tag. */
  datatype Step =
    | Restore(key: string, content: seq<Byte>)   // an `F:/` entry: the file and its bytes
    | Stop(checksum: string)                     // the `$:` tag
    | Abort(error: Exc)                          // an exception, already wrapped as `readBackup` throws it

  datatype Entry = Entry(step: Step, rest: seq<Byte>)

  /**
   * One pass of the restore loop over the given bytes. For `F:/`: the type
   * name runs from index 3 to the next `/` (none is a
   * StringIndexOutOfBoundsException, of index end - begin) and must resolve
   * to a class; then the size is read and at most that many bytes are copied.
   * `$:` carries the checksum; any other tag is a bad file.
   */
  function ParseEntry(input: seq<Byte>, resolvable: string -> bool): (e: Entry)
    ensures input != [] ==> |e.rest| < |input|
  {
    var line := ReadUTFSpec(input);
    if line.value.Failure? then Entry(Abort(line.value.error), line.rest)
    else
      var tag := line.value.value;
      if StartsWith(tag, "F:/") then
        var slash := IndexOf(tag, '/', 3);
        if slash == -1 then Entry(Abort(IOWrapping(StringIndexOutOfBounds(slash - 3))), line.rest)
        else if !resolvable(tag[3..slash]) then Entry(Abort(IOWrapping(ClassNotFound(tag[3..slash]))), line.rest)
        else
          var size := ReadLongSpec(line.rest);
          if size.value.Failure? then Entry(Abort(size.value.error), size.rest)
          else
            var moved := Moved(size.rest, size.value.value);
            Entry(Restore(tag[3..], moved), size.rest[|moved|..])
      else if StartsWith(tag, "$:") then Entry(Stop(tag[2..]), line.rest)
      else Entry(Abort(IO("read error; bad file.")), line.rest)
  }

  /** How the restore loop ended: input used up, a checksum tag, or an exception. */
  datatype ScanEnd = Exhausted | Checksum(text: string) | Aborted(error: Exc)

  /** The files written, the bytes fed to the digest, the bytes left, and how the loop ended. */
  datatype Scan = Scan(files: map<string, seq<Byte>>, fed: seq<Byte>, rest: seq<Byte>, end: ScanEnd)

  /** The restore loop, `while (in.available() > 0)`, from the given files and digest input. */
  function ScanEntries(input: seq<Byte>, files: map<string, seq<Byte>>, fed: seq<Byte>, resolvable: string -> bool): Scan
    decreases |input|
  {
    if input == [] then Scan(files, fed, [], Exhausted)
    else
      var e := ParseEntry(input, resolvable);
      match e.step
      case Restore(key, content) => ScanEntries(e.rest, files[key := content], fed + content, resolvable)
      case Stop(c) => Scan(files, fed, e.rest, Checksum(c))
      case Abort(x) => Scan(files, fed, e.rest, Aborted(x))
  }

  /**
   * The check after the loop: no checksum (or a blank one) is a bad checksum
   * line; one that differs, ignoring case, from the hex digest of everything
   * copied is a bad checksum. The message of the latter shows a second
   * `digest()`, which is the digest of no input.
   */
  function Verdict(end: ScanEnd, fed: seq<Byte>, sha: Sha256): Option<Exc>
  {
    match end
    case Aborted(e) => Some(e)
    case Exhausted => Some(IO("Bad checksum line: null"))
    case Checksum(c) =>
      if IsBlank(Some(c)) then Some(IO("Bad checksum line: " + c))
      else if !EqualsIgnoreCase(c, Hex(sha(fed))) then
        Some(IO("Bad checksum calculated=" + Hex(sha([])) + "; expected=" + c))
      else None
  }

  /** The files below the base after a restore, the input left, and what was thrown. */
  datatype Restored = Restored(files: map<string, seq<Byte>>, rest: seq<Byte>, thrown: Option<Exc>)

  /**
   * `readBackup` on the given bytes, over the files below the base: the
   * trimmed header must start with `v:`; then the loop; then the checksum
   * check. Files written before an exception stay written.
   */
  function RestoreFrom(input: seq<Byte>, files: map<string, seq<Byte>>, sha: Sha256, resolvable: string -> bool): (r: Restored)
  {
    var header := ReadUTFSpec(input);
    if header.value.Failure? then Restored(files, header.rest, Some(header.value.error))
    else if !StartsWith(Trim(header.value.value), "v:") then
      Restored(files, header.rest, Some(IO("Expected version string 'v:<version>'")))
    else
      var scan := ScanEntries(header.rest, files, [], resolvable);
      Restored(scan.files, scan.rest, Verdict(scan.end, scan.fed, sha))
  }

  /* ---------------------------------------------------------------- */
  /* The round trip                                                    */
  /* ---------------------------------------------------------------- */

  /**
   * A file the reader restores from its own entry: the writer copies it
   * (`Writable`: its tag fits `writeUTF`), its size fits a long, and its path has a
   * first segment (the type name) that resolves to a class.
   */
  predicate Restorable(v: Visit, resolvable: string -> bool)
  {
    v.node.File? ==>
      var tag := FileTag(v);
      && |ModifiedUtf8(tag)| <= MaxUtfLength
      && v.node.length == |v.node.content| && v.node.length <= LongMax
      && IndexOf(tag, '/', 3) != -1 && resolvable(tag[3..IndexOf(tag, '/', 3)])
  }

  /** The files after restoring one visit: a file is written at its path, a directory changes nothing. */
  function Put(files: map<string, seq<Byte>>, v: Visit): (r: map<string, seq<Byte>>)
    ensures v.node.File? ==> Join(v.path) in r && r[Join(v.path)] == v.node.content
    ensures forall k :: k in files && (v.node.Dir? || k != Join(v.path)) ==> k in r && r[k] == files[k]
  {
    if v.node.File? then files[Join(v.path) := v.node.content] else files
  }

  /** The files after restoring each visit in turn. */
  function Apply(files: map<string, seq<Byte>>, vs: seq<Visit>): map<string, seq<Byte>>
    decreases |vs|
  {
    if vs == [] then files else Apply(Put(files, vs[0]), vs[1..])
  }

  /** The visit `v` names the path `k` as a file. */
  predicate Writes(v: Visit, k: string)
  {
    v.node.File? && Join(v.path) == k
  }

  /** A path no visit writes keeps what it had (or stays absent). */
  lemma {:induction false} ApplyUntouched(files: map<string, seq<Byte>>, vs: seq<Visit>, k: string)
    requires forall i :: 0 <= i < |vs| ==> !Writes(vs[i], k)
    ensures k in Apply(files, vs) <==> k in files
    ensures k in files ==> Apply(files, vs)[k] == files[k]
    decreases |vs|
  {
    if vs != [] {
      assert !Writes(vs[0], k);
      assert forall i :: 0 <= i < |vs[1..]| ==> vs[1..][i] == vs[i + 1];
      ApplyUntouched(Put(files, vs[0]), vs[1..], k);
    }
  }

  /** The last visit that writes a path decides its bytes. */
  lemma {:induction false} ApplyLastWins(files: map<string, seq<Byte>>, vs: seq<Visit>, i: nat)
    requires i < |vs| && vs[i].node.File?
    requires forall j :: i < j < |vs| ==> !Writes(vs[j], Join(vs[i].path))
    ensures Join(vs[i].path) in Apply(files, vs) && Apply(files, vs)[Join(vs[i].path)] == vs[i].node.content
    decreases i
  {
    assert forall j :: 0 <= j < |vs[1..]| ==> vs[1..][j] == vs[j + 1];
    if i == 0 {
      ApplyUntouched(Put(files, vs[0]), vs[1..], Join(vs[0].path));
    } else {
      ApplyLastWins(Put(files, vs[0]), vs[1..], i - 1);
    }
  }

  /** A restorable file is one the writer copies without throwing. */
  lemma RestorableWritable(v: Visit, resolvable: string -> bool)
    requires Restorable(v, resolvable)
    ensures Writable(v)
  {
  }

  /** The reader takes a restorable file's entry apart into its path and bytes. */
  lemma ParseRecord(v: Visit, tail: seq<Byte>, resolvable: string -> bool)
    requires v.node.File? && Restorable(v, resolvable)
    ensures ParseEntry(Record(v) + tail, resolvable) == Entry(Restore(Join(v.path), v.node.content), tail)
  {
    var tag := FileTag(v);
    UtfRoundTrip(tag, []);
    assert Record(v) + tail == Frame(tag) + LongBytes(v.node.length) + v.node.content + tail;
    ParseFileEntry(tag, v.node.length, v.node.content, tail, resolvable);
  }

  /** An entry built from a resolvable `F:/` tag, a size and that many bytes reads back as a restore. */
  lemma ParseFileEntry(tag: string, length: int, content: seq<Byte>, tail: seq<Byte>, resolvable: string -> bool)
    requires |ModifiedUtf8(tag)| <= MaxUtfLength && |tag| >= 3 && tag[..3] == "F:/"
    requires IndexOf(tag, '/', 3) != -1 && resolvable(tag[3..IndexOf(tag, '/', 3)])
    requires length == |content| <= LongMax
    ensures ParseEntry(Frame(tag) + LongBytes(length) + content + tail, resolvable) == Entry(Restore(tag[3..], content), tail)
  {
    var after := content + tail;
    var rest := LongBytes(length) + after;
    assert Frame(tag) + LongBytes(length) + content + tail == Frame(tag) + rest;
    UtfRoundTrip(tag, rest);
    assert StartsWith(tag, "F:/");
    LongRoundTrip(length, after);
    assert Moved(after, length) == content;
    assert after[|content|..] == tail;
  }

  /** The reader's loop passes over a restorable visit's entry by restoring it and feeding its content. */
  lemma ScanRecord(v: Visit, rest: seq<Byte>, files: map<string, seq<Byte>>, fed: seq<Byte>, resolvable: string -> bool)
    requires Restorable(v, resolvable)
    ensures ScanEntries(Record(v) + rest, files, fed, resolvable) == ScanEntries(rest, Put(files, v), fed + Content(v), resolvable)
  {
    if v.node.File? {
      ParseRecord(v, rest, resolvable);
    } else {
      assert Record(v) + rest == rest;
      assert fed + Content(v) == fed;
    }
  }

  /** A reading loop: from the bytes, the files so far and the bytes fed so far, how it ends. */
  type Scanner = (seq<Byte>, map<string, seq<Byte>>, seq<Byte>) -> Scan

  /**
   * A reading loop that passes over each visit's piece by restoring the
   * visit and feeding its content restores the visits in order and feeds
   * their contents.
   */
  lemma {:induction false} ScanPieces(scan: Scanner, piece: Visit -> seq<Byte>, vs: seq<Visit>, tail: seq<Byte>, files: map<string, seq<Byte>>, fed: seq<Byte>)
    requires forall i, rest, fs, fd :: 0 <= i < |vs| ==>
      scan(piece(vs[i]) + rest, fs, fd) == scan(rest, Put(fs, vs[i]), fd + Content(vs[i]))
    ensures scan(Concat(piece, vs) + tail, files, fed) == scan(tail, Apply(files, vs), fed + Concat(Content, vs))
    decreases |vs|
  {
    if vs != [] {
      var p, c := Concat(piece, vs[1..]), Concat(Content, vs[1..]);
      var rest := p + tail;
      assert Concat(piece, vs) == piece(vs[0]) + p;
      assert Concat(piece, vs) + tail == piece(vs[0]) + rest;
      assert scan(piece(vs[0]) + rest, files, fed) == scan(rest, Put(files, vs[0]), fed + Content(vs[0]));
      assert forall i :: 0 <= i < |vs[1..]| ==> vs[1..][i] == vs[i + 1];
      ScanPieces(scan, piece, vs[1..], tail, Put(files, vs[0]), fed + Content(vs[0]));
      assert Apply(files, vs) == Apply(Put(files, vs[0]), vs[1..]);
      assert Concat(Content, vs) == Content(vs[0]) + c;
      assert fed + (Content(vs[0]) + c) == (fed + Content(vs[0])) + c;
    } else {
      assert Concat(piece, vs) + tail == tail;
      assert fed + Concat(Content, vs) == fed;
    }
  }

  /** The checksum tag ends the loop with the checksum, consuming exactly its frame. */
  lemma ScanChecksum(d: seq<Byte>, files: map<string, seq<Byte>>, fed: seq<Byte>, resolvable: string -> bool)
    requires |d| == 32
    ensures ScanEntries(ChecksumFrame(d), files, fed, resolvable) == Scan(files, fed, [], Checksum(Hex(d)))
  {
    var text := ChecksumText(d);
    UtfRoundTrip(text, []);
    assert Frame(text) + [] == Frame(text);
    assert !StartsWith(text, "F:/");
    assert text[2..] == Hex(d);
  }

  /**
   * The round trip: restoring a successful backup of a tree whose files are
   * all restorable, over any files, writes every file of the walk at its path
   * with its bytes, in walk order, passes the checksum and consumes the whole
   * stream.
   */
  lemma RoundTrip(base: Node, sha: Sha256, resolvable: string -> bool, files: map<string, seq<Byte>>)
    requires forall v :: v in Walk(Visit([], base)) ==> Restorable(v, resolvable)
    ensures CheckedBackup(base, sha).Success?
    ensures RestoreFrom(CheckedBackup(base, sha).value, files, sha, resolvable)
         == Restored(Apply(files, Walk(Visit([], base))), [], None)
  {
    var walk := Walk(Visit([], base));
    BackupOfRestorable(base, sha, resolvable);
    RestoreOfBackup(walk, files, sha, resolvable);
  }

  /**
   * The walk lists exactly the files of `base`: each file visit's path holds
   * its bytes there, every path of `base` is some visit's, and no two file
   * visits share a path.
   */
  predicate MirrorsWalk(walk: seq<Visit>, base: map<string, seq<Byte>>)
  {
    && (forall i :: 0 <= i < |walk| && walk[i].node.File? ==>
          Join(walk[i].path) in base && base[Join(walk[i].path)] == walk[i].node.content)
    && (forall k :: k in base ==> exists i :: 0 <= i < |walk| && Writes(walk[i], k))
    && (forall i, j :: 0 <= i < j < |walk| && walk[i].node.File? && walk[j].node.File? ==>
          Join(walk[i].path) != Join(walk[j].path))
  }

  /** The tree `view` is a listing of the files below the base directory, `base`. */
  predicate Mirrors(view: Node, base: map<string, seq<Byte>>)
  {
    view.Dir? && MirrorsWalk(Walk(Visit([], view)), base)
  }

  /** Restoring the visits of a walk that lists `base` overrides the files with `base`. */
  lemma ApplyMirror(files: map<string, seq<Byte>>, walk: seq<Visit>, base: map<string, seq<Byte>>)
    requires MirrorsWalk(walk, base)
    ensures Apply(files, walk) == files + base
  {
    var a := Apply(files, walk);
    forall k | k in base
      ensures k in a && a[k] == base[k]
    {
      MirrorWritten(files, walk, base, k);
    }
    forall k | k !in base
      ensures (k in a <==> k in files) && (k in files ==> a[k] == files[k])
    {
      MirrorUntouched(files, walk, base, k);
    }
    OverrideEqual(a, files, base);
  }

  /** A map that agrees with `base` on its keys and with `files` elsewhere is `files` overridden by `base`. */
  lemma OverrideEqual(a: map<string, seq<Byte>>, files: map<string, seq<Byte>>, base: map<string, seq<Byte>>)
    requires forall k :: k in base ==> k in a && a[k] == base[k]
    requires forall k :: k !in base ==> (k in a <==> k in files) && (k in files ==> a[k] == files[k])
    ensures a == files + base
  {
  }

  /** A path of `base` ends up with its bytes there: its one visit writes them last. */
  lemma MirrorWritten(files: map<string, seq<Byte>>, walk: seq<Visit>, base: map<string, seq<Byte>>, k: string)
    requires MirrorsWalk(walk, base) && k in base
    ensures k in Apply(files, walk) && Apply(files, walk)[k] == base[k]
  {
    var i :| 0 <= i < |walk| && Writes(walk[i], k);
    forall j | i < j < |walk|
      ensures !Writes(walk[j], Join(walk[i].path))
    {
    }
    ApplyLastWins(files, walk, i);
  }

  /** A path outside `base` is written by no visit. */
  lemma MirrorUntouched(files: map<string, seq<Byte>>, walk: seq<Visit>, base: map<string, seq<Byte>>, k: string)
    requires MirrorsWalk(walk, base) && k !in base
    ensures k in Apply(files, walk) <==> k in files
    ensures k in files ==> Apply(files, walk)[k] == files[k]
  {
    forall i | 0 <= i < |walk|
      ensures !Writes(walk[i], k)
    {
    }
    ApplyUntouched(files, walk, k);
  }

  /**
   * The store-level round trip: the backup of a tree listing `base`, whose
   * files are all restorable, restored over any files, leaves those files
   * overridden by `base`, passes the checksum and consumes the stream.
   */
  lemma StoreRoundTrip(view: Node, base: map<string, seq<Byte>>, sha: Sha256, resolvable: string -> bool, files: map<string, seq<Byte>>)
    requires Mirrors(view, base)
    requires forall v :: v in Walk(Visit([], view)) ==> Restorable(v, resolvable)
    ensures CheckedBackup(view, sha) == Success(BackupStream(view, sha))
    ensures RestoreFrom(BackupStream(view, sha), files, sha, resolvable) == Restored(files + base, [], None)
  {
    RoundTrip(view, sha, resolvable, files);
    ApplyMirror(files, Walk(Visit([], view)), base);
  }

  lemma OverrideSelf(m: map<string, seq<Byte>>)
    ensures m + m == m
  {
  }

  /** Restoring the store's own backup over the store changes nothing. */
  lemma RestoreOwnBackup(view: Node, base: map<string, seq<Byte>>, sha: Sha256, resolvable: string -> bool)
    requires Mirrors(view, base)
    requires forall v :: v in Walk(Visit([], view)) ==> Restorable(v, resolvable)
    ensures RestoreFrom(BackupStream(view, sha), base, sha, resolvable) == Restored(base, [], None)
  {
    StoreRoundTrip(view, base, sha, resolvable, base);
    OverrideSelf(base);
  }

  /** A tree of restorable files backs up without an exception. */
  lemma BackupOfRestorable(base: Node, sha: Sha256, resolvable: string -> bool)
    requires forall v :: v in Walk(Visit([], base)) ==> Restorable(v, resolvable)
    ensures CheckedBackup(base, sha).Success?
    ensures var walk := Walk(Visit([], base));
      CheckedBackup(base, sha).value == HeaderFrame() + Records(walk) + ChecksumFrame(sha(Contents(walk)))
  {
    forall v | v in Walk(Visit([], base)) ensures Writable(v) {
      RestorableWritable(v, resolvable);
    }
    CheckedBackupComplete(base, sha);
  }

  /** Restoring the backup stream of restorable visits writes them in order and passes the checksum. */
  lemma RestoreOfBackup(walk: seq<Visit>, files: map<string, seq<Byte>>, sha: Sha256, resolvable: string -> bool)
    requires forall v :: v in walk ==> Restorable(v, resolvable)
    ensures RestoreFrom(HeaderFrame() + Records(walk) + ChecksumFrame(sha(Contents(walk))), files, sha, resolvable)
         == Restored(Apply(files, walk), [], None)
  {
    var d := sha(Contents(walk));
    var body := Records(walk) + ChecksumFrame(d);
    assert HeaderFrame() + Records(walk) + ChecksumFrame(d) == HeaderFrame() + body;
    RestoreAfterHeader(body, files, sha, resolvable);
    ScanBackupBody(walk, d, files, resolvable);
    ChecksumAccepted(Contents(walk), sha);
  }

  /** The header passes the version check and the loop starts right after it. */
  lemma RestoreAfterHeader(body: seq<Byte>, files: map<string, seq<Byte>>, sha: Sha256, resolvable: string -> bool)
    ensures RestoreFrom(HeaderFrame() + body, files, sha, resolvable)
         == var scan := ScanEntries(body, files, [], resolvable); Restored(scan.files, scan.rest, Verdict(scan.end, scan.fed, sha))
  {
    UtfRoundTrip(HeaderText, body);
    assert TrimStart(HeaderText) == HeaderText;
    assert HeaderText[..|HeaderText| - 1] == "v:1.0";
    assert TrimEnd("v:1.0") == "v:1.0";
  }

  /** The checksum of what was fed passes the check. */
  lemma ChecksumAccepted(fed: seq<Byte>, sha: Sha256)
    ensures Verdict(Checksum(Hex(sha(fed))), fed, sha) == None
  {
    HexIsAscii(sha(fed));
    VisibleCharNotBlank(Hex(sha(fed)), 0);
  }

  /** The reader's loop over the body of a backup of restorable files restores them all and ends at the checksum. */
  lemma ScanBackupBody(walk: seq<Visit>, d: seq<Byte>, files: map<string, seq<Byte>>, resolvable: string -> bool)
    requires |d| == 32
    requires forall v :: v in walk ==> Restorable(v, resolvable)
    ensures ScanEntries(Records(walk) + ChecksumFrame(d), files, [], resolvable)
         == Scan(Apply(files, walk), Contents(walk), [], Checksum(Hex(d)))
  {
    var scan: Scanner := (x, fs, fd) => ScanEntries(x, fs, fd, resolvable);
    forall i, rest, fs, fd | 0 <= i < |walk|
      ensures scan(Record(walk[i]) + rest, fs, fd) == scan(rest, Put(fs, walk[i]), fd + Content(walk[i]))
    {
      ScanRecord(walk[i], rest, fs, fd, resolvable);
    }
    ScanPieces(scan, Record, walk, ChecksumFrame(d), files, []);
    ScanChecksum(d, Apply(files, walk), [] + Contents(walk), resolvable);
    assert [] + Contents(walk) == Contents(walk);
  }

  /* ---------------------------------------------------------------- */
  /* A backup cut short without notice                                 */
  /* ---------------------------------------------------------------- */

  /** A base directory holding type `T` with a file `a.json` holding `first` and, after it, a file named `long`. */
  function TruncationExample(first: seq<Byte>, long: string): Node
  {
    Dir("base", [Dir("T", [File("a.json", |first|, first), File(long, 0, [])])])
  }

  /** The walk of the example: the base, `T`, then its two files in listing order. */
  lemma ExampleWalk(first: seq<Byte>, long: string)
    ensures Walk(Visit([], TruncationExample(first, long))) == [
      Visit([], TruncationExample(first, long)), Visit(["T"], TruncationExample(first, long).children[0]),
      Visit(["T", "a.json"], File("a.json", |first|, first)), Visit(["T", long], File(long, 0, []))]
  {
    var root := Visit([], TruncationExample(first, long));
    var t := Child(root, 0);
    var a := Child(t, 0);
    var last := Child(t, 1);
    assert FileVisits(t, 2) == [] && DirWalks(t, 2) == [];
    assert FileVisits(t, 1) == [last] && DirWalks(t, 1) == [];
    assert FileVisits(t, 0) == [a, last] && DirWalks(t, 0) == [];
    assert Walk(t) == [t, a, last];
    assert FileVisits(root, 1) == [] && DirWalks(root, 1) == [];
    assert FileVisits(root, 0) == [] && DirWalks(root, 0) == Walk(t);
    assert t == Visit(["T"], TruncationExample(first, long).children[0]);
    assert a == Visit(["T", "a.json"], File("a.json", |first|, first));
    assert last == Visit(["T", long], File(long, 0, []));
    assert Walk(root) == [root] + FileVisits(root, 0) + DirWalks(root, 0);
  }

  /** The example's first file is restorable when its type resolves. */
  lemma ExampleFirstRestorable(first: seq<Byte>, resolvable: string -> bool)
    requires |first| <= LongMax && resolvable("T")
    ensures Restorable(Visit(["T", "a.json"], File("a.json", |first|, first)), resolvable)
    ensures Join(["T", "a.json"]) == "T/a.json"
  {
    var a := Visit(["T", "a.json"], File("a.json", |first|, first));
    assert Join(a.path) == "T/a.json";
    var tag := FileTag(a);
    assert tag == "F:/T/a.json";
    assert IndexOf(tag, '/', 3) == 4;
    assert tag[3..4] == "T";
  }

  /** The backup handler writes the example's first file. */
  lemma ExampleFirstVisit(first: seq<Byte>)
    requires |first| <= LongMax
    ensures var a := Visit(["T", "a.json"], File("a.json", |first|, first));
      BackupVisit(Snapshot([], []), a) == Done(Snapshot(Record(a), first))
  {
    var a := Visit(["T", "a.json"], File("a.json", |first|, first));
    ExampleFirstRestorable(first, _ => true);
    RestorableWritable(a, _ => true);
    assert [] + Record(a) == Record(a) && [] + Content(a) == first;
  }

  /** The backup handler throws on a file whose name is too long, before writing anything. */
  lemma OverlongVisit(long: string, st: Snapshot)
    requires |long| >= MaxUtfLength
    ensures BackupVisit(st, Visit(["T", long], File(long, 0, []))) == Threw(UTFDataFormat, st)
  {
    var last := Visit(["T", long], File(long, 0, []));
    assert Join(last.path) == "T" + "/" + long;
    assert |FileTag(last)| > MaxUtfLength;
  }

  /** The example's walk writes the first file's entry and then drops the second file's exception. */
  lemma ExampleRun(first: seq<Byte>, long: string)
    requires |first| <= LongMax && |long| >= MaxUtfLength
    ensures var a := Visit(["T", "a.json"], File("a.json", |first|, first));
      BackupRun(TruncationExample(first, long)) == RunResult(Snapshot(Record(a), first), Some(UTFDataFormat))
  {
    ExampleWalk(first, long);
    var root := Visit([], TruncationExample(first, long));
    var t := Visit(["T"], TruncationExample(first, long).children[0]);
    var a := Visit(["T", "a.json"], File("a.json", |first|, first));
    var last := Visit(["T", long], File(long, 0, []));
    var s0, s1 := Snapshot([], []), Snapshot(Record(a), first);
    ExampleFirstVisit(first);
    OverlongVisit(long, s1);
    assert Run(BackupVisit, s1, [last]) == RunResult(s1, Some(UTFDataFormat));
    assert [a, last][1..] == [last];
    assert Run(BackupVisit, s0, [a, last]) == Run(BackupVisit, s1, [last]);
    assert [t, a, last][1..] == [a, last];
    assert Run(BackupVisit, s0, [t, a, last]) == Run(BackupVisit, s0, [a, last]);
    assert [root, t, a, last][1..] == [t, a, last];
    assert Run(BackupVisit, s0, [root, t, a, last]) == Run(BackupVisit, s0, [t, a, last]);
  }

  /**
   * As written, the exception of the second file (its tag does not fit
   * `writeUTF` once its name has 65535 characters or more) is caught and
   * dropped by the walk, after the first file's entry was written, and
   * `writeBackup` returns normally (see `WriteBackup`). The checked backup
   * fails instead.
   */
  lemma TruncatedBackupExample(first: seq<Byte>, long: string, sha: Sha256)
    requires |first| <= LongMax && |long| >= MaxUtfLength
    ensures BackupRun(TruncationExample(first, long)).caught == Some(UTFDataFormat)
    ensures CheckedBackup(TruncationExample(first, long), sha) == Failure(UTFDataFormat)
  {
    ExampleRun(first, long);
  }

  /**
   * The stream `writeBackup` leaves holds the first file and the checksum of
   * the first file only, so `readBackup` accepts it without an exception:
   * the second file is silently missing from the restore.
   */
  lemma TruncatedBackupAccepted(first: seq<Byte>, long: string, sha: Sha256, resolvable: string -> bool, files: map<string, seq<Byte>>)
    requires |first| <= LongMax && |long| >= MaxUtfLength && resolvable("T")
    ensures RestoreFrom(BackupStream(TruncationExample(first, long), sha), files, sha, resolvable)
         == Restored(files["T/a.json" := first], [], None)
  {
    ExampleRestore(first, long, sha, resolvable, files);
    ExampleFirstRestorable(first, resolvable);
    ApplySingle(files, Visit(["T", "a.json"], File("a.json", |first|, first)));
  }

  /** Restoring the example's stream restores its first file only. */
  lemma ExampleRestore(first: seq<Byte>, long: string, sha: Sha256, resolvable: string -> bool, files: map<string, seq<Byte>>)
    requires |first| <= LongMax && |long| >= MaxUtfLength && resolvable("T")
    ensures var a := Visit(["T", "a.json"], File("a.json", |first|, first));
      RestoreFrom(BackupStream(TruncationExample(first, long), sha), files, sha, resolvable) == Restored(Apply(files, [a]), [], None)
  {
    var a := Visit(["T", "a.json"], File("a.json", |first|, first));
    ExampleFirstRestorable(first, resolvable);
    ExampleStream(first, long, sha);
    RestoreOfBackup([a], files, sha, resolvable);
  }

  /** The example's stream is the backup of its first file alone. */
  lemma ExampleStream(first: seq<Byte>, long: string, sha: Sha256)
    requires |first| <= LongMax && |long| >= MaxUtfLength
    ensures var a := Visit(["T", "a.json"], File("a.json", |first|, first));
      BackupStream(TruncationExample(first, long), sha) == HeaderFrame() + Records([a]) + ChecksumFrame(sha(Contents([a])))
  {
    ExampleRun(first, long);
    var a := Visit(["T", "a.json"], File("a.json", |first|, first));
    ConcatSingle(Record, a);
    ConcatSingle(Content, a);
  }

  /**
   * A base directory holding type `T` with one file `a.json` whose reported
   * length is `length` while `content` is what a copy reads from it (a file
   * that changed while the backup ran).
   */
  function MismatchExample(content: seq<Byte>, length: nat): Node
  {
    Dir("base", [Dir("T", [File("a.json", length, content)])])
  }

  /** The walk of the size example: the base, `T`, then `a.json`. */
  lemma MismatchWalk(content: seq<Byte>, length: nat)
    ensures Walk(Visit([], MismatchExample(content, length))) == [
      Visit([], MismatchExample(content, length)), Visit(["T"], MismatchExample(content, length).children[0]),
      Visit(["T", "a.json"], File("a.json", length, content))]
  {
    var root := Visit([], MismatchExample(content, length));
    var t := Child(root, 0);
    var a := Child(t, 0);
    assert FileVisits(t, 1) == [] && DirWalks(t, 1) == [];
    assert FileVisits(t, 0) == [a] && DirWalks(t, 0) == [];
    assert Walk(t) == [t, a];
    assert FileVisits(root, 1) == [] && DirWalks(root, 1) == [];
    assert FileVisits(root, 0) == [] && DirWalks(root, 0) == Walk(t);
    assert t == Visit(["T"], MismatchExample(content, length).children[0]);
    assert a == Visit(["T", "a.json"], File("a.json", length, content));
    assert Walk(root) == [root] + FileVisits(root, 0) + DirWalks(root, 0);
  }

  /** The handler copies a file of the wrong size completely and then throws. */
  lemma MismatchVisit(content: seq<Byte>, length: nat, st: Snapshot)
    requires length != |content| && |content| <= LongMax
    ensures var a := Visit(["T", "a.json"], File("a.json", length, content));
      BackupVisit(st, a) == Threw(IO("copy error; unequal size"), Snapshot(st.written + Record(a), st.fed + content))
  {
    var a := Visit(["T", "a.json"], File("a.json", length, content));
    var same := Visit(["T", "a.json"], File("a.json", |content|, content));
    ExampleFirstRestorable(content, _ => true);
    RestorableWritable(same, _ => true);
    assert FileTag(a) == FileTag(same);
    var tag := WriteUTF(FileTag(a)).value;
    assert st.written + tag + LongBytes(length) + content == st.written + (tag + LongBytes(length) + content);
  }

  /**
   * As written, a file whose size differs from the length reported for it is
   * copied, its exception is caught and dropped by the walk, and the stream
   * ends with the checksum of what was copied: `writeBackup` returns normally
   * (see `WriteBackup`). The checked backup fails instead.
   */
  lemma SizeMismatchDropped(content: seq<Byte>, length: nat, sha: Sha256)
    requires length != |content| && |content| <= LongMax
    ensures var a := Visit(["T", "a.json"], File("a.json", length, content));
      BackupRun(MismatchExample(content, length)) == RunResult(Snapshot(Record(a), content), Some(IO("copy error; unequal size")))
    ensures var a := Visit(["T", "a.json"], File("a.json", length, content));
      BackupStream(MismatchExample(content, length), sha) == HeaderFrame() + Record(a) + ChecksumFrame(sha(content))
    ensures CheckedBackup(MismatchExample(content, length), sha) == Failure(IO("copy error; unequal size"))
  {
    MismatchWalk(content, length);
    var root := Visit([], MismatchExample(content, length));
    var t := Visit(["T"], MismatchExample(content, length).children[0]);
    var a := Visit(["T", "a.json"], File("a.json", length, content));
    var s0 := Snapshot([], []);
    MismatchVisit(content, length, s0);
    assert [] + Record(a) == Record(a) && [] + content == content;
    assert Run(BackupVisit, s0, [a]) == RunResult(Snapshot(Record(a), content), Some(IO("copy error; unequal size")));
    assert [t, a][1..] == [a];
    assert Run(BackupVisit, s0, [t, a]) == Run(BackupVisit, s0, [a]);
    assert [root, t, a][1..] == [t, a];
    assert Run(BackupVisit, s0, [root, t, a]) == Run(BackupVisit, s0, [t, a]);
  }

  lemma ConcatSingle(f: Visit -> seq<Byte>, v: Visit)
    ensures Concat(f, [v]) == f(v)
  {
    assert [v][1..] == [];
    assert f(v) + [] == f(v);
  }

  lemma ApplySingle(files: map<string, seq<Byte>>, v: Visit)
    ensures Apply(files, [v]) == Put(files, v)
  {
    assert [v][1..] == [];
  }

  /* ---------------------------------------------------------------- */
  /* The handler                                                       */
  /* ---------------------------------------------------------------- */

  /** `BackupHandler`: writes and restores the store it belongs to. */
  class BackupHandler {
    const jp: JsonPersister

    constructor (jp: JsonPersister)
      ensures this.jp == jp
    {
      this.jp := jp;
    }

    /**
     * `writeBackup(out)` of the persister's base directory, as listed by
     * `view`. The walk's writes are collected by the handler and reach `out`
     * in the same order.
     */
    method WriteBackup(out: OutStream?, view: Node, sha: Sha256) returns (thrown: Option<Exc>)
      requires Mirrors(view, jp.store.base)
      modifies out
      ensures out == null ==> thrown == Some(IllegalArgument("OutputStream is null"))
      ensures out != null ==> thrown.None? && out.bytes == old(out.bytes) + BackupStream(view, sha)
    {
      if out == null {
        return Some(IllegalArgument("OutputStream is null"));
      }
      var walked, caught := Travers(Some(view), Some(BackupVisit), Snapshot([], []));
      var header, trailer := HeaderFrame(), ChecksumFrame(sha(walked.fed));
      assert BackupStream(view, sha) == header + walked.written + trailer;
      out.WriteBytes(header + walked.written + trailer);
      thrown := None;
    }

    /**
     * `readBackup(in, additive)`: nothing for a null stream; otherwise the
     * restore of the stream's bytes onto the files below the base. `additive`
     * is never read.
     */
    method ReadBackup(input: InStream?, additive: bool, sha: Sha256, resolvable: string -> bool) returns (thrown: Option<Exc>)
      requires input != null ==> input.Valid()
      modifies jp, input
      ensures input != null ==> input.Valid()
      ensures jp.idFields == old(jp.idFields) && jp.idProvider == old(jp.idProvider)
      ensures input == null ==> thrown.None? && jp.store == old(jp.store)
      ensures input != null ==>
        var r := RestoreFrom(old(input.Remaining()), old(jp.store.base), sha, resolvable);
        && thrown == r.thrown
        && jp.store == old(jp.store).(base := r.files)
        && input.Remaining() == r.rest
    {
      if input == null {
        return None;
      }
      var md := new MessageDigest();
      var header := ReadUTF(input);
      if header.Failure? {
        return Some(header.error);
      }
      if !StartsWith(Trim(header.value), "v:") {
        return Some(IO("Expected version string 'v:<version>'"));
      }
      var end := RestoreEntries(input, md, resolvable);
      if end.Aborted? {
        return Some(end.error);
      }
      thrown := CheckChecksum(if end.Checksum? then Some(end.text) else None, md, sha);
    }

    /** The check after the restore loop, on the checksum read (`null` when the loop ended without one). */
    method CheckChecksum(checksum: Option<string>, md: MessageDigest, sha: Sha256) returns (thrown: Option<Exc>)
      modifies md
      ensures thrown == Verdict(if checksum.Some? then Checksum(checksum.value) else Exhausted, old(md.fed), sha)
    {
      if IsBlank(checksum) {
        var shown := if checksum.None? then "null" else checksum.value;
        assert "Bad checksum line: " + "null" == "Bad checksum line: null";
        return Some(IO("Bad checksum line: " + shown));
      }
      var digest := md.Digest(sha);
      if !EqualsIgnoreCase(checksum.value, Hex(digest)) {
        var again := md.Digest(sha);
        return Some(IO("Bad checksum calculated=" + Hex(again) + "; expected=" + checksum.value));
      }
      thrown := None;
    }

    /** The restore loop, `while (in.available() > 0)`: restores entries until the input ends, a checksum tag or an exception. */
    method RestoreEntries(input: InStream, md: MessageDigest, resolvable: string -> bool) returns (end: ScanEnd)
      requires input.Valid()
      modifies jp, input, md
      ensures input.Valid()
      ensures jp.idFields == old(jp.idFields) && jp.idProvider == old(jp.idProvider)
      ensures ScanEntries(old(input.Remaining()), old(jp.store.base), old(md.fed), resolvable)
           == Scan(jp.store.base, md.fed, input.Remaining(), end)
      ensures jp.store == old(jp.store).(base := jp.store.base)
    {
      ghost var target := ScanEntries(input.Remaining(), jp.store.base, md.fed, resolvable);
      end := Exhausted;
      while input.Available()
        invariant input.Valid()
        invariant jp.idFields == old(jp.idFields) && jp.idProvider == old(jp.idProvider)
        invariant jp.store == old(jp.store).(base := jp.store.base)
        invariant ScanEntries(input.Remaining(), jp.store.base, md.fed, resolvable) == target
        decreases |input.Remaining()|
      {
        ghost var before := input.Remaining();
        var step := RestoreEntry(input, md, resolvable);
        match step {
          case Restore(key, content) =>
            jp.store := jp.store.(base := jp.store.base[key := content]);
          case Stop(c) =>
            return Checksum(c);
          case Abort(e) =>
            return Aborted(e);
        }
      }
    }

    /** One pass of the restore loop: read a tag and, for a file, its size and bytes. */
    method RestoreEntry(input: InStream, md: MessageDigest, resolvable: string -> bool) returns (step: Step)
      requires input.Valid()
      modifies input, md
      ensures input.Valid()
      ensures Entry(step, input.Remaining()) == ParseEntry(old(input.Remaining()), resolvable)
      ensures md.fed == old(md.fed) + (if step.Restore? then step.content else [])
    {
      var line := ReadUTF(input);
      if line.Failure? {
        return Abort(line.error);
      }
      var tag := line.value;
      if StartsWith(tag, "F:/") {
        var slash := IndexOf(tag, '/', 3);
        if slash == -1 {
          return Abort(IOWrapping(StringIndexOutOfBounds(slash - 3)));
        }
        var typeName := tag[3..slash];
        if !resolvable(typeName) {
          return Abort(IOWrapping(ClassNotFound(typeName)));
        }
        var size := ReadLong(input);
        if size.Failure? {
          return Abort(size.error);
        }
        var file := new OutStream();
        var copied := CopyBounded(input, file, size.value, md);
        return Restore(tag[3..], file.bytes);
      } else if StartsWith(tag, "$:") {
        return Stop(tag[2..]);
      }
      return Abort(IO("read error; bad file."));
    }
  }
}
