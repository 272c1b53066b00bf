/** The append-only store of block files.

System calls of a faulty device fail as the environment pleases, others do not fail.  The log of the
model holds every state of the disk, also those in the middle of a write, so it holds every state a crash may leave. */
module BlockStore {
  import opened Bytes
  import opened BlockRows
  import opened BlockFiles
  import opened Wrappers

  const EXTRA_BYTES: nat := 12

  datatype ReadResult = Block(raw: seq<byte>) | ReadFailed | BadChecksum | WrongNetwork

  /** The files after `target` up to `last` are there. */
  ghost predicate Numbered(d: Disk, target: nat, last: nat) {
    forall f: nat :: target < f <= last ==> f in d
  }

  /** Without the files after `target` up to `last`. */
  ghost function Without(d: Disk, target: nat, last: nat): Disk {
    map f | f in d && !(target < f <= last) :: d[f]
  }

  /** The file of p has exactly the bytes before p. */
  ghost function CutOff(d: Disk, p: Position): Disk {
    d[p.file as nat := Resized(if p.file in d then d[p.file] else [], p.off)]
  }

  ghost function RolledBack(d: Disk, p: Position, last: nat): Disk {
    CutOff(Without(d, p.file, last), p)
  }

  class Store {
    const network: uint32
    const maxBlockFileSize: uint32
    const crc: Checksum
    const faulty: bool
    var files: Disk
    var curFileNum: uint32
    var curOffset: uint32
    var fileOpen: bool
    var log: seq<Disk>

    /** The write cursor. */
    function Cursor(): Position
      reads this
    {
      Position(curFileNum, curOffset)
    }

    /** The open file exists, sizes fit the offsets, and the log is current. */
    ghost predicate Consistent()
      reads this
    {
      && Sized(files) && (fileOpen ==> curFileNum in files)
      && |log| > 0 && log[|log| - 1] == files
    }

    ghost predicate Valid()
      reads this
    {
      Consistent() && Reaches(files, Cursor())
    }

    /** Since `from` entries, nothing below p has been touched. */
    ghost predicate Kept(from: nat, d: Disk, p: Position)
      reads this
    {
      from <= |log| && LogKeeps(log, from, d, p) && KeepsBelow(d, files, p)
    }

    /** newBlockStore: the cursor is where the last file found by the scan ends. */
    constructor (net: uint32, maxSize: uint32, checksum: Checksum, disk: Disk, faults: bool)
      requires Sized(disk)
      ensures Consistent() && files == disk && log == [disk] && !fileOpen
      ensures network == net && maxBlockFileSize == maxSize && crc == checksum && faulty == faults
      ensures IsScan(disk, Cursor())
    {
      var last, len := ScanBlockFiles(disk);
      network, maxBlockFileSize, crc, faulty := net, maxSize, checksum, faults;
      files, fileOpen, log := disk, false, [disk];
      curFileNum, curOffset := if last == -1 then 0 else last, if last == -1 then 0 else len;
    }

    /** One write at the cursor.  On failure some prefix of the data is on disk. */
    method WriteData(data: seq<byte>) returns (ok: bool, ghost n: nat)
      requires fileOpen && curFileNum in files && curOffset <= |files[curFileNum]| && curOffset + |data| < UINT32
      modifies this`files, this`curOffset, this`log
      ensures n <= |data| && (ok ==> n == |data|) && (!faulty ==> ok)
      ensures files == old(files)[curFileNum := Written(old(files)[curFileNum], old(curOffset), data[..n])]
      ensures curOffset == old(curOffset) + n
      ensures log == old(log) + Torn(old(files), curFileNum, old(curOffset), data[..n])
    {
      hide Written;
      var count :| 0 <= count <= |data| && (!faulty ==> count == |data|);
      log := log + Torn(files, curFileNum, curOffset, data[..count]);
      files := files[curFileNum := Written(files[curFileNum], curOffset, data[..count])];
      curOffset := (curOffset + count) % UINT32;
      n := count;
      ok := *;
      ok := count == |data| && (!faulty || ok);
    }

    /** The state while a record is written from offset `orig` over the disk `pre`. */
    ghost predicate Writing(pre: Disk, orig: nat, done: seq<byte>)
      reads this
    {
      && fileOpen && curFileNum in pre && orig <= |pre[curFileNum]| && Sized(pre)
      && files == pre[curFileNum := Written(pre[curFileNum], orig, done)]
      && curOffset == orig + |done|
    }

    /** The next field of the record. */
    method WriteField(field: seq<byte>, ghost pre: Disk, ghost orig: nat, ghost done: seq<byte>,
                      ghost from: nat, ghost d: Disk, ghost p: Position)
      returns (ok: bool)
      requires Writing(pre, orig, done) && Consistent() && curOffset + |field| < UINT32
      requires Kept(from, d, p) && AtMost(p, Position(curFileNum, orig))
      modifies this`files, this`curOffset, this`log
      ensures Consistent() && Kept(from, d, p) && AtMost(p, Cursor()) && Extends(log, old(log))
      ensures ok ==> Writing(pre, orig, done + field) && curOffset == old(curOffset) + |field|
      ensures !faulty ==> ok
    {
      hide Written, KeepsBelow, Torn;
      FieldFits(pre[curFileNum], orig, done);
      ghost var before, was := files, log;
      ghost var at := curOffset;
      ghost var n;
      ok, n := WriteData(field);
      TornKeeps(was, from, d, p, before, curFileNum, at, field[..n]);
      TornLast(before, curFileNum, at, field[..n]);
      WrittenTwice(pre[curFileNum], orig, done, field);
      assert ok ==> field[..n] == field;
    }

    lemma FieldFits(s: seq<byte>, orig: nat, done: seq<byte>)
      requires orig <= |s|
      ensures orig + |done| <= |Written(s, orig, done)|
    {
      WrittenKeeps(s, orig, done);
    }

    lemma TornLast(e: Disk, f: nat, off: nat, data: seq<byte>)
      requires f in e
      ensures |Torn(e, f, off, data)| == |data| + 1
      ensures Torn(e, f, off, data)[|data|] == e[f := Written(e[f], off, data)]
    {
      assert data[..|data|] == data;
    }

    /** openWriteFile: the file is created if it is not there. */
    method OpenWriteFile(ghost from: nat, ghost d: Disk, ghost p: Position) returns (ok: bool)
      requires Sized(files) && |log| > 0 && log[|log| - 1] == files && !fileOpen
      requires Kept(from, d, p)
      modifies this`files, this`fileOpen, this`log
      ensures Consistent() && Kept(from, d, p) && Extends(log, old(log))
      ensures if ok then fileOpen else faulty && !fileOpen && files == old(files)
      ensures ok ==> files == if curFileNum in old(files) then old(files) else old(files)[curFileNum := []]
    {
      hide KeepsBelow;
      if faulty {
        if * {
          return false;
        }
      }
      if curFileNum !in files {
        CreateKeeps(files, curFileNum, p);
        LogAppend(log, from, d, p, files, files[curFileNum := []]);
        files := files[curFileNum := []];
        log := log + [files];
      }
      fileOpen := true;
      return true;
    }

    lemma CreateKeeps(e: Disk, f: nat, p: Position)
      requires f !in e
      ensures KeepsBelow(e, e[f := []], p)
    {
    }

    /** The block would not fit the current file any more, or the offset would overflow. */
    predicate NeedsNextFile(fullLen: uint32)
      reads this
    {
      var finalOffset := (curOffset + fullLen) % UINT32;
      finalOffset < curOffset || finalOffset > maxBlockFileSize
    }

    /** The cursor moves on without leaving a gap in the numbering. */
    ghost predicate Continues(raw: seq<byte>)
      reads this
    {
      |raw| + EXTRA_BYTES <= maxBlockFileSize || curFileNum in files
    }

    /** Where a record of that length goes. */
    function NextPosition(fullLen: uint32): Position
      requires curFileNum + 1 < UINT32
      reads this
    {
      if NeedsNextFile(fullLen) then Position(curFileNum + 1, 0) else Cursor()
    }

    /** The file and offset the record goes to. */
    method Advance(fullLen: uint32) returns (ok: bool)
      requires Valid() && curFileNum + 1 < UINT32 && fullLen > 0
      modifies this
      ensures Consistent() && AtMost(old(Cursor()), Cursor()) && curFileNum <= old(curFileNum) + 1
      ensures Cursor() == old(NextPosition(fullLen))
      ensures Extends(log, old(log)) && Kept(|old(log)|, old(files), old(Cursor()))
      ensures ok ==> fileOpen && curOffset <= |files[curFileNum]| && curOffset + fullLen < UINT32
      ensures !faulty ==> ok
      ensures ok && (fullLen <= maxBlockFileSize || old(curFileNum in files)) ==> forall f: nat :: f < curFileNum ==> f in files
      ensures ok && fullLen > maxBlockFileSize && !old(curFileNum in files) ==>
                curFileNum == old(curFileNum) + 1 && old(curFileNum) !in files
    {
      hide KeepsBelow;
      ghost var from, d, p := |log|, files, Cursor();
      KeepsReflexive(d, p);
      if NeedsNextFile(fullLen) {
        fileOpen := false;
        curFileNum := curFileNum + 1;
        curOffset := 0;
      }
      if !fileOpen {
        ok := OpenWriteFile(from, d, p);
        if !ok {
          return false;
        }
      }
      return true;
    }

    /** writeBlock: on success the record stands between the old and the new cursor; at no moment is
    anything before the old cursor touched.  The files stay without a gap exactly if the block fits an
    empty file or the current file exists. */
    method WriteBlock(raw: seq<byte>) returns (r: Option<Location>)
      requires Valid() && |raw| + EXTRA_BYTES < UINT32 && curFileNum + 1 < UINT32
      modifies this
      ensures Consistent() && AtMost(old(Cursor()), Cursor()) && curFileNum <= old(curFileNum) + 1
      ensures Extends(log, old(log)) && Kept(|old(log)|, old(files), old(Cursor()))
      ensures !faulty ==> r.Some?
      ensures r.Some? ==>
                var p := old(NextPosition(|raw| + EXTRA_BYTES));
                r.value == Location(p.file, p.off, |raw| + EXTRA_BYTES) && Cursor() == Position(p.file, p.off + |raw| + EXTRA_BYTES)
      ensures r.Some? ==> Holds(files, r.value, Record(network, raw, crc)) && EndsBelow(r.value, Cursor())
      ensures r.Some? ==> curFileNum in files && (Valid() <==> old(Continues(raw)))
      ensures r.Some? && !old(Continues(raw)) ==> curFileNum == old(curFileNum) + 1 && old(curFileNum) !in files
    {
      hide *;
      ghost var from, d, p := |log|, files, Cursor();
      FullLength(raw);
      var blockLen := |raw| % UINT32;
      var fullLen := (blockLen + EXTRA_BYTES) % UINT32;
      var ok := Advance(fullLen);
      if !ok {
        return None;
      }
      CursorIs();
      var origOffset := curOffset;
      ghost var mid := log;
      ok := WriteRecord(raw, from, d, p);
      ExtendsTransitive(old(log), mid, log);
      if !ok {
        return None;
      }
      CursorIs();
      EndsAtCursor(origOffset, fullLen);
      HeldFile(Location(curFileNum, origOffset, fullLen), Record(network, raw, crc));
      return Some(Location(curFileNum, origOffset, fullLen));
    }

    lemma CursorIs()
      ensures Cursor() == Position(curFileNum, curOffset)
    {
    }

    lemma FullLength(raw: seq<byte>)
      requires |raw| + EXTRA_BYTES < UINT32
      ensures |raw| % UINT32 == |raw| && (|raw| + EXTRA_BYTES) % UINT32 == |raw| + EXTRA_BYTES
      ensures EXTRA_BYTES == 12 && UINT32 == 0x1_0000_0000
      ensures Continues(raw) <==> |raw| + EXTRA_BYTES <= maxBlockFileSize || curFileNum in files
    {
    }

    lemma HeldFile(loc: Location, record: seq<byte>)
      requires Holds(files, loc, record)
      ensures loc.blockFileNum in files
    {
    }

    lemma EndsAtCursor(orig: uint32, len: uint32)
      requires orig + len == curOffset
      ensures EndsBelow(Location(curFileNum, orig, len), Cursor())
    {
    }

    /** The four fields of the record. */
    method WriteRecord(raw: seq<byte>, ghost from: nat, ghost d: Disk, ghost p: Position) returns (ok: bool)
      requires Consistent() && fileOpen && curOffset <= |files[curFileNum]|
      requires curOffset + |raw| + EXTRA_BYTES < UINT32
      requires Kept(from, d, p) && AtMost(p, Cursor())
      modifies this`files, this`curOffset, this`log
      ensures Consistent() && AtMost(p, Cursor()) && Extends(log, old(log)) && Kept(from, d, p) && (!faulty ==> ok)
      ensures ok ==> curOffset == old(curOffset) + |raw| + EXTRA_BYTES
      ensures ok ==> (Valid() <==> forall f: nat :: f < curFileNum ==> f in old(files))
      ensures ok ==> files.Keys == old(files).Keys
      ensures ok ==> Holds(files, Location(curFileNum, old(curOffset), |raw| + EXTRA_BYTES), Record(network, raw, crc))
    {
      hide *;
      ghost var pre, orig, was := files, curOffset, log;
      RecordLengths(|raw|);
      BeginRecord(p);
      var scratch := [];
      ok := WriteField(PutUint32(network), pre, orig, scratch, from, d, p);
      if !ok {
        return;
      }
      ghost var log1 := log;
      scratch := scratch + PutUint32(network);
      ok := WriteField(PutUint32(|raw|), pre, orig, scratch, from, d, p);
      ExtendsTransitive(was, log1, log);
      if !ok {
        return;
      }
      ghost var log2 := log;
      scratch := scratch + PutUint32(|raw|);
      ok := WriteField(raw, pre, orig, scratch, from, d, p);
      ExtendsTransitive(was, log2, log);
      if !ok {
        return;
      }
      ghost var log3 := log;
      scratch := scratch + raw;
      ok := WriteField(PutUint32BigEndian(crc(scratch)), pre, orig, scratch, from, d, p);
      ExtendsTransitive(was, log3, log);
      if !ok {
        return;
      }
      IsRecord(raw, scratch);
      EndRecord(pre, orig, Record(network, raw, crc));
    }

    lemma RecordLengths(n: nat)
      requires n + EXTRA_BYTES < UINT32
      ensures EXTRA_BYTES == 12 && UINT32 == 0x1_0000_0000
    {
    }

    lemma IsRecord(raw: seq<byte>, scratch: seq<byte>)
      requires |raw| < UINT32 && scratch == [] + PutUint32(network) + PutUint32(|raw|) + raw
      ensures scratch + PutUint32BigEndian(crc(scratch)) == Record(network, raw, crc)
    {
      hide PutUint32, PutUint32BigEndian;
      assert scratch == Framed(network, raw);
    }

    lemma BeginRecord(p: Position)
      requires Consistent() && fileOpen && curOffset <= |files[curFileNum]| && AtMost(p, Cursor())
      ensures curFileNum in files && Writing(files, curOffset, []) && AtMost(p, Position(curFileNum, curOffset))
    {
      assert Written(files[curFileNum], curOffset, []) == files[curFileNum];
    }

    lemma EndRecord(pre: Disk, orig: uint32, record: seq<byte>)
      requires Writing(pre, orig, record) && orig + |record| < UINT32 && |record| > 0
      requires Consistent()
      ensures Valid() <==> forall f: nat :: f < curFileNum ==> f in pre
      ensures Holds(files, Location(curFileNum, orig, |record|), record) && files.Keys == pre.Keys
    {
      RecordDone(pre, curFileNum, orig, record);
    }

    /** Deletes the files after `target`, the last one first.  Deleting a missing file fails. */
    method DeleteNewer(target: uint32, ghost from: nat, ghost d: Disk, ghost p: Position) returns (ok: bool)
      requires Consistent() && Kept(from, d, p) && p.file == target <= curFileNum
      requires curFileNum > target ==> !fileOpen
      modifies this`files, this`curFileNum, this`log
      ensures Consistent() && Kept(from, d, p) && Extends(log, old(log))
      ensures if ok then curFileNum == target else !fileOpen
      ensures !faulty && Numbered(old(files), target, old(curFileNum)) ==> ok && files == Without(old(files), target, old(curFileNum))
    {
      hide KeepsBelow;
      while curFileNum > target
        invariant target <= curFileNum && Consistent() && Kept(from, d, p) && Extends(log, old(log))
        invariant curFileNum > target ==> !fileOpen
        invariant curFileNum == old(curFileNum) || !fileOpen
        invariant curFileNum <= old(curFileNum) && files == Without(old(files), curFileNum, old(curFileNum))
      {
        if faulty {
          if * {
            return false;
          }
        }
        if curFileNum !in files {
          return false;
        }
        DeleteKeeps(files, curFileNum, p);
        LogAppend(log, from, d, p, files, files - {curFileNum});
        files := files - {curFileNum};
        log := log + [files];
        curFileNum := curFileNum - 1;
      }
      return true;
    }

    lemma DeleteKeeps(e: Disk, f: nat, p: Position)
      requires p.file < f
      ensures KeepsBelow(e, e - {f as nat}, p)
    {
    }

    /** handleRollback: whatever fails, the cursor returns to p and nothing before p is touched.  If nothing
    fails, what was written after p is gone. */
    method HandleRollback(p: Position)
      requires Consistent() && AtMost(p, Cursor())
      modifies this
      ensures Consistent() && Cursor() == p && (old(Reaches(files, p)) ==> Valid())
      ensures Extends(log, old(log)) && Kept(|old(log)|, old(files), p)
      ensures !faulty && old(Cursor()) != p && Numbered(old(files), p.file, old(curFileNum)) ==>
                files == RolledBack(old(files), p, old(curFileNum))
    {
      hide KeepsBelow;
      ghost var from, d := |log|, files;
      KeepsReflexive(d, p);
      if curFileNum == p.file && curOffset == p.off {
        return;
      }
      if curFileNum > p.file {
        fileOpen := false;
      }
      var ok := DeleteNewer(p.file, from, d, p);
      if ok {
        Truncate(from, d, p);
      }
      if Reaches(d, p) {
        KeepsReaches(d, files, p);
      }
      curFileNum := p.file;
      curOffset := p.off;
    }

    /** Cuts the current file at the rollback offset. */
    method Truncate(ghost from: nat, ghost d: Disk, p: Position)
      requires Consistent() && Kept(from, d, p) && curFileNum == p.file
      modifies this`files, this`fileOpen, this`log
      ensures Consistent() && Kept(from, d, p) && Extends(log, old(log))
      ensures !faulty ==> files == CutOff(old(files), p)
    {
      hide KeepsBelow;
      if !fileOpen {
        var ok := OpenWriteFile(from, d, p);
        if !ok {
          return;
        }
      }
      if faulty {
        if * {
          return;
        }
      }
      ghost var was := log;
      ResizeKeeps(files, curFileNum, p);
      LogAppend(log, from, d, p, files, files[curFileNum := Resized(files[curFileNum], p.off)]);
      files := files[curFileNum := Resized(files[curFileNum], p.off)];
      log := log + [files];
      ExtendsTransitive(old(log), was, log);
    }

    lemma ResizeKeeps(e: Disk, f: nat, p: Position)
      requires f in e && f == p.file && Sized(e)
      ensures var g := e[f := Resized(e[f], p.off)]; KeepsBelow(e, g, p) && Sized(g)
    {
    }

    /** The bytes from offset a to b of a file, if it has them. */
    function Slice(f: uint32, a: nat, b: nat): Option<seq<byte>>
      requires a <= b
      reads this
    {
      if f in files && b <= |files[f]| then Some(files[f][a..b]) else None
    }

    /** readBlock: the block is returned if the checksum and the network of its record match. */
    method ReadBlock(loc: Location, ghost raw: seq<byte>) returns (r: ReadResult)
      requires loc.blockLen >= EXTRA_BYTES
      ensures |raw| < UINT32 && Holds(files, loc, Record(network, raw, crc)) ==> r == Block(raw)
      ensures r.Block? ==> Authentic(loc, r.raw)
    {
      hide Record, Uint32, Uint32BigEndian;
      var data := Slice(loc.blockFileNum, loc.fileOffset, loc.fileOffset + loc.blockLen);
      if data.None? {
        return ReadFailed;
      }
      var serializedData := data.value;
      var n := |serializedData|;
      if |raw| < UINT32 {
        RecordParts(raw);
      }
      var serializedChecksum := Uint32BigEndian(serializedData[n - 4..]);
      var calculatedChecksum := crc(serializedData[..n - 4]);
      if serializedChecksum != calculatedChecksum {
        return BadChecksum;
      }
      if Uint32(serializedData[..4]) != network {
        return WrongNetwork;
      }
      return Block(serializedData[8..n - 4]);
    }

    /** The location holds a record of this network with a matching checksum around raw. */
    ghost predicate Authentic(loc: Location, raw: seq<byte>)
      requires loc.blockLen >= EXTRA_BYTES
      reads this
    {
      var data := Slice(loc.blockFileNum, loc.fileOffset, loc.fileOffset + loc.blockLen);
      data.Some? && var s := data.value; var n := |s| - 4;
      raw == s[8..n] && Uint32BigEndian(s[n..]) == crc(s[..n]) && Uint32(s[..4]) == network
    }

    lemma RecordParts(raw: seq<byte>)
      requires |raw| < UINT32
      ensures var s := Record(network, raw, crc); var n := |s|;
              && Uint32BigEndian(s[n - 4..]) == crc(s[..n - 4])
              && Uint32(s[..4]) == network && s[8..n - 4] == raw
    {
      hide Uint32, Uint32BigEndian, PutUint32, PutUint32BigEndian;
      var f := Framed(network, raw);
      var s := Record(network, raw, crc);
      var n := |s|;
      assert s[..n - 4] == f && s[n - 4..] == PutUint32BigEndian(crc(f));
      assert s[..4] == f[..4] == PutUint32(network);
      assert s[8..n - 4] == f[8..] == raw;
    }

    /** readBlockRegion: part of a block, without its framing. */
    method ReadBlockRegion(loc: Location, offset: uint32, numBytes: uint32, ghost raw: seq<byte>)
      returns (r: ReadResult)
      requires Sized(files)
      ensures |raw| < UINT32 && Holds(files, loc, Record(network, raw, crc)) && offset + numBytes <= |raw| ==>
                r == Block(raw[offset..offset + numBytes])
    {
      hide Record, Holds, Sized;
      if |raw| < UINT32 && Holds(files, loc, Record(network, raw, crc)) && offset + numBytes <= |raw| {
        Region(loc, offset, numBytes, raw);
      }
      var readOffset := (loc.fileOffset + 8 + offset) % UINT32;
      var data := Slice(loc.blockFileNum, readOffset, readOffset + numBytes);
      if data.None? {
        return ReadFailed;
      }
      return Block(data.value);
    }

    lemma Region(loc: Location, offset: uint32, numBytes: uint32, raw: seq<byte>)
      requires Sized(files) && |raw| < UINT32 && Holds(files, loc, Record(network, raw, crc)) && offset + numBytes <= |raw|
      ensures var at := loc.fileOffset + 8 + offset;
              at < UINT32 && Slice(loc.blockFileNum, at, at + numBytes) == Some(raw[offset..offset + numBytes])
    {
      RecordParts(raw);
      hide Record, Uint32, Uint32BigEndian;
      var s, f := Record(network, raw, crc), files[loc.blockFileNum];
      SubSlice(f, loc.fileOffset, loc.fileOffset + |s|, 8 + offset, 8 + offset + numBytes);
      SubSlice(s, 8, |s| - 4, offset, offset + numBytes);
    }

    lemma SubSlice(s: seq<byte>, a: nat, b: nat, c: nat, e: nat)
      requires c <= e && a + e <= b <= |s|
      ensures s[a..b][c..e] == s[a + c..a + e]
    {
      var x, y := s[a..b][c..e], s[a + c..a + e];
      assert |x| == |y|;
      assert forall i :: 0 <= i < |x| ==> x[i] == s[a..b][c + i] == s[a + c + i] == y[i];
    }
  }

  /** The end of the last file of the initial run of files. */
  ghost predicate IsScan(disk: Disk, p: Position) {
    || (0 !in disk && p == Position(0, 0))
    || (p.file in disk && p.off == |disk[p.file]| && p.file + 1 !in disk && forall f: nat :: f <= p.file ==> f in disk)
  }

  /** Sizes are truncated to 32 bits, as are file numbers. */
  method ScanBlockFiles(disk: Disk) returns (lastFile: int, fileLen: uint32)
    ensures -1 <= lastFile && lastFile + 1 !in disk && forall f: nat :: f <= lastFile ==> f in disk
    ensures lastFile >= 0 ==> fileLen == |disk[lastFile]| % UINT32
  {
    lastFile, fileLen := -1, 0;
    var i := 0;
    ghost var unseen := disk.Keys;
    while i in disk
      invariant lastFile == i - 1 && (forall f: nat :: f < i ==> f in disk)
      invariant lastFile >= 0 ==> fileLen == |disk[lastFile]| % UINT32
      invariant unseen == set f | f in disk && f >= i
      decreases unseen
    {
      lastFile, fileLen := i, |disk[i]| % UINT32;
      assert i in unseen;
      unseen := unseen - {i};
      i := i + 1;
    }
  }
}
