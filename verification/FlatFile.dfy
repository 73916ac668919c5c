/** include/flat_file.hpp: a buffered record writer, a windowed record reader and its iterator.

    Files are seen at record granularity here; module `RecordBytes` relates records to the bytes on disk. */
module FlatFile {
  import opened Wrappers
  import opened Arithmetic

  function Least(a: int, b: int): int { if a <= b then a else b }

  datatype ReadError = PastEnd | BeyondEnd
  datatype ReadResult<T> = Got(value: T) | Failed(error: ReadError)

  /** The std::ostream a writer was given: everything handed to it so far. */
  class OStream<T> {
    var contents: seq<T>

    constructor ()
      ensures contents == []
    {
      contents := [];
    }
  }

  class StreamWriter<T(0)> {
    const db: OStream<T>
    const buf: array<T>
    var bufPos: nat

    ghost predicate Valid()
      reads this
    {
      0 < buf.Length && bufPos <= buf.Length
    }

    /** All records accepted so far, flushed or still buffered. */
    ghost function Accepted(): seq<T>
      reads this, db, buf
      requires Valid()
    {
      db.contents + buf[..bufPos]
    }

    constructor (os: OStream<T>, bufSize: nat)
      requires bufSize > 0
      ensures Valid() && fresh(buf) && db == os && bufPos == 0 && buf.Length == bufSize
      ensures Accepted() == os.contents
    {
      db := os;
      buf := new T[bufSize];
      bufPos := 0;
    }

    method Write(value: T)
      requires Valid()
      modifies this, buf, db
      ensures Valid()
      ensures Accepted() == old(Accepted()) + [value]
      ensures old(db.contents) <= db.contents
    {
      if bufPos == buf.Length {
        Flush();
      }
      buf[bufPos] := value;
      bufPos := bufPos + 1;
      assert buf[..bufPos] == buf[..bufPos - 1] + [value];
    }

    method Flush()
      requires Valid()
      modifies this, db
      ensures Valid() && bufPos == 0
      ensures db.contents == old(Accepted())
      ensures buf[..] == old(buf[..])
    {
      if bufPos != 0 {
        db.contents := db.contents + buf[..bufPos];
        bufPos := 0;
      }
    }
  }

  class Database<T(0)> {
    const file: seq<T>
    const buf: array<T>
    var bufStart: nat
    var bufEnd: nat
    /** How often the buffer has been overwritten; used only to talk about stale iterators. */
    ghost var refills: nat

    ghost predicate Valid()
      reads this, buf
    {
      && 0 < buf.Length
      && bufStart <= bufEnd <= |file|
      && bufEnd - bufStart <= buf.Length
      && buf[..bufEnd - bufStart] == file[bufStart..bufEnd]
    }

    constructor (contents: seq<T>, bufSize: nat)
      requires bufSize > 0
      ensures Valid() && fresh(buf) && file == contents && buf.Length == bufSize
      ensures bufStart == bufEnd == 0 && refills == 0
    {
      file := contents;
      buf := new T[bufSize];
      bufStart, bufEnd, refills := 0, 0, 0;
    }

    /** Makes the window cover `pos` and says where in the buffer the record is: the reference get_record returns. */
    method Locate(pos: nat) returns (slot: ReadResult<nat>)
      requires Valid()
      modifies this, buf
      ensures Valid()
      ensures slot.Got? <==> pos < |file|
      ensures pos == |file| <==> slot == Failed(PastEnd)
      ensures slot.Got? ==> bufStart <= pos < bufEnd && slot.value == pos - bufStart
      ensures var hit := old(bufStart) <= pos < old(bufEnd);
              if hit || pos >= |file|
              then unchanged(this) && unchanged(buf)
              else refills == old(refills) + 1 && bufStart == pos
                   && bufEnd == pos + Least(buf.Length, |file| - pos)
                   && buf[bufEnd - pos..] == old(buf[..])[bufEnd - pos..]
    {
      if !(pos >= bufStart && pos < bufEnd) {
        if pos > |file| {
          return Failed(BeyondEnd); // the unsigned difference wraps; the stream read then fails
        }
        var nrecs := Least(buf.Length, |file| - pos);
        if nrecs == 0 {
          return Failed(PastEnd);
        }
        for i := 0 to nrecs
          modifies buf
          invariant buf[..i] == file[pos..pos + i] && buf[nrecs..] == old(buf[..])[nrecs..]
        {
          buf[i] := file[pos + i];
          assert buf[..i + 1] == buf[..i] + [file[pos + i]];
        }
        bufStart, bufEnd := pos, pos + nrecs;
        refills := refills + 1;
      }
      return Got(pos - bufStart);
    }

    /** Whatever was read before and whatever the buffer size, the record at `pos` comes back. */
    method GetRecord(pos: nat) returns (r: ReadResult<T>)
      requires Valid()
      modifies this, buf
      ensures Valid()
      ensures r.Got? <==> pos < |file|
      ensures r.Got? ==> r.value == file[pos]
    {
      var slot := Locate(pos);
      match slot
      case Got(i) =>
        assert file[bufStart..bufEnd][i] == file[pos];
        r := Got(buf[..bufEnd - bufStart][i]);
      case Failed(e) => r := Failed(e);
    }

    /** database::back: the predecessor of end(); an empty file has none and the wrapped position cannot be read. */
    method Back() returns (r: ReadResult<T>)
      requires Valid()
      modifies this, buf
      ensures Valid()
      ensures r.Got? <==> |file| > 0
      ensures r.Got? ==> r.value == file[|file| - 1]
    {
      if |file| == 0 {
        r := Failed(BeyondEnd);
      } else {
        r := GetRecord(|file| - 1);
      }
    }
  }

  /** database::const_iterator. `cur` is the cached pointer, as an offset into the database's buffer. */
  class ConstIterator<T(0)> {
    const ffdb: Database<T>
    var pos: nat
    var cur: nat
    var curValid: bool
    /** The number of refills when `cur` was cached, and the window the cache belongs to. */
    ghost var seenRefills: nat

    ghost predicate Valid()
      reads this, ffdb, ffdb.buf
    {
      && ffdb.Valid()
      && (curValid ==> seenRefills <= ffdb.refills && cur < ffdb.buf.Length && pos < |ffdb.file|)
      && (Current() ==> ffdb.bufStart <= pos < ffdb.bufEnd && cur == pos - ffdb.bufStart)
    }

    /** The cached pointer was taken from the window that is still in the buffer. */
    ghost predicate Current()
      reads this, ffdb
    {
      curValid && seenRefills == ffdb.refills
    }

    constructor (db: Database<T>, pos: nat)
      requires db.Valid()
      ensures Valid() && ffdb == db && this.pos == pos && !curValid && seenRefills == 0
    {
      ffdb := db;
      this.pos := pos;
      cur, curValid, seenRefills := 0, false, 0;
    }

    /** A copy of an iterator has its pointer, but does not share it. */
    constructor Copy(other: ConstIterator<T>)
      requires other.Valid()
      ensures Valid() && ffdb == other.ffdb && pos == other.pos && cur == other.cur
      ensures curValid == other.curValid && seenRefills == other.seenRefills
    {
      ffdb, pos := other.ffdb, other.pos;
      cur, curValid, seenRefills := other.cur, other.curValid, other.seenRefills;
    }

    /** Every change of position drops the cached pointer. */
    method SetPos(newPos: nat)
      requires Valid()
      modifies this
      ensures Valid() && pos == newPos && !curValid
    {
      pos := newPos;
      curValid := false;
    }

    /** operator*: reads through the cached pointer if there is one.
        It yields the record at `pos` unless the buffer was refilled since the pointer was cached;
        then it yields whatever now occupies that slot of the buffer. */
    method Deref() returns (r: ReadResult<T>)
      requires Valid()
      modifies this, ffdb, ffdb.buf
      ensures Valid() && pos == old(pos)
      ensures r.Got? <==> pos < |ffdb.file|
      ensures r.Got? && (old(Current()) || !old(curValid)) ==> Current() && r.value == ffdb.file[pos]
      ensures old(ffdb.bufStart) <= pos < old(ffdb.bufEnd) ==> unchanged(ffdb) && unchanged(ffdb.buf)
      ensures !old(curValid) && r.Got? && !(old(ffdb.bufStart) <= pos < old(ffdb.bufEnd)) ==>
                ffdb.refills == old(ffdb.refills) + 1
                && ffdb.bufStart == pos && ffdb.bufEnd == pos + Least(ffdb.buf.Length, |ffdb.file| - pos)
                && ffdb.buf[ffdb.bufEnd - pos..] == old(ffdb.buf[..])[ffdb.bufEnd - pos..]
      ensures old(curValid) ==> unchanged(ffdb) && unchanged(ffdb.buf) && unchanged(this)
      ensures r.Got? ==> curValid && r == Got(ffdb.buf[cur])
    {
      if !curValid {
        var slot := ffdb.Locate(pos);
        if slot.Failed? { return Failed(slot.error); }
        cur, curValid, seenRefills := slot.value, true, ffdb.refills;
      }
      assert Current() ==> ffdb.buf[..ffdb.bufEnd - ffdb.bufStart][cur] == ffdb.file[ffdb.bufStart..ffdb.bufEnd][cur];
      return Got(ffdb.buf[cur]);
    }
  }

  /** Writing any records through any buffer and flushing (the destructor does) appends exactly those records. */
  method WriteTo<T(0)>(os: OStream<T>, records: seq<T>, bufSize: nat)
    requires bufSize > 0
    modifies os
    ensures os.contents == old(os.contents) + records
  {
    var writer := new StreamWriter<T>(os, bufSize);
    for i := 0 to |records|
      modifies writer, writer.buf, os
      invariant writer.Valid() && writer.db == os && fresh(writer) && fresh(writer.buf)
      invariant writer.Accepted() == old(os.contents) + records[..i]
    {
      writer.Write(records[i]);
    }
    writer.Flush();
  }

  /** A new file holds exactly the records written to it. */
  method WriteAll<T(0)>(records: seq<T>, bufSize: nat) returns (os: OStream<T>)
    requires bufSize > 0
    ensures fresh(os) && os.contents == records
  {
    os := new OStream<T>();
    WriteTo(os, records, bufSize);
  }

  /** Records written with one buffer size and read with another, in any order, come back unchanged. */
  method WriteThenRead<T(0)>(records: seq<T>, writeBuf: nat, readBuf: nat, order: seq<nat>) returns (got: seq<T>)
    requires writeBuf > 0 && readBuf > 0
    requires forall i :: 0 <= i < |order| ==> order[i] < |records|
    ensures |got| == |order|
    ensures forall i :: 0 <= i < |order| ==> got[i] == records[order[i]]
  {
    var os := WriteAll(records, writeBuf);
    var db := new Database<T>(os.contents, readBuf);
    got := [];
    for i := 0 to |order|
      invariant db.Valid() && db.file == records && fresh(db) && fresh(db.buf)
      invariant |got| == i
      invariant forall k :: 0 <= k < i ==> got[k] == records[order[k]]
    {
      var r := db.GetRecord(order[i]);
      got := got + [r.value];
    }
  }

  // ---------- dereferencing twice, with a look ahead in between ----------

  /** Windows as they come about by reading a file from its beginning, never skipping and never going back. */
  ghost predicate Aligned<T(0)>(db: Database<T>)
    reads db, db.buf
  {
    && db.Valid()
    && (if db.bufEnd == 0 then db.bufStart == 0
        else db.bufStart < |db.file| && db.bufStart % db.buf.Length == 0
             && db.bufEnd == Least(db.bufStart + db.buf.Length, |db.file|))
  }

  /** The last record of a window that is followed by a whole window. */
  predicate LastOfWindow<T>(file: seq<T>, pos: nat, size: nat)
    requires size > 0
  {
    pos % size == size - 1 && pos + size < |file|
  }

  /** What a pointer to the record at `pos` points at once the record behind it has been looked at. */
  function Seen<T>(file: seq<T>, pos: nat, size: nat): T
    requires pos < |file| && size > 0
  {
    if LastOfWindow(file, pos, size) then file[pos + size] else file[pos]
  }

  /** A cached pointer that still points at its record. */
  ghost predicate Cached<T(0)>(it: ConstIterator<T>)
    reads it, it.ffdb, it.ffdb.buf
  {
    && it.Valid() && it.curValid && Aligned(it.ffdb) && it.ffdb.buf[it.cur] == it.ffdb.file[it.pos]
    && (it.Current() || (it.ffdb.bufStart == it.pos + 1 && it.pos + it.ffdb.buf.Length >= |it.ffdb.file|))
  }

  ghost predicate Ready<T(0)>(it: ConstIterator<T>)
    reads it, it.ffdb, it.ffdb.buf
  {
    && it.Valid() && Aligned(it.ffdb) && it.pos <= |it.ffdb.file|
    && (if it.curValid then Cached(it) else it.ffdb.bufStart <= it.pos <= it.ffdb.bufEnd)
  }

  lemma WindowArithmetic(start: nat, size: nat, pos: nat)
    requires size > 0 && start % size == 0 && start <= pos < start + size
    ensures pos % size == pos - start && (start + size) % size == 0
  {
    var q := start / size;
    ModIs(pos, size, q, pos - start);
    assert size * (q + 1) == size * q + size;
    ModIs(start + size, size, q + 1, 0);
  }

  /** What operator* gives: what the cached pointer points at, or the record at the position. */
  function Shown<T(0)>(it: ConstIterator<T>): T
    reads it, it.ffdb, it.ffdb.buf
    requires it.Valid() && it.pos < |it.ffdb.file|
  {
    if it.curValid then it.ffdb.buf[it.cur] else it.ffdb.file[it.pos]
  }

  /** operator* */
  method Read<T(0)>(it: ConstIterator<T>) returns (v: T)
    requires it.Valid() && it.pos < |it.ffdb.file|
    modifies it, it.ffdb, it.ffdb.buf
    ensures it.Valid() && it.pos == old(it.pos) && it.curValid
    ensures v == old(Shown(it)) == Shown(it)
    ensures if old(it.curValid) then unchanged(it, it.ffdb, it.ffdb.buf) else it.Current()
    ensures old(Ready(it)) ==> Cached(it)
  {
    var db := it.ffdb;
    if !it.curValid && Aligned(db) && 0 < db.bufEnd == it.pos {
      WindowArithmetic(db.bufStart, db.buf.Length, db.bufStart);
    }
    var r := it.Deref();
    v := r.value;
  }

  /** operator* on a copy of the iterator. */
  method ReadCopy<T(0)>(it: ConstIterator<T>) returns (v: T)
    requires it.Valid() && it.pos < |it.ffdb.file|
    modifies it.ffdb, it.ffdb.buf
    ensures it.Valid() && v == old(Shown(it)) == Shown(it)
    ensures it.curValid ==> unchanged(it.ffdb, it.ffdb.buf)
    ensures old(Ready(it)) ==> Ready(it) && (!it.curValid ==> it.pos < it.ffdb.bufEnd)
  {
    var copy := new ConstIterator<T>.Copy(it);
    assert Ready(it) ==> Ready(copy);
    v := Read(copy);
  }

  /** The record behind this one has been looked at, if there is one. */
  ghost predicate LookedPast<T(0)>(it: ConstIterator<T>)
    reads it, it.ffdb, it.ffdb.buf
  {
    && it.Valid() && it.curValid && it.pos < |it.ffdb.file| && Aligned(it.ffdb)
    && it.ffdb.buf[it.cur] == Seen(it.ffdb.file, it.pos, it.ffdb.buf.Length)
    && it.ffdb.bufStart <= it.pos + 1 <= it.ffdb.bufEnd
    && (!LastOfWindow(it.ffdb.file, it.pos, it.ffdb.buf.Length) ==> Cached(it))
  }

  /** std::next(it) != end ? *std::next(it) : none, and what it does to the pointer `it` has cached. */
  method PeekNext<T(0)>(it: ConstIterator<T>) returns (next: Option<T>)
    requires it.Valid() && it.pos < |it.ffdb.file|
    modifies it.ffdb, it.ffdb.buf
    ensures it.Valid()
    ensures next == if it.pos + 1 < |it.ffdb.file| then Some(it.ffdb.file[it.pos + 1]) else None
    ensures old(Cached(it)) ==> LookedPast(it)
  {
    if it.pos + 1 == |it.ffdb.file| { return None; }
    var db := it.ffdb;
    if Cached(it) && it.Current() {
      WindowArithmetic(db.bufStart, db.buf.Length, it.pos);
    }
    var ahead := new ConstIterator<T>(db, it.pos + 1);
    var r := ahead.Deref();
    return Some(r.value);
  }

  /** operator++ */
  method Next<T(0)>(it: ConstIterator<T>)
    requires it.Valid() && it.pos < |it.ffdb.file|
    modifies it
    ensures it.Valid() && it.pos == old(it.pos) + 1 && !it.curValid
    ensures old(Cached(it) || LookedPast(it)) ==> Ready(it)
    ensures old(Ready(it) && it.pos < it.ffdb.bufEnd) && !old(it.curValid) ==> Ready(it)
  {
    it.SetPos(it.pos + 1);
  }

  lemma CachedIsReady<T(0)>(it: ConstIterator<T>)
    ensures Cached(it) ==> Ready(it)
    ensures Ready(it) && it.curValid ==> Cached(it)
    ensures LookedPast(it) && !LastOfWindow(it.ffdb.file, it.pos, it.ffdb.buf.Length) ==> Ready(it)
  {
  }
}
