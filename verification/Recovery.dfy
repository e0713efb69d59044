// Opening a database: read the log file, replay it over the snapshot.

module Recovery {
  import opened Bytes
  import opened Collections
  import opened StoreState
  import opened StoreInvariant
  import opened Replay
  import Store
  import WalLog

  // recoverFromWAL: a log that cannot be read leaves the snapshot as it is.
  method Recover(s: Store.Storage, file: WalLog.LogFile<Store.Entry>, convert: Conversion) returns (ok: bool)
    requires s.enabled && Parallel(s.State()) && OneTablePerID(s.tables)
    modifies s
    ensures var read := WalLog.Read(file.codec, file.file);
            && ok == read.Done?
            && s.State() == if ok then Replayed(old(s.State()), Store.Unstamped(read.records), convert)
                 else old(s.State())
  {
    var read := file.ReadAll();
    if read.Failed? {
      return false;
    }
    s.RecoverFromWAL(read.records, convert);
    ok := true;
  }

  // The frames of a run's log: one per record, numbered from 1.
  ghost predicate LogOf(written: seq<WalLog.Written<Store.Entry>>, run: Run)
    requires run.Valid()
  {
    WalLog.RecordsOf(written) == Store.Stamped(run.Log(), 0)
  }

  lemma StampedRecords(records: seq<Record>, base: nat)
    ensures Store.Unstamped(Store.Stamped(records, base)) == records
  {
  }

  // Recovery end to end: from the snapshot a run started from and the bytes it logged, reading
  // and replaying gives the tables, row ids and rows of the live store, those of the table named
  // "" exactly when the run kept them; a damaged frame after the others, with anything behind it,
  // changes nothing.
  lemma RecoveredFromDisk(run: Run, codec: WalLog.Codec<Store.Entry>, written: seq<WalLog.Written<Store.Entry>>,
                          lsn: UInt64, checksum: UInt32, data: seq<Byte>, tail: seq<Byte>, convert: Conversion)
    requires run.Valid() && AllRecorded(run) && Sound(run.First())
    requires LogOf(written, run) && WalLog.AllReadable(codec, written)
    requires |data| < U32 && checksum != codec.crc(data)
    ensures Parallel(run.First())
    ensures var read := WalLog.Read(codec, WalLog.Frames(codec, written));
            && read.Done?
            && var r := Replayed(run.First(), Store.Unstamped(read.records), convert);
               CopyNamed(r, run.Final(), convert) && (Copy(r, run.Final(), convert) <==> UnnamedKept(run, convert))
    ensures WalLog.Read(codec, WalLog.Frames(codec, written) + (WalLog.FrameBytes(lsn, checksum, data) + tail)) ==
            WalLog.Read(codec, WalLog.Frames(codec, written))
  {
    hide Copy, CopyNamed, UnnamedKept, Replayed;
    SoundIsParallel(run.First());
    hide Sound, Parallel;
    WalLog.WrittenIsRead(codec, written);
    StampedRecords(run.Log(), 0);
    ReplayIsLive(run, convert);
    WalLog.CorruptFrameStops(codec, written, lsn, checksum, data, tail);
  }
}
