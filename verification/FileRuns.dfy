/** The driver itself, driven by sequences of requests. */
module FileRuns {
  import opened Bytes
  import opened Volumes
  import opened Names
  import opened Chains
  import opened Directory
  import opened Files
  import opened Writing
  import opened Appending
  import opened Reading
  import opened Lifecycle
  import opened FileSystems
  import FM = FileMachine

  /** Serves one request by calling the driver. */
  method Perform(fs: FileSystem, op: FM.Op, ghost m: FM.Machine) returns (out: seq<Byte>)
    requires fs.Valid() && fs.St() == m.st && FM.Consistent(fs.geo, m) && FM.Enabled(fs.geo, m, op)
    modifies fs, fs.temp
    ensures fs.Valid() && fs.St() == FM.Next(fs.geo, m, op).0.st && out == FM.Next(fs.geo, m, op).1
  {
    hide View, LookupEnds, WriteBytes, ReadBytes, Owns, IsFile, ChainAt, LookupFrom, CanWrite, OpenForReading, OpenForWriting,
         Leakless;
    out := [];
    ghost var g := fs.geo;
    match op
    case Create(f) =>
      SoundLookupEnds(fs.Vol(), Canonical(f));
      var fd := fs.Open(f, FMODE_WRITE);
    case Write(bs) =>
      WriterFacts(g, m);
      var count := fs.Write(bs, 0);
    case Close =>
      CloserFacts(g, m);
      fs.Close();
    case Open(f) =>
      SoundLookupEnds(fs.Vol(), Canonical(f));
      var fd := fs.Open(f, FMODE_READ);
    case Read(n) =>
      ReaderFacts(g, m);
      out := fs.Read(n, 0, m.session.slot);
    case Delete(f) =>
      var e := fs.Delete(f);
  }

  lemma WriterFacts(g: Geometry, m: FM.Machine)
    requires FM.Consistent(g, m) && m.session.Writer?
    ensures m.st.file.mode == FMODE_WRITE
  {
  }

  lemma ReaderFacts(g: Geometry, m: FM.Machine)
    requires FM.Consistent(g, m) && m.session.Reader?
    ensures m.st.file.mode == FMODE_READ && OpenForReading(g, m.st, m.session.slot)
  {
  }

  lemma CloserFacts(g: Geometry, m: FM.Machine)
    requires FM.Consistent(g, m) && m.session != FM.Idle
    ensures LookupEnds(m.st.vol.dir, m.st.file.name) && m.st.file.size < 0x1_0000_0000
    ensures if m.session.Writer? then
              m.st.file.mode == FMODE_WRITE && Lookup(m.st.vol.dir, m.st.file.name) == Some(m.session.slot)
            else m.st.file.mode == FMODE_READ
  {
    hide NameOf, IsFile, Owns, ChainAt;
    LookupExact(m.st.vol.dir, m.st.file.name, m.session.slot);
    SoundLookupEnds(m.st.vol, m.st.file.name);
    if m.session.Writer? {
      ClustersOwned(g, m.st, m.session.slot);
    }
  }

  /** Serves a run of requests: the volume ends up, and the bytes come out, as the run intends. */
  method PerformAll(fs: FileSystem, ops: seq<FM.Op>, ghost m0: FM.Machine, ghost a: FM.Shelf) returns (out: seq<Byte>)
    requires fs.Valid() && fs.St() == m0.st && FM.Represents(fs.geo, m0, a) && FM.EnabledRun(fs.geo, m0, ops)
    modifies fs, fs.temp
    ensures fs.Valid() && Sound(fs.geo, fs.Vol())
    ensures FM.NamedFiles(fs.geo, fs.Vol()) == FM.IntendedRun(a, ops).0.files
    ensures out == FM.IntendedRun(a, ops).1
    ensures FM.Consistent(fs.geo, m0) && (Leakless(fs.geo, m0.st.vol) ==> Leakless(fs.geo, fs.Vol()))
  {
    hide View, FM.Next, FM.Enabled, Sound, FM.IntendedRun, FM.NamedFiles, FM.Intended;
    ghost var g, m := fs.geo, m0;
    out := [];
    var i := 0;
    assert ops[0..] == ops;
    assert [] + FM.NextRun(g, m0, ops).1 == FM.NextRun(g, m0, ops).1;
    while i < |ops|
      invariant 0 <= i <= |ops| && fs.Valid() && fs.St() == m.st && fs.geo == g
      invariant FM.EnabledRun(g, m, ops[i..])
      invariant FM.NextRun(g, m0, ops) == (FM.NextRun(g, m, ops[i..]).0, out + FM.NextRun(g, m, ops[i..]).1)
    {
      assert ops[i..][1..] == ops[i + 1..] && ops[i..][0] == ops[i];
      var got := Perform(fs, ops[i], m);
      assert out + (got + FM.NextRun(g, FM.Next(g, m, ops[i]).0, ops[i + 1..]).1)
          == (out + got) + FM.NextRun(g, FM.Next(g, m, ops[i]).0, ops[i + 1..]).1;
      m := FM.Next(g, m, ops[i]).0;
      out := out + got;
      i := i + 1;
    }
    FM.RunRefines(g, m0, a, ops);
  }

  /** Stores a file in any pieces and fetches it in any portions, on any disk with room for it: the bytes
      that come out are the bytes that went in, and every other file is as before. */
  method StoreAndFetch(fs: FileSystem, f: Name, pieces: seq<seq<Byte>>, counts: seq<Word>, ghost m: FM.Machine, ghost a: FM.Shelf)
    returns (out: seq<Byte>)
    requires fs.Valid() && fs.St() == m.st && FM.Represents(fs.geo, m, a) && FM.RoundTripFits(fs.geo, m, f, pieces, counts)
    modifies fs, fs.temp
    ensures fs.Valid() && Sound(fs.geo, fs.Vol())
    ensures out == FM.Joined(pieces)[..FM.Least(FM.Sum(counts), |FM.Joined(pieces)|)]
    ensures FM.NamedFiles(fs.geo, fs.Vol()) == a.files[Canonical(f) := FM.Joined(pieces)]
  {
    hide View, Sound, FM.NamedFiles, FM.RoundTripFits, FM.EnabledRun, FM.IntendedRun, FM.Represents;
    FM.RoundTripEnabled(fs.geo, m, a, f, pieces, counts);
    FM.RoundTripIntended(a, f, pieces, counts);
    out := PerformAll(fs, FM.RoundTrip(f, pieces, counts), m, a);
  }

  /** Opens a file for reading under any casing of its name. */
  method OpenAnyCasing(fs: FileSystem, f: Name, ghost k: nat) returns (fd: int)
    requires fs.Valid() && Sound(fs.geo, fs.Vol()) && FileAt(fs.Vol().dir, k)
    requires !HasLowerCase(NameOf(fs.Vol().dir[k])) && SameUpToCase(NameOf(fs.Vol().dir[k]), FirstTwelve(f))
    modifies fs, fs.temp
    ensures fs.Valid() && fd == 0 && fs.Vol() == old(fs.Vol())
    ensures fs.file.mode == FMODE_READ && fs.file.name == NameOf(fs.Vol().dir[k]) && fs.file.fpos == 0
            && fs.file.size == SizeOf(fs.Vol().dir[k]) && fs.file.current == StartOf(fs.Vol().dir[k])
  {
    hide View, LookupEnds, IsFile, NameOf, Owns, ChainAt, SizeOf, StartOf, LookupFrom;
    FoundUnderAnyCasing(fs.Vol().dir, k, f);
    SoundLookupEnds(fs.Vol(), Canonical(f));
    fd := fs.Open(f, FMODE_READ);
  }
}
