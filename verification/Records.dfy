/** Reading the memory files back: load_checkpoint (uhyve-x86_64.c:1032-1119). */
module Records {
  import opened Pte
  import opened Scan

  /** Page length and destination of a record as the reader derives them from
      the stored entry alone (`location & PG_PSE`, determine_dest_offset). */
  function PageWords(entry: Word): nat {
    if entry.pse then PAGE_WORDS * 512 else PAGE_WORDS
  }

  function Dest(entry: Word): nat {
    PAGE_WORDS * (if entry.pse then entry.frame / 512 * 512 else entry.frame)
  }

  /** In bytes: determine_dest_offset of the stored word, and 4 KiB or 2 MiB by its
      bit 7. */
  lemma DestIsOffset(e: U64)
    ensures 8 * Dest(Decode(e)) == DestOffset(e)
    ensures 8 * PageWords(Decode(e)) == if e / 128 % 2 == 1 then 0x20_0000 else 0x1000
  {
    DestOffsetDecoded(e);
  }

  predicate WellSized(r: Record) {
    |r.page| == PageWords(r.entry)
  }

  predicate Fits(r: Record, size: nat) {
    WellSized(r) && Dest(r.entry) + |r.page| <= size
  }

  predicate Hits(r: Record, w: nat) {
    Dest(r.entry) <= w < Dest(r.entry) + |r.page|
  }

  /** The records of a stream and whether it ended at a record boundary. */
  datatype Parsed = Parsed(records: seq<Record>, complete: bool)

  function Parse(file: seq<Word>): Parsed {
    if file == [] then Parsed([], true)
    else
      var n := PageWords(file[0]);
      if |file| < 1 + n then Parsed([], false)
      else
        var rest := Parse(file[1 + n..]);
        Parsed([Record(file[0], file[1..1 + n])] + rest.records, rest.complete)
  }

  lemma {:induction false} ParseAppend(file: seq<Word>, r: Record)
    requires WellSized(r) && Parse(file).complete
    ensures Parse(file + [r.entry] + r.page) == Parsed(Parse(file).records + [r], true)
  {
    var all := file + [r.entry] + r.page;
    if file == [] {
      assert all[1..1 + |r.page|] == r.page && all[1 + |r.page|..] == [];
    } else {
      var n := 1 + PageWords(file[0]);
      assert all[n..] == file[n..] + [r.entry] + r.page;
      assert all[1..n] == file[1..n];
      ParseAppend(file[n..], r);
    }
  }

  /** The PSE bit of the stored entry always tells the page length, so parsing a
      written stream gives back the records that were written. */
  lemma {:induction false} ParseSerialize(rs: seq<Record>)
    requires forall r :: r in rs ==> WellSized(r)
    ensures Parse(Serialize(rs)) == Parsed(rs, true)
  {
    if rs != [] {
      var k := |rs| - 1;
      ParseSerialize(rs[..k]);
      ParseAppend(Serialize(rs[..k]), rs[k]);
      assert rs == rs[..k] + [rs[k]];
    }
  }

  function LoadOne(m: Memory, r: Record): Memory
    requires Fits(r, |m|)
  {
    m[..Dest(r.entry)] + r.page + m[Dest(r.entry) + |r.page|..]
  }

  /** Memory after copying the pages of `rs` to their destinations in order. */
  function Load(m: Memory, rs: seq<Record>): (n: Memory)
    requires forall r :: r in rs ==> Fits(r, |m|)
    ensures |n| == |m|
  {
    if rs == [] then m
    else
      assert rs[|rs| - 1] in rs && forall r :: r in rs[..|rs| - 1] ==> r in rs;
      LoadOne(Load(m, rs[..|rs| - 1]), rs[|rs| - 1])
  }

  ghost predicate AllFit(rs: seq<Record>, size: nat) {
    forall r :: r in rs ==> Fits(r, size)
  }

  /** A loaded word comes from a record that hits it, if there is one. */
  lemma {:induction false} LoadedWord(m: Memory, rs: seq<Record>, w: nat, tables: set<nat>, target: Word)
    requires AllFit(rs, |m|) && w < |m|
    requires forall r :: r in rs && Hits(r, w) ==> Similar(tables, w, r.page[w - Dest(r.entry)], target)
    ensures (exists r :: r in rs && Hits(r, w)) ==> Similar(tables, w, Load(m, rs)[w], target)
    ensures (forall r :: r in rs ==> !Hits(r, w)) ==> Load(m, rs)[w] == m[w]
  {
    if rs != [] {
      var k := |rs| - 1;
      assert rs[k] in rs && forall r :: r in rs[..k] ==> r in rs;
      LoadedWord(m, rs[..k], w, tables, target);
      assert rs == rs[..k] + [rs[k]];
      hide LoadOne, WellSized;
      LoadOneWord(Load(m, rs[..k]), rs[k], w);
    }
  }

  lemma LoadOneWord(m: Memory, r: Record, w: nat)
    requires Fits(r, |m|) && w < |m|
    ensures |LoadOne(m, r)| == |m|
    ensures LoadOne(m, r)[w] == if Hits(r, w) then r.page[w - Dest(r.entry)] else m[w]
  {}

  lemma {:induction false} LoadConcat(m: Memory, a: seq<Record>, b: seq<Record>)
    requires AllFit(a, |m|) && AllFit(b, |m|)
    ensures AllFit(a + b, |m|)
    ensures Load(m, a + b) == Load(Load(m, a), b)
  {
    if b == [] {
      assert a + b == a;
    } else {
      var k := |b| - 1;
      assert (a + b)[..|a + b| - 1] == a + b[..k];
      assert forall r :: r in b[..k] ==> r in b;
      LoadConcat(m, a, b[..k]);
    }
  }

  // ------------------------------------------------------------ the reader

  /** fread of one page into guest memory. */
  method StorePage(mem: array<Word>, dest: nat, page: seq<Word>)
    requires dest + |page| <= mem.Length
    modifies mem
    ensures mem[..] == old(mem[..dest]) + page + old(mem[dest + |page|..])
  {
    forall k | 0 <= k < |page| {
      mem[dest + k] := page[k];
    }
  }

  /** The stream still to be read and the records already read, at one point of
      the read loop. */
  ghost predicate ReadUpTo(file: seq<Word>, pos: nat, done: seq<Record>) {
    && pos <= |file|
    && Parse(file).records == done + Parse(file[pos..]).records
    && Parse(file).complete == Parse(file[pos..]).complete
  }

  lemma ReadStep(file: seq<Word>, pos: nat, done: seq<Record>)
    requires ReadUpTo(file, pos, done) && pos < |file|
    ensures var n := PageWords(file[pos]);
            if |file| < pos + 1 + n then Parse(file) == Parsed(done, false)
            else var r := Record(file[pos], file[pos + 1..pos + 1 + n]);
                 r in Parse(file).records && ReadUpTo(file, pos + 1 + n, done + [r])
  {
    hide Parse, PageWords;
    var n := PageWords(file[pos]);
    ParseAt(file, pos);
    if |file| < pos + 1 + n {
      assert done + [] == done;
    } else {
      var r := Record(file[pos], file[pos + 1..pos + 1 + n]);
      var behind := Parse(file[pos + 1 + n..]);
      Regroup(done, r, behind.records);
    }
  }

  lemma Regroup(done: seq<Record>, r: Record, behind: seq<Record>)
    ensures done + ([r] + behind) == (done + [r]) + behind && r in done + ([r] + behind)
  {
    assert (done + ([r] + behind))[|done|] == r;
  }

  /** One unfolding of Parse in the middle of a file. */
  lemma ParseAt(file: seq<Word>, pos: nat)
    requires pos < |file|
    ensures var n := PageWords(file[pos]);
            Parse(file[pos..])
            == if |file| < pos + 1 + n then Parsed([], false)
               else var behind := Parse(file[pos + 1 + n..]);
                    Parsed([Record(file[pos], file[pos + 1..pos + 1 + n])] + behind.records, behind.complete)
  {
    hide PageWords;
    var rest, n := file[pos..], PageWords(file[pos]);
    if |file| >= pos + 1 + n {
      Slices(file, pos, 1, 1 + n);
    }
  }

  lemma Slices(file: seq<Word>, pos: nat, a: nat, b: nat)
    requires a <= b && pos + b <= |file|
    ensures file[pos..][a..b] == file[pos + a..pos + b] && file[pos..][b..] == file[pos + b..]
  {}

  /** The read loop over one chk*_mem.dat; false where the original aborts
      because a page is cut short. */
  method LoadFile(mem: array<Word>, file: seq<Word>) returns (complete: bool)
    requires AllFit(Parse(file).records, mem.Length)
    modifies mem
    ensures complete == Parse(file).complete
    ensures mem[..] == Load(old(mem[..]), Parse(file).records)
  {
    hide Parse;
    var pos := 0;
    ghost var done := [];
    assert ReadUpTo(file, 0, []) by { assert file[0..] == file; }
    while pos < |file|
      invariant ReadUpTo(file, pos, done)
      invariant AllFit(done, mem.Length)
      invariant mem[..] == Load(old(mem[..]), done)
      decreases |file| - pos
    {
      ReadStep(file, pos, done);
      var location := file[pos];
      var n := PageWords(location);
      if |file| < pos + 1 + n {
        return false;
      }
      ghost var r := Record(location, file[pos + 1..pos + 1 + n]);
      assert (done + [r])[..|done|] == done;
      StorePage(mem, Dest(location), file[pos + 1..pos + 1 + n]);
      done := done + [r];
      pos := pos + 1 + n;
    }
    ReadEnd(file, pos, done);
    return true;
  }

  lemma ReadEnd(file: seq<Word>, pos: nat, done: seq<Record>)
    requires ReadUpTo(file, pos, done) && pos == |file|
    ensures Parse(file) == Parsed(done, true)
  {
    assert file[pos..] == [] && done + [] == done;
  }

  /** The files a restart reads: all of 0..n, or only n for full checkpoints. */
  function FilesRead(files: seq<seq<Record>>, fullCheckpoint: bool, n: nat): seq<Record>
    requires n < |files|
  {
    if fullCheckpoint then files[n] else Chain(files[..n + 1])
  }

  function Chain(files: seq<seq<Record>>): seq<Record> {
    if files == [] then [] else Chain(files[..|files| - 1]) + files[|files| - 1]
  }

  /** How load_checkpoint ends: -1 for a file it cannot open, an abort for a page that
      is cut short. */
  datatype Ending = Loaded | Missing | CutShort

  ghost predicate DiskFits(disk: map<nat, seq<Word>>, size: nat) {
    forall k :: k in disk ==> AllFit(Parse(disk[k]).records, size)
  }

  /** Loading files i..n in order, up to the first that is missing or cut short. */
  ghost function ReadFrom(disk: map<nat, seq<Word>>, m: Memory, i: nat, n: nat): (r: (Ending, Memory))
    requires DiskFits(disk, |m|)
    ensures |r.1| == |m|
    decreases n + 1 - i
  {
    if i > n then (Loaded, m)
    else if i !in disk then (Missing, m)
    else
      var next := Load(m, Parse(disk[i]).records);
      if Parse(disk[i]).complete then ReadFrom(disk, next, i + 1, n) else (CutShort, next)
  }

  /** load_checkpoint for checkpoint number `n` over the directory `disk`. */
  method LoadCheckpoint(mem: array<Word>, disk: map<nat, seq<Word>>, fullCheckpoint: bool, n: nat) returns (r: Ending)
    requires DiskFits(disk, mem.Length)
    modifies mem
    ensures (r, mem[..]) == ReadFrom(disk, old(mem[..]), if fullCheckpoint then n else 0, n)
  {
    hide Parse, Load;
    var i := if fullCheckpoint then n else 0;
    while i <= n
      invariant i <= n + 1
      invariant ReadFrom(disk, mem[..], i, n) == ReadFrom(disk, old(mem[..]), if fullCheckpoint then n else 0, n)
    {
      if i !in disk {
        return Missing;
      }
      var complete := LoadFile(mem, disk[i]);
      if !complete {
        return CutShort;
      }
      i := i + 1;
    }
    return Loaded;
  }

  /** A checkpoint loads if and only if every file it needs is there and whole. */
  lemma {:induction false} LoadedIffWhole(disk: map<nat, seq<Word>>, m: Memory, i: nat, n: nat)
    requires DiskFits(disk, |m|)
    ensures ReadFrom(disk, m, i, n).0 == Loaded <==> forall k :: i <= k <= n ==> k in disk && Parse(disk[k]).complete
    decreases n + 1 - i
  {
    hide Parse, Load;
    if i <= n && i in disk && Parse(disk[i]).complete {
      LoadedIffWhole(disk, Load(m, Parse(disk[i]).records), i + 1, n);
    }
  }

  /** The pages of files i..k-1, in order. */
  ghost function Pages(disk: map<nat, seq<Word>>, i: nat, k: nat): seq<Record>
    requires forall j :: i <= j < k ==> j in disk
    decreases k - i
  {
    if i >= k then [] else Parse(disk[i]).records + Pages(disk, i + 1, k)
  }

  /** A load that does not succeed stops at the first bad file, absent or cut short.
      Memory then holds the files before it, and the whole pages of a file cut short. */
  lemma {:induction false} FirstBad(disk: map<nat, seq<Word>>, m: Memory, i: nat, k: nat, n: nat)
    requires DiskFits(disk, |m|) && i <= k <= n
    requires forall j :: i <= j < k ==> j in disk && Parse(disk[j]).complete
    requires k in disk ==> !Parse(disk[k]).complete
    ensures ReadFrom(disk, m, i, n).0 == if k in disk then CutShort else Missing
    ensures var pages := Pages(disk, i, k) + if k in disk then Parse(disk[k]).records else [];
            AllFit(pages, |m|) && ReadFrom(disk, m, i, n).1 == Load(m, pages)
    decreases k - i
  {
    hide Parse, Load;
    var last := if k in disk then Parse(disk[k]).records else [];
    if i < k {
      var first := Parse(disk[i]).records;
      FirstBad(disk, Load(m, first), i + 1, k, n);
      LoadConcat(m, first, Pages(disk, i + 1, k) + last);
      assert Pages(disk, i, k) + last == first + (Pages(disk, i + 1, k) + last);
    } else {
      assert [] + last == last;
      LoadNothing(m);
    }
  }

  /** The files a dump has written are on disk. */
  ghost predicate OnDisk(disk: map<nat, seq<Word>>, files: seq<seq<Record>>, size: nat, k: nat) {
    k < |files| && k in disk && disk[k] == Serialize(files[k]) && AllFit(files[k], size)
  }

  /** Written files load as the records they were written from. */
  lemma {:induction false} WrittenChain(disk: map<nat, seq<Word>>, files: seq<seq<Record>>, m: Memory, i: nat, n: nat)
    requires DiskFits(disk, |m|) && i <= n + 1 && n < |files|
    requires forall k :: i <= k <= n ==> OnDisk(disk, files, |m|, k)
    ensures AllFit(Chain(files[i..n + 1]), |m|)
    ensures ReadFrom(disk, m, i, n) == (Loaded, Load(m, Chain(files[i..n + 1])))
    decreases n + 1 - i
  {
    hide Parse, Load, Serialize;
    if i <= n {
      assert OnDisk(disk, files, |m|, i);
      ParseSerialize(files[i]);
      WrittenChain(disk, files, Load(m, files[i]), i + 1, n);
      assert files[i..n + 1] == [files[i]] + files[i + 1..n + 1];
      ChainCons(files[i], files[i + 1..n + 1]);
      LoadConcat(m, files[i], Chain(files[i + 1..n + 1]));
    } else {
      assert Load(m, []) == m by { LoadNothing(m); }
    }
  }

  lemma LoadNothing(m: Memory)
    ensures Load(m, []) == m
  {}

  lemma {:induction false} ChainCons(first: seq<Record>, files: seq<seq<Record>>)
    ensures Chain([first] + files) == first + Chain(files)
  {
    var all := [first] + files;
    if files == [] {
      assert all[..0] == [] && Chain(all) == [] + first;
    } else {
      assert all[..|all| - 1] == [first] + files[..|files| - 1];
      ChainCons(first, files[..|files| - 1]);
    }
  }

  /** A restart from written files gives the pages of files 0..n, or of file n alone. */
  lemma WrittenFilesLoad(disk: map<nat, seq<Word>>, files: seq<seq<Record>>, fullCheckpoint: bool, m: Memory, n: nat)
    requires DiskFits(disk, |m|) && n < |files|
    requires forall k :: (if fullCheckpoint then n else 0) <= k <= n ==> OnDisk(disk, files, |m|, k)
    ensures AllFit(FilesRead(files, fullCheckpoint, n), |m|)
    ensures ReadFrom(disk, m, if fullCheckpoint then n else 0, n)
            == (Loaded, Load(m, FilesRead(files, fullCheckpoint, n)))
  {
    hide Parse, Load, Serialize, ReadFrom;
    WrittenChain(disk, files, m, if fullCheckpoint then n else 0, n);
    if fullCheckpoint {
      assert files[n..n + 1] == [files[n]] && [files[n]][..0] == [];
      assert Chain([files[n]]) == [] + files[n] == files[n];
    } else {
      assert files[0..n + 1] == files[..n + 1];
    }
  }
}
