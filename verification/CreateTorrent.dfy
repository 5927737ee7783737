/** Creating a `.torrent`, and what the loader makes of it. */
module CreateTorrent {
  import opened Bytes
  import opened Bencode
  import opened BencodeTheorems
  import opened BencodeLoops
  import opened InfoSpan
  import opened PieceHash
  import opened TorrentFile

  /** One input file: its path below the torrent's name, and its content. */
  datatype InputFile = InputFile(components: seq<bytes>, content: bytes)

  /** A job: `single` distinguishes a lone file from a directory walk. */
  datatype Job = Job(name: bytes, files: seq<InputFile>, single: bool, trackers: seq<bytes>,
                     pieceLength: nat, isPrivate: bool)

  /** `u64 as i64`. */
  function AsI64(x: nat): i64
    requires x < U64_LIMIT
  {
    if x < I64_LIMIT then x else x - U64_LIMIT
  }

  function Contents(files: seq<InputFile>): seq<bytes>
  {
    if files == [] then [] else [files[0].content] + Contents(files[1..])
  }

  function Strs(ss: seq<bytes>): (vs: seq<Value>)
    ensures |vs| == |ss| && forall i :: 0 <= i < |ss| ==> vs[i] == Str(ss[i])
  {
    if ss == [] then [] else [Str(ss[0])] + Strs(ss[1..])
  }

  function FileDict(f: InputFile): seq<Entry>
    requires |f.content| < U64_LIMIT
  {
    Put(Put([], LENGTH, Int(AsI64(|f.content|))), PATH, List(Strs(f.components)))
  }

  function FileValues(files: seq<InputFile>): (vs: seq<Value>)
    requires forall f :: f in files ==> |f.content| < U64_LIMIT
    ensures |vs| == |files| && forall i :: 0 <= i < |vs| ==> vs[i] == Dict(FileDict(files[i]))
  {
    if files == [] then [] else [Dict(FileDict(files[0]))] + FileValues(files[1..])
  }

  /** What the argument types and the file system guarantee. */
  ghost predicate Possible(env: Env, j: Job)
  {
    && 0 < j.pieceLength < U64_LIMIT
    && j.files != [] && (j.single ==> |j.files| == 1)
    && (forall f :: f in j.files ==> |f.content| < I64_LIMIT)
    && 0 < |Concat(Contents(j.files))| < U64_LIMIT
    && IsText(env, j.name)
    && (forall t :: t in j.trackers ==> IsText(env, t))
    && (forall f, c :: f in j.files && c in f.components ==> IsText(env, c))
    && |PieceString(env.sha1, Concat(Contents(j.files)), j.pieceLength)| < USIZE_LIMIT
  }

  predicate IsText(env: Env, s: bytes)
  {
    |s| < USIZE_LIMIT && env.utf8(s)
  }

  function InfoBase(env: Env, j: Job, pieces: bytes): seq<Entry>
    requires j.pieceLength < U64_LIMIT
  {
    Put(Put(Put([], NAME, Str(j.name)), PIECE_LENGTH, Int(AsI64(j.pieceLength))), PIECES, Str(pieces))
  }

  function InfoDict(env: Env, j: Job): seq<Entry>
    requires 0 < j.pieceLength < U64_LIMIT && j.files != []
    requires forall f :: f in j.files ==> |f.content| < U64_LIMIT
  {
    var base := InfoBase(env, j, PieceString(env.sha1, Concat(Contents(j.files)), j.pieceLength));
    var flagged := if j.isPrivate then Put(base, PRIVATE, Int(1)) else base;
    if j.single then Put(flagged, LENGTH, Int(AsI64(|j.files[0].content|)))
    else Put(flagged, FILES, List(FileValues(j.files)))
  }

  function TopDict(info: Value, trackers: seq<bytes>): seq<Entry>
  {
    var withInfo := Put([], INFO, info);
    var withFirst := if |trackers| > 0 then Put(withInfo, ANNOUNCE, Str(trackers[0])) else withInfo;
    if |trackers| > 1 then Put(withFirst, ANNOUNCE_LIST, List(Tiers(trackers))) else withFirst
  }

  /** `create_torrent`: the file and the info hash. */
  ghost function Create(env: Env, j: Job): (r: (bytes, Digest))
    requires Possible(env, j)
  {
    var info := Dict(InfoDict(env, j));
    (Print(Dict(TopDict(info, j.trackers))), env.sha1(Print(info)))
  }

  // ---- dictionaries built by inserting ----

  lemma PutFits(es: seq<Entry>, key: bytes, v: Value, h: nat)
    requires DictFits(es, h) && |key| < USIZE_LIMIT && Fits(v, h)
    ensures DictFits(Put(es, key, v), h)
  {
    PutSorted(es, key, v);
  }

  lemma StrsFit(env: Env, ss: seq<bytes>)
    requires forall s :: s in ss ==> IsText(env, s)
    ensures Fits(List(Strs(ss)), 1)
  {
    var vs := Strs(ss);
    forall v | v in vs ensures Fits(v, 0) {
      var i :| 0 <= i < |vs| && vs[i] == v;
      assert ss[i] in ss;
    }
    FitsList(vs, 0);
  }

  lemma FileDictFits(env: Env, f: InputFile)
    requires |f.content| < I64_LIMIT && forall c :: c in f.components ==> IsText(env, c)
    ensures DictFits(FileDict(f), 1)
    ensures Get(FileDict(f), LENGTH) == Some(Int(|f.content|))
    ensures Get(FileDict(f), PATH) == Some(List(Strs(f.components)))
  {
    StrsFit(env, f.components);
    var d := Put([], LENGTH, Int(|f.content|));
    PutFits([], LENGTH, Int(|f.content|), 1);
    PutFits(d, PATH, List(Strs(f.components)), 1);
    GetPut([], LENGTH, Int(|f.content|), LENGTH);
    GetPut(d, PATH, List(Strs(f.components)), LENGTH);
    GetPut(d, PATH, List(Strs(f.components)), PATH);
  }

  // ---- what the loader reads back ----

  predicate SafeComponents(cs: seq<bytes>)
  {
    forall c :: c in cs ==> !UnsafeComponentName(c)
  }

  lemma {:induction false} SafePathOfStrs(env: Env, cs: seq<bytes>)
    requires forall c :: c in cs ==> IsText(env, c)
    ensures SafePath(env, Strs(cs)).Ok? <==> SafeComponents(cs)
    ensures SafeComponents(cs) ==> SafePath(env, Strs(cs)) == Ok(cs)
  {
    if cs != [] {
      assert cs[0] in cs && Strs(cs)[1..] == Strs(cs[1..]);
      SafePathOfStrs(env, cs[1..]);
      assert cs == [cs[0]] + cs[1..];
      assert SafeComponents(cs) <==> !UnsafeComponentName(cs[0]) && SafeComponents(cs[1..]);
    }
  }

  predicate SafeFiles(files: seq<InputFile>)
  {
    forall f :: f in files ==> SafeComponents(f.components)
  }

  function Entries(files: seq<InputFile>): (fs: seq<FileEntry>)
  {
    if files == [] then [] else [FileEntry(|files[0].content|, files[0].components)] + Entries(files[1..])
  }

  lemma LoadFileDict(env: Env, f: InputFile)
    requires |f.content| < I64_LIMIT && forall c :: c in f.components ==> IsText(env, c)
    ensures var r := LoadFile(env, Dict(FileDict(f)));
      && (r.Ok? <==> SafeComponents(f.components))
      && (r.Ok? ==> r == Ok(FileEntry(|f.content|, f.components)))
  {
    FileDictFits(env, f);
    SafePathOfStrs(env, f.components);
  }

  lemma SafeFilesCons(files: seq<InputFile>)
    requires files != []
    ensures SafeFiles(files) <==> SafeComponents(files[0].components) && SafeFiles(files[1..])
  {
    assert files == [files[0]] + files[1..];
  }

  lemma {:induction false} LoadFileValues(env: Env, files: seq<InputFile>)
    requires forall f :: f in files ==> |f.content| < I64_LIMIT
    requires forall f, c :: f in files && c in f.components ==> IsText(env, c)
    ensures LoadFiles(env, FileValues(files)).Ok? <==> SafeFiles(files)
    ensures SafeFiles(files) ==> LoadFiles(env, FileValues(files)) == Ok(Entries(files))
  {
    if files != [] {
      var vs := FileValues(files);
      assert vs[1..] == FileValues(files[1..]);
      assert files[0] in files;
      LoadFileDict(env, files[0]);
      LoadFileValues(env, files[1..]);
      SafeFilesCons(files);
    }
  }

  lemma {:induction false} EntriesTotal(files: seq<InputFile>)
    ensures SumLengths(Entries(files)) == |Concat(Contents(files))|
  {
    if files != [] {
      EntriesTotal(files[1..]);
      assert Entries(files)[1..] == Entries(files[1..]);
      assert Contents(files)[1..] == Contents(files[1..]);
    }
  }

  function TierLists(trackers: seq<bytes>): seq<seq<bytes>>
  {
    if trackers == [] then [] else [[trackers[0]]] + TierLists(trackers[1..])
  }

  lemma {:induction false} LoadTiersOf(env: Env, trackers: seq<bytes>)
    requires forall t :: t in trackers ==> IsText(env, t)
    ensures LoadTiers(env, Tiers(trackers)) == Ok(TierLists(trackers))
  {
    if trackers != [] {
      var t := trackers[0];
      assert t in trackers && [Str(t)][1..] == [];
      assert LoadTier(env, [Str(t)]) == Ok([t] + []);
      assert [t] + [] == [t];
      assert Tiers(trackers)[1..] == Tiers(trackers[1..]);
      LoadTiersOf(env, trackers[1..]);
    }
  }

  // ---- the info dictionary ----

  function Pieces(env: Env, j: Job): bytes
    requires j.pieceLength > 0
  {
    PieceString(env.sha1, Concat(Contents(j.files)), j.pieceLength)
  }

  /** The info dictionary up to its layout entry, key by key. */
  function BaseGet(env: Env, j: Job, k: bytes): Option<Value>
    requires 0 < j.pieceLength < U64_LIMIT
  {
    if k == PIECES then Some(Str(Pieces(env, j)))
    else if k == PIECE_LENGTH then Some(Int(AsI64(j.pieceLength)))
    else if k == NAME then Some(Str(j.name))
    else if k == PRIVATE && j.isPrivate then Some(Int(1))
    else None
  }

  lemma InfoBaseGet(env: Env, j: Job, k: bytes)
    requires 0 < j.pieceLength < U64_LIMIT && IsText(env, j.name) && |Pieces(env, j)| < USIZE_LIMIT
    ensures var d := InfoBase(env, j, Pieces(env, j));
      && DictFits(d, 3)
      && Get(d, k) == if k == PRIVATE then None else BaseGet(env, j, k)
  {
    var pl, ps := Int(AsI64(j.pieceLength)), Str(Pieces(env, j));
    var d1 := Put([], NAME, Str(j.name));
    var d2 := Put(d1, PIECE_LENGTH, pl);
    PutFits([], NAME, Str(j.name), 3);
    PutFits(d1, PIECE_LENGTH, pl, 3);
    PutFits(d2, PIECES, ps, 3);
    GetPut([], NAME, Str(j.name), k);
    GetPut(d1, PIECE_LENGTH, pl, k);
    GetPut(d2, PIECES, ps, k);
  }

  lemma FilesFit(env: Env, files: seq<InputFile>)
    requires forall f :: f in files ==> |f.content| < I64_LIMIT
    requires forall f, c :: f in files && c in f.components ==> IsText(env, c)
    ensures Fits(List(FileValues(files)), 3)
  {
    var vs := FileValues(files);
    forall v | v in vs ensures Fits(v, 2) {
      var i :| 0 <= i < |vs| && vs[i] == v;
      assert files[i] in files;
      FileDictFits(env, files[i]);
      FitsDict(FileDict(files[i]), 1);
    }
    FitsList(vs, 2);
  }

  /** The layout entry the job adds: a lone length, or the list of files. */
  function LayoutKey(j: Job): bytes { if j.single then LENGTH else FILES }

  function LayoutValue(j: Job): Value
    requires j.files != [] && forall f :: f in j.files ==> |f.content| < U64_LIMIT
  {
    if j.single then Int(AsI64(|j.files[0].content|)) else List(FileValues(j.files))
  }

  lemma InfoDictGet(env: Env, j: Job, k: bytes)
    requires Possible(env, j)
    ensures var d := InfoDict(env, j);
      && DictFits(d, 3)
      && Get(d, k) == if k == LayoutKey(j) then Some(LayoutValue(j)) else BaseGet(env, j, k)
  {
    var base := InfoBase(env, j, Pieces(env, j));
    InfoBaseGet(env, j, k);
    var flagged := if j.isPrivate then Put(base, PRIVATE, Int(1)) else base;
    PutFits(base, PRIVATE, Int(1), 3);
    GetPut(base, PRIVATE, Int(1), k);
    LayoutFits(env, j);
    PutFits(flagged, LayoutKey(j), LayoutValue(j), 3);
    GetPut(flagged, LayoutKey(j), LayoutValue(j), k);
    assert InfoDict(env, j) == Put(flagged, LayoutKey(j), LayoutValue(j));
  }

  lemma LayoutFits(env: Env, j: Job)
    requires Possible(env, j)
    ensures Fits(LayoutValue(j), 3)
  {
    if !j.single { FilesFit(env, j.files); }
  }

  /** What the loader should make of the job's metadata. */
  function Described(env: Env, j: Job): Info
    requires j.pieceLength > 0 && j.files != []
  {
    Info(j.name, j.pieceLength, Hashes(env.sha1, Chunks(Concat(Contents(j.files)), j.pieceLength)),
         if j.single then Single(|j.files[0].content|) else Multi(Entries(j.files)), j.isPrivate)
  }

  /** Exactly which jobs the loader accepts; the creator checks none of this. */
  predicate Loadable(j: Job)
  {
    && j.pieceLength <= MAX_PIECE_LENGTH
    && !UnsafeComponentName(j.name)
    && (j.single || SafeFiles(j.files))
  }

  /** The keys the loader looks up in an info dictionary. */
  predicate LooksUp(k: bytes)
  {
    k == NAME || k == PIECE_LENGTH || k == PIECES || k == PRIVATE || k == LENGTH || k == FILES
  }

  /** `d` answers every lookup the loader makes as the job's info dictionary does. */
  ghost predicate Answers(env: Env, j: Job, d: seq<Entry>)
    requires Possible(env, j)
  {
    forall k :: LooksUp(k) ==> Get(d, k) == if k == LayoutKey(j) then Some(LayoutValue(j)) else BaseGet(env, j, k)
  }

  lemma InfoDictAnswers(env: Env, j: Job)
    requires Possible(env, j)
    ensures Answers(env, j, InfoDict(env, j))
  {
    forall k | LooksUp(k) ensures Get(InfoDict(env, j), k) == if k == LayoutKey(j) then Some(LayoutValue(j)) else BaseGet(env, j, k) {
      InfoDictGet(env, j, k);
    }
  }

  lemma LayoutLoads(env: Env, j: Job, d: seq<Entry>)
    requires Possible(env, j) && Answers(env, j, d)
    ensures var r := LoadLayout(env, d);
      && (r.Ok? <==> j.single || SafeFiles(j.files))
      && (r.Ok? ==> r.value == Described(env, j).files)
  {
    if j.single {
      assert j.files[0] in j.files;
      assert Get(d, FILES) == None;
    } else {
      LoadFileValues(env, j.files);
    }
  }

  lemma DescribedTotal(env: Env, j: Job)
    requires Possible(env, j)
    ensures TotalLength(Described(env, j).files) == |Concat(Contents(j.files))|
  {
    if j.single {
      assert Contents(j.files)[1..] == [];
      assert Concat(Contents(j.files)) == j.files[0].content + [];
    } else {
      EntriesTotal(j.files);
    }
  }

  /** The loader's length and count checks accept what the hasher produced. */
  lemma CountsAccepted(env: Env, j: Job)
    requires Possible(env, j)
    ensures CheckCounts(Described(env, j)) == Ok(Described(env, j))
  {
    DescribedTotal(env, j);
    ChunksCount(Concat(Contents(j.files)), j.pieceLength);
  }

  lemma PiecesLoad(env: Env, j: Job, d: seq<Entry>)
    requires Possible(env, j) && Answers(env, j, d)
    ensures var r := LoadPieces(env, d, j.name, j.pieceLength);
      && (r.Ok? <==> j.single || SafeFiles(j.files))
      && (r.Ok? ==> r.value == Described(env, j))
  {
    var ps := Pieces(env, j);
    PieceCount(env.sha1, Concat(Contents(j.files)), j.pieceLength);
    assert Get(d, PIECES) == Some(Str(ps));
    assert Get(d, PRIVATE) == if j.isPrivate then Some(Int(1)) else None;
    LayoutLoads(env, j, d);
    CountsAccepted(env, j);
    var files := LoadLayout(env, d);
    assert files.Ok? ==> LoadPieces(env, d, j.name, j.pieceLength) == CheckCounts(Described(env, j));
  }

  lemma InfoLoads(env: Env, j: Job, d: seq<Entry>)
    requires Possible(env, j) && Answers(env, j, d)
    ensures var r := LoadInfo(env, Dict(d));
      && (r.Ok? <==> Loadable(j))
      && (r.Ok? ==> r.value == Described(env, j))
  {
    assert Get(d, NAME) == Some(Str(j.name));
    assert Get(d, PIECE_LENGTH) == Some(Int(AsI64(j.pieceLength)));
    if j.pieceLength <= MAX_PIECE_LENGTH {
      PiecesLoad(env, j, d);
    }
  }

  // ---- the whole file ----

  lemma TopDictGets(env: Env, info: Value, trackers: seq<bytes>)
    requires Fits(info, 4)
    requires forall t :: t in trackers ==> IsText(env, t)
    ensures var d := TopDict(info, trackers);
      && DictFits(d, 4)
      && Get(d, INFO) == Some(info)
      && Get(d, ANNOUNCE) == (if |trackers| > 0 then Some(Str(trackers[0])) else None)
      && Get(d, ANNOUNCE_LIST) == (if |trackers| > 1 then Some(List(Tiers(trackers))) else None)
  {
    var d1 := Put([], INFO, info);
    PutFits([], INFO, info, 4);
    GetPut([], INFO, info, INFO);
    GetPut([], INFO, info, ANNOUNCE);
    GetPut([], INFO, info, ANNOUNCE_LIST);
    if |trackers| > 0 {
      var a := Str(trackers[0]);
      assert trackers[0] in trackers;
      PutFits(d1, ANNOUNCE, a, 4);
      GetPut(d1, ANNOUNCE, a, INFO);
      GetPut(d1, ANNOUNCE, a, ANNOUNCE);
      GetPut(d1, ANNOUNCE, a, ANNOUNCE_LIST);
      if |trackers| > 1 {
        var d2, l := Put(d1, ANNOUNCE, a), List(Tiers(trackers));
        TiersHeight(trackers);
        TiersWellFormed(trackers);
        PutFits(d2, ANNOUNCE_LIST, l, 4);
        GetPut(d2, ANNOUNCE_LIST, l, INFO);
        GetPut(d2, ANNOUNCE_LIST, l, ANNOUNCE);
        GetPut(d2, ANNOUNCE_LIST, l, ANNOUNCE_LIST);
      }
    }
  }

  /** The created file parses back to its dictionary, and its info span is the hashed bytes. */
  lemma CreatedSpan(env: Env, j: Job)
    requires Possible(env, j)
    ensures var info := Dict(InfoDict(env, j));
      && ParseAll(Create(env, j).0) == Ok(Dict(TopDict(info, j.trackers)))
      && FindInfoSlice(Create(env, j).0) == Ok(Print(info))
  {
    var info := Dict(InfoDict(env, j));
    InfoDictGet(env, j, INFO);
    FitsDict(InfoDict(env, j), 3);
    TopDictGets(env, info, j.trackers);
    var top := TopDict(info, j.trackers);
    FitsDict(top, 4);
    PrintParseAll(Dict(top));
    FindInfoPrinted(top);
  }

  lemma TrackersLoad(env: Env, j: Job)
    requires Possible(env, j)
    ensures var d := TopDict(Dict(InfoDict(env, j)), j.trackers);
      && LoadAnnounce(env, d) == Ok(if |j.trackers| > 0 then Some(j.trackers[0]) else None)
      && LoadAnnounceList(env, d) == Ok(if |j.trackers| > 1 then TierLists(j.trackers) else [])
      && Get(d, INFO) == Some(Dict(InfoDict(env, j)))
  {
    InfoDictGet(env, j, INFO);
    FitsDict(InfoDict(env, j), 3);
    TopDictGets(env, Dict(InfoDict(env, j)), j.trackers);
    LoadTiersOf(env, j.trackers);
    if |j.trackers| > 0 { assert j.trackers[0] in j.trackers; }
  }

  /**
   * Creating a torrent and loading it back: the loader accepts the file exactly when the job's
   * piece length is at most 1 GiB and its names are safe, and then it reads back the job — the
   * same info hash, trackers, files, and the hashes of the consecutive pieces of the content.
   */
  lemma CreateThenLoad(env: Env, j: Job)
    requires Possible(env, j)
    ensures Load(env, Create(env, j).0).Ok? <==> Loadable(j)
    ensures Loadable(j) ==>
              Load(env, Create(env, j).0) == Ok(Torrent(
                                                  Create(env, j).1,
                                                  if |j.trackers| > 0 then Some(j.trackers[0]) else None,
                                                  if |j.trackers| > 1 then TierLists(j.trackers) else [],
                                                  Described(env, j)))
  {
    CreatedSpan(env, j);
    TrackersLoad(env, j);
    InfoDictAnswers(env, j);
    InfoLoads(env, j, InfoDict(env, j));
  }

  // ---- jobs the creator accepts and the loader refuses ----

  /** A one-byte file. */
  function Sample(name: bytes, pieceLength: nat): Job
  {
    Job(name, [InputFile([], [0])], true, [], pieceLength, false)
  }

  lemma SamplePossible(env: Env, name: bytes, pieceLength: nat)
    requires IsText(env, name) && 0 < pieceLength < U64_LIMIT
    ensures Possible(env, Sample(name, pieceLength))
  {
    var j := Sample(name, pieceLength);
    var c := Contents(j.files);
    assert j.files[1..] == [] && c == [[0]] && c[1..] == [];
    assert Concat(c) == [0] + [] == [0];
    ChunksCount([0], pieceLength);
    PieceCount(env.sha1, [0], pieceLength);
    SinglePiece(pieceLength);
  }

  lemma SinglePiece(n: nat)
    requires n > 0
    ensures CeilDiv(1, n) == 1
  {
    var q := CeilDiv(1, n);
  }

  /** One byte in a piece of one byte more than 1 GiB: created, and not loadable. */
  lemma OversizedPieceCreated(env: Env)
    ensures env.utf8([97]) ==>
        var j := Sample([97], MAX_PIECE_LENGTH + 1);
        Possible(env, j) && Load(env, Create(env, j).0).Err?
  {
    if env.utf8([97]) {
      SamplePossible(env, [97], MAX_PIECE_LENGTH + 1);
      CreateThenLoad(env, Sample([97], MAX_PIECE_LENGTH + 1));
    }
  }

  /** The name `..`: created, and not loadable. */
  lemma UnsafeNameCreated(env: Env)
    ensures env.utf8([46, 46]) ==>
        var j := Sample([46, 46], 1);
        Possible(env, j) && Load(env, Create(env, j).0).Err?
  {
    if env.utf8([46, 46]) {
      SamplePossible(env, [46, 46], 1);
      CreateThenLoad(env, Sample([46, 46], 1));
    }
  }
}
