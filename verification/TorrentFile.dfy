/** Loading a `.torrent` (`TorrentFile::from_bytes`) or a magnet's metadata (`from_info_dict_bytes`). */
module TorrentFile {
  import opened Bytes
  import opened Distinct
  import opened Bencode
  import opened BencodeLoops
  import opened InfoSpan
  import opened Paths
  import opened PieceHash

  const NAME: bytes := [110, 97, 109, 101]
  const PIECE_LENGTH: bytes := [112, 105, 101, 99, 101, 32, 108, 101, 110, 103, 116, 104]
  const PIECES: bytes := [112, 105, 101, 99, 101, 115]
  const PRIVATE: bytes := [112, 114, 105, 118, 97, 116, 101]
  const LENGTH: bytes := [108, 101, 110, 103, 116, 104]
  const FILES: bytes := [102, 105, 108, 101, 115]
  const PATH: bytes := [112, 97, 116, 104]

  const MAX_PIECE_LENGTH: int := 0x4000_0000
  const U64_LIMIT: int := 0x1_0000_0000_0000_0000

  datatype FileEntry = FileEntry(length: nat, path: seq<bytes>)
  datatype Files = Single(length: nat) | Multi(files: seq<FileEntry>)
  datatype Info = Info(name: bytes, pieceLength: nat, pieceHashes: seq<bytes>, files: Files, isPrivate: bool)
  datatype Torrent = Torrent(infoHash: Digest, announce: Option<bytes>, announceList: seq<seq<bytes>>, info: Info)

  /** What decides which byte strings are text, and the hash: neither is looked into. */
  datatype Env = Env(utf8: bytes -> bool, sha1: bytes -> Digest)

  // ---- loading ----

  function AsStr(env: Env, v: Value): (r: Result<bytes>)
  {
    if !v.Str? then Err(WrongType) else if env.utf8(v.b) then Ok(v.b) else Err(BadUtf8)
  }

  /** `u64::try_from` of a required integer field. */
  function RequiredNat(es: seq<Entry>, key: bytes): (r: Result<nat>)
  {
    match Get(es, key)
    case None => Err(MissingKey)
    case Some(v) => if !v.Int? then Err(WrongType) else if v.i < 0 then Err(Negative) else Ok(v.i)
  }

  predicate UnsafeComponentName(s: bytes)
  {
    s == [] || s == [46] || s == [46, 46] || 47 in s || 92 in s
  }

  function SafeComponent(env: Env, v: Value): (r: Result<bytes>)
  {
    var s := AsStr(env, v);
    if s.Ok? && UnsafeComponentName(s.value) then Err(UnsafeComponent) else s
  }

  function SafePath(env: Env, segs: seq<Value>): (r: Result<seq<bytes>>)
  {
    if segs == [] then Ok([])
    else
      var s := SafeComponent(env, segs[0]);
      if s.Err? then Err(s.error)
      else
        var rest := SafePath(env, segs[1..]);
        if rest.Err? then rest else Ok([s.value] + rest.value)
  }

  function LoadFile(env: Env, v: Value): (r: Result<FileEntry>)
  {
    if !v.Dict? then Err(WrongType)
    else
      var length := RequiredNat(v.entries, LENGTH);
      if length.Err? then Err(length.error)
      else
        match Get(v.entries, PATH)
        case None => Err(MissingKey)
        case Some(p) =>
          if !p.List? then Err(WrongType)
          else
            var path := SafePath(env, p.items);
            if path.Err? then Err(path.error) else Ok(FileEntry(length.value, path.value))
  }

  function LoadFiles(env: Env, vs: seq<Value>): (r: Result<seq<FileEntry>>)
  {
    if vs == [] then Ok([])
    else
      var f := LoadFile(env, vs[0]);
      if f.Err? then Err(f.error)
      else
        var rest := LoadFiles(env, vs[1..]);
        if rest.Err? then rest else Ok([f.value] + rest.value)
  }

  function LoadLayout(env: Env, es: seq<Entry>): (r: Result<Files>)
  {
    match Get(es, FILES)
    case Some(v) =>
      if !v.List? then Err(WrongType)
      else
        var fs := LoadFiles(env, v.items);
        if fs.Err? then Err(fs.error) else Ok(Multi(fs.value))
    case None =>
      var length := RequiredNat(es, LENGTH);
      if length.Err? then Err(length.error) else Ok(Single(length.value))
  }

  function SumLengths(fs: seq<FileEntry>): nat
  {
    if fs == [] then 0 else fs[0].length + SumLengths(fs[1..])
  }

  function TotalLength(files: Files): nat
  {
    match files
    case Single(length) => length
    case Multi(fs) => SumLengths(fs)
  }

  /** The checks `Info::from_value` ends with. `LengthOverflow` stands for the panic of the overflow-checked sum. */
  function CheckCounts(info: Info): (r: Result<Info>)
    requires info.pieceLength > 0
  {
    var total := TotalLength(info.files);
    if total >= U64_LIMIT then Err(LengthOverflow)
    else if total == 0 then Err(ZeroLength)
    else if |info.pieceHashes| != CeilDiv(total, info.pieceLength) then Err(PieceCountMismatch)
    else Ok(info)
  }

  function LoadInfo(env: Env, v: Value): (r: Result<Info>)
  {
    if !v.Dict? then Err(WrongType)
    else
      var es := v.entries;
      var nameV := Get(es, NAME);
      if nameV.None? then Err(MissingKey)
      else
        var name := SafeComponent(env, nameV.value);
        if name.Err? then Err(name.error)
        else
          var pl := RequiredNat(es, PIECE_LENGTH);
          if pl.Err? then Err(pl.error)
          else if pl.value == 0 || pl.value > MAX_PIECE_LENGTH then Err(ImplausiblePieceLength)
          else LoadPieces(env, es, name.value, pl.value)
  }

  function LoadPieces(env: Env, es: seq<Entry>, name: bytes, pieceLength: nat): (r: Result<Info>)
    requires pieceLength > 0
  {
    var pieces := Get(es, PIECES);
    if pieces.None? then Err(MissingKey)
    else if !pieces.value.Str? then Err(WrongType)
    else if |pieces.value.b| % 20 != 0 then Err(RaggedPieces)
    else
      var p := Get(es, PRIVATE);
      var isPrivate := p.Some? && p.value.Int? && p.value.i != 0;
      var files := LoadLayout(env, es);
      if files.Err? then Err(files.error)
      else CheckCounts(Info(name, pieceLength, Chunks(pieces.value.b, 20), files.value, isPrivate))
  }

  function LoadTier(env: Env, urls: seq<Value>): (r: Result<seq<bytes>>)
  {
    if urls == [] then Ok([])
    else
      var u := AsStr(env, urls[0]);
      if u.Err? then Err(u.error)
      else
        var rest := LoadTier(env, urls[1..]);
        if rest.Err? then rest else Ok([u.value] + rest.value)
  }

  function LoadTiers(env: Env, tiers: seq<Value>): (r: Result<seq<seq<bytes>>>)
  {
    if tiers == [] then Ok([])
    else if !tiers[0].List? then Err(WrongType)
    else
      var t := LoadTier(env, tiers[0].items);
      if t.Err? then Err(t.error)
      else
        var rest := LoadTiers(env, tiers[1..]);
        if rest.Err? then rest else Ok([t.value] + rest.value)
  }

  function LoadAnnounce(env: Env, es: seq<Entry>): (r: Result<Option<bytes>>)
  {
    match Get(es, ANNOUNCE)
    case None => Ok(None)
    case Some(v) => var s := AsStr(env, v); if s.Err? then Err(s.error) else Ok(Some(s.value))
  }

  function LoadAnnounceList(env: Env, es: seq<Entry>): (r: Result<seq<seq<bytes>>>)
  {
    match Get(es, ANNOUNCE_LIST)
    case None => Ok([])
    case Some(v) => if v.List? then LoadTiers(env, v.items) else Err(WrongType)
  }

  function LoadRoot(env: Env, root: Value, hash: Digest): (r: Result<Torrent>)
  {
    if !root.Dict? then Err(WrongType)
    else
      var a := LoadAnnounce(env, root.entries);
      if a.Err? then Err(a.error)
      else
        var l := LoadAnnounceList(env, root.entries);
        if l.Err? then Err(l.error)
        else
          var infoV := Get(root.entries, INFO);
          if infoV.None? then Err(MissingKey)
          else
            var info := LoadInfo(env, infoV.value);
            if info.Err? then Err(info.error) else Ok(Torrent(hash, a.value, l.value, info.value))
  }

  /** `TorrentFile::from_bytes`. */
  function Load(env: Env, input: bytes): (r: Result<Torrent>)
  {
    var root := ParseAll(input);
    if root.Err? then Err(root.error)
    else
      var span := FindInfoSlice(input);
      if span.Err? then Err(span.error) else LoadRoot(env, root.value, env.sha1(span.value))
  }

  /** No component of any path could leave the download directory. */
  ghost predicate SafeLayout(files: Files)
  {
    files.Multi? ==> SafeEntries(files.files)
  }

  ghost predicate SafeEntries(fs: seq<FileEntry>)
  {
    forall f :: f in fs ==> forall c :: c in f.path ==> Plain(c)
  }

  lemma {:induction false} SafePathSound(env: Env, segs: seq<Value>)
    ensures
      var r := SafePath(env, segs);
      r.Ok? ==> forall c :: c in r.value ==> Plain(c)
  {
    if segs != [] {
      SafePathSound(env, segs[1..]);
    }
  }

  lemma {:induction false} LoadFilesSafe(env: Env, vs: seq<Value>)
    ensures var r := LoadFiles(env, vs); r.Ok? ==> SafeEntries(r.value)
  {
    hide Plain;
    hide SafePath;
    if vs != [] {
      LoadFilesSafe(env, vs[1..]);
      if LoadFile(env, vs[0]).Ok? {
        SafePathSound(env, Get(vs[0].entries, PATH).value.items);
      }
    }
  }

  /** What every accepted info dictionary satisfies. */
  ghost predicate SoundInfo(i: Info)
  {
    && 0 < i.pieceLength <= MAX_PIECE_LENGTH
    && 0 < TotalLength(i.files) < U64_LIMIT
    && |i.pieceHashes| == CeilDiv(TotalLength(i.files), i.pieceLength)
    && Plain(i.name) && SafeLayout(i.files)
  }

  lemma LoadInfoSound(env: Env, v: Value)
    ensures LoadInfo(env, v).Ok? ==> SoundInfo(LoadInfo(env, v).value)
  {
    if LoadInfo(env, v).Ok? {
      var layout := Get(v.entries, FILES);
      if layout.Some? {
        LoadFilesSafe(env, layout.value.items);
      }
    }
  }

  /**
   * Every loaded torrent: its hash is that of a stretch of the file that parses, on its own, to
   * the very value its metadata was read from; its pieces exactly cover a non-empty length, and
   * neither its name nor any path component could leave the download directory.
   */
  lemma LoadSound(env: Env, input: bytes)
    ensures Load(env, input).Ok? ==>
        && FindInfoSlice(input).Ok?
        && var t, span := Load(env, input).value, FindInfoSlice(input).value;
           && t.infoHash == env.sha1(span)
           && ParseAll(span).Ok?
           && LoadInfo(env, ParseAll(span).value) == Ok(t.info)
           && SoundInfo(t.info)
  {
    if Load(env, input).Ok? {
      InfoSpanExact(input);
      hide LoadInfo;
      hide SoundInfo;
      LoadRootInfo(env, ParseAll(input).value, env.sha1(FindInfoSlice(input).value));
      LoadInfoSound(env, ParseAll(FindInfoSlice(input).value).value);
    }
  }

  lemma LoadRootInfo(env: Env, root: Value, hash: Digest)
    requires LoadRoot(env, root, hash).Ok?
    ensures root.Dict? && Get(root.entries, INFO).Some?
    ensures LoadRoot(env, root, hash).value.infoHash == hash
    ensures LoadInfo(env, Get(root.entries, INFO).value) == Ok(LoadRoot(env, root, hash).value.info)
  {
  }

  // ---- metadata fetched for a magnet link ----

  /** `TorrentFile::from_info_dict_bytes`: all trackers in one tier. */
  function FromInfoDict(env: Env, info: bytes, hash: Digest, trackers: seq<bytes>): (r: Result<Torrent>)
  {
    if env.sha1(info) != hash then Err(Malformed)
    else
      var v := ParseAll(info);
      if v.Err? then Err(v.error)
      else
        var i := LoadInfo(env, v.value);
        if i.Err? then Err(i.error)
        else Ok(Torrent(hash, None, if trackers == [] then [] else [trackers], i.value))
  }

  function AddTiers(out: seq<bytes>, tiers: seq<seq<bytes>>): seq<bytes>
  {
    if tiers == [] then out else AddNew(AddTiers(out, tiers[..|tiers| - 1]), tiers[|tiers| - 1])
  }

  /** `trackers`: every tier in order, then the single tracker, each once. */
  function TrackerList(t: Torrent): seq<bytes>
  {
    var out := AddTiers([], t.announceList);
    if t.announce.Some? then AddNew(out, [t.announce.value]) else out
  }

  method TrackersLoop(t: Torrent) returns (out: seq<bytes>)
    ensures out == TrackerList(t)
    ensures NoRepeats(out)
    ensures forall u :: u in out <==> t.announce == Some(u) || exists n :: 0 <= n < |t.announceList| && u in t.announceList[n]
  {
    out := [];
    var tiers := t.announceList;
    for i := 0 to |tiers|
      invariant out == AddTiers([], tiers[..i])
    {
      assert tiers[..i + 1][..i] == tiers[..i];
      out := PushNew(out, tiers[i]);
    }
    assert tiers[..|tiers|] == tiers;
    if t.announce.Some? {
      out := PushNew(out, [t.announce.value]);
    }
    forall u ensures u in out <==> t.announce == Some(u) || exists n :: 0 <= n < |tiers| && u in tiers[n] {
      TrackerMember(t, u);
    }
    TrackerMember(t, []);
  }

  lemma {:induction false} TierMember(tiers: seq<seq<bytes>>, u: bytes)
    ensures NoRepeats(AddTiers([], tiers))
    ensures u in AddTiers([], tiers) <==> exists n :: 0 <= n < |tiers| && u in tiers[n]
  {
    if tiers != [] {
      var front, last := tiers[..|tiers| - 1], tiers[|tiers| - 1];
      TierMember(front, u);
      AddNewMembers(AddTiers([], front), last, u);
      assert forall n :: 0 <= n < |front| ==> front[n] == tiers[n];
    }
  }

  lemma TrackerMember(t: Torrent, u: bytes)
    ensures NoRepeats(TrackerList(t))
    ensures u in TrackerList(t) <==>
            t.announce == Some(u) || exists n :: 0 <= n < |t.announceList| && u in t.announceList[n]
  {
    TierMember(t.announceList, u);
    if t.announce.Some? {
      AddNewMembers(AddTiers([], t.announceList), [t.announce.value], u);
    }
  }

  /** The loop over the `files` list. */
  method LoadFilesLoop(env: Env, vs: seq<Value>) returns (r: Result<seq<FileEntry>>)
    ensures r == LoadFiles(env, vs)
  {
    var entries: seq<FileEntry> := [];
    ghost var all := LoadFiles(env, vs);
    assert vs[0..] == vs && (all.Ok? ==> [] + all.value == all.value);
    for n := 0 to |vs|
      invariant LoadFiles(env, vs) == WithFiles(entries, LoadFiles(env, vs[n..]))
    {
      var f := LoadFile(env, vs[n]);
      assert vs[n..][0] == vs[n] && vs[n..][1..] == vs[n + 1..];
      if f.Err? { return Err(f.error); }
      ghost var rest := LoadFiles(env, vs[n + 1..]);
      assert rest.Ok? ==> entries + ([f.value] + rest.value) == entries + [f.value] + rest.value;
      entries := entries + [f.value];
    }
    assert entries + [] == entries;
    r := Ok(entries);
  }

  ghost function WithFiles(entries: seq<FileEntry>, rest: Result<seq<FileEntry>>): Result<seq<FileEntry>>
  {
    if rest.Err? then rest else Ok(entries + rest.value)
  }
}
