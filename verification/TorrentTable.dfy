/** Exactly which metadata is accepted, and what is read from it. Keys are spelt out, and what a component may
    be is said through where it resolves. */
module TorrentTable {
  import opened Bytes
  import opened Bencode
  import opened BencodeLoops
  import opened InfoSpan
  import opened PieceHash
  import opened Paths
  import opened TorrentFile

  lemma Keys()
    ensures NAME == Ascii("name") && PIECE_LENGTH == Ascii("piece length") && PIECES == Ascii("pieces")
    ensures PRIVATE == Ascii("private") && LENGTH == Ascii("length") && FILES == Ascii("files") && PATH == Ascii("path")
    ensures INFO == Ascii("info") && ANNOUNCE == Ascii("announce") && ANNOUNCE_LIST == Ascii("announce-list")
  {
  }

  ghost predicate TextField(env: Env, v: Option<Value>)
  {
    v.Some? && v.value.Str? && env.utf8(v.value.b)
  }

  ghost predicate NatField(v: Option<Value>)
  {
    v.Some? && v.value.Int? && v.value.i >= 0
  }

  /** A text that, joined onto a directory, names one thing directly inside it. */
  ghost predicate GoodComponent(env: Env, v: Value)
  {
    v.Str? && env.utf8(v.b) && OneLevel(v.b)
  }

  ghost predicate GoodPath(env: Env, v: Option<Value>)
  {
    v.Some? && v.value.List? && forall i :: 0 <= i < |v.value.items| ==> GoodComponent(env, v.value.items[i])
  }

  ghost predicate PathRead(v: Option<Value>, path: seq<bytes>)
  {
    && v.Some? && v.value.List? && |path| == |v.value.items|
    && forall i :: 0 <= i < |path| ==> v.value.items[i].Str? && path[i] == v.value.items[i].b
  }

  ghost predicate GoodFile(env: Env, v: Value)
  {
    v.Dict? && NatField(Get(v.entries, Ascii("length"))) && GoodPath(env, Get(v.entries, Ascii("path")))
  }

  ghost predicate FileRead(v: Value, f: FileEntry)
  {
    && v.Dict? && NatField(Get(v.entries, Ascii("length")))
    && f.length == Get(v.entries, Ascii("length")).value.i
    && PathRead(Get(v.entries, Ascii("path")), f.path)
  }

  ghost predicate GoodLayout(env: Env, es: seq<Entry>)
  {
    var files := Get(es, Ascii("files"));
    if files.Some? then files.value.List? && forall i :: 0 <= i < |files.value.items| ==> GoodFile(env, files.value.items[i])
    else NatField(Get(es, Ascii("length")))
  }

  /** A `files` list wins over a `length`. */
  ghost predicate LayoutRead(es: seq<Entry>, files: Files)
  {
    var list, length := Get(es, Ascii("files")), Get(es, Ascii("length"));
    if list.Some? then
      && list.value.List? && files.Multi? && |files.files| == |list.value.items|
      && forall i :: 0 <= i < |files.files| ==> FileRead(list.value.items[i], files.files[i])
    else NatField(length) && files == Single(length.value.i)
  }

  /** What the layout adds up to. */
  ghost function LengthOf(v: Value): nat
  {
    if v.Dict? && NatField(Get(v.entries, Ascii("length"))) then Get(v.entries, Ascii("length")).value.i else 0
  }

  ghost function Sum(vs: seq<Value>): nat
  {
    if vs == [] then 0 else LengthOf(vs[0]) + Sum(vs[1..])
  }

  ghost function Total(es: seq<Entry>): nat
  {
    var list := Get(es, Ascii("files"));
    if list.Some? then (if list.value.List? then Sum(list.value.items) else 0) else LengthOf(Dict(es))
  }

  ghost predicate GoodPieces(es: seq<Entry>)
  {
    var pl, pieces := Get(es, Ascii("piece length")), Get(es, Ascii("pieces"));
    && pl.Some? && pl.value.Int? && 0 < pl.value.i <= 0x4000_0000
    && pieces.Some? && pieces.value.Str? && |pieces.value.b| % 20 == 0
  }

  /** As many hashes as pieces: the last piece is not empty and nothing is left over. */
  ghost predicate Covers(n: nat, pieceLength: nat, total: nat)
  {
    (n - 1) * pieceLength < total <= n * pieceLength
  }

  ghost predicate GoodInfo(env: Env, v: Value)
  {
    && v.Dict?
    && TextField(env, Get(v.entries, Ascii("name"))) && OneLevel(Get(v.entries, Ascii("name")).value.b)
    && GoodPieces(v.entries) && GoodLayout(env, v.entries)
    && 0 < Total(v.entries) < 0x1_0000_0000_0000_0000
    && Covers(|Get(v.entries, Ascii("pieces")).value.b| / 20, Get(v.entries, Ascii("piece length")).value.i, Total(v.entries))
  }

  ghost predicate HashesRead(b: bytes, hashes: seq<bytes>)
  {
    20 * |hashes| == |b| && forall k :: 0 <= k < |hashes| ==> hashes[k] == b[20 * k..20 * k + 20]
  }

  ghost predicate InfoRead(es: seq<Entry>, i: Info)
  {
    var name, private := Get(es, Ascii("name")), Get(es, Ascii("private"));
    && GoodPieces(es)
    && name.Some? && name.value.Str? && i.name == name.value.b
    && i.pieceLength == Get(es, Ascii("piece length")).value.i
    && HashesRead(Get(es, Ascii("pieces")).value.b, i.pieceHashes)
    && LayoutRead(es, i.files)
    && (i.isPrivate <==> private.Some? && private.value.Int? && private.value.i != 0)
  }

  // ---- proofs ----

  lemma SafeIff(env: Env, v: Value)
    ensures SafeComponent(env, v).Ok? <==> GoodComponent(env, v)
    ensures SafeComponent(env, v).Ok? ==> SafeComponent(env, v).value == v.b
  {
    hide OneLevel;
    if v.Str? { OneLevelIffPlain(v.b); }
  }

  lemma {:induction false} SafePathIff(env: Env, segs: seq<Value>)
    ensures
      var r := SafePath(env, segs);
      && (r.Ok? <==> forall i :: 0 <= i < |segs| ==> GoodComponent(env, segs[i]))
      && (r.Ok? ==> PathRead(Some(List(segs)), r.value))
  {
    hide SafeComponent;
    hide OneLevel;
    if segs != [] {
      SafeIff(env, segs[0]);
      SafePathIff(env, segs[1..]);
      assert forall i :: 0 < i < |segs| ==> segs[i] == segs[1..][i - 1];
    }
  }

  lemma LoadFileIff(env: Env, v: Value)
    ensures LoadFile(env, v).Ok? <==> GoodFile(env, v)
    ensures LoadFile(env, v).Ok? ==> FileRead(v, LoadFile(env, v).value)
  {
    Keys();
    hide Ascii;
    hide SafePath;
    hide GoodComponent;
    if v.Dict? && Get(v.entries, PATH).Some? && Get(v.entries, PATH).value.List? {
      SafePathIff(env, Get(v.entries, PATH).value.items);
    }
  }

  lemma {:induction false} LoadFilesIff(env: Env, vs: seq<Value>)
    ensures
      var r := LoadFiles(env, vs);
      && (r.Ok? <==> forall i :: 0 <= i < |vs| ==> GoodFile(env, vs[i]))
      && (r.Ok? ==> |r.value| == |vs| && (forall i :: 0 <= i < |vs| ==> FileRead(vs[i], r.value[i])) && SumLengths(r.value) == Sum(vs))
  {
    hide GoodFile;
    hide LoadFile;
    if vs != [] {
      LoadFileIff(env, vs[0]);
      LoadFilesIff(env, vs[1..]);
      assert forall i :: 0 < i < |vs| ==> vs[i] == vs[1..][i - 1];
      var r := LoadFiles(env, vs);
      if r.Ok? {
        assert r.value[1..] == LoadFiles(env, vs[1..]).value;
      }
    }
  }

  lemma LayoutIff(env: Env, es: seq<Entry>)
    ensures
      var r := LoadLayout(env, es);
      && (r.Ok? <==> GoodLayout(env, es))
      && (r.Ok? ==> LayoutRead(es, r.value) && TotalLength(r.value) == Total(es))
  {
    Keys();
    hide Ascii;
    hide GoodFile;
    hide FileRead;
    hide LoadFiles;
    var files := Get(es, FILES);
    if files.Some? && files.value.List? {
      LoadFilesIff(env, files.value.items);
    }
  }

  lemma {:induction false} ChunksAre(b: bytes)
    requires |b| % 20 == 0
    ensures HashesRead(b, Chunks(b, 20))
    decreases |b|
  {
    if |b| > 20 {
      ChunksAre(b[20..]);
      var cs, rest := Chunks(b, 20), Chunks(b[20..], 20);
      forall k | 0 <= k < |cs| ensures cs[k] == b[20 * k..20 * k + 20] {
        if k > 0 {
          assert cs[k] == rest[k - 1];
          assert b[20..][20 * (k - 1)..20 * (k - 1) + 20] == b[20 * k..20 * k + 20];
        }
      }
    }
  }

  lemma CountIff(n: nat, pieceLength: nat, total: nat)
    requires pieceLength > 0 && total > 0
    ensures n == CeilDiv(total, pieceLength) <==> Covers(n, pieceLength, total)
  {
    var q := CeilDiv(total, pieceLength);
    var r := (total + pieceLength - 1) % pieceLength;
    assert total + pieceLength - 1 == q * pieceLength + r;
    assert (q - 1) * pieceLength == q * pieceLength - pieceLength;
    Monotone(n, q - 1, pieceLength);
    Monotone(q, n - 1, pieceLength);
  }

  lemma Monotone(a: int, b: int, c: nat)
    ensures a <= b ==> a * c <= b * c
  {
  }

  lemma LoadPiecesIff(env: Env, es: seq<Entry>, name: bytes, pieceLength: nat)
    requires 0 < pieceLength
    ensures
      var r, pieces := LoadPieces(env, es, name, pieceLength), Get(es, Ascii("pieces"));
      && (r.Ok? <==>
            && pieces.Some? && pieces.value.Str? && |pieces.value.b| % 20 == 0 && GoodLayout(env, es)
            && 0 < Total(es) < 0x1_0000_0000_0000_0000 && Covers(|pieces.value.b| / 20, pieceLength, Total(es)))
      && (r.Ok? ==>
            var private := Get(es, Ascii("private"));
            && r.value.name == name && r.value.pieceLength == pieceLength
            && HashesRead(pieces.value.b, r.value.pieceHashes) && LayoutRead(es, r.value.files)
            && (r.value.isPrivate <==> private.Some? && private.value.Int? && private.value.i != 0))
  {
    Keys();
    LayoutIff(env, es);
    hide Ascii;
    hide Get;
    hide Chunks;
    hide LoadLayout;
    hide GoodLayout;
    hide LayoutRead;
    hide Total;
    hide TotalLength;
    hide CeilDiv;
    hide Covers;
    var pieces := Get(es, PIECES);
    if pieces.Some? && pieces.value.Str? && |pieces.value.b| % 20 == 0 {
      ChunksAre(pieces.value.b);
      if Total(es) > 0 { CountIff(|pieces.value.b| / 20, pieceLength, Total(es)); }
    }
  }

  /** An info dictionary is accepted exactly when it is good, and then read as it stands. */
  lemma LoadInfoIff(env: Env, v: Value)
    ensures LoadInfo(env, v).Ok? <==> GoodInfo(env, v)
    ensures LoadInfo(env, v).Ok? ==> InfoRead(v.entries, LoadInfo(env, v).value)
  {
    if v.Dict? {
      Keys();
      hide Ascii;
      hide Get;
      hide SafeComponent;
      hide LoadPieces;
      hide OneLevel;
      hide GoodLayout;
      hide LayoutRead;
      hide Total;
      hide Covers;
      hide HashesRead;
      var name, pl := Get(v.entries, NAME), Get(v.entries, PIECE_LENGTH);
      if name.Some? {
        SafeIff(env, name.value);
        if pl.Some? && pl.value.Int? && pl.value.i > 0 && name.value.Str? {
          LoadPiecesIff(env, v.entries, name.value.b, pl.value.i);
        }
      }
    }
  }

  /** Wherever it is put, everything a loaded torrent names lies strictly below, one level per component. */
  ghost predicate StaysBelow(i: Info)
  {
    && (forall root :: Resolve(root, [i.name]) == root + [i.name])
    && (i.files.Multi? ==>
          forall root, f :: f in i.files.files ==> Resolve(root, [i.name] + f.path) == root + [i.name] + f.path)
  }

  lemma InfoStaysBelow(env: Env, v: Value)
    requires GoodInfo(env, v)
    ensures LoadInfo(env, v).Ok? && StaysBelow(LoadInfo(env, v).value)
  {
    LoadInfoIff(env, v);
    var i := LoadInfo(env, v).value;
    hide LoadInfo;
    hide OneLevel;
    hide Resolve;
    hide GoodLayout;
    hide LayoutRead;
    hide HashesRead;
    hide Total;
    hide Covers;
    forall root ensures Resolve(root, [i.name]) == root + [i.name] {
      ResolveDown(root, [i.name]);
    }
    if i.files.Multi? {
      forall root, f | f in i.files.files ensures Resolve(root, [i.name] + f.path) == root + [i.name] + f.path {
        FileStaysBelow(env, v.entries, i, f, root);
      }
    }
  }

  lemma FileStaysBelow(env: Env, es: seq<Entry>, i: Info, f: FileEntry, root: seq<bytes>)
    requires GoodLayout(env, es) && LayoutRead(es, i.files) && i.files.Multi? && f in i.files.files && OneLevel(i.name)
    ensures Resolve(root, [i.name] + f.path) == root + [i.name] + f.path
  {
    hide OneLevel;
    hide Resolve;
    hide Get;
    hide Ascii;
    var k :| 0 <= k < |i.files.files| && i.files.files[k] == f;
    var item := Get(es, Ascii("files")).value.items[k];
    assert GoodFile(env, item) && FileRead(item, f);
    PathOneLevel(env, Get(item.entries, Ascii("path")), f.path);
    ResolveDown(root, [i.name] + f.path);
    assert root + ([i.name] + f.path) == root + [i.name] + f.path;
  }

  lemma PathOneLevel(env: Env, v: Option<Value>, path: seq<bytes>)
    requires GoodPath(env, v) && PathRead(v, path)
    ensures forall t :: t in path ==> OneLevel(t)
  {
    hide OneLevel;
    forall t | t in path ensures OneLevel(t) {
      var j :| 0 <= j < |path| && path[j] == t;
      assert GoodComponent(env, v.value.items[j]);
    }
  }

  // ---- the whole file ----

  ghost predicate GoodTier(env: Env, v: Value)
  {
    v.List? && forall j :: 0 <= j < |v.items| ==> TextField(env, Some(v.items[j]))
  }

  ghost predicate TierRead(v: Value, urls: seq<bytes>)
  {
    v.List? && |urls| == |v.items| && forall j :: 0 <= j < |urls| ==> v.items[j].Str? && urls[j] == v.items[j].b
  }

  lemma {:induction false} TierIff(env: Env, urls: seq<Value>)
    ensures
      var r := LoadTier(env, urls);
      (r.Ok? <==> GoodTier(env, List(urls))) && (r.Ok? ==> TierRead(List(urls), r.value))
  {
    if urls != [] {
      TierIff(env, urls[1..]);
      assert forall i :: 0 < i < |urls| ==> urls[i] == urls[1..][i - 1];
    }
  }

  lemma {:induction false} TiersIff(env: Env, tiers: seq<Value>)
    ensures
      var r := LoadTiers(env, tiers);
      && (r.Ok? <==> forall i :: 0 <= i < |tiers| ==> GoodTier(env, tiers[i]))
      && (r.Ok? ==> |r.value| == |tiers| && forall i :: 0 <= i < |tiers| ==> TierRead(tiers[i], r.value[i]))
  {
    hide LoadTier;
    if tiers != [] {
      if tiers[0].List? { TierIff(env, tiers[0].items); }
      hide GoodTier;
      hide TierRead;
      TiersIff(env, tiers[1..]);
      assert forall i :: 0 < i < |tiers| ==> tiers[i] == tiers[1..][i - 1];
    }
  }

  ghost predicate GoodTrackers(env: Env, es: seq<Entry>)
  {
    var one, list := Get(es, Ascii("announce")), Get(es, Ascii("announce-list"));
    && (one.Some? ==> TextField(env, one))
    && (list.Some? ==> list.value.List? && forall i :: 0 <= i < |list.value.items| ==> GoodTier(env, list.value.items[i]))
  }

  ghost predicate TrackersRead(es: seq<Entry>, t: Torrent)
  {
    var one, list := Get(es, Ascii("announce")), Get(es, Ascii("announce-list"));
    && (one.None? ==> t.announce == None)
    && (one.Some? ==> one.value.Str? && t.announce == Some(one.value.b))
    && (list.None? ==> t.announceList == [])
    && (list.Some? ==>
          && list.value.List? && |t.announceList| == |list.value.items|
          && forall i :: 0 <= i < |t.announceList| ==> TierRead(list.value.items[i], t.announceList[i]))
  }

  lemma RootIff(env: Env, root: Value, hash: Digest)
    ensures
      var r := LoadRoot(env, root, hash);
      && (r.Ok? <==>
            && root.Dict? && GoodTrackers(env, root.entries)
            && Get(root.entries, Ascii("info")).Some? && GoodInfo(env, Get(root.entries, Ascii("info")).value))
      && (r.Ok? ==>
            && r.value.infoHash == hash && TrackersRead(root.entries, r.value)
            && Get(root.entries, Ascii("info")).value.Dict?
            && InfoRead(Get(root.entries, Ascii("info")).value.entries, r.value.info) && StaysBelow(r.value.info))
  {
    if root.Dict? {
      Keys();
      hide Ascii;
      hide Get;
      hide LoadInfo;
      hide GoodTier;
      hide TierRead;
      hide InfoRead;
      hide StaysBelow;
      var list, info := Get(root.entries, ANNOUNCE_LIST), Get(root.entries, INFO);
      if list.Some? && list.value.List? { TiersIff(env, list.value.items); }
      if info.Some? {
        LoadInfoIff(env, info.value);
        if GoodInfo(env, info.value) { InfoStaysBelow(env, info.value); }
      }
      hide GoodInfo;
    }
  }

  /**
   * Exactly which files load: those that parse as a dictionary with an info span, well-typed
   * trackers and good metadata. What is loaded reads as it stands, the hash is that of the bytes
   * of the info value, and everything named stays below the directory it is put in.
   */
  lemma LoadIff(env: Env, input: bytes)
    ensures
      var r, root, span := Load(env, input), ParseAll(input), FindInfoSlice(input);
      && (r.Ok? <==>
            && root.Ok? && span.Ok? && root.value.Dict? && GoodTrackers(env, root.value.entries)
            && Get(root.value.entries, Ascii("info")).Some? && GoodInfo(env, Get(root.value.entries, Ascii("info")).value))
      && (r.Ok? ==>
            && r.value.infoHash == env.sha1(span.value) && ParseAll(span.value) == Ok(Get(root.value.entries, Ascii("info")).value)
            && TrackersRead(root.value.entries, r.value)
            && InfoRead(Get(root.value.entries, Ascii("info")).value.entries, r.value.info)
            && StaysBelow(r.value.info))
  {
    Keys();
    hide Ascii;
    hide Get;
    hide LoadRoot;
    hide GoodTrackers;
    hide GoodInfo;
    hide InfoRead;
    hide StaysBelow;
    hide TrackersRead;
    var root, span := ParseAll(input), FindInfoSlice(input);
    if root.Ok? && span.Ok? {
      RootIff(env, root.value, env.sha1(span.value));
      InfoSpanExact(input);
    }
  }

  /** Metadata fetched for a magnet link is accepted exactly when it has the hash asked for and is good; its
      trackers become one tier. */
  lemma FromInfoIff(env: Env, info: bytes, hash: Digest, trackers: seq<bytes>)
    ensures
      var r, v := FromInfoDict(env, info, hash, trackers), ParseAll(info);
      && (r.Ok? <==> env.sha1(info) == hash && v.Ok? && GoodInfo(env, v.value))
      && (r.Ok? ==>
            && r.value.infoHash == hash && r.value.announce == None
            && (if trackers == [] then r.value.announceList == [] else r.value.announceList == [trackers])
            && InfoRead(v.value.entries, r.value.info) && StaysBelow(r.value.info))
  {
    hide GoodInfo;
    hide InfoRead;
    hide StaysBelow;
    hide LoadInfo;
    var v := ParseAll(info);
    if v.Ok? {
      LoadInfoIff(env, v.value);
      if GoodInfo(env, v.value) {
        InfoStaysBelow(env, v.value);
        GoodIsDict(env, v.value);
      }
    }
  }

  lemma GoodIsDict(env: Env, v: Value)
    requires GoodInfo(env, v)
    ensures v.Dict?
  {
  }
}
