/** Saving a torrent added by magnet link and loading it at the next start (`magnet_bootstrap` in `web.rs`). */
module MagnetTorrent {
  import opened Arith
  import opened Bytes
  import opened Distinct
  import opened Bencode
  import opened BencodeTheorems
  import opened BencodeLoops
  import opened InfoSpan
  import opened PieceHash
  import opened TorrentFile
  import opened CreateTorrent

  /** The root dictionary of the assembled file, key by key. */
  lemma AssembledGets(v: Value, trackers: seq<bytes>)
    ensures
      var es := HeadEntries(trackers) + [Entry(INFO, v)];
      && Get(es, INFO) == Some(v)
      && Get(es, ANNOUNCE) == (if trackers == [] then None else Some(Str(trackers[0])))
      && Get(es, ANNOUNCE_LIST) == (if trackers == [] then None else Some(List(Tiers(trackers))))
  {
    var tail := [Entry(INFO, v)];
    assert tail[1..] == [];
    if trackers == [] {
      assert HeadEntries(trackers) + tail == tail;
    } else {
      var h, l := AnnounceEntry(trackers), AnnounceListEntry(trackers);
      assert HeadEntries(trackers) + tail == [h] + ([l] + tail);
      forall k ensures Get([h] + ([l] + tail), k) == if h.key == k then Some(h.val) else if l.key == k then Some(l.val) else Get(tail, k) {
        GetCons(h, [l] + tail, k);
        GetCons(l, tail, k);
      }
    }
  }

  /** One tier per tracker, or one tier of all: the same trackers in the same order. */
  lemma {:induction false} SameTrackers(out: seq<bytes>, trackers: seq<bytes>)
    ensures AddTiers(out, TierLists(trackers)) == AddNew(out, trackers)
  {
    if trackers != [] {
      var n := |trackers| - 1;
      SameTrackers(out, trackers[..n]);
      TierListsSnoc(trackers);
      var ts := TierLists(trackers);
      assert ts[..|ts| - 1] == TierLists(trackers[..n]);
      assert trackers == trackers[..n] + [trackers[n]];
      AddNewConcat(out, trackers[..n], [trackers[n]]);
    }
  }

  lemma {:induction false} TierListsSnoc(trackers: seq<bytes>)
    requires trackers != []
    ensures TierLists(trackers) == TierLists(trackers[..|trackers| - 1]) + [[trackers[|trackers| - 1]]]
  {
    if |trackers| > 1 {
      TierListsSnoc(trackers[1..]);
      assert trackers[1..][..|trackers| - 2] == trackers[..|trackers| - 1][1..];
    } else {
      assert trackers[1..] == [] && trackers[..0] == [];
    }
  }

  lemma ReloadedTrackers(t: Torrent, trackers: seq<bytes>)
    requires t.announce == (if trackers == [] then None else Some(trackers[0])) && t.announceList == TierLists(trackers)
    ensures TrackerList(t) == AddTiers([], if trackers == [] then [] else [trackers])
  {
    SameTrackers([], trackers);
    if trackers != [] {
      var tiers: seq<seq<bytes>>, one: seq<bytes> := [trackers], [trackers[0]];
      assert tiers[..0] == [] && one[..0] == [];
      assert AddTiers([], tiers) == AddNew(AddTiers([], tiers[..0]), trackers);
      AddNewMembers([], trackers, trackers[0]);
      var out := AddNew([], trackers);
      assert AddNew(out, one[..0]) == out && one[0] == trackers[0];
      assert AddNew(out, one) == out;
    }
  }

  /**
   * A magnet whose metadata was accepted, saved and loaded again: the file is accepted exactly when the
   * nesting height of the info value is below the limit, and then it gives the same hash, the same
   * metadata and the same trackers in the same order.
   */
  lemma MagnetReload(env: Env, info: bytes, hash: Digest, trackers: seq<bytes>)
    ensures
      var t := FromInfoDict(env, info, hash, trackers);
      t.Ok? && (forall u :: u in trackers ==> IsText(env, u)) ==>
        var r := Load(env, Assembled(info, trackers));
        && (r.Ok? <==> Height(ParseAll(info).value) < MAX_DEPTH)
        && (r.Ok? ==> && r.value.infoHash == hash && r.value.info == t.value.info
                      && r.value.announceList == TierLists(trackers)
                      && TrackerList(r.value) == TrackerList(t.value))
  {
    hide LoadInfo;
    hide LoadTiers;
    hide ParseAll;
    hide FindInfoSlice;
    hide TrackerList;
    hide Assembled;
    var t := FromInfoDict(env, info, hash, trackers);
    if t.Ok? && forall u :: u in trackers ==> IsText(env, u) {
      var v := ParseAll(info).value;
      AssembledSpan(info, trackers);
      AssembledParses(info, trackers);
      AssembledGets(v, trackers);
      LoadTiersOf(env, trackers);
      NoTiers(trackers);
      var r := Load(env, Assembled(info, trackers));
      if r.Ok? {
        ReloadedTrackers(r.value, trackers);
        MagnetTrackers(t.value);
      }
    }
  }

  lemma NoTiers(trackers: seq<bytes>)
    ensures TierLists([]) == [] && (trackers != [] ==> trackers[0] in trackers)
  {
  }

  lemma MagnetTrackers(t: Torrent)
    requires t.announce.None?
    ensures TrackerList(t) == AddTiers([], t.announceList)
  {
  }

  // ---- metadata at exactly the limit ----

  function Nested(n: nat): Value
  {
    if n == 0 then Int(0) else List([Nested(n - 1)])
  }

  lemma {:induction false} NestedFits(n: nat)
    ensures Fits(Nested(n), n) && Height(Nested(n)) == n
  {
    if n > 0 {
      NestedFits(n - 1);
      var vs := [Nested(n - 1)];
      assert vs[1..] == [] && ItemsHeight(vs[1..]) == 0;
      assert Height(Nested(n)) == ItemsHeight(vs) == Max(1 + Height(vs[0]), 0);
    }
  }

  /** A key the loader never looks at. */
  const EXTRA: bytes := [122]

  /** A job's metadata with one more key, nested as deep as the parser allows. */
  ghost function DeepInfo(env: Env, j: Job): seq<Entry>
    requires Possible(env, j)
  {
    Put(InfoDict(env, j), EXTRA, Nested(MAX_DEPTH - 1))
  }

  lemma DeepHeight(env: Env, j: Job)
    requires Possible(env, j)
    ensures WellFormed(Dict(DeepInfo(env, j))) && Height(Dict(DeepInfo(env, j))) == MAX_DEPTH
  {
    var d, deep := InfoDict(env, j), Nested(MAX_DEPTH - 1);
    InfoDictGet(env, j, EXTRA);
    NestedFits(MAX_DEPTH - 1);
    PutFits(d, EXTRA, deep, MAX_DEPTH - 1);
    GetPut(d, EXTRA, deep, EXTRA);
    var es := DeepInfo(env, j);
    FitsDict(es, MAX_DEPTH - 1);
    assert Entry(EXTRA, deep) in es;
    var i :| 0 <= i < |es| && es[i] == Entry(EXTRA, deep);
    EntryLower(es, i);
  }

  lemma DeepAnswers(env: Env, j: Job)
    requires Possible(env, j)
    ensures Answers(env, j, DeepInfo(env, j))
  {
    forall k | LooksUp(k)
      ensures Get(DeepInfo(env, j), k) == if k == LayoutKey(j) then Some(LayoutValue(j)) else BaseGet(env, j, k)
    {
      InfoDictGet(env, j, k);
      GetPut(InfoDict(env, j), EXTRA, Nested(MAX_DEPTH - 1), k);
    }
  }

  /** Metadata nested exactly as deep as the parser allows: any loadable job's, with one more key. It is
      accepted when fetched; the file saved for it is refused at the next start. */
  lemma DeepMagnetLost(env: Env, j: Job)
    ensures Possible(env, j) && Loadable(j) ==>
        var info := Print(Dict(DeepInfo(env, j)));
        && FromInfoDict(env, info, env.sha1(info), j.trackers).Ok?
        && Load(env, Assembled(info, j.trackers)).Err?
  {
    hide Load;
    hide LoadInfo;
    hide Print;
    hide ParseAll;
    if Possible(env, j) && Loadable(j) {
      var v := Dict(DeepInfo(env, j));
      DeepHeight(env, j);
      PrintParseAll(v);
      DeepAnswers(env, j);
      InfoLoads(env, j, DeepInfo(env, j));
      MagnetReload(env, Print(v), env.sha1(Print(v)), j.trackers);
    }
  }

  /** Such a job exists: a one-byte file named `a`. */
  lemma DeepMagnetExists(env: Env)
    ensures env.utf8([97]) ==>
        Possible(env, Sample([97], 1)) && Loadable(Sample([97], 1)) &&
        var info := Print(Dict(DeepInfo(env, Sample([97], 1))));
        && FromInfoDict(env, info, env.sha1(info), []).Ok?
        && Load(env, Assembled(info, [])).Err?
  {
    hide FromInfoDict;
    hide Load;
    hide Print;
    if env.utf8([97]) {
      SamplePossible(env, [97], 1);
      DeepMagnetLost(env, Sample([97], 1));
    }
  }
}
