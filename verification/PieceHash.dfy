/** Streaming piece hashing (`hash_pieces`) against its one-shot definition. */
module PieceHash {
  import opened Arith
  import opened Bytes

  type Digest = s: bytes | |s| == 20 witness seq(20, _ => 0)

  /** Consecutive runs of `n` bytes; only the last may be shorter. */
  function Chunks(s: bytes, n: nat): (cs: seq<bytes>)
    requires n > 0
    decreases |s|
  {
    if s == [] then []
    else if |s| <= n then [s]
    else [s[..n]] + Chunks(s[n..], n)
  }

  function CeilDiv(a: nat, b: nat): nat
    requires b > 0
  {
    (a + b - 1) / b
  }

  function Hashes(sha1: bytes -> Digest, cs: seq<bytes>): (hs: seq<Digest>)
    ensures |hs| == |cs| && forall i :: 0 <= i < |cs| ==> hs[i] == sha1(cs[i])
  {
    if cs == [] then [] else [sha1(cs[0])] + Hashes(sha1, cs[1..])
  }

  function Concat(ss: seq<bytes>): bytes
  {
    if ss == [] then [] else ss[0] + Concat(ss[1..])
  }

  function ConcatDigests(hs: seq<Digest>): (r: bytes)
    ensures |r| == 20 * |hs|
  {
    if hs == [] then [] else hs[0] + ConcatDigests(hs[1..])
  }

  /** Whole pieces followed by a shorter part are the chunks of what they spell. */
  lemma {:induction false} ChunksOfWhole(cs: seq<bytes>, part: bytes, n: nat)
    requires n > 0 && |part| < n && forall c :: c in cs ==> |c| == n
    ensures Chunks(Concat(cs) + part, n) == cs + (if part == [] then [] else [part])
  {
    hide Chunks;
    if cs == [] {
      assert Concat(cs) + part == part;
      ChunksShort(part, n);
    } else {
      var last := if part == [] then [] else [part];
      var c, rest := cs[0], Concat(cs[1..]) + part;
      assert |c| == n && Concat(cs) + part == c + rest;
      ChunksCons(c, rest, n);
      ChunksOfWhole(cs[1..], part, n);
      assert cs + last == [c] + (cs[1..] + last);
    }
  }

  lemma ChunksShort(s: bytes, n: nat)
    requires n > 0 && |s| < n
    ensures Chunks(s, n) == if s == [] then [] else [s]
  {
  }

  lemma ChunksCons(c: bytes, s: bytes, n: nat)
    requires n > 0 && |c| == n
    ensures Chunks(c + s, n) == [c] + Chunks(s, n)
  {
    assert (c + s)[..n] == c && (c + s)[n..] == s;
    if s == [] { assert c + s == c; }
  }

  /** Every piece is full, except that the last may be shorter; it is never empty. */
  ghost predicate FullButLast(cs: seq<bytes>, n: nat)
  {
    forall k :: 0 <= k < |cs| ==> 0 < |cs[k]| <= n && (k + 1 < |cs| ==> |cs[k]| == n)
  }

  lemma {:induction false} ChunkSizes(s: bytes, n: nat)
    requires n > 0
    ensures FullButLast(Chunks(s, n), n)
    decreases |s|
  {
    if |s| > n {
      ChunkSizes(s[n..], n);
      FullThen(s[..n], Chunks(s[n..], n), n);
    }
  }

  lemma FullThen(c: bytes, rest: seq<bytes>, n: nat)
    requires |c| == n > 0 && FullButLast(rest, n)
    ensures FullButLast([c] + rest, n)
  {
  }

  /** Exactly ceil(|s| / n) pieces, and together they are the stream. */
  lemma {:induction false} ChunksCount(s: bytes, n: nat)
    requires n > 0
    ensures |Chunks(s, n)| == CeilDiv(|s|, n)
    ensures Concat(Chunks(s, n)) == s
    decreases |s|
  {
    if s == [] {
      DivModUnique(n - 1, n, 0, n - 1);
    } else if |s| <= n {
      DivModUnique(|s| + n - 1, n, 1, |s| - 1);
      assert [s][1..] == [];
    } else {
      ChunksCount(s[n..], n);
      var rest := Chunks(s[n..], n);
      assert ([s[..n]] + rest)[1..] == rest;
      CeilDivStep(|s|, n);
    }
  }

  lemma CeilDivStep(a: nat, n: nat)
    requires 0 < n < a
    ensures CeilDiv(a, n) == 1 + CeilDiv(a - n, n)
  {
    var x := a - 1;
    var q, r := x / n, x % n;
    assert x + n == (q + 1) * n + r;
    DivModUnique(x + n, n, q + 1, r);
  }

  lemma {:induction false} HashesAppend(sha1: bytes -> Digest, cs: seq<bytes>, c: bytes)
    ensures ConcatDigests(Hashes(sha1, cs + [c])) == ConcatDigests(Hashes(sha1, cs)) + sha1(c)
  {
    if cs == [] {
      assert cs + [c] == [c] && [c][1..] == [];
      assert [sha1(c)][1..] == [];
    } else {
      assert (cs + [c])[1..] == cs[1..] + [c];
      HashesAppend(sha1, cs[1..], c);
      assert Hashes(sha1, cs + [c])[1..] == Hashes(sha1, cs[1..] + [c]);
      assert Hashes(sha1, cs)[1..] == Hashes(sha1, cs[1..]);
    }
  }

  /** Cutting the concatenated digests every 20 bytes, as the loader does, gives them back. */
  lemma {:induction false} ChunksOfDigests(hs: seq<Digest>)
    ensures Chunks(ConcatDigests(hs), 20) == hs
  {
    var s := ConcatDigests(hs);
    if hs != [] {
      ChunksOfDigests(hs[1..]);
      assert s[..20] == hs[0] && s[20..] == ConcatDigests(hs[1..]);
      if |hs| == 1 { assert s == hs[0]; }
    }
  }

  lemma {:induction false} ConcatAppend(ss: seq<bytes>, s: bytes)
    ensures Concat(ss + [s]) == Concat(ss) + s
  {
    if ss == [] {
      assert ss + [s] == [s] && [s][1..] == [];
    } else {
      assert (ss + [s])[1..] == ss[1..] + [s];
      ConcatAppend(ss[1..], s);
    }
  }

  function PieceString(sha1: bytes -> Digest, stream: bytes, n: nat): bytes
    requires n > 0
  {
    ConcatDigests(Hashes(sha1, Chunks(stream, n)))
  }

  /** What the hasher holds after reading `seen`: whole pieces hashed, the rest in the buffer. */
  ghost predicate Progress(sha1: bytes -> Digest, n: nat, seen: bytes, whole: seq<bytes>, part: bytes, pieces: bytes)
  {
    && (forall c :: c in whole ==> |c| == n)
    && seen == Concat(whole) + part
    && pieces == ConcatDigests(Hashes(sha1, whole))
  }

  lemma ProgressRead(sha1: bytes -> Digest, n: nat, seen: bytes, whole: seq<bytes>, part: bytes, pieces: bytes, data: bytes)
    requires Progress(sha1, n, seen, whole, part, pieces)
    ensures Progress(sha1, n, seen + data, whole, part + data, pieces)
  {
    assert Concat(whole) + part + data == Concat(whole) + (part + data);
  }

  lemma ProgressFlush(sha1: bytes -> Digest, n: nat, seen: bytes, whole: seq<bytes>, part: bytes, pieces: bytes)
    requires Progress(sha1, n, seen, whole, part, pieces) && |part| == n
    ensures Progress(sha1, n, seen, whole + [part], [], pieces + sha1(part))
  {
    HashesAppend(sha1, whole, part);
    ConcatAppend(whole, part);
    assert Concat(whole) + part + [] == Concat(whole) + part;
  }

  lemma ProgressEnd(sha1: bytes -> Digest, n: nat, seen: bytes, whole: seq<bytes>, part: bytes, pieces: bytes)
    requires n > 0 && Progress(sha1, n, seen, whole, part, pieces) && |part| < n
    ensures PieceString(sha1, seen, n) == if part == [] then pieces else pieces + sha1(part)
  {
    ChunksOfWhole(whole, part, n);
    if part == [] {
      assert whole + [] == whole;
    } else {
      HashesAppend(sha1, whole, part);
    }
  }

  /**
   * For every list of files and every pattern of short reads, the hashes are those of the
   * consecutive pieces of the concatenated files.
   */
  method HashPieces(files: seq<bytes>, pieceLength: nat, sha1: bytes -> Digest) returns (pieces: bytes)
    requires pieceLength > 0
    ensures pieces == PieceString(sha1, Concat(files), pieceLength)
  {
    pieces := [];
    var buf := new byte[pieceLength];
    var filled := 0;
    ghost var whole: seq<bytes> := [];
    for f := 0 to |files|
      invariant 0 <= filled < pieceLength
      invariant Progress(sha1, pieceLength, Concat(files[..f]), whole, buf[..filled], pieces)
    {
      ConcatAppend(files[..f], files[f]);
      assert files[..f + 1] == files[..f] + [files[f]];
      pieces, filled, whole := HashFile(files[f], pieceLength, sha1, buf, filled, pieces, Concat(files[..f]), whole);
    }
    assert files[..|files|] == files;
    ProgressEnd(sha1, pieceLength, Concat(files), whole, buf[..filled], pieces);
    if filled > 0 {
      pieces := pieces + sha1(buf[..filled]);
    }
  }

  /** The inner loop: one file, read to its end into what is left of the buffer. */
  method HashFile(file: bytes, pieceLength: nat, sha1: bytes -> Digest, buf: array<byte>,
                  filled0: nat, pieces0: bytes, ghost seen: bytes, ghost whole0: seq<bytes>)
    returns (pieces: bytes, filled: nat, ghost whole: seq<bytes>)
    requires buf.Length == pieceLength && filled0 < pieceLength
    requires Progress(sha1, pieceLength, seen, whole0, buf[..filled0], pieces0)
    modifies buf
    ensures filled < pieceLength
    ensures Progress(sha1, pieceLength, seen + file, whole, buf[..filled], pieces)
  {
    hide Progress;
    pieces, filled, whole := pieces0, filled0, whole0;
    var pos := 0;
    assert seen + file[..0] == seen;
    while true
      invariant filled < pieceLength && pos <= |file|
      invariant Progress(sha1, pieceLength, seen + file[..pos], whole, buf[..filled], pieces)
      decreases |file| - pos
    {
      ghost var part := buf[..filled];
      var n := Read(file, pos, buf, filled);
      if n == 0 {
        assert buf[..filled] == part;
        break;
      }
      ghost var data := file[pos..pos + n];
      ProgressRead(sha1, pieceLength, seen + file[..pos], whole, part, pieces, data);
      assert seen + file[..pos] + data == seen + file[..pos + n];
      filled, pos := filled + n, pos + n;
      if filled == buf.Length {
        assert buf[..filled] == buf[..];
        ProgressFlush(sha1, pieceLength, seen + file[..pos], whole, buf[..], pieces);
        pieces, whole, filled := pieces + sha1(buf[..]), whole + [buf[..]], 0;
      }
    }
    assert file[..pos] == file;
  }

  /** A read: 0 bytes only at the end of the file, otherwise any number that fits. */
  method Read(file: bytes, pos: nat, buf: array<byte>, filled: nat) returns (n: nat)
    requires pos <= |file| && filled < buf.Length
    modifies buf
    ensures n <= buf.Length - filled && n <= |file| - pos && (n == 0 <==> pos == |file|)
    ensures buf[..filled + n] == old(buf[..filled]) + file[pos..pos + n]
  {
    n :| n <= buf.Length - filled && n <= |file| - pos && (n == 0 <==> pos == |file|);
    forall i | 0 <= i < n { buf[filled + i] := file[pos + i]; }
  }

  /** The loader's count check accepts the result for every non-empty input. */
  lemma PieceCount(sha1: bytes -> Digest, stream: bytes, n: nat)
    requires n > 0
    ensures var s := PieceString(sha1, stream, n);
      && |s| % 20 == 0
      && |Chunks(s, 20)| == CeilDiv(|stream|, n)
      && Chunks(s, 20) == Hashes(sha1, Chunks(stream, n))
  {
    var hs := Hashes(sha1, Chunks(stream, n));
    ChunksCount(stream, n);
    ChunksOfDigests(hs);
    DivModUnique(20 * |hs|, 20, |hs|, 0);
  }
}
