/** internal/chunker/chunker.go: content-defined cut points by a running FNV-1a hash. */
module Chunker {
  import opened Prelude

  // ---- FNV-1a, 32 bits, and the boundary test on its low 13 bits ----

  const FNV_OFFSET: bv32 := 2166136261
  const FNV_PRIME: bv32 := 16777619
  const MASK: bv32 := 0x1FFF

  function FnvStep(h: bv32, b: bv8): bv32 { (h ^ (b as bv32)) * FNV_PRIME }

  /** The hash of a whole prefix. */
  function Fnv(data: Bytes): bv32
  {
    if data == [] then FNV_OFFSET else FnvStep(Fnv(data[..|data| - 1]), data[|data| - 1])
  }

  lemma FnvStart(data: Bytes)
    ensures Fnv(data[..0]) == FNV_OFFSET
  {
  }

  lemma FnvNext(data: Bytes, i: nat)
    requires i < |data|
    ensures Fnv(data[..i + 1]) == FnvStep(Fnv(data[..i]), data[i])
  {
    hide FnvStep;
    assert data[..i + 1][..i] == data[..i];
  }

  predicate Boundary(h: bv32) { h & MASK == 0 }

  /** The cut test passes for one hash in 8192: those that are multiples of it, their low 13 bits being zero. */
  lemma BoundaryIff(h: bv32)
    ensures Boundary(h) <==> h % 8192 == 0
  {
    assert h & 0x1FFF == h % 8192;
  }

  /** The published values of the 32-bit FNV-1a hash of "", "a" and "foobar". */
  lemma FnvVectors()
    ensures Fnv([]) == 0x811C9DC5 && Fnv([0x61]) == 0xE40C292C
    ensures Fnv([0x66, 0x6F, 0x6F, 0x62, 0x61, 0x72]) == 0xBF9CF968
  {
    var foobar: Bytes := [0x66, 0x6F, 0x6F, 0x62, 0x61, 0x72];
    assert [0x61 as bv8][..0] == [];
    FnvStart(foobar);
    FnvNext(foobar, 0);
    FnvNext(foobar, 1);
    FnvNext(foobar, 2);
    FnvNext(foobar, 3);
    FnvNext(foobar, 4);
    FnvNext(foobar, 5);
    assert foobar[..6] == foobar;
  }

  /** Position `i` ends a chunk: it is at least `min` and the prefix through it hashes to a boundary. */
  predicate CutAt(data: Bytes, min: int, i: int)
    requires 0 <= i < |data|
  {
    min <= i && Boundary(Fnv(data[..i + 1]))
  }

  /** `n` is the length of the chunk taken from one read: through the least cut, or the whole read. */
  ghost predicate IsCutLength(data: Bytes, min: int, n: nat)
  {
    && n <= |data|
    && (forall i :: 0 <= i < n - 1 ==> !CutAt(data, min, i))
    && (n < |data| ==> 0 < n && CutAt(data, min, n - 1))
    && (n == 0 ==> data == [])
  }

  lemma CutLengthUnique(data: Bytes, min: int, m: nat, n: nat)
    requires IsCutLength(data, min, m) && IsCutLength(data, min, n)
    ensures m == n
  {
  }

  function CutLengthFrom(data: Bytes, min: int, i: nat): (n: nat)
    requires i <= |data|
    requires forall k :: 0 <= k < i ==> !CutAt(data, min, k)
    ensures IsCutLength(data, min, n)
    ensures i < |data| ==> i < n
    decreases |data| - i
  {
    if i == |data| then i
    else if CutAt(data, min, i) then i + 1
    else CutLengthFrom(data, min, i + 1)
  }

  function CutLength(data: Bytes, min: int): (n: nat)
    ensures IsCutLength(data, min, n)
  {
    CutLengthFrom(data, min, 0)
  }

  function Cut(data: Bytes, min: int): (chunk: Bytes)
    ensures chunk <= data
    ensures |chunk| < |data| ==> min < |chunk|
    ensures chunk == [] <==> data == []
  {
    data[..CutLength(data, min)]
  }

  // ---- Readers ----

  datatype ReadError = EOF | ReadFailed

  /** One answer of io.Reader.Read: the bytes delivered and the error returned with them. */
  datatype ReadEvent = ReadEvent(data: Bytes, err: Option<ReadError>)

  /** The answers a reader will give, in order; after the last one it answers with EOF and no bytes. */
  type Script = seq<ReadEvent>

  ghost predicate FitsBuffer(script: Script, max: int)
  {
    forall i :: 0 <= i < |script| ==> |script[i].data| <= max
  }

  function NextAnswer(script: Script, min: int): (r: Result<Bytes, ReadError>)
  {
    if script == [] then Err(EOF)
    else if script[0].data == [] && script[0].err.Some? then Err(script[0].err.value)
    else Ok(Cut(script[0].data, min))
  }

  function Advance(script: Script): (rest: Script)
  {
    if script == [] then [] else script[1..]
  }

  class Chunker {
    const min: int
    const max: nat
    var script: Script

    ghost predicate Valid()
      reads this
    {
      FitsBuffer(script, max)
    }

    constructor (script: Script, min: int, max: nat)
      requires FitsBuffer(script, max)
      ensures Valid() && this.script == script && this.min == min && this.max == max
    {
      this.script, this.min, this.max := script, min, max;
    }

    /** Reads once and returns the prefix up to the cut; the rest of that read is not kept. */
    method Next() returns (r: Result<Bytes, ReadError>)
      requires Valid()
      modifies this
      ensures Valid()
      ensures r == NextAnswer(old(script), min) && script == Advance(old(script))
      ensures r.Ok? ==> |r.value| <= max
    {
      hide Fnv, FnvStep, Boundary, CutLength;
      if script == [] { return Err(EOF); }
      var event := script[0];
      script := script[1..];
      var data := event.data;
      if |data| == 0 && event.err.Some? { return Err(event.err.value); }
      var h := FNV_OFFSET;
      FnvStart(data);
      var chunkEnd := |data|;
      if chunkEnd > max { chunkEnd := max; }
      var i := 0;
      while i < |data|
        invariant 0 <= i <= |data| <= max && script == old(script)[1..]
        invariant chunkEnd == |data| && h == Fnv(data[..i])
        invariant forall k :: 0 <= k < i ==> !CutAt(data, min, k)
      {
        FnvNext(data, i);
        h := FnvStep(h, data[i]);
        if i >= min && Boundary(h) {
          chunkEnd := i + 1;
          break;
        }
        if i >= max - 1 {
          chunkEnd := max;
          break;
        }
        i := i + 1;
      }
      assert IsCutLength(data, min, chunkEnd);
      CutLengthUnique(data, min, chunkEnd, CutLength(data, min));
      return Ok(data[..chunkEnd]);
    }
  }

  // ---- Whole streams ----

  /** Everything the reader has to give before it fails or ends; an empty answer without an error ends nothing. */
  function Content(script: Script): (whole: Bytes)
  {
    if script == [] || (script[0].data == [] && script[0].err.Some?) then [] else script[0].data + Content(script[1..])
  }

  /** What the chunker takes from it: it stops at the first empty answer, failing or not. */
  function Delivered(script: Script): (whole: Bytes)
  {
    if script == [] || script[0].data == [] then [] else script[0].data + Delivered(script[1..])
  }

  /** What the chunker hands out over the same stream. */
  function Returned(script: Script, min: int): (chunks: seq<Bytes>)
  {
    if script == [] || script[0].data == [] then [] else [Cut(script[0].data, min)] + Returned(script[1..], min)
  }

  /** What it discards: the tail of each read behind the cut. */
  function Dropped(script: Script, min: int): (tails: seq<Bytes>)
  {
    if script == [] || script[0].data == [] then []
    else [script[0].data[CutLength(script[0].data, min)..]] + Dropped(script[1..], min)
  }

  /** Some position before the last byte of the read passes the cut test. */
  ghost predicate CutBeforeEnd(data: Bytes, min: int)
  {
    exists i :: 0 <= i < |data| - 1 && CutAt(data, min, i)
  }

  /** That happens in some read before the stream ends. */
  ghost predicate CutInside(script: Script, min: int)
  {
    script != [] && script[0].data != [] && (CutBeforeEnd(script[0].data, min) || CutInside(script[1..], min))
  }

  /** The first empty answer comes without an error, and there would have been more behind it. */
  predicate Stalls(script: Script)
  {
    script != [] &&
    if script[0].data == [] then script[0].err.None? && Content(script[1..]) != [] else Stalls(script[1..])
  }

  ghost predicate Loses(script: Script, min: int) { CutInside(script, min) || Stalls(script) }

  /** What is taken is a beginning of the content, and all of it exactly when the reader does not stall. */
  lemma {:induction false} TakenIffNoStall(script: Script)
    ensures Delivered(script) <= Content(script) && (|Delivered(script)| == |Content(script)| <==> !Stalls(script))
  {
    if script != [] && script[0].data != [] { TakenIffNoStall(script[1..]); }
  }

  /** A chunk is shorter than its read exactly when a position before the end passes the cut test. */
  lemma CutShortIff(data: Bytes, min: int)
    ensures CutLength(data, min) < |data| <==> CutBeforeEnd(data, min)
  {
    var n := CutLength(data, min);
    if n < |data| { assert CutAt(data, min, n - 1); }
  }

  /** Each chunk followed by the tail discarded behind it. */
  function Paired(chunks: seq<Bytes>, tails: seq<Bytes>): (whole: Bytes)
    requires |chunks| == |tails|
  {
    if chunks == [] then [] else (chunks[0] + tails[0]) + Paired(chunks[1..], tails[1..])
  }

  lemma {:induction false} SameNumber(script: Script, min: int)
    ensures |Returned(script, min)| == |Dropped(script, min)|
  {
    if script != [] && script[0].data != [] { SameNumber(script[1..], min); }
  }

  /** Chunks and discarded tails pair up to exactly what was read, and their sizes add up to it. */
  lemma {:induction false} NothingElseLost(script: Script, min: int)
    ensures var cs, ds := Returned(script, min), Dropped(script, min);
      && |cs| == |ds|
      && Delivered(script) == Paired(cs, ds)
      && |Flatten(cs)| + |Flatten(ds)| == |Delivered(script)|
  {
    hide Cut, CutLength;
    SameNumber(script, min);
    if script != [] && script[0].data != [] {
      NothingElseLost(script[1..], min);
      var head := script[0].data;
      var cs, ds := Returned(script, min), Dropped(script, min);
      assert cs[1..] == Returned(script[1..], min) && ds[1..] == Dropped(script[1..], min);
      CutSplits(head, min);
      assert cs[0] + ds[0] == head;
    }
  }

  lemma CutSplits(data: Bytes, min: int)
    ensures Cut(data, min) + data[CutLength(data, min)..] == data
  {
  }

  /** Chunking gives back the content exactly when no cut falls strictly inside a read and the reader does not stall. */
  lemma LosslessIff(script: Script, min: int)
    ensures |Flatten(Returned(script, min))| <= |Content(script)|
    ensures |Flatten(Returned(script, min))| == |Content(script)| <==> !Loses(script, min)
    ensures Flatten(Returned(script, min)) == Content(script) <==> !Loses(script, min)
  {
    hide Returned, Delivered, Content, CutInside, Stalls;
    TakenLosslessIff(script, min);
    TakenIffNoStall(script);
  }

  /** Of what is taken nothing is lost exactly when no cut falls strictly inside a read. */
  lemma {:induction false} TakenLosslessIff(script: Script, min: int)
    ensures |Flatten(Returned(script, min))| <= |Delivered(script)|
    ensures |Flatten(Returned(script, min))| == |Delivered(script)| <==> !CutInside(script, min)
    ensures Flatten(Returned(script, min)) == Delivered(script) <==> !CutInside(script, min)
  {
    if script != [] && script[0].data != [] {
      TakenLosslessIff(script[1..], min);
      var head, rest := script[0].data, Returned(script[1..], min);
      assert Returned(script, min)[1..] == rest;
      var n := CutLength(head, min);
      CutShortIff(head, min);
      assert Flatten(Returned(script, min)) == head[..n] + Flatten(rest);
      if n == |head| {
        assert head[..n] == head;
        assert (head + Flatten(rest))[|head|..] == Flatten(rest);
        assert (head + Delivered(script[1..]))[|head|..] == Delivered(script[1..]);
      }
    }
  }

  /** A three-byte file within the configured bounds (0 < min < max) whose last byte is lost. */
  lemma LossExample()
    ensures var script := [ReadEvent([2, 69, 7], None)];
      FitsBuffer(script, 8) && Content(script) == [2, 69, 7] && Flatten(Returned(script, 1)) == [2, 69]
  {
    var data: Bytes := [2, 69, 7];
    var script := [ReadEvent(data, None)];
    assert data[..2] == [2, 69] && [2, 69][..1] == [2] && [2 as bv8][..0] == [];
    assert Fnv([2]) == FnvStep(FNV_OFFSET, 2);
    assert Boundary(Fnv([2, 69]));
    assert CutAt(data, 1, 1);
    CutLengthUnique(data, 1, 2, CutLength(data, 1));
    assert script[1..] == [];
    assert Returned(script, 1) == [[2, 69]];
    assert Flatten([[2 as bv8, 69]]) == [2, 69];
    assert Content(script) == data + [];
  }

  /** Its neighbour without a boundary comes back whole. */
  lemma WholeExample()
    ensures var script := [ReadEvent([1, 2, 3], None)];
      FitsBuffer(script, 8) && Returned(script, 1) == [[1, 2, 3]]
  {
    var data: Bytes := [1, 2, 3];
    var script := [ReadEvent(data, None)];
    FnvStart(data);
    FnvNext(data, 0);
    FnvNext(data, 1);
    FnvNext(data, 2);
    assert !CutAt(data, 1, 0) && !CutAt(data, 1, 1);
    assert IsCutLength(data, 1, 3);
    CutLengthUnique(data, 1, 3, CutLength(data, 1));
    assert script[1..] == [] && data[..3] == data;
    assert Returned(script, 1) == [Cut(data, 1)] + Returned([], 1);
  }
}
