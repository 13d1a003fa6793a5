/**
 * The byte chunker `split_by_bytes_utf8`: cut the encoded document into
 * pieces of at most `maxBytes` bytes, backing each cut off while the byte
 * BEFORE it is a continuation byte.
 *
 * The loop only advances when a cut lands past the start of its window;
 * `ProgressOk` says when that is so, and `HaltsIffProgress` shows it is
 * exactly the condition under which the loop ends.
 */
module Chunker {
  import opened Wrappers
  import opened Utf8

  function Min(a: int, b: int): int
  {
    if a < b then a else b
  }

  /** The concatenation of the chunks, in order: `b"".join(chunks)`. */
  function Concat(chunks: seq<seq<byte>>): seq<byte>
  {
    if chunks == [] then [] else chunks[0] + Concat(chunks[1..])
  }

  /**
   * The inner loop: from `j`, step back while `j > i` and `data[j - 1]` is a
   * continuation byte. The result is the largest cut not above `j` whose
   * preceding byte is not a continuation byte, or `i` when there is none.
   */
  function BackOff(data: seq<byte>, i: int, j: int): (r: int)
    requires 0 <= i <= j <= |data|
    ensures i <= r <= j
    ensures r == i || !IsCont(data[r - 1])
    ensures forall t :: r <= t < j ==> IsCont(data[t])
    decreases j
  {
    if j > i && IsCont(data[j - 1]) then BackOff(data, i, j - 1) else j
  }

  /**
   * One pass of the outer loop: the value `i` takes next. The window ends at
   * `min(i + maxBytes, len(data))`; when it is empty (`maxBytes <= 0`) the
   * inner loop does not run and `i` jumps to the window's end. The inner
   * loop indexes `data` only from `i >= 0`, which always holds when
   * `maxBytes >= 1`.
   */
  function Next(data: seq<byte>, maxBytes: int, i: int): int
  {
    var j := Min(i + maxBytes, |data|);
    if 0 <= i < j then BackOff(data, i, j) else j
  }

  /**
   * The condition under which the loop makes progress: empty input, or a
   * positive limit, a last byte that is not a continuation byte, and no
   * `maxBytes` continuation bytes in a row.
   */
  predicate ProgressOk(data: seq<byte>, maxBytes: int)
  {
    data == [] ||
    (maxBytes >= 1 && !IsCont(data[|data| - 1]) &&
     forall k :: 0 <= k && k + maxBytes <= |data| ==> !AllCont(data, k, maxBytes))
  }

  /** Under the progress condition every pass cuts a non-empty chunk that ends on a non-continuation byte. */
  lemma NextAdvances(data: seq<byte>, maxBytes: int, i: int)
    requires ProgressOk(data, maxBytes) && 0 <= i < |data|
    ensures var j := Next(data, maxBytes, i);
      i < j <= Min(i + maxBytes, |data|) && !IsCont(data[j - 1])
  {
    var j0 := Min(i + maxBytes, |data|);
    if j0 < |data| {
      assert !AllCont(data, i, maxBytes);
    }
  }

  /** Every chunk is non-empty, at most `maxBytes` long, and ends on a byte that is not a continuation byte. */
  predicate ChunksOk(chunks: seq<seq<byte>>, maxBytes: int)
  {
    forall k :: 0 <= k < |chunks| ==> 1 <= |chunks[k]| <= maxBytes && !IsCont(chunks[k][|chunks[k]| - 1])
  }

  /** The chunks the loop produces from position `i` on. */
  function ChunksFrom(data: seq<byte>, maxBytes: int, i: int): (r: seq<seq<byte>>)
    requires ProgressOk(data, maxBytes) && 0 <= i <= |data|
    ensures Concat(r) == data[i..]
    ensures r == [] <==> i == |data|
    decreases |data| - i
  {
    if i == |data| then
      []
    else
      NextAdvances(data, maxBytes, i);
      var j := Next(data, maxBytes, i);
      var rest := ChunksFrom(data, maxBytes, j);
      var r := [data[i..j]] + rest;
      assert r[1..] == rest;
      assert data[i..j] + data[j..] == data[i..];
      r
  }

  /** One pass: the chunk up to the next cut, then the chunks from there. */
  lemma ChunksFromStep(data: seq<byte>, maxBytes: int, i: int)
    requires ProgressOk(data, maxBytes) && 0 <= i < |data|
    ensures Next(data, maxBytes, i) <= |data|
    ensures ChunksFrom(data, maxBytes, i) ==
      [data[i..Next(data, maxBytes, i)]] + ChunksFrom(data, maxBytes, Next(data, maxBytes, i))
  {
    NextAdvances(data, maxBytes, i);
  }

  lemma ChunksOkCons(data: seq<byte>, i: int, j: int, rest: seq<seq<byte>>, maxBytes: int)
    requires 0 <= i < j <= |data| && j - i <= maxBytes && !IsCont(data[j - 1]) && ChunksOk(rest, maxBytes)
    ensures ChunksOk([data[i..j]] + rest, maxBytes)
  {
    var c := data[i..j];
    assert c[|c| - 1] == data[j - 1];
    var r := [c] + rest;
    forall k | 0 <= k < |r|
      ensures 1 <= |r[k]| <= maxBytes && !IsCont(r[k][|r[k]| - 1])
    {
      if k > 0 {
        assert r[k] == rest[k - 1];
      }
    }
  }

  /** The chunks from `i` on are non-empty, within the limit, and end on non-continuation bytes. */
  lemma {:induction false} ChunksFromOk(data: seq<byte>, maxBytes: int, i: int)
    requires ProgressOk(data, maxBytes) && 0 <= i <= |data|
    ensures ChunksOk(ChunksFrom(data, maxBytes, i), maxBytes)
    decreases |data| - i
  {
    if i < |data| {
      NextAdvances(data, maxBytes, i);
      var j := Next(data, maxBytes, i);
      ChunksFromOk(data, maxBytes, j);
      ChunksFromStep(data, maxBytes, i);
      ChunksOkCons(data, i, j, ChunksFrom(data, maxBytes, j), maxBytes);
    }
  }

  /** One pass of the outer loop body: the window's end, backed off by the inner loop. */
  method CutAt(data: seq<byte>, maxBytes: int, i: int) returns (j: int)
    requires 0 <= i < |data| && maxBytes >= 1
    ensures j == Next(data, maxBytes, i)
  {
    j := Min(i + maxBytes, |data|);
    // Back up to a cut whose preceding byte is not a continuation byte.
    while j > i && IsCont(data[j - 1])
      invariant i <= j <= Min(i + maxBytes, |data|)
      invariant BackOff(data, i, j) == Next(data, maxBytes, i)
      decreases j
    {
      j := j - 1;
    }
  }

  /**
   * `split_by_bytes_utf8` on the encoded text. Under the progress condition
   * it computes `ChunksFrom(data, maxBytes, 0)`: the chunks put back
   * together are the input, and empty input gives no chunks
   * (`ChunksFromOk` gives the shape of each chunk).
   */
  method SplitByBytes(data: seq<byte>, maxBytes: int) returns (chunks: seq<seq<byte>>)
    requires ProgressOk(data, maxBytes)
    ensures chunks == ChunksFrom(data, maxBytes, 0)
    ensures Concat(chunks) == data
    ensures chunks == [] <==> data == []
  {
    chunks := [];
    var i := 0;
    while i < |data|
      invariant 0 <= i <= |data|
      invariant chunks + ChunksFrom(data, maxBytes, i) == ChunksFrom(data, maxBytes, 0)
      decreases |data| - i
    {
      var j := CutAt(data, maxBytes, i);
      ChunksFromStep(data, maxBytes, i);
      var rest := ChunksFrom(data, maxBytes, j);
      assert chunks + ([data[i..j]] + rest) == (chunks + [data[i..j]]) + rest;
      chunks := chunks + [data[i..j]];
      i := j;
    }
    assert data[0..] == data;
  }

  /** The outer loop started at `i` leaves within `fuel` passes. */
  predicate Halts(data: seq<byte>, maxBytes: int, i: int, fuel: nat)
    decreases fuel
  {
    i >= |data| || (fuel > 0 && Halts(data, maxBytes, Next(data, maxBytes, i), fuel - 1))
  }

  lemma {:induction false} HaltsUnderProgress(data: seq<byte>, maxBytes: int, i: int, fuel: nat)
    requires ProgressOk(data, maxBytes) && 0 <= i <= |data| && fuel >= |data| - i
    ensures Halts(data, maxBytes, i, fuel)
    decreases |data| - i
  {
    if i < |data| {
      NextAdvances(data, maxBytes, i);
      HaltsUnderProgress(data, maxBytes, Next(data, maxBytes, i), fuel - 1);
    }
  }

  /** With no positive limit the window is empty and `i` never grows. */
  lemma {:induction false} StuckWithoutLimit(data: seq<byte>, maxBytes: int, i: int, fuel: nat)
    requires maxBytes <= 0 && i < |data|
    ensures !Halts(data, maxBytes, i, fuel)
    decreases fuel
  {
    if fuel > 0 {
      StuckWithoutLimit(data, maxBytes, Next(data, maxBytes, i), fuel - 1);
    }
  }

  /** When the last byte is a continuation byte no cut ever reaches the end. */
  lemma {:induction false} StuckOnLastByte(data: seq<byte>, maxBytes: int, i: int, fuel: nat)
    requires maxBytes >= 1 && 0 <= i < |data| && IsCont(data[|data| - 1])
    ensures !Halts(data, maxBytes, i, fuel)
    decreases fuel
  {
    if fuel > 0 {
      var j := Next(data, maxBytes, i);
      assert i <= j < |data|;
      StuckOnLastByte(data, maxBytes, j, fuel - 1);
    }
  }

  /** A run of `maxBytes` continuation bytes at `k` traps the loop at or before `k`. */
  lemma {:induction false} StuckBeforeRun(data: seq<byte>, maxBytes: int, k: int, i: int, fuel: nat)
    requires maxBytes >= 1 && 0 <= k && k + maxBytes <= |data| && AllCont(data, k, maxBytes)
    requires 0 <= i <= k
    ensures !Halts(data, maxBytes, i, fuel)
    decreases fuel
  {
    if fuel > 0 {
      var j0 := Min(i + maxBytes, |data|);
      var j := Next(data, maxBytes, i);
      // A cut past `k` would follow a byte inside the run, where the back-off does not stop.
      assert j == BackOff(data, i, j0);
      StuckBeforeRun(data, maxBytes, k, j, fuel - 1);
    }
  }

  /**
   * The loop of `split_by_bytes_utf8` ends exactly when the progress
   * condition holds; otherwise it appends chunks forever.
   */
  lemma HaltsIffProgress(data: seq<byte>, maxBytes: int)
    ensures (exists fuel: nat :: Halts(data, maxBytes, 0, fuel)) <==> ProgressOk(data, maxBytes)
  {
    if ProgressOk(data, maxBytes) {
      HaltsWithProgress(data, maxBytes);
    } else {
      NeverHaltsWithoutProgress(data, maxBytes);
    }
  }

  lemma HaltsWithProgress(data: seq<byte>, maxBytes: int)
    requires ProgressOk(data, maxBytes)
    ensures exists fuel: nat :: Halts(data, maxBytes, 0, fuel)
  {
    var fuel: nat := |data|;
    HaltsUnderProgress(data, maxBytes, 0, fuel);
    assert Halts(data, maxBytes, 0, fuel);
  }

  lemma NeverHaltsWithoutProgress(data: seq<byte>, maxBytes: int)
    requires !ProgressOk(data, maxBytes)
    ensures forall fuel: nat :: !Halts(data, maxBytes, 0, fuel)
  {
    forall fuel: nat
      ensures !Halts(data, maxBytes, 0, fuel)
    {
      if maxBytes <= 0 {
        StuckWithoutLimit(data, maxBytes, 0, fuel);
      } else if IsCont(data[|data| - 1]) {
        StuckOnLastByte(data, maxBytes, 0, fuel);
      } else {
        var k :| 0 <= k && k + maxBytes <= |data| && AllCont(data, k, maxBytes);
        StuckBeforeRun(data, maxBytes, k, 0, fuel);
      }
    }
  }

  /** Windows of four or more bytes always make progress on an encoded text. */
  lemma EncodedTextProgresses(s: string, maxBytes: int)
    requires maxBytes >= 4
    requires s == [] || (s[|s| - 1] as int) < 0x80
    ensures ProgressOk(Encode(s), maxBytes)
  {
    var d := Encode(s);
    if s != [] {
      EncodeLastAscii(s);
      EncodeNoContRun(s);
      forall k | 0 <= k && k + maxBytes <= |d|
        ensures !AllCont(d, k, maxBytes)
      {
        assert !AllCont(d, k, 4);
      }
    }
  }

  /** "héllo wörld" as UTF-8: `é` and `ö` take two bytes each. */
  const HelloWorld: seq<byte> := [0x68, 0xC3, 0xA9, 0x6C, 0x6C, 0x6F, 0x20, 0x77, 0xC3, 0xB6, 0x72, 0x6C, 0x64]

  lemma HelloWorldEncoding(s: string)
    requires s == "héllo wörld"
    ensures Encode(s) == HelloWorld
  {
    assert s == s[..6] + s[6..];
    HelloEncoding(s[..6]);
    WorldEncoding(s[6..]);
    EncodeAppend(s[..6], s[6..]);
  }

  lemma HelloEncoding(s: string)
    requires s == "héllo "
    ensures Encode(s) == [0x68, 0xC3, 0xA9, 0x6C, 0x6C, 0x6F, 0x20]
  {
    assert s == s[..3] + s[3..];
    HelloWorldCharBytes();
    EncodeThree(s[..3], 'h', 'é', 'l');
    EncodeThree(s[3..], 'l', 'o', ' ');
    EncodeAppend(s[..3], s[3..]);
  }

  lemma WorldEncoding(s: string)
    requires s == "wörld"
    ensures Encode(s) == [0x77, 0xC3, 0xB6, 0x72, 0x6C, 0x64]
  {
    assert s == s[..3] + s[3..];
    HelloWorldCharBytes();
    EncodeThree(s[..3], 'w', 'ö', 'r');
    EncodeTwo(s[3..], 'l', 'd');
    EncodeAppend(s[..3], s[3..]);
  }

  lemma HelloWorldCharBytes()
    ensures EncodeChar('é') == [0xC3, 0xA9] && EncodeChar('ö') == [0xC3, 0xB6]
    ensures EncodeChar('h') == [0x68] && EncodeChar('l') == [0x6C] && EncodeChar('o') == [0x6F]
    ensures EncodeChar(' ') == [0x20] && EncodeChar('w') == [0x77] && EncodeChar('r') == [0x72]
    ensures EncodeChar('d') == [0x64]
  {
    assert EncodeChar('é') == [0xC3, 0xA9];
    assert EncodeChar('ö') == [0xC3, 0xB6];
    assert EncodeChar('h') == [0x68] && EncodeChar('l') == [0x6C] && EncodeChar('o') == [0x6F];
    assert EncodeChar(' ') == [0x20] && EncodeChar('w') == [0x77];
    assert EncodeChar('r') == [0x72] && EncodeChar('d') == [0x64];
  }

  /**
   * With a limit of ten bytes the first window ends between the two bytes of
   * `ö`; the back-off steps over `0xB6` and cuts after `0xC3`, so the first
   * chunk has nine bytes and ends in the lead byte of `ö`.
   */
  lemma HelloWorldChunks(d: seq<byte>)
    requires d == HelloWorld
    ensures ProgressOk(d, 10)
    ensures ChunksFrom(d, 10, 0) == [d[..9], d[9..]]
    ensures d[8] == 0xC3 && |d[9..]| == 4
  {
    HelloWorldProgress(d);
    HelloWorldCuts(d);
    ChunksFromStep(d, 10, 0);
    ChunksFromStep(d, 10, 9);
    assert d[9..13] == d[9..];
  }

  /** No window of ten bytes of "héllo wörld" is all continuation bytes, and the last byte is `d`. */
  lemma HelloWorldProgress(d: seq<byte>)
    requires d == HelloWorld
    ensures ProgressOk(d, 10)
  {
    assert !IsCont(d[12]);
    forall k | 0 <= k && k + 10 <= |d|
      ensures !AllCont(d, k, 10)
    {
      assert !IsCont(d[3]);
    }
  }

  /** The first window backs off from 10 to 9; the second reaches the end. */
  lemma HelloWorldCuts(d: seq<byte>)
    requires d == HelloWorld
    ensures Next(d, 10, 0) == 9 && Next(d, 10, 9) == 13
  {
    assert !IsCont(d[8]) && IsCont(d[9]) && !IsCont(d[12]);
    assert BackOff(d, 0, 9) == 9;
    assert BackOff(d, 9, 13) == 13;
  }

  /**
   * The back-off of the source does not keep characters whole: the first
   * chunk of "héllo wörld" under a ten-byte limit is the encoding of no text
   * at all, since it ends in a lead byte.
   */
  lemma LeadByteCut(d: seq<byte>, t: string)
    requires d == HelloWorld
    ensures ProgressOk(d, 10) && Encode(t) != ChunksFrom(d, 10, 0)[0]
  {
    HelloWorldChunks(d);
    var c := d[..9];
    assert c[|c| - 1] == 0xC3;
    IsContRange(c[|c| - 1]);
    if t != [] {
      EncodeNeverEndsInLead(t);
    }
  }

  /** A cut that falls between two characters: the end, or before a byte that is not a continuation byte. */
  predicate AtBoundary(data: seq<byte>, j: int)
  {
    j == |data| || (0 <= j < |data| && !IsCont(data[j]))
  }

  /**
   * The back-off the chunker evidently intends: step back while the byte AT
   * the cut, the first byte of the next chunk, is a continuation byte.
   */
  function SafeBackOff(data: seq<byte>, i: int, j: int): (r: int)
    requires 0 <= i <= j <= |data|
    ensures i <= r <= j
    ensures r == i || AtBoundary(data, r)
    ensures forall t :: r < t <= j ==> t < |data| && IsCont(data[t])
    decreases j
  {
    if j > i && j < |data| && IsCont(data[j]) then SafeBackOff(data, i, j - 1) else j
  }

  /**
   * The chunker with the intended back-off. It gives up (`None`) instead of
   * looping when a window holds no boundary past its start.
   */
  function SafeChunksFrom(data: seq<byte>, maxBytes: int, i: int): (r: Option<seq<seq<byte>>>)
    requires 0 <= i <= |data|
    ensures r.Some? ==> Concat(r.value) == data[i..]
    decreases |data| - i
  {
    if i == |data| then
      Some([])
    else if maxBytes < 1 then
      None
    else
      var j := SafeBackOff(data, i, Min(i + maxBytes, |data|));
      if j == i then
        None
      else
        match SafeChunksFrom(data, maxBytes, j)
        case None => None
        case Some(rest) =>
          assert data[i..j] + data[j..] == data[i..];
          assert ([data[i..j]] + rest)[1..] == rest;
          Some([data[i..j]] + rest)
  }

  /** Every boundary of an encoding is the end of the encoding of a prefix of the text. */
  lemma {:induction false} BoundaryIsPrefix(s: string, j: int)
    requires 0 <= j <= |Encode(s)| && AtBoundary(Encode(s), j)
    ensures exists p :: 0 <= p <= |s| && Encode(s[..p]) == Encode(s)[..j]
  {
    if j == 0 {
      assert Encode(s[..0]) == Encode(s)[..0];
    } else {
      var d := Encode(s);
      var x := EncodeChar(s[0]);
      var rest := Encode(s[1..]);
      assert d == x + rest;
      // A boundary past the start is past the whole first character.
      assert j >= |x|;
      BoundaryIsPrefix(s[1..], j - |x|);
      var p :| 0 <= p <= |s[1..]| && Encode(s[1..][..p]) == rest[..j - |x|];
      assert s[..p + 1] == [s[0]] + s[1..][..p];
      assert Encode(s[..p + 1]) == x + Encode(s[1..][..p]);
      assert d[..j] == x + rest[..j - |x|];
    }
  }

  /** The encoding of a longer prefix extends that of a shorter one by the characters between. */
  lemma EncodePrefixSplit(s: string, p: int, q: int)
    requires 0 <= p <= q <= |s|
    ensures Encode(s[..q]) == Encode(s[..p]) + Encode(s[p..q])
  {
    assert s[..q] == s[..p] + s[p..q];
    EncodeAppend(s[..p], s[p..q]);
  }

  /** A prefix with the shorter encoding is the shorter prefix. */
  lemma PrefixesInOrder(s: string, p: int, q: int)
    requires 0 <= p <= |s| && 0 <= q <= |s| && |Encode(s[..p])| < |Encode(s[..q])|
    ensures p < q
  {
    if q <= p {
      EncodePrefixSplit(s, q, p);
    }
  }

  /** The bytes between two boundaries of an encoding are the encoding of a piece of the text. */
  lemma BetweenBoundaries(s: string, i: int, j: int)
    requires 0 <= i < j <= |Encode(s)| && AtBoundary(Encode(s), i) && AtBoundary(Encode(s), j)
    ensures exists p, q :: 0 <= p <= q <= |s| && Encode(s)[i..j] == Encode(s[p..q])
  {
    var d := Encode(s);
    BoundaryIsPrefix(s, i);
    BoundaryIsPrefix(s, j);
    var p :| 0 <= p <= |s| && Encode(s[..p]) == d[..i];
    var q :| 0 <= q <= |s| && Encode(s[..q]) == d[..j];
    PrefixesInOrder(s, p, q);
    EncodePrefixSplit(s, p, q);
    assert d[..j] == d[..i] + d[i..j];
    assert d[..j][i..] == d[i..j];
  }

  /** Every chunk holds whole characters. */
  ghost predicate ChunksAreText(chunks: seq<seq<byte>>)
  {
    forall k :: 0 <= k < |chunks| ==> exists t: string :: chunks[k] == Encode(t)
  }

  /** From a boundary inside an encoding, a window of four or more bytes backs off to a later boundary. */
  lemma SafeWindowAdvances(s: string, maxBytes: int, i: int)
    requires maxBytes >= 4 && 0 <= i < |Encode(s)| && AtBoundary(Encode(s), i)
    ensures var j := SafeBackOff(Encode(s), i, Min(i + maxBytes, |Encode(s)|));
      i < j && AtBoundary(Encode(s), j)
  {
    var d := Encode(s);
    var j0 := Min(i + maxBytes, |d|);
    // Otherwise four continuation bytes would follow the start of the window.
    EncodeNoContRun(s);
    assert j0 < |d| ==> !AllCont(d, i + 1, 4);
  }

  /** One step of the intended chunker, when the rest succeeds. */
  lemma SafeChunksFromStep(data: seq<byte>, maxBytes: int, i: int, j: int)
    requires 0 <= i < |data| && maxBytes >= 1
    requires j == SafeBackOff(data, i, Min(i + maxBytes, |data|)) && i < j
    requires SafeChunksFrom(data, maxBytes, j).Some?
    ensures SafeChunksFrom(data, maxBytes, i) == Some([data[i..j]] + SafeChunksFrom(data, maxBytes, j).value)
  {
  }

  /** A piece of text in front of chunks of text, all within the limit, keeps them so. */
  lemma TextChunksCons(c: seq<byte>, t: string, rest: seq<seq<byte>>, maxBytes: int)
    requires c == Encode(t) && |c| <= maxBytes
    requires ChunksAreText(rest) && forall k :: 0 <= k < |rest| ==> |rest[k]| <= maxBytes
    ensures ChunksAreText([c] + rest) && forall k :: 0 <= k < |[c] + rest| ==> |([c] + rest)[k]| <= maxBytes
  {
    var r := [c] + rest;
    forall k | 0 <= k < |r|
      ensures (exists t': string :: r[k] == Encode(t')) && |r[k]| <= maxBytes
    {
      if k == 0 {
        assert r[0] == Encode(t);
      } else {
        assert r[k] == rest[k - 1];
      }
    }
  }

  lemma {:induction false} SafeChunksFromText(s: string, maxBytes: int, i: int)
    requires maxBytes >= 4 && 0 <= i <= |Encode(s)| && AtBoundary(Encode(s), i)
    ensures var r := SafeChunksFrom(Encode(s), maxBytes, i);
      r.Some? && ChunksAreText(r.value) && forall k :: 0 <= k < |r.value| ==> |r.value[k]| <= maxBytes
    decreases |Encode(s)| - i
  {
    var d := Encode(s);
    if i < |d| {
      var j := SafeBackOff(d, i, Min(i + maxBytes, |d|));
      SafeWindowAdvances(s, maxBytes, i);
      SafeChunksFromText(s, maxBytes, j);
      BetweenBoundaries(s, i, j);
      var p, q :| 0 <= p <= q <= |s| && d[i..j] == Encode(s[p..q]);
      SafeChunksFromStep(d, maxBytes, i, j);
      TextChunksCons(d[i..j], s[p..q], SafeChunksFrom(d, maxBytes, j).value, maxBytes);
    }
  }

  /**
   * With the intended back-off and a limit of at least four bytes, an
   * encoded text is cut into chunks that put back together give the
   * encoding, each within the limit and each the encoding of a piece of the
   * text.
   */
  lemma SafeChunksKeepCharacters(s: string, maxBytes: int)
    requires maxBytes >= 4
    ensures var r := SafeChunksFrom(Encode(s), maxBytes, 0);
      r.Some? && Concat(r.value) == Encode(s) && ChunksAreText(r.value) &&
      forall k :: 0 <= k < |r.value| ==> |r.value[k]| <= maxBytes
  {
    var d := Encode(s);
    assert d[0..] == d;
    SafeChunksFromText(s, maxBytes, 0);
  }

  /**
   * `cuts` splits `data` into pieces of at most `maxBytes` bytes that start
   * and end between characters: the cut positions rise from 0 to the end,
   * each lies on a boundary, and neighbouring cuts are at most `maxBytes`
   * apart. There are `|cuts| - 1` pieces.
   */
  predicate AlignedCuts(data: seq<byte>, maxBytes: int, cuts: seq<int>)
  {
    |cuts| >= 1 && cuts[0] == 0 && cuts[|cuts| - 1] == |data| &&
    (forall t :: 0 <= t < |cuts| ==> AtBoundary(data, cuts[t])) &&
    (forall t :: 0 <= t < |cuts| - 1 ==> PieceFits(cuts, t, maxBytes))
  }

  /** The piece between cut `t` and the next one is not empty and holds at most `maxBytes` bytes. */
  predicate PieceFits(cuts: seq<int>, t: int, maxBytes: int)
    requires 0 <= t < |cuts| - 1
  {
    cuts[t] < cuts[t + 1] <= cuts[t] + maxBytes
  }

  /**
   * How many chunks the corrected chunker makes from `i` on, following the
   * same cuts as `SafeChunksFrom`; `None` where it gives up.
   */
  function SafeChunkCount(data: seq<byte>, maxBytes: int, i: int): Option<nat>
    requires 0 <= i <= |data|
    decreases |data| - i
  {
    if i == |data| then
      Some(0)
    else if maxBytes < 1 then
      None
    else
      var j := SafeBackOff(data, i, Min(i + maxBytes, |data|));
      if j == i then
        None
      else
        match SafeChunkCount(data, maxBytes, j)
        case None => None
        case Some(n) => Some(n + 1)
  }

  /** `SafeChunkCount` counts the chunks `SafeChunksFrom` makes. */
  lemma {:induction false} SafeChunkCountAgrees(data: seq<byte>, maxBytes: int, i: int)
    requires 0 <= i <= |data|
    ensures SafeChunksFrom(data, maxBytes, i).Some? == SafeChunkCount(data, maxBytes, i).Some?
    ensures SafeChunksFrom(data, maxBytes, i).Some? ==>
      |SafeChunksFrom(data, maxBytes, i).value| == SafeChunkCount(data, maxBytes, i).value
    decreases |data| - i
  {
    if i < |data| && maxBytes >= 1 {
      var j := SafeBackOff(data, i, Min(i + maxBytes, |data|));
      if j != i {
        SafeChunkCountAgrees(data, maxBytes, j);
        if SafeChunksFrom(data, maxBytes, j).Some? {
          SafeChunksFromStep(data, maxBytes, i, j);
        }
      }
    }
  }

  /**
   * The corrected chunker's first cut from `i` is no earlier than any
   * boundary within reach of `i`.
   */
  lemma SafeChunkCountPast(data: seq<byte>, maxBytes: int, i: int, c: int) returns (j: int)
    requires 0 <= i < |data| && SafeChunkCount(data, maxBytes, i).Some?
    requires i < c <= i + maxBytes && AtBoundary(data, c)
    ensures c <= j <= |data| && SafeChunkCount(data, maxBytes, j).Some?
    ensures SafeChunkCount(data, maxBytes, i).value == 1 + SafeChunkCount(data, maxBytes, j).value
  {
    j := SafeBackOff(data, i, Min(i + maxBytes, |data|));
  }

  /**
   * Greedy stays ahead: from a position `i` no earlier than the `t`-th cut
   * of an aligned split, the corrected chunker needs no more pieces than
   * that split has left.
   */
  lemma {:induction false} GreedyFewest(data: seq<byte>, maxBytes: int, i: int, cuts: seq<int>, t: int)
    requires AlignedCuts(data, maxBytes, cuts) && 0 <= t < |cuts| && cuts[t] <= i <= |data|
    requires SafeChunkCount(data, maxBytes, i).Some?
    ensures SafeChunkCount(data, maxBytes, i).value <= |cuts| - 1 - t
    decreases |data| - i, |cuts| - t
  {
    if i < |data| {
      assert t < |cuts| - 1 && PieceFits(cuts, t, maxBytes);
      if cuts[t + 1] <= i {
        GreedyFewest(data, maxBytes, i, cuts, t + 1);
      } else {
        var j := SafeChunkCountPast(data, maxBytes, i, cuts[t + 1]);
        GreedyFewest(data, maxBytes, j, cuts, t + 1);
      }
    }
  }

  /**
   * The corrected chunker makes as few chunks as possible: no split of an
   * encoded text into pieces of at most `maxBytes` bytes that keep
   * characters whole has fewer pieces.
   */
  lemma SafeChunksFewest(s: string, maxBytes: int, cuts: seq<int>)
    requires maxBytes >= 4 && AlignedCuts(Encode(s), maxBytes, cuts)
    ensures var r := SafeChunksFrom(Encode(s), maxBytes, 0); r.Some? && |r.value| <= |cuts| - 1
  {
    SafeChunksKeepCharacters(s, maxBytes);
    SafeChunkCountAgrees(Encode(s), maxBytes, 0);
    GreedyFewest(Encode(s), maxBytes, 0, cuts, 0);
  }
}
