/** The frame loop of `CameraRegistry._http_frame` in `boddos/sensors/cameras.py`. */
module Mjpeg {
  import opened Wrappers

  type Byte = b: int | 0 <= b < 256
  type Bytes = seq<Byte>

  const START: Byte := 0xD8
  const END: Byte := 0xD9
  const LIMIT: nat := 5_000_000

  /** The two bytes `FF second` at position `i`. */
  predicate Marker(buf: Bytes, i: int, second: Byte) {
    0 <= i && i + 1 < |buf| && buf[i] == 0xFF && buf[i + 1] == second
  }

  /** `bytes.find` of the marker at or after `from`, -1 if there is none. */
  function Find(buf: Bytes, second: Byte, from: nat): (r: int)
    ensures r == -1 ==> forall i :: from <= i ==> !Marker(buf, i, second)
    ensures r != -1 ==> from <= r && Marker(buf, r, second) && forall i :: from <= i < r ==> !Marker(buf, i, second)
    decreases |buf| - from
  {
    if from + 1 >= |buf| then -1
    else if Marker(buf, from, second) then from
    else Find(buf, second, from + 1)
  }

  /** The first start marker of a stream is at `s` and the first end marker clear of it at `e`. */
  ghost predicate IsFrame(stream: Bytes, s: int, e: int) {
    && Marker(stream, s, 0xD8) && (forall i :: 0 <= i < s ==> !Marker(stream, i, 0xD8))
    && s + 2 <= e && Marker(stream, e, 0xD9) && (forall i :: s + 2 <= i < e ==> !Marker(stream, i, 0xD9))
  }

  /** The frame the loop cuts out of its buffer; with no start marker the second search begins at 1, to no effect. */
  function FrameOf(buf: Bytes): Option<Bytes> {
    var start := Find(buf, START, 0);
    var end := Find(buf, END, start + 2);
    if start != -1 && end != -1 then Some(buf[start..end + 2]) else None
  }

  function Concat(chunks: seq<Bytes>): Bytes {
    if chunks == [] then [] else Concat(chunks[..|chunks| - 1]) + chunks[|chunks| - 1]
  }

  lemma MarkerOfPrefix(stream: Bytes, k: nat, i: int, second: Byte)
    requires k <= |stream|
    ensures Marker(stream[..k], i, second) <==> Marker(stream, i, second) && i + 2 <= k
  {
  }

  /** A stream has at most one frame in this sense. */
  lemma FrameIsUnique(stream: Bytes, s: int, e: int, s': int, e': int)
    requires IsFrame(stream, s, e) && IsFrame(stream, s', e')
    ensures s == s' && e == e'
  {
  }

  lemma FrameOfIsFrame(buf: Bytes)
    ensures FrameOf(buf).None? ==> forall s, e :: !IsFrame(buf, s, e)
    ensures FrameOf(buf).Some? ==> exists s, e :: IsFrame(buf, s, e) && FrameOf(buf).value == buf[s..e + 2]
  {
    var start := Find(buf, START, 0);
    var end := Find(buf, END, start + 2);
    if start != -1 && end != -1 {
      assert IsFrame(buf, start, end);
    }
  }

  lemma SliceOfPrefix(stream: Bytes, k: nat, i: int, j: int)
    requires 0 <= i <= j <= k <= |stream|
    ensures stream[..k][i..j] == stream[i..j]
  {
  }

  /** Looking at a prefix finds the whole stream's frame once it is complete, and nothing before. */
  lemma FrameOfPrefix(stream: Bytes, k: nat, s: int, e: int)
    requires k <= |stream| && IsFrame(stream, s, e)
    ensures FrameOf(stream[..k]) == if e + 2 <= k then Some(stream[s..e + 2]) else None
  {
    var p := stream[..k];
    forall i, second ensures Marker(p, i, second) <==> Marker(stream, i, second) && i + 2 <= k {
      MarkerOfPrefix(stream, k, i, second);
    }
    if e + 2 <= k {
      assert IsFrame(p, s, e);
      FrameOfIsFrame(p);
      var s', e' :| IsFrame(p, s', e') && FrameOf(p) == Some(p[s'..e' + 2]);
      FrameIsUnique(p, s, e, s', e');
      SliceOfPrefix(stream, k, s, e + 2);
    } else {
      FrameOfIsFrame(p);
    }
  }

  /** A frame found in a prefix is the whole stream's frame. */
  lemma FrameOfPrefixStays(stream: Bytes, k: nat)
    requires k <= |stream| && FrameOf(stream[..k]).Some?
    ensures exists s, e :: IsFrame(stream, s, e) && e + 2 <= k && FrameOf(stream[..k]).value == stream[s..e + 2]
  {
    var p := stream[..k];
    FrameOfIsFrame(p);
    var s, e :| IsFrame(p, s, e) && FrameOf(p).value == p[s..e + 2];
    forall i, second ensures Marker(p, i, second) <==> Marker(stream, i, second) && i + 2 <= k {
      MarkerOfPrefix(stream, k, i, second);
    }
    assert IsFrame(stream, s, e);
    SliceOfPrefix(stream, k, s, e + 2);
  }

  lemma {:induction false} ConcatPrefix(chunks: seq<Bytes>, k: nat)
    requires k <= |chunks|
    ensures |Concat(chunks[..k])| <= |Concat(chunks)| && Concat(chunks[..k]) == Concat(chunks)[..|Concat(chunks[..k])|]
    decreases |chunks|
  {
    if k == |chunks| {
      assert chunks[..k] == chunks;
    } else {
      var init := chunks[..|chunks| - 1];
      ConcatPrefix(init, k);
      assert init[..k] == chunks[..k];
    }
  }

  /** The stream has grown past the limit after some chunk without completing the frame that ends at `end`. */
  ghost predicate GivesUpBefore(chunks: seq<Bytes>, end: int) {
    exists k :: 0 <= k <= |chunks| && 5_000_000 < |Concat(chunks[..k])| < end
  }

  /**
    The loop, `None` standing for its `RuntimeError`. It returns only the frame of the whole stream, and it
    does so exactly when the stream has one and was not given up on before that was complete; so a frame that
    ends within the limit is returned under every way of cutting the stream.
  */
  method HttpFrame(chunks: seq<Bytes>) returns (frame: Option<Bytes>)
    ensures frame.Some? ==> exists s, e :: IsFrame(Concat(chunks), s, e) && frame.value == Concat(chunks)[s..e + 2]
    ensures forall s, e :: IsFrame(Concat(chunks), s, e) ==> (frame.Some? <==> !GivesUpBefore(chunks, e + 2))
    ensures forall s, e :: IsFrame(Concat(chunks), s, e) && e + 2 <= 5_000_000 ==>
              frame == Some(Concat(chunks)[s..e + 2])
  {
    var buf: Bytes := [];
    var i := 0;
    ghost var all := Concat(chunks);
    while i < |chunks|
      invariant 0 <= i <= |chunks| && buf == Concat(chunks[..i])
      invariant FrameOf(buf).None?
      invariant forall k :: 0 <= k <= i ==> |Concat(chunks[..k])| <= LIMIT
    {
      assert chunks[..i + 1][..i] == chunks[..i];
      buf := buf + chunks[i];
      i := i + 1;
      ConcatPrefix(chunks, i);
      var found := FrameOf(buf);
      if found.Some? {
        FrameOfPrefixStays(all, |buf|);
        CompleteInTime(chunks, i);
        forall s, e | IsFrame(all, s, e) ensures found == Some(all[s..e + 2]) {
          FrameOfPrefix(all, |buf|, s, e);
        }
        return found;
      }
      if |buf| > LIMIT {
        GivenUp(chunks, i);
        return None;
      }
    }
    assert chunks[..i] == chunks;
    FrameOfIsFrame(buf);
    return None;
  }

  /** Found after chunk `k`, with every shorter prefix within the limit: not given up on. */
  lemma CompleteInTime(chunks: seq<Bytes>, k: nat)
    requires 0 < k <= |chunks| && FrameOf(Concat(chunks[..k])).Some?
    requires forall j :: 0 <= j < k ==> |Concat(chunks[..j])| <= LIMIT
    ensures forall s, e :: IsFrame(Concat(chunks), s, e) ==> !GivesUpBefore(chunks, e + 2)
  {
    var all := Concat(chunks);
    ConcatPrefix(chunks, k);
    forall s, e | IsFrame(all, s, e) ensures !GivesUpBefore(chunks, e + 2) {
      FrameOfPrefix(all, |Concat(chunks[..k])|, s, e);
      forall j | 0 <= j <= |chunks| && LIMIT < |Concat(chunks[..j])| ensures e + 2 <= |Concat(chunks[..j])| {
        ConcatPrefix(chunks[..j], k);
        assert chunks[..j][..k] == chunks[..k];
      }
    }
  }

  lemma GivenUp(chunks: seq<Bytes>, k: nat)
    requires k <= |chunks| && FrameOf(Concat(chunks[..k])).None? && |Concat(chunks[..k])| > LIMIT
    ensures forall s, e :: IsFrame(Concat(chunks), s, e) ==> GivesUpBefore(chunks, e + 2)
  {
    ConcatPrefix(chunks, k);
    forall s, e | IsFrame(Concat(chunks), s, e) ensures GivesUpBefore(chunks, e + 2) {
      FrameOfPrefix(Concat(chunks), |Concat(chunks[..k])|, s, e);
    }
  }
}
