/** `decode_7bit_length_and_tag`: validating a concatenation of length-prefixed, tagged frames. */
module FrameDecoder {
  import opened Tilesets
  import opened Databases
  import opened TileCoords

  datatype DecodingError =
    | TruncatedTag
    | SizeOverflow
    | SizeUnderflow
    | TruncatedSize
    | TruncatedData(expected: int, actual: int)
    | UnexpectedTag(tag: Byte)

  // ---------------------------------------------------------------- the grammar

  /** Big-endian, seven bits to the byte. */
  function Number(s: Bytes): nat {
    if s == [] then 0 else 128 * Number(s[..|s| - 1]) + s[|s| - 1] % 128
  }

  /** The first `n` bytes are a size field: all but the last have their high bit set. */
  predicate IsSizeField(s: Bytes, n: nat) {
    && 1 <= n <= 8 && n <= |s|
    && (forall i | 0 <= i < n - 1 :: s[i] >= 128)
    && s[n - 1] < 128
  }

  /** A frame: a size field of one to eight bytes that gives the length of the whole frame, an allowed
      version byte, and the payload. */
  ghost predicate IsFrame(f: Bytes, versions: seq<Byte>) {
    exists n: nat :: IsSizeField(f, n) && n < |f| && f[n] in versions && Number(f[..n]) == |f|
  }

  ghost predicate IsFrames(s: Bytes, versions: seq<Byte>)
    decreases |s|
  {
    s == [] || exists k :: 0 < k <= |s| && IsFrame(s[..k], versions) && IsFrames(s[k..], versions)
  }

  // ---------------------------------------------------------------- the decoder

  /** The rest of the input after one frame whose size field continues at `s`. */
  function ReadFrame(s: Bytes, size: nat, header: nat, versions: seq<Byte>): Result<Bytes, DecodingError> {
    if s == [] then Failure(TruncatedSize)
    else if (header + 1) * 7 + 8 > 64 then Failure(SizeOverflow)
    else
      var size' := size * 128 + s[0] % 128;
      if s[0] >= 128 then ReadFrame(s[1..], size', header + 1, versions)
      else ReadPayload(s[1..], size', header + 1, versions)
  }

  /** The rest of the input after the tag and the payload of a frame whose size field is complete. */
  function ReadPayload(s: Bytes, size: nat, header: nat, versions: seq<Byte>): Result<Bytes, DecodingError> {
    if s == [] then Failure(TruncatedTag)
    else if s[0] !in versions then Failure(UnexpectedTag(s[0]))
    else if size < header + 1 then Failure(SizeUnderflow)
    else if |s| - 1 < size - (header + 1) then Failure(TruncatedData(size - (header + 1), |s| - 1))
    else Success(s[1 + (size - (header + 1))..])
  }

  lemma ReadFrameShrinks(s: Bytes, size: nat, header: nat, versions: seq<Byte>)
    ensures var r := ReadFrame(s, size, header, versions); r.Success? ==> |r.value| < |s|
  {
  }

  /** The outcome of the loop over frames. */
  function ReadFrames(s: Bytes, versions: seq<Byte>): Result<(), DecodingError>
    decreases |s|
  {
    if s == [] then Success(())
    else
      var r := ReadFrame(s, 0, 0, versions);
      ReadFrameShrinks(s, 0, 0, versions);
      if r.Failure? then Failure(r.error) else ReadFrames(r.value, versions)
  }

  function Decoded(tile: Bytes, versions: seq<Byte>): Result<(), DecodingError> {
    if tile == [] then Failure(TruncatedSize) else ReadFrames(tile, versions)
  }

  function Pow128(n: nat): (p: nat)
    ensures p > 0
  {
    if n == 0 then 1 else 128 * Pow128(n - 1)
  }

  lemma {:induction false} Pow128Bound(n: nat)
    requires n <= 8
    ensures Pow128(n) <= 0x100_0000_0000_0000
  {
    if n < 8 {
      Pow128Monotone(n, 8);
    }
    assert Pow128(4) == 0x1000_0000;
    assert Pow128(6) == 0x4000 * Pow128(4);
    assert Pow128(8) == 0x4000 * Pow128(6);
  }

  lemma {:induction false} Pow128Monotone(a: nat, b: nat)
    requires a <= b
    ensures Pow128(a) <= Pow128(b)
  {
    if a == b {
    } else {
      Pow128Monotone(a, b - 1);
    }
  }

  /** Take the payload from the iterator, as far as there is any. */
  method SkipPayload(tile: Bytes, pos: nat, payload: u64) returns (skipped: u64)
    requires pos <= |tile|
    ensures skipped <= payload && pos + skipped <= |tile|
    ensures skipped < payload ==> pos + skipped == |tile|
  {
    for i := 0 to payload
      invariant pos + i <= |tile|
    {
      if pos + i == |tile| {
        return i;
      }
    }
    return payload;
  }

  /** The tag and the payload; gives where the iterator is behind them. */
  method DecodePayload(tile: Bytes, pos: nat, size: u64, header: u64, versions: seq<Byte>)
    returns (r: Result<nat, DecodingError>)
    requires pos <= |tile| && header <= 8
    ensures r.Failure? ==> ReadPayload(tile[pos..], size, header, versions) == Failure(r.error)
    ensures r.Success? ==>
              pos < r.value <= |tile| && ReadPayload(tile[pos..], size, header, versions) == Success(tile[r.value..])
  {
    if pos == |tile| {
      return Failure(TruncatedTag);
    }
    var tag := tile[pos];
    if tag !in versions {
      return Failure(UnexpectedTag(tag));
    }
    var headerAndTag: u64 := header + 1;
    if size < headerAndTag {
      return Failure(SizeUnderflow);
    }
    var payload: u64 := size - headerAndTag;
    var skipped := SkipPayload(tile, pos + 1, payload);
    if skipped < payload {
      return Failure(TruncatedData(payload, skipped));
    }
    assert tile[pos..][1 + payload..] == tile[pos + 1 + payload..];
    return Success(pos + 1 + payload);
  }

  /** The inner loop: the bytes of one size field, and then the rest of the frame. The 64-bit counters
      never overflow. */
  method DecodeFrame(tile: Bytes, frame: nat, versions: seq<Byte>) returns (r: Result<nat, DecodingError>)
    requires frame < |tile|
    ensures r.Failure? ==> ReadFrame(tile[frame..], 0, 0, versions) == Failure(r.error)
    ensures r.Success? ==>
              frame < r.value <= |tile| && ReadFrame(tile[frame..], 0, 0, versions) == Success(tile[r.value..])
  {
    var pos := frame;
    var size: u64 := 0;
    var header: u64 := 0;
    while true
      invariant frame <= pos <= |tile| && header <= 8 && size < Pow128(header)
      invariant ReadFrame(tile[frame..], 0, 0, versions) == ReadFrame(tile[pos..], size, header, versions)
      decreases |tile| - pos
    {
      if pos == |tile| {
        return Failure(TruncatedSize);
      }
      ghost var rest := tile[pos..];
      var b := tile[pos];
      pos := pos + 1;
      assert rest[0] == b && rest[1..] == tile[pos..];
      var next: u64 := header + 1;
      if next * 7 + 8 > 64 {
        return Failure(SizeOverflow);
      }
      header := next;
      Pow128Bound(header);
      var shifted: u64 := size * 128;
      size := shifted + b % 128;
      if b < 128 {
        r := DecodePayload(tile, pos, size, header, versions);
        return;
      }
    }
  }

  /** The outer loop over the frames; `pos` is the byte iterator. */
  method DecodeLengthAndTag(tile: Bytes, versions: seq<Byte>) returns (r: Result<(), DecodingError>)
    ensures r == Decoded(tile, versions)
  {
    if tile == [] {
      return Failure(TruncatedSize);
    }
    assert tile[0..] == tile;
    var pos := 0;
    while pos < |tile|
      invariant 0 <= pos <= |tile|
      invariant ReadFrames(tile, versions) == ReadFrames(tile[pos..], versions)
    {
      var end := DecodeFrame(tile, pos, versions);
      if end.Failure? {
        return Failure(end.error);
      }
      pos := end.value;
    }
    assert tile[pos..] == [];
    return Success(());
  }

  // ---------------------------------------------------------------- decoder and grammar agree

  lemma NumberAppend(s: Bytes, i: nat)
    requires i < |s|
    ensures Number(s[..i + 1]) == 128 * Number(s[..i]) + s[i] % 128
  {
    assert s[..i + 1][..i] == s[..i];
  }

  /** With a complete size field the decoder's verdict on the frame depends on tag and length alone. */
  lemma {:induction false} ReadFrameAt(w: Bytes, n: nat, i: nat, versions: seq<Byte>)
    requires IsSizeField(w, n) && i < n
    ensures var size := Number(w[..n]);
            ReadFrame(w[i..], Number(w[..i]), i, versions) ==
              if |w| == n then Failure(TruncatedTag)
              else if w[n] !in versions then Failure(UnexpectedTag(w[n]))
              else if size < n + 1 then Failure(SizeUnderflow)
              else if |w| < size then Failure(TruncatedData(size - (n + 1), |w| - (n + 1)))
              else Success(w[size..])
    decreases n - i
  {
    NumberAppend(w, i);
    assert w[i..][0] == w[i];
    if i + 1 < n {
      ReadFrameAt(w, n, i + 1, versions);
      assert w[i..][1..] == w[i + 1..];
    } else {
      if |w| > n {
        assert w[i..][1] == w[n];
        var size := Number(w[..n]);
        if n + 1 <= size <= |w| {
          assert w[i..][2 + (size - (n + 1))..] == w[size..];
        }
      }
    }
  }

  /** Without a complete size field there is no frame. */
  lemma {:induction false} ReadFrameUnended(w: Bytes, i: nat, versions: seq<Byte>)
    requires i <= |w| && i <= 8 && forall n: nat :: !IsSizeField(w, n)
    requires forall j | 0 <= j < i :: w[j] >= 128
    ensures ReadFrame(w[i..], Number(w[..i]), i, versions) == Failure(if |w| <= 8 then TruncatedSize else SizeOverflow)
    decreases 8 - i
  {
    if i < |w| && i < 8 {
      assert !IsSizeField(w, i + 1);
      NumberAppend(w, i);
      assert w[i..][0] == w[i] && w[i..][1..] == w[i + 1..];
      ReadFrameUnended(w, i + 1, versions);
    }
  }

  /** Reading a frame succeeds exactly on inputs that start with one, and stops right behind it. */
  lemma ReadFrameIsFrame(w: Bytes, versions: seq<Byte>, k: nat)
    requires k <= |w|
    ensures IsFrame(w[..k], versions) <==> ReadFrame(w, 0, 0, versions) == Success(w[k..])
  {
    assert w[0..] == w && w[..0] == [];
    if n: nat :| IsSizeField(w, n) {
      ReadFrameAt(w, n, 0, versions);
      var size := Number(w[..n]);
      if IsFrame(w[..k], versions) {
        var m: nat :| IsSizeField(w[..k], m) && m < k && w[..k][m] in versions && Number(w[..k][..m]) == k;
        SizeFieldUnique(w, n, m, k);
        assert w[..k][..n] == w[..n];
      }
      if ReadFrame(w, 0, 0, versions) == Success(w[k..]) {
        SuffixLength(w, size, k);
        assert w[..k][..n] == w[..n];
        assert IsSizeField(w[..k], n);
      }
    } else {
      ReadFrameUnended(w, 0, versions);
      forall m: nat
        ensures !IsSizeField(w[..k], m)
      {
        PrefixSizeField(w, k, m);
      }
    }
  }

  lemma PrefixSizeField(w: Bytes, k: nat, m: nat)
    requires k <= |w|
    ensures IsSizeField(w[..k], m) ==> IsSizeField(w, m)
  {
  }

  lemma SizeFieldUnique(w: Bytes, n: nat, m: nat, k: nat)
    requires k <= |w| && IsSizeField(w, n) && IsSizeField(w[..k], m)
    ensures n == m
  {
    PrefixSizeField(w, k, m);
  }

  lemma SuffixLength(w: Bytes, a: nat, b: nat)
    requires a <= |w| && b <= |w| && w[a..] == w[b..]
    ensures a == b
  {
    assert |w[a..]| == |w[b..]|;
  }

  /** The decoder accepts exactly the nonempty concatenations of frames. */
  lemma {:induction false} AcceptsIffFrames(s: Bytes, versions: seq<Byte>)
    ensures ReadFrames(s, versions).Success? <==> IsFrames(s, versions)
    ensures Decoded(s, versions).Success? <==> s != [] && IsFrames(s, versions)
    decreases |s|
  {
    if s == [] {
    } else {
      var r := ReadFrame(s, 0, 0, versions);
      ReadFrameShrinks(s, 0, 0, versions);
      if r.Success? {
        var k := SuccessIsSuffix(s, versions);
        ReadFrameIsFrame(s, versions, k);
        AcceptsIffFrames(s[k..], versions);
        forall j | 0 < j <= |s| && IsFrame(s[..j], versions)
          ensures j == k
        {
          ReadFrameIsFrame(s, versions, j);
          SuffixLength(s, j, k);
        }
      } else {
        forall j | 0 < j <= |s|
          ensures !IsFrame(s[..j], versions)
        {
          ReadFrameIsFrame(s, versions, j);
        }
      }
    }
  }

  lemma SuccessIsSuffix(s: Bytes, versions: seq<Byte>) returns (k: nat)
    requires ReadFrame(s, 0, 0, versions).Success?
    ensures 0 < k <= |s| && ReadFrame(s, 0, 0, versions) == Success(s[k..])
  {
    assert s[0..] == s && s[..0] == [];
    if forall n: nat :: !IsSizeField(s, n) {
      ReadFrameUnended(s, 0, versions);
    }
    var n: nat :| IsSizeField(s, n);
    ReadFrameAt(s, n, 0, versions);
    k := Number(s[..n]);
  }

  lemma {:induction false} ReadFrameExtend(s: Bytes, size: nat, header: nat, versions: seq<Byte>, more: Bytes)
    requires ReadFrame(s, size, header, versions).Success?
    ensures ReadFrame(s + more, size, header, versions) == Success(ReadFrame(s, size, header, versions).value + more)
    decreases |s|
  {
    var size' := size * 128 + s[0] % 128;
    assert (s + more)[0] == s[0];
    if s[0] >= 128 {
      assert (s + more)[1..] == s[1..] + more;
      ReadFrameExtend(s[1..], size', header + 1, versions, more);
    } else {
      var payload := size' - (header + 2);
      assert (s + more)[1] == s[1];
      assert (s + more)[2 + payload..] == s[2 + payload..] + more;
    }
  }

  /** Behind accepted frames the verdict, error included, is the verdict on the rest. */
  lemma {:induction false} AcceptedPrefix(a: Bytes, b: Bytes, versions: seq<Byte>)
    requires ReadFrames(a, versions).Success?
    ensures ReadFrames(a + b, versions) == ReadFrames(b, versions)
    ensures b != [] ==> Decoded(a + b, versions) == Decoded(b, versions)
    decreases |a|
  {
    if a == [] {
      assert a + b == b;
    } else {
      ReadFrameShrinks(a, 0, 0, versions);
      ReadFrameExtend(a, 0, 0, versions, b);
      AcceptedPrefix(ReadFrame(a, 0, 0, versions).value, b, versions);
    }
  }

  /** The error behind accepted frames, by what follows them. With a complete size field it is the tag, the size
      or the length that is wrong, in this order; without one the input ends, or the field is too long. */
  lemma FirstBadFrame(a: Bytes, w: Bytes, n: nat, versions: seq<Byte>)
    requires IsFrames(a, versions) && w != []
    ensures IsSizeField(w, n) && |w| == n ==> Decoded(a + w, versions) == Failure(TruncatedTag)
    ensures IsSizeField(w, n) && |w| > n && w[n] !in versions ==>
              Decoded(a + w, versions) == Failure(UnexpectedTag(w[n]))
    ensures IsSizeField(w, n) && |w| > n && w[n] in versions && Number(w[..n]) <= n ==>
              Decoded(a + w, versions) == Failure(SizeUnderflow)
    ensures IsSizeField(w, n) && |w| > n && w[n] in versions && Number(w[..n]) > |w| ==>
              Decoded(a + w, versions) == Failure(TruncatedData(Number(w[..n]) - (n + 1), |w| - (n + 1)))
    ensures (forall m: nat :: !IsSizeField(w, m)) ==>
              Decoded(a + w, versions) == Failure(if |w| <= 8 then TruncatedSize else SizeOverflow)
  {
    AcceptsIffFrames(a, versions);
    AcceptedPrefix(a, w, versions);
    assert w[0..] == w && w[..0] == [];
    if IsSizeField(w, n) {
      ReadFrameAt(w, n, 0, versions);
    }
    if forall m: nat :: !IsSizeField(w, m) {
      ReadFrameUnended(w, 0, versions);
    }
  }

  /** Every rejected input but the empty one is of this form: some frames, and then no frame. */
  lemma {:induction false} RejectedSplits(s: Bytes, versions: seq<Byte>) returns (k: nat)
    requires s != [] && !IsFrames(s, versions)
    ensures k < |s| && IsFrames(s[..k], versions)
    ensures forall j | 0 <= j <= |s[k..]| :: !IsFrame(s[k..][..j], versions)
    decreases |s|
  {
    AcceptsIffFrames(s, versions);
    if ReadFrame(s, 0, 0, versions).Failure? {
      k := 0;
      assert s[0..] == s;
      forall j | 0 <= j <= |s|
        ensures !IsFrame(s[..j], versions)
      {
        ReadFrameIsFrame(s, versions, j);
      }
    } else {
      var first := SuccessIsSuffix(s, versions);
      ReadFrameIsFrame(s, versions, first);
      AcceptsIffFrames(s[first..], versions);
      var rest := RejectedSplits(s[first..], versions);
      k := first + rest;
      assert s[k..] == s[first..][rest..];
      assert s[..k][..first] == s[..first] && s[..k][first..] == s[first..][..rest];
    }
  }
}
