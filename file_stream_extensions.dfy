/** Length-prefix framing on a positioned stream
    (Archiver.Core/Extensions/FileStreamExtensions.cs): a 4-byte length,
    then that many bytes, so a blob can be read back from its offset alone. */
module FileStreamExtensions {
  import opened Bytes
  import opened Errors
  import opened Streams

  /** A framed blob: the 4-byte length, then the bytes. */
  function Frame(a: seq<byte>): (r: seq<byte>)
    requires |a| <= INT32_MAX
    ensures |r| == 4 + |a|
  {
    EncodeInt32(|a|) + a
  }

  /** `WriteArray`: the length, then the bytes, at the current position. The
      bytes outside `[position, position + 4 + |blob|)` are left alone
      (`Overwrite`), which is what lets the writer rewrite the header in place. */
  method WriteArray(stream: Stream, blob: seq<byte>)
    requires |blob| <= INT32_MAX
    modifies stream
    ensures stream.content == Overwrite(old(stream.content), old(stream.position), Frame(blob))
    ensures stream.position == old(stream.position) + 4 + |blob|
  {
    stream.Write(EncodeInt32(|blob|));
    stream.Write(blob);
    OverwriteTwice(old(stream.content), old(stream.position), EncodeInt32(|blob|), blob);
  }

  /** What `ReadArray` returns at `pos`, and the position it leaves behind.
      The counts `Read` returns are ignored: missing length bytes and missing
      payload bytes stay zero, as in the freshly allocated arrays. */
  function ArrayAt(s: seq<byte>, pos: nat): (r: (Result<seq<byte>>, nat))
    ensures r.1 >= pos
    ensures r.0.Failure? ==> r.0.error == Overflow
    ensures r.0.Success? ==> |r.0.value| == DecodeInt32(Available(s, pos, 4) + Zeros(4 - |Available(s, pos, 4)|))
  {
    var head := Available(s, pos, 4);
    var length := DecodeInt32(head + Zeros(4 - |head|));
    if length < 0 then (Failure(Overflow), pos + |head|)
    else
      var body := Available(s, pos + |head|, length);
      (Success(body + Zeros(length - |body|)), pos + |head| + |body|)
  }

  /** `ReadArray`: read 4 length bytes into a zeroed array, allocate the
      payload array (a negative length fails there), read into it. */
  method ReadArray(stream: Stream) returns (r: Result<seq<byte>>)
    modifies stream
    ensures (r, stream.position) == ArrayAt(old(stream.content), old(stream.position))
    ensures stream.content == old(stream.content)
  {
    var head := stream.Read(4);
    var length := DecodeInt32(head + Zeros(4 - |head|));
    if length < 0 {
      return Failure(Overflow);
    }
    var body := stream.Read(length);
    r := Success(body + Zeros(length - |body|));
  }

  /** Where a framed blob lies in the stream, `ReadArray` at its offset
      returns exactly the blob and moves past it. */
  lemma ArrayAtFrame(s: seq<byte>, pos: nat, a: seq<byte>)
    requires |a| <= INT32_MAX && pos + 4 + |a| <= |s|
    requires s[pos..pos + 4 + |a|] == Frame(a)
    ensures ArrayAt(s, pos) == (Success(a), pos + 4 + |a|)
  {
    var head := Available(s, pos, 4);
    assert head == s[pos..pos + 4] == Frame(a)[..4];
    assert head + Zeros(4 - |head|) == EncodeInt32(|a|);
    DecodeEncodeInt32(|a|);
    var body := Available(s, pos + 4, |a|);
    assert body == s[pos + 4..pos + 4 + |a|] == Frame(a)[4..];
    assert body + Zeros(0) == a;
  }

  /** `ReadArray` at `p` after `WriteArray(a)` at `p` returns `a`. */
  lemma ReadArrayAfterWriteArray(s: seq<byte>, pos: nat, a: seq<byte>)
    requires |a| <= INT32_MAX
    ensures ArrayAt(Overwrite(s, pos, Frame(a)), pos) == (Success(a), pos + 4 + |a|)
  {
    var t := Overwrite(s, pos, Frame(a));
    assert t[pos..pos + 4 + |a|] == Frame(a);
    ArrayAtFrame(t, pos, a);
  }

  /** On a stream that ends inside the payload, the array still has the
      declared length; the bytes past the end of the stream are zero. */
  lemma ArrayAtTruncated(s: seq<byte>, pos: nat)
    requires pos + 4 <= |s|
    requires 0 <= DecodeInt32(s[pos..pos + 4]) && |s| < pos + 4 + DecodeInt32(s[pos..pos + 4])
    ensures var length := DecodeInt32(s[pos..pos + 4]);
      && ArrayAt(s, pos) == (Success(s[pos + 4..] + Zeros(pos + 4 + length - |s|)), |s|)
      && |ArrayAt(s, pos).0.value| == length
  {
    var head := Available(s, pos, 4);
    assert head + Zeros(4 - |head|) == s[pos..pos + 4];
    assert Available(s, pos + 4, DecodeInt32(s[pos..pos + 4])) == s[pos + 4..];
  }
}
