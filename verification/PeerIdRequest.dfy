/** Reading the request of a peer-address exchange from a stream that may arrive in any pieces. */
module PeerIdRequest {
  import opened Common
  import opened Base58
  import opened Multihash
  import opened Pieces

  const MAX_REQUEST_BYTES := 128

  datatype End = Eof | Failed

  datatype RequestError = ReadFailed | TooLarge | Invalid

  /** The incoming half of a stream: the chunks still to arrive, and how it ends. */
  class ByteStream {
    var chunks: seq<Bytes>
    const end: End

    constructor (chunks: seq<Bytes>, end: End)
      ensures this.chunks == chunks && this.end == end
    {
      this.chunks := chunks;
      this.end := end;
    }

    /** One Read into a buffer of the given size: at most the next chunk; none when the stream has ended. */
    method Read(size: nat) returns (data: Option<Bytes>)
      requires size > 0
      modifies this
      ensures old(chunks) == [] ==> data == None && chunks == []
      ensures old(chunks) != [] ==>
        var first := old(chunks)[0];
        && data.Some? && data.value == first[..if |first| < size then |first| else size]
        && Flatten(old(chunks)) == data.value + Flatten(chunks)
        && |Flatten(chunks)| + |chunks| < |Flatten(old(chunks))| + |old(chunks)|
    {
      if chunks == [] {
        return None;
      }
      var first := chunks[0];
      if |first| <= size {
        data := Some(first);
        chunks := chunks[1..];
        assert first[..|first|] == first;
      } else {
        data := Some(first[..size]);
        chunks := [first[size..]] + chunks[1..];
        assert chunks[1..] == old(chunks)[1..];
        assert first == first[..size] + first[size..];
        assert Flatten(chunks) == first[size..] + Flatten(old(chunks)[1..]);
      }
    }
  }

  /** What reading at most limit bytes to the end yields: a failure counts only if it comes before the limit. */
  function AllUpTo(all: Bytes, end: End, limit: nat): Result<Bytes, RequestError> {
    if |all| >= limit then Ok(all[..limit])
    else if end == Eof then Ok(all)
    else Err(ReadFailed)
  }

  /** io.ReadAll over a limited reader: the outcome and what is consumed depend on the bytes, never on the chunks. */
  method ReadAllUpTo(s: ByteStream, limit: nat) returns (r: Result<Bytes, RequestError>)
    modifies s
    ensures r == AllUpTo(Flatten(old(s.chunks)), s.end, limit)
    ensures var all := Flatten(old(s.chunks));
            Flatten(s.chunks) == all[if |all| < limit then |all| else limit..]
  {
    var raw: Bytes := [];
    while |raw| < limit
      invariant |raw| <= limit && raw + Flatten(s.chunks) == Flatten(old(s.chunks))
      decreases |Flatten(s.chunks)| + |s.chunks|
    {
      // the growing buffer of io.ReadAll may leave less room than the limit
      var room: nat :| 0 < room <= limit - |raw|;
      var data := s.Read(room);
      if data == None {
        assert raw + [] == raw;
        return if s.end == Eof then Ok(raw) else Err(ReadFailed);
      }
      raw := raw + data.value;
    }
    assert Flatten(old(s.chunks))[..limit] == raw;
    return Ok(raw);
  }

  /** The single read of the 1.0.0 framing. */
  function FirstRead(chunks: seq<Bytes>, end: End, limit: nat): Result<Bytes, RequestError> {
    if chunks != [] then Ok(chunks[0][..if |chunks[0]| < limit then |chunks[0]| else limit])
    else if end == Eof then Ok([])
    else Err(ReadFailed)
  }

  function Judged(cid: Bytes -> Option<PeerId>, raw: Result<Bytes, RequestError>): Result<PeerId, RequestError> {
    match raw
    case Err(e) => Err(e)
    case Ok(text) =>
      if |text| > MAX_REQUEST_BYTES then Err(TooLarge)
      else
        var id := PeerDecode(cid, text);
        if id == None || |id.value| < MIN_PEER_ID_BYTES then Err(Invalid) else Ok(id.value)
  }

  method ReadPeerIdRequest(cid: Bytes -> Option<PeerId>, s: ByteStream, halfCloses: bool)
    returns (r: Result<PeerId, RequestError>)
    modifies s
    ensures halfCloses ==> r == Judged(cid, AllUpTo(Flatten(old(s.chunks)), s.end, MAX_REQUEST_BYTES + 1))
    ensures !halfCloses ==> r == Judged(cid, FirstRead(old(s.chunks), s.end, MAX_REQUEST_BYTES + 1))
    ensures |Flatten(old(s.chunks))| - |Flatten(s.chunks)| <= MAX_REQUEST_BYTES + 1
  {
    var raw: Result<Bytes, RequestError>;
    if halfCloses {
      raw := ReadAllUpTo(s, MAX_REQUEST_BYTES + 1);
    } else {
      var data := s.Read(MAX_REQUEST_BYTES + 1);
      raw := if data.Some? then Ok(data.value) else if s.end == Eof then Ok([]) else Err(ReadFailed);
    }
    match raw
    case Err(e) => return Err(e);
    case Ok(text) =>
      if |text| > MAX_REQUEST_BYTES {
        return Err(TooLarge);
      }
      var id := PeerDecode(cid, text);
      if id == None || |id.value| < MIN_PEER_ID_BYTES {
        return Err(Invalid);
      }
      return Ok(id.value);
  }

  // ----- what the responder answers for

  /** Whatever the bytes: more than 128 are too large, and a failed read before that is an error. */
  lemma RejectedRequests(cid: Bytes -> Option<PeerId>, all: Bytes, chunks: seq<Bytes>, end: End)
    ensures |all| > 128 ==> Judged(cid, AllUpTo(all, end, MAX_REQUEST_BYTES + 1)) == Err(TooLarge)
    ensures |all| <= 128 ==> Judged(cid, AllUpTo(all, Failed, MAX_REQUEST_BYTES + 1)) == Err(ReadFailed)
    ensures Judged(cid, FirstRead([], Failed, MAX_REQUEST_BYTES + 1)) == Err(ReadFailed)
    ensures chunks != [] && |chunks[0]| > 128 ==>
              Judged(cid, FirstRead(chunks, end, MAX_REQUEST_BYTES + 1)) == Err(TooLarge)
  {
  }

  /** What is answered is exactly what the text decodes to, if that is a peer ID of 34 bytes or more. */
  lemma AnswersAreDecoded(cid: Bytes -> Option<PeerId>, text: Bytes)
    ensures var r := Judged(cid, Ok(text));
            && (r.Ok? <==> |text| <= 128 && PeerDecode(cid, text).Some? && |PeerDecode(cid, text).value| >= 34)
            && (r.Ok? ==> PeerDecode(cid, text) == Some(r.value))
  {
  }

  /** The text of an ID, sent and half-closed, is rejected over 128 bytes, and otherwise
      answered for that ID exactly when the decoder can read it back. */
  lemma HalfClosedRequest(cid: Bytes -> Option<PeerId>, id: PeerId)
    requires WellFormed(id) && |id| >= MIN_PEER_ID_BYTES
    ensures var text, r := Encode(id), Judged(cid, AllUpTo(Encode(id), Eof, MAX_REQUEST_BYTES + 1));
            if |text| > MAX_REQUEST_BYTES then r == Err(TooLarge)
            else (r == Ok(id) <==> InBase58Form(text) || cid(text) == Some(id))
    ensures Writable(id) ==> InBase58Form(Encode(id))
    ensures |id| <= 64 ==> |Encode(id)| <= MAX_REQUEST_BYTES
  {
    WholeTextDecodesIff(cid, id);
    if Writable(id) { WholeTextDecodes(cid, id); }
    TextLength(id);
  }

  /** Whatever part of a real ID's text is taken for the request, the answer is for that ID or none. */
  lemma PartIsRightOrRejected(cid: Bytes -> Option<PeerId>, id: PeerId, j: nat)
    requires RealId(id) && j <= |Encode(id)|
    ensures Judged(cid, Ok(Encode(id)[..j])) == if j == |Encode(id)| then Ok(id) else Err(Invalid)
  {
    TextLength(id);
    if j < |Encode(id)| {
      ProperPrefixIsNoPeer(cid, id, j);
    } else {
      RealIdIsWritable(id);
      WholeTextDecodes(cid, id);
      assert Encode(id)[..j] == Encode(id);
    }
  }

  lemma EncodedIsNotEmpty(id: PeerId)
    requires RealId(id)
    ensures Encode(id) != []
  {
    if Sha256Id(id) {
      Sha256Start(id);
    } else {
      IdentityStart(id);
    }
  }

  /** Right peer or failure: of a 1.0.0 request cut up in any way, the first read yields the requested ID exactly
      when it holds the whole text, and otherwise an error, never another peer. */
  lemma LegacyRightPeerOrFailure(cid: Bytes -> Option<PeerId>, chunks: seq<Bytes>, end: End, id: PeerId)
    requires RealId(id) && Flatten(chunks) == Encode(id)
    ensures chunks != []
    ensures Judged(cid, FirstRead(chunks, end, MAX_REQUEST_BYTES + 1)) ==
            if chunks[0] == Encode(id) then Ok(id) else Err(Invalid)
  {
    TextLength(id);
    EncodedIsNotEmpty(id);
    var first := chunks[0];
    assert Flatten(chunks) == first + Flatten(chunks[1..]);
    assert first == Encode(id)[..|first|];
    assert first[..|first|] == first;
    PartIsRightOrRejected(cid, id, |first|);
  }

  /** The same for a half-closed request that is cut short after part of the text. */
  lemma TruncatedRightPeerOrFailure(cid: Bytes -> Option<PeerId>, part: Bytes, id: PeerId)
    requires RealId(id) && part <= Encode(id)
    ensures Judged(cid, AllUpTo(part, Eof, MAX_REQUEST_BYTES + 1)) ==
            if part == Encode(id) then Ok(id) else Err(Invalid)
  {
    TextLength(id);
    assert part == Encode(id)[..|part|];
    PartIsRightOrRejected(cid, id, |part|);
  }
}
