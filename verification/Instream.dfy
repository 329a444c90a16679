/** Streaming contents to the malware scanner: the length-prefixed chunks of clamd's INSTREAM command. */
module Instream {
  import opened Prelude

  newtype byte = x: int | 0 <= x < 256

  const CHUNK_SIZE := 1024

  /** "zINSTREAM" and a null byte. */
  const COMMAND: seq<byte> := [0x7A, 0x49, 0x4E, 0x53, 0x54, 0x52, 0x45, 0x41, 0x4D, 0]

  // ---------- What is sent ----------

  /** A 32-bit length in network byte order. */
  function BigEndian(n: nat): (r: seq<byte>)
    requires n < 0x1_0000_0000
    ensures |r| == 4 && Length(r) == n
  {
    var upper := n / 0x100;
    var high := upper / 0x100;
    [(high / 0x100) as byte, (high % 0x100) as byte, (upper % 0x100) as byte, (n % 0x100) as byte]
  }

  function Length(s: seq<byte>): nat
    requires |s| >= 4
  {
    s[0] as int * 0x100_0000 + s[1] as int * 0x1_0000 + s[2] as int * 0x100 + s[3] as int
  }

  /** The length is converted to 32 bits, which would lose the upper part of a larger one. */
  function Chunk(data: seq<byte>): seq<byte> {
    BigEndian(|data| % 0x1_0000_0000) + data
  }

  function Pieces(contents: seq<byte>): seq<seq<byte>> {
    if |contents| > CHUNK_SIZE then [contents[..CHUNK_SIZE]] + Pieces(contents[CHUNK_SIZE..])
    else if |contents| > 0 then [contents] else []
  }

  function Stream(pieces: seq<seq<byte>>): seq<byte> {
    if pieces == [] then Chunk([]) else Chunk(pieces[0]) + Stream(pieces[1..])
  }

  function Session(contents: seq<byte>): seq<byte> {
    COMMAND + Stream(Pieces(contents))
  }

  // ---------- How the scanner reads it ----------

  /** The contents up to the chunk of length zero, and what follows; none if the stream ends before. */
  function Decode(s: seq<byte>): Option<(seq<byte>, seq<byte>)> {
    if |s| < 4 then None
    else
      var n := Length(s);
      if n == 0 then Some(([], s[4..]))
      else if |s| < 4 + n then None
      else
        match Decode(s[4 + n..])
        case None => None
        case Some((contents, rest)) => Some((s[4..4 + n] + contents, rest))
  }

  function Receive(s: seq<byte>): Option<(seq<byte>, seq<byte>)> {
    if COMMAND <= s then Decode(s[|COMMAND|..]) else None
  }

  // ---------- The framing is unambiguous ----------

  predicate IsPiece(data: seq<byte>) { 1 <= |data| <= CHUNK_SIZE }

  function Concat(pieces: seq<seq<byte>>): seq<byte> {
    if pieces == [] then [] else pieces[0] + Concat(pieces[1..])
  }

  /** All pieces but the last are full, none is empty, and together they are the contents. */
  lemma {:induction false} PiecesPartition(contents: seq<byte>)
    ensures var p := Pieces(contents);
            && Concat(p) == contents
            && |p| == (|contents| + CHUNK_SIZE - 1) / CHUNK_SIZE
            && (forall i :: 0 <= i < |p| ==> IsPiece(p[i]))
            && (forall i :: 0 <= i < |p| - 1 ==> |p[i]| == CHUNK_SIZE)
  {
    if |contents| > CHUNK_SIZE {
      var rest := Pieces(contents[CHUNK_SIZE..]);
      PiecesPartition(contents[CHUNK_SIZE..]);
      assert contents == contents[..CHUNK_SIZE] + contents[CHUNK_SIZE..];
      assert Pieces(contents)[1..] == rest;
    } else if |contents| > 0 {
      assert [contents][1..] == [];
    }
  }

  lemma LengthOfPrefix(header: seq<byte>, rest: seq<byte>)
    requires |header| == 4
    ensures Length(header + rest) == Length(header)
  {
    assert forall i :: 0 <= i < 4 ==> (header + rest)[i] == header[i];
  }

  lemma ChunkHeader(data: seq<byte>, rest: seq<byte>)
    requires |data| < 0x1_0000_0000
    ensures var s := Chunk(data) + rest;
            |s| == 4 + |data| + |rest| && Length(s) == |data| && s[4..4 + |data|] == data && s[4 + |data|..] == rest
  {
    hide BigEndian, Length;
    var header := BigEndian(|data|);
    assert Chunk(data) + rest == header + (data + rest);
    LengthOfPrefix(header, data + rest);
  }

  /** How a chunk is read: its data, then what follows. */
  lemma DecodeChunk(data: seq<byte>, rest: seq<byte>)
    requires IsPiece(data)
    ensures Decode(Chunk(data) + rest) ==
            match Decode(rest)
            case None => None
            case Some((contents, more)) => Some((data + contents, more))
  {
    hide BigEndian, Length, Chunk;
    ChunkHeader(data, rest);
  }

  lemma DecodeTerminator(rest: seq<byte>)
    ensures Decode(Chunk([]) + rest) == Some(([], rest))
  {
    hide BigEndian, Length, Chunk;
    ChunkHeader([], rest);
  }

  lemma {:induction false} DecodeStream(pieces: seq<seq<byte>>, rest: seq<byte>)
    requires forall i :: 0 <= i < |pieces| ==> IsPiece(pieces[i])
    ensures Decode(Stream(pieces) + rest) == Some((Concat(pieces), rest))
  {
    hide Decode, Chunk;
    if pieces == [] {
      DecodeTerminator(rest);
    } else {
      var tail := Stream(pieces[1..]) + rest;
      DecodeStream(pieces[1..], rest);
      DecodeChunk(pieces[0], tail);
      assert Stream(pieces) + rest == Chunk(pieces[0]) + tail;
    }
  }

  /** The scanner reads back exactly the contents, whatever is sent afterwards. */
  lemma RoundTrip(contents: seq<byte>, rest: seq<byte>)
    ensures Receive(Session(contents) + rest) == Some((contents, rest))
  {
    hide Decode, Stream, Pieces, Concat;
    PiecesPartition(contents);
    DecodeStream(Pieces(contents), rest);
    var s := Session(contents) + rest;
    assert s[|COMMAND|..] == Stream(Pieces(contents)) + rest && COMMAND <= s;
  }

  /** The four bytes that precede a piece: its length, with the most significant byte first. */
  lemma HeaderBytes(data: seq<byte>)
    requires IsPiece(data)
    ensures Chunk(data) == [0, 0, (|data| / 256) as byte, (|data| % 256) as byte] + data
    ensures Chunk([]) == [0, 0, 0, 0]
  {
    var n := |data|;
    assert n / 0x100 / 0x100 == 0;
    assert Chunk([]) == [0, 0, 0, 0] + [];
  }

  /** What is sent for contents that fit one piece: "zINSTREAM" and a null byte, the piece, four null bytes. */
  lemma ShortSessionBytes(contents: seq<byte>)
    requires IsPiece(contents)
    ensures Session(contents) ==
            ['z' as byte, 'I' as byte, 'N' as byte, 'S' as byte, 'T' as byte, 'R' as byte, 'E' as byte, 'A' as byte,
             'M' as byte, 0] +
            [0, 0, (|contents| / 256) as byte, (|contents| % 256) as byte] + contents + [0, 0, 0, 0]
  {
    HeaderBytes(contents);
    var pieces := Pieces(contents);
    assert pieces == [contents] && pieces[1..] == [];
    assert Stream(pieces) == Chunk(contents) + Chunk([]);
  }

  lemma {:induction false} DecodeCutOff(pieces: seq<seq<byte>>, n: nat)
    requires (forall i :: 0 <= i < |pieces| ==> IsPiece(pieces[i])) && n < |Stream(pieces)|
    ensures Decode(Stream(pieces)[..n]) == None
  {
    if n >= 4 && pieces != [] {
      var data, tail := pieces[0], Stream(pieces[1..]);
      var s := Stream(pieces)[..n];
      ChunkHeader(data, tail);
      assert Length(s) == Length(Chunk(data) + tail);
      if n >= 4 + |data| {
        DecodeCutOff(pieces[1..], n - 4 - |data|);
        assert s[4 + |data|..] == tail[..n - 4 - |data|];
      }
    }
  }

  /** A session that breaks off is never taken for a complete one. */
  lemma CutOffIsIncomplete(contents: seq<byte>, n: nat)
    requires n < |Session(contents)|
    ensures Receive(Session(contents)[..n]) == None
  {
    PiecesPartition(contents);
    var s := Session(contents)[..n];
    if n >= |COMMAND| {
      DecodeCutOff(Pieces(contents), n - |COMMAND|);
      assert s[|COMMAND|..] == Stream(Pieces(contents))[..n - |COMMAND|];
    }
  }

  // ---------- Sending ----------

  /** The first bytes, as many as the limit allows. */
  function CutAt(s: seq<byte>, limit: nat): seq<byte> {
    if |s| <= limit then s else s[..limit]
  }

  lemma CutAgain(s: seq<byte>, more: seq<byte>, limit: nat)
    requires |s| > limit
    ensures CutAt(s + more, limit) == CutAt(s, limit)
  {
  }

  /** A connection that breaks after a number of bytes known only to the network. */
  class Connection {
    const limit: nat
    var written: seq<byte>

    constructor (limit: nat)
      ensures this.limit == limit && written == []
    {
      this.limit := limit;
      written := [];
    }

    method Write(data: seq<byte>) returns (ok: bool)
      modifies this
      ensures ok <==> |old(written)| + |data| <= limit
      ensures |old(written)| <= limit ==> written == CutAt(old(written) + data, limit)
    {
      ok := |written| + |data| <= limit;
      written := CutAt(written + data, limit);
    }
  }

  class Scanner {
    var conn: Connection?

    constructor ()
      ensures conn == null
    {
      conn := null;
    }

    method SendChunk(chunk: seq<byte>) returns (ok: bool)
      requires conn != null && |conn.written| <= conn.limit
      modifies conn
      ensures conn.written == CutAt(old(conn.written) + Chunk(chunk), conn.limit)
      ensures ok <==> |old(conn.written) + Chunk(chunk)| <= conn.limit
    {
      var length := BigEndian(|chunk| % 0x1_0000_0000);
      ghost var before := conn.written;
      ok := conn.Write(length);
      assert before + Chunk(chunk) == before + length + chunk;
      if !ok {
        CutAgain(before + length, chunk, conn.limit);
        return;
      }
      ok := conn.Write(chunk);
    }

    /** Sends the contents piece by piece, then the terminating chunk. */
    method SendContents(contents: seq<byte>) returns (ok: bool)
      requires conn != null && |conn.written| <= conn.limit
      modifies conn
      ensures conn.written == CutAt(old(conn.written) + Stream(Pieces(contents)), conn.limit)
      ensures ok <==> |old(conn.written) + Stream(Pieces(contents))| <= conn.limit
    {
      ghost var all := conn.written + Stream(Pieces(contents));
      var remaining := contents;
      while |remaining| > CHUNK_SIZE
        invariant conn.written + Stream(Pieces(remaining)) == all && |conn.written| <= conn.limit
        decreases |remaining|
      {
        ghost var next := conn.written + Chunk(remaining[..CHUNK_SIZE]);
        ghost var more := Stream(Pieces(remaining[CHUNK_SIZE..]));
        assert Pieces(remaining)[1..] == Pieces(remaining[CHUNK_SIZE..]);
        assert all == next + more;
        ok := SendChunk(remaining[..CHUNK_SIZE]);
        if !ok {
          CutAgain(next, more, conn.limit);
          return;
        }
        remaining := remaining[CHUNK_SIZE..];
      }
      ok := SendLast(remaining);
    }

    method SendLast(remaining: seq<byte>) returns (ok: bool)
      requires conn != null && |conn.written| <= conn.limit && |remaining| <= CHUNK_SIZE
      modifies conn
      ensures conn.written == CutAt(old(conn.written) + Stream(Pieces(remaining)), conn.limit)
      ensures ok <==> |old(conn.written) + Stream(Pieces(remaining))| <= conn.limit
    {
      if |remaining| > 0 {
        ghost var next := conn.written + Chunk(remaining);
        assert [remaining][1..] == [];
        assert conn.written + Stream([remaining]) == next + Chunk([]);
        ok := SendChunk(remaining);
        if !ok {
          CutAgain(next, Chunk([]), conn.limit);
          return;
        }
      }
      ok := SendChunk([]);
    }

    /**
     * One attempt at a scan. Either the scanner has read exactly the contents, or it has read no
     * complete stream and the attempt fails; the connection is given up in any case.
     */
    method ScanBytes(
      contents: seq<byte>, dialed: Connection?, reply: Option<string>) returns (r: Option<(bool, string)>)
      requires dialed != null ==> dialed.written == []
      modifies this, dialed
      ensures conn == null
      ensures dialed == null ==> r.None?
      ensures dialed != null ==>
                Receive(dialed.written) ==
                if |Session(contents)| <= dialed.limit then Some((contents, [])) else None
      ensures r.Some? <==> dialed != null && Receive(dialed.written).Some? && reply.Some?
      ensures r.Some? ==> r.value.0 == Mentions(reply.value, "OK") && r.value.1 == reply.value
    {
      conn := dialed;
      if conn == null {
        return None;
      }
      SessionIsRead(contents, conn.limit);
      var ok := conn.Write(COMMAND);
      assert [] + COMMAND == COMMAND;
      if ok {
        ok := SendContents(contents);
      } else {
        CutAgain(COMMAND, Stream(Pieces(contents)), conn.limit);
      }
      conn := null;
      if !ok || reply.None? {
        return None;
      }
      return Some((Mentions(reply.value, "OK"), reply.value));
    }
  }

  predicate Mentions(s: string, word: string) {
    exists i :: 0 <= i <= |s| && word <= s[i..]
  }

  lemma SessionIsRead(contents: seq<byte>, limit: nat)
    ensures Receive(CutAt(Session(contents), limit)) ==
            if |Session(contents)| <= limit then Some((contents, [])) else None
  {
    if |Session(contents)| <= limit {
      RoundTrip(contents, []);
      assert Session(contents) + [] == Session(contents);
    } else {
      CutOffIsIncomplete(contents, limit);
    }
  }
}
