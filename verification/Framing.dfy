/** The newline framing of myyxs/version2/TcpClient: m_buf collects bytes, DecodePackage cuts messages off. */
module Framing {
  import opened Text

  const MAX_BUF_LENGTH: nat := 4096

  type Chunk = c: string | 1 <= |c| <= MAX_BUF_LENGTH witness "x"

  /** What ::recv reports: an error (retryable or not), the peer's shutdown, or bytes. */
  datatype Recv = Failed(retry: bool) | Shutdown | Received(data: Chunk)

  datatype Framer = Framer(buf: string, messages: seq<string>)

  /** Appending bytes and decoding. */
  function Feed(f: Framer, bytes: string): Framer {
    var pieces := Split(f.buf + bytes, '\n');
    Framer(Last(pieces), f.messages + Init(pieces))
  }

  function FeedAll(f: Framer, chunks: seq<string>): Framer
    decreases |chunks|
  {
    if chunks == [] then f else FeedAll(Feed(f, chunks[0]), chunks[1..])
  }

  function Stream(chunks: seq<string>): string {
    if chunks == [] then "" else chunks[0] + Stream(chunks[1..])
  }

  /** The bytes recv leaves in its zero-initialised buffer. */
  function Padded(data: Chunk): (buffer: string)
    ensures |buffer| == 4096 && data <= buffer
    ensures forall i :: |data| <= i < |buffer| ==> buffer[i] == '\0'
  {
    data + seq(MAX_BUF_LENGTH - |data|, _ => '\0')
  }

  class TcpClient {
    var buf: string
    var recvData: seq<string>

    constructor ()
      ensures State() == Framer("", [])
    {
      buf, recvData := "", [];
    }

    ghost function State(): Framer
      reads this
    {
      Framer(buf, recvData)
    }

    /** As in the source, a successful receive appends the whole buffer, not only the received bytes. */
    method RecvData(recv: Recv) returns (ret: int)
      modifies this`buf
      ensures ret == if recv.Received? then 1 else if recv.Failed? then -1 else 0
      ensures buf == if recv.Received? then old(buf) + Padded(recv.data) else old(buf)
      ensures recv.Received? ==> old(buf) + recv.data <= buf && |buf| == |old(buf)| + 4096
    {
      match recv
      case Failed(retry) =>
        ret := -1;
      case Shutdown =>
        ret := 0;
      case Received(data) =>
        buf := buf + Padded(data);
        ret := 1;
    }

    method DecodePackage() returns (ret: int)
      modifies this
      ensures ret == 0
      ensures State() == Feed(old(State()), "")
    {
      ghost var pieces := Split(buf, '\n');
      assert buf + "" == buf;
      var buffLen := Find(buf, '\n', 0);
      while buffLen != NPOS
        invariant buffLen == Find(buf, '\n', 0)
        invariant recvData + Init(Split(buf, '\n')) == old(recvData) + Init(pieces)
        invariant Last(Split(buf, '\n')) == Last(pieces)
        decreases |buf|
      {
        var str, rest := buf[..buffLen], buf[buffLen + 1..];
        InitLast([str], Split(rest, '\n'));
        Associate(recvData, [str], Init(Split(rest, '\n')));
        buf := rest;
        recvData := recvData + [str];
        buffLen := Find(buf, '\n', 0);
      }
      assert Init(Split(buf, '\n')) == [];
      return 0;
    }
  }

  /** Decoding after each of two chunks is decoding once after both. */
  lemma FeedTwice(f: Framer, a: string, b: string)
    ensures Feed(Feed(f, a), b) == Feed(f, a + b)
  {
    var first := Split(f.buf + a, '\n');
    var second := Split(Last(first) + b, '\n');
    SplitOfConcat(f.buf + a, b, '\n');
    Associate(f.buf, a, b);
    InitLast(Init(first), second);
    Associate(f.messages, Init(first), Init(second));
  }

  /** Every way of cutting the stream into chunks gives the messages and the rest of the uncut stream. */
  lemma {:induction false} ChunkingDoesNotMatter(f: Framer, chunks: seq<string>)
    requires '\n' !in f.buf
    ensures FeedAll(f, chunks) == Feed(f, Stream(chunks))
    decreases |chunks|
  {
    if chunks == [] {
      assert f.buf + "" == f.buf;
      SplitOfWhole(f.buf, '\n');
      assert f.messages + [] == f.messages;
    } else {
      PiecesHaveNoDelimiter(f.buf + chunks[0], '\n');
      ChunkingDoesNotMatter(Feed(f, chunks[0]), chunks[1..]);
      FeedTwice(f, chunks[0], Stream(chunks[1..]));
    }
  }

  /** No newline is left behind, and messages and rest rebuild the stream. */
  lemma StreamIsRebuilt(chunks: seq<string>)
    ensures var f := FeedAll(Framer("", []), chunks);
            && '\n' !in f.buf
            && (forall m <- f.messages :: '\n' !in m)
            && Join(f.messages + [f.buf], "\n") == Stream(chunks)
  {
    ChunkingDoesNotMatter(Framer("", []), chunks);
    var s := Stream(chunks);
    assert "" + s == s;
    PiecesHaveNoDelimiter(s, '\n');
    JoinAfterSplit(s, '\n');
    InitLast([], Split(s, '\n'));
    assert [] + Init(Split(s, '\n')) == Init(Split(s, '\n'));
  }

  // What RecvData's whole-buffer append does to the stream.

  function PaddedAll(chunks: seq<Chunk>): seq<string> {
    if chunks == [] then [] else [Padded(chunks[0])] + PaddedAll(chunks[1..])
  }

  lemma {:induction false} PaddingAddsLength(chunks: seq<Chunk>)
    ensures |Stream(PaddedAll(chunks))| >= |Stream(chunks)|
    ensures Stream(PaddedAll(chunks)) == Stream(chunks) <==> forall c <- chunks :: |c| == MAX_BUF_LENGTH
    ensures |Stream(PaddedAll(chunks))| == |Stream(chunks)| <==> forall c <- chunks :: |c| == MAX_BUF_LENGTH
  {
    if chunks != [] {
      PaddingAddsLength(chunks[1..]);
      assert PaddedAll(chunks)[1..] == PaddedAll(chunks[1..]);
      assert forall c :: c in chunks <==> c == chunks[0] || c in chunks[1..];
      if |chunks[0]| == MAX_BUF_LENGTH {
        assert Padded(chunks[0]) == chunks[0];
      }
    }
  }

  /** The client decodes what the peer sent exactly when every receive filled the whole buffer. */
  lemma DecodesWhatWasSentExactlyWhenBuffersAreFull(chunks: seq<Chunk>)
    ensures FeedAll(Framer("", []), PaddedAll(chunks)) == FeedAll(Framer("", []), chunks) <==>
            forall c <- chunks :: |c| == 4096
  {
    StreamIsRebuilt(chunks);
    StreamIsRebuilt(PaddedAll(chunks));
    PaddingAddsLength(chunks);
    ChunkingDoesNotMatter(Framer("", []), chunks);
    ChunkingDoesNotMatter(Framer("", []), PaddedAll(chunks));
  }

  /** One short receive already leaves padding in m_buf. */
  lemma ShortReceiveLeavesPadding()
    ensures var got: Chunk := "a\n";
            && FeedAll(Framer("", []), [got]) == Framer("", ["a"])
            && FeedAll(Framer("", []), PaddedAll([got])) != Framer("", ["a"])
  {
    var got: Chunk := "a\n";
    DecodesWhatWasSentExactlyWhenBuffersAreFull([got]);
    assert "" + got == "a" + ['\n'] + "";
    SplitAtFirst("a", '\n', "");
    SplitOfWhole("", '\n');
    assert Init(["a", ""]) == ["a"];
    assert got in [got];
  }
}
