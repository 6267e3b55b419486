/** Framing of the Varnish CLI protocol, varnish-cli(7): a 13-byte header with status and body length, the body,
    a newline; and the reader of `pkg/varnishadm/varnishadm.go`, which makes a fresh buffered reader for every
    response. */
module CliFraming {
  import opened Common
  import opened Text

  const HEADER_LENGTH := 13

  datatype Reply = Reply(status: int, body: string)

  /** Short: the bytes do not hold a whole response yet.  Crash: a negative body length, on which the original
      fails at run time. */
  datatype Frame = Frame(reply: Reply, length: nat) | Short | Malformed | Crash

  /** Replies the peer can put in a header of three status digits and eight length digits. */
  predicate Encodable(r: Reply) {
    0 <= r.status <= 999 && |r.body| < 100_000_000
  }

  function Encode(r: Reply): string
    requires Encodable(r)
  {
    PadRight(Decimal(r.status), 3) + " " + PadRight(Decimal(|r.body|), 8) + "\n" + r.body + "\n"
  }

  datatype Header = Header(status: int, length: nat) | BadHeader | NegativeLength

  function ParseHeader(header: string): Header {
    if |header| != HEADER_LENGTH then BadHeader
    else if header[3] != ' ' || header[12] != '\n' then BadHeader
    else
      var status, length := Atoi(Trim(header[0..3])), Atoi(Trim(header[4..12]));
      if status.None? || length.None? then BadHeader
      else if length.value < 0 then NegativeLength
      else Header(status.value, length.value)
  }

  /** What the bytes hold after a header. */
  function DecodeBody(header: Header, bytes: string): Frame {
    match header
    case BadHeader => Malformed
    case NegativeLength => Crash
    case Header(status, length) =>
      var end := HEADER_LENGTH + length;
      if |bytes| <= end then Short
      else if bytes[end] != '\n' then Malformed
      else Frame(Reply(status, bytes[HEADER_LENGTH..end]), end + 1)
  }

  function Decode(bytes: string): Frame {
    if |bytes| < HEADER_LENGTH then Short else DecodeBody(ParseHeader(bytes[..HEADER_LENGTH]), bytes)
  }

  lemma HeaderField(n: nat, width: nat)
    requires n < Power10(width) <= MAX_INT && width > 0
    ensures |PadRight(Decimal(n), width)| == width
    ensures Atoi(Trim(PadRight(Decimal(n), width))) == Some(n)
  {
    DecimalRoundTrip(n);
    DecimalWidth(n, width);
    DigitsAreNotSpace(Decimal(n));
    TrimPadRight(Decimal(n), width);
    AtoiDecimal(n);
  }

  lemma EncodeLength(r: Reply)
    requires Encodable(r)
    ensures |Encode(r)| == HEADER_LENGTH + |r.body| + 1
    ensures Power10(3) == 1000 && Power10(8) == 100_000_000
  {
    assert Power10(3) == 1000;
    assert Power10(8) == 100000 * Power10(3);
    HeaderField(r.status, 3);
    HeaderField(|r.body|, 8);
  }

  lemma HeaderRoundTrip(r: Reply)
    requires Encodable(r)
    ensures |Encode(r)| == 14 + |r.body|
    ensures ParseHeader(Encode(r)[..HEADER_LENGTH]) == Header(r.status, |r.body|)
    ensures Encode(r)[HEADER_LENGTH..] == r.body + "\n"
  {
    EncodeLength(r);
    var status, length := PadRight(Decimal(r.status), 3), PadRight(Decimal(|r.body|), 8);
    HeaderField(r.status, 3);
    HeaderField(|r.body|, 8);
    var header := Encode(r)[..HEADER_LENGTH];
    assert header == status + " " + length + "\n";
    assert header[0..3] == status && header[4..12] == length;
  }

  lemma DecodeBodyWhole(status: int, body: string, bytes: string, rest: string)
    requires |bytes| >= HEADER_LENGTH && bytes[HEADER_LENGTH..] == body + "\n" + rest
    ensures DecodeBody(Header(status, |body|), bytes) == Frame(Reply(status, body), 14 + |body|)
  {
    var tail := bytes[HEADER_LENGTH..];
    assert |bytes| == HEADER_LENGTH + |tail|;
    assert bytes[HEADER_LENGTH + |body|] == tail[|body|];
    assert bytes[HEADER_LENGTH..HEADER_LENGTH + |body|] == tail[..|body|] == body;
  }

  /** Decoding an encoded response returns its status and body and consumes exactly 14 plus body length bytes,
      whatever follows it. */
  lemma DecodeEncode(r: Reply, rest: string)
    requires Encodable(r)
    ensures Decode(Encode(r) + rest) == Frame(r, 14 + |r.body|)
    ensures |Encode(r)| == 14 + |r.body|
  {
    HeaderRoundTrip(r);
    var encoded := Encode(r);
    DecodeJoined(encoded, encoded[..HEADER_LENGTH], r, rest);
  }

  lemma DecodeJoined(encoded: string, header: string, r: Reply, rest: string)
    requires |encoded| == 14 + |r.body| && header == encoded[..HEADER_LENGTH]
    requires ParseHeader(header) == Header(r.status, |r.body|)
    requires encoded[HEADER_LENGTH..] == r.body + "\n"
    ensures Decode(encoded + rest) == Frame(r, 14 + |r.body|)
  {
    var bytes := encoded + rest;
    assert bytes[..HEADER_LENGTH] == header;
    assert bytes[HEADER_LENGTH..] == encoded[HEADER_LENGTH..] + rest == r.body + "\n" + rest;
    DecodeBodyWhole(r.status, r.body, bytes, rest);
  }

  /** What decodes is a response with its marks in place: a blank after the status, newlines after header and body, and
      the body exactly as long as the header says. */
  lemma DecodeSound(bytes: string)
    requires Decode(bytes).Frame?
    ensures var f := Decode(bytes);
            && f.length == 14 + |f.reply.body| && f.length <= |bytes|
            && bytes[3] == ' ' && bytes[12] == '\n' && bytes[f.length - 1] == '\n'
            && bytes[13..f.length - 1] == f.reply.body
            && Atoi(Trim(bytes[..3])) == Some(f.reply.status) && Atoi(Trim(bytes[4..12])) == Some(|f.reply.body|)
  {
    assert bytes[..13][0..3] == bytes[..3] && bytes[..13][4..12] == bytes[4..12];
  }

  /** The bytes of a response: three columns of status, a blank, eight columns of length, and newlines. */
  lemma EncodeShape(r: Reply)
    requires Encodable(r)
    ensures var e := Encode(r);
            && |e| == 14 + |r.body| && e[3] == ' ' && e[12] == '\n' && e[|e| - 1] == '\n' && e[13..|e| - 1] == r.body
            && Decimal(r.status) <= e[..3] && Decimal(|r.body|) <= e[4..12]
  {
    EncodeLength(r);
    HeaderField(r.status, 3);
    HeaderField(|r.body|, 8);
    var status, length := PadRight(Decimal(r.status), 3), PadRight(Decimal(|r.body|), 8);
    PadRightShape(Decimal(r.status), 3);
    PadRightShape(Decimal(|r.body|), 8);
    assert Encode(r)[..3] == status && Encode(r)[4..12] == length;
    assert Encode(r)[13..|Encode(r)| - 1] == r.body;
  }

  /** No proper prefix of an encoded response decodes: the reader waits for all of it. */
  lemma PrefixIsShort(r: Reply, n: nat)
    requires Encodable(r) && n < |Encode(r)|
    ensures Decode(Encode(r)[..n]) == Short
  {
    HeaderRoundTrip(r);
    if n >= HEADER_LENGTH {
      assert Encode(r)[..n][..HEADER_LENGTH] == Encode(r)[..HEADER_LENGTH];
    }
  }

  // ---------------------------------------------------------------- what a read pulls off the connection

  /** The size of the buffer that a fresh reader gets. */
  const BUFFER_SIZE := 4096

  /** What the next call to the connection returns when it asks for at most `limit` bytes: the number scheduled for it,
      or as many as there are and are asked for.  When the schedule runs out the deadline has passed. */
  function Chunk(schedule: seq<nat>, available: nat, limit: nat): nat {
    if schedule == [] then 0
    else if schedule[0] <= available && schedule[0] <= limit then schedule[0]
    else if available <= limit then available
    else limit
  }

  function Later(schedule: seq<nat>): seq<nat> {
    if schedule == [] then [] else schedule[1..]
  }

  /** The most that the reader asks the connection for while it holds `have` bytes of a response of `needed`: a buffer,
      or all the rest of the body where that is not smaller than a buffer. */
  function Limit(have: nat, needed: nat): nat {
    if have < HEADER_LENGTH || needed < have + BUFFER_SIZE then BUFFER_SIZE else needed - have
  }

  /** How many bytes have left the connection once the reader holds `needed` of them, or nothing more arrives. */
  function Filled(schedule: seq<nat>, available: nat, have: nat, needed: nat): nat
    decreases available
  {
    if have >= needed then have
    else
      var n := Chunk(schedule, available, Limit(have, needed));
      if n == 0 then have else Filled(Later(schedule), available - n, have + n, needed)
  }

  /** A property of connection and reader, by schedule, bytes to come and bytes had, that holds whenever `total` bytes
      will have left the connection in the end: calls keep it, and it tells the total when there are no more. */
  type Outlook = (seq<nat>, nat, nat) -> bool

  ghost predicate Foretells(outlook: Outlook, needed: nat, total: nat) {
    && (forall schedule: seq<nat>, available: nat, have: nat ::
          outlook(schedule, available, have) && have >= needed ==> total == have)
    && (forall schedule: seq<nat>, available: nat, have: nat, limit: nat
          {:trigger outlook(schedule, available, have), Chunk(schedule, available, limit)} ::
          outlook(schedule, available, have) && have < needed && limit == Limit(have, needed) ==>
            var n := Chunk(schedule, available, limit);
            if n == 0 then total == have else outlook(Later(schedule), available - n, have + n))
  }

  function Pulling(needed: nat, total: nat): Outlook {
    (schedule: seq<nat>, available: nat, have: nat) => Filled(schedule, available, have, needed) == total
  }

  lemma PullingForetells(needed: nat, total: nat)
    ensures Foretells(Pulling(needed, total), needed, total)
  {
  }

  /** Less than a buffer is pulled past the response, and never more than there is. */
  lemma {:induction false} FilledBounds(schedule: seq<nat>, available: nat, have: nat, needed: nat)
    requires have < needed
    ensures have <= Filled(schedule, available, have, needed) <= have + available
    ensures Filled(schedule, available, have, needed) < needed + 4096
    decreases available
  {
    var n := Chunk(schedule, available, Limit(have, needed));
    if n > 0 && have + n < needed {
      FilledBounds(Later(schedule), available - n, have + n, needed);
    }
  }

  /** A call returns no more than was scheduled for it, than there is and than it asks for, and one of the three. */
  lemma ChunkIsLeast(schedule: seq<nat>, available: nat, limit: nat)
    requires schedule != []
    ensures var n := Chunk(schedule, available, limit);
            n <= schedule[0] && n <= available && n <= limit && (n == schedule[0] || n == available || n == limit)
    ensures Chunk([], available, limit) == 0
  {
  }

  /** Past the header, a rest of at least a buffer is asked for exactly, so that nothing is pulled past it in one
      call; a shorter rest is asked for by the buffer. */
  lemma RestInOneCall(burst: nat, available: nat, have: nat, needed: nat)
    requires 13 <= have < needed && needed - have <= burst <= available
    ensures Filled([burst], available, have, needed)
            == if needed - have >= 4096 then needed else have + if burst <= 4096 then burst else 4096
  {
    var limit := Limit(have, needed);
    var n := Chunk([burst], available, limit);
    assert have + n >= needed && Filled(Later([burst]), available - n, have + n, needed) == have + n;
  }

  // ---------------------------------------------------------------- the reader

  /** How a read leaves the stream: some prefix of it was pulled off the connection, and a response that was read is
      the one at the front of the stream, all of whose bytes were pulled and less than a buffer besides. */
  predicate ReadLeaves(before: string, pulled: nat, after: string, read: Option<Reply>) {
    && pulled <= |before|
    && after == before[pulled..]
    && (read.Some? ==>
          && Decode(before).Frame? && Decode(before).reply == read.value
          && Decode(before).length <= pulled < Decode(before).length + 4096)
  }

  /** The receiving end of a connection. */
  class Connection {
    var incoming: string
    var schedule: seq<nat>

    constructor (incoming: string, schedule: seq<nat>)
      ensures this.incoming == incoming && this.schedule == schedule
    {
      this.incoming, this.schedule := incoming, schedule;
    }

    /** One call for at most `limit` bytes; the chunk is empty when nothing more arrives in time. */
    method Read(limit: nat) returns (chunk: string)
      modifies this
      ensures chunk + incoming == old(incoming)
      ensures |chunk| == Chunk(old(schedule), |old(incoming)|, limit)
      ensures schedule == Later(old(schedule))
    {
      var n := Chunk(schedule, |incoming|, limit);
      schedule := Later(schedule);
      chunk, incoming := incoming[..n], incoming[n..];
    }
  }

  lemma Regroup(a: string, b: string, c: string)
    ensures a + b + c == a + (b + c)
  {
  }

  /** A buffered reader as the standard library has it: past an empty buffer, a read of at least a buffer's size goes
      to the connection directly and any other one fills the buffer by one call. */
  class BufferedReader {
    const conn: Connection
    var buffered: string

    constructor (conn: Connection)
      ensures this.conn == conn && buffered == ""
    {
      this.conn, buffered := conn, "";
    }

    /** The bytes read next, whether in the buffer or not. */
    ghost function Ahead(): string
      reads this, conn
    {
      buffered + conn.incoming
    }

    ghost predicate Holds(outlook: Outlook, have: nat)
      reads conn
    {
      outlook(conn.schedule, |conn.incoming|, have)
    }

    method Read(want: nat) returns (got: string)
      requires want > 0
      modifies this, conn
      ensures got + Ahead() == old(Ahead()) && |got| <= want
      ensures got == "" ==> buffered == ""
      ensures old(buffered) != "" ==>
                got != "" && conn.incoming == old(conn.incoming) && conn.schedule == old(conn.schedule)
      ensures old(buffered) == "" ==>
                var limit := if want < BUFFER_SIZE then BUFFER_SIZE else want;
                && |got + buffered| == Chunk(old(conn.schedule), |old(conn.incoming)|, limit)
                && conn.schedule == Later(old(conn.schedule))
    {
      if buffered == "" {
        if want >= BUFFER_SIZE {
          got := conn.Read(want);
          return;
        }
        buffered := conn.Read(BUFFER_SIZE);
      }
      var n := if want < |buffered| then want else |buffered|;
      got, buffered := buffered[..n], buffered[n..];
    }

    /** The bytes wanted after `have` bytes of a response of `needed` are in its header, or they end it. */
    ghost predicate Wanted(have: nat, want: nat, needed: nat) {
      have + want <= HEADER_LENGTH <= needed || (HEADER_LENGTH <= have && have + want == needed)
    }

    /** One read for some of the bytes wanted after `have` bytes of a response. */
    method ReadSome(want: nat, ghost have: nat, ghost needed: nat, ghost total: nat, ghost outlook: Outlook)
      returns (got: string)
      requires want > 0 && Wanted(have, want, needed)
      requires Foretells(outlook, needed, total) && Holds(outlook, have + |buffered|)
      modifies this, conn
      ensures got + Ahead() == old(Ahead()) && |got| <= want
      ensures got != "" ==> Holds(outlook, have + |got| + |buffered|)
      ensures got == "" ==> buffered == "" && total == have
    {
      ghost var ahead := Ahead();
      got := Read(want);
      assert |got| + |Ahead()| == |ahead|;
    }

    /** Read exactly `count` bytes, or all there are before the deadline, after `done` bytes of a response. */
    method ReadFull(count: nat, ghost done: nat, ghost needed: nat, ghost total: nat, ghost outlook: Outlook)
      returns (data: string)
      requires Wanted(done, count, needed)
      requires Foretells(outlook, needed, total) && Holds(outlook, done + |buffered|)
      modifies this, conn
      ensures data + Ahead() == old(Ahead()) && |data| <= count
      ensures |data| == count ==> Holds(outlook, done + count + |buffered|)
      ensures |data| < count ==> buffered == "" && total == done + |data|
    {
      data := "";
      ghost var whole := Ahead();
      while |data| < count
        invariant data + Ahead() == whole && |data| <= count
        invariant Holds(outlook, done + |data| + |buffered|)
        decreases count - |data|
      {
        ghost var ahead := Ahead();
        var got := ReadSome(count - |data|, done + |data|, needed, total, outlook);
        Regroup(data, got, Ahead());
        assert data + got + Ahead() == data + ahead == whole;
        if got == "" {
          return;
        }
        data := data + got;
      }
    }
  }

  /** What has been read after the header decides how the stream decodes. */
  lemma DecodeRead(stream: string, start: string, header: Header, rest: string, ahead: string)
    requires stream == start + (rest + ahead) && |start| == HEADER_LENGTH && header.Header?
    ensures |rest| == header.length + 1 ==>
              DecodeBody(header, stream)
              == if rest[header.length] != '\n' then Malformed
                 else Frame(Reply(header.status, rest[..header.length]), HEADER_LENGTH + |rest|)
  {
    if |rest| == header.length + 1 {
      assert stream[HEADER_LENGTH + header.length] == rest[header.length];
      assert stream[HEADER_LENGTH..HEADER_LENGTH + header.length] == rest[..header.length];
    }
  }

  /** Read the body and the newline of a response whose header has been read. */
  method ReadBody(
    reader: BufferedReader, header: Header, ghost start: string, ghost frame: Frame, ghost total: nat,
    ghost outlook: Outlook)
    returns (read: Option<Reply>, ghost pulled: nat)
    requires |start| == HEADER_LENGTH && frame == DecodeBody(header, start + reader.Ahead())
    requires header.Header? ==>
               && Foretells(outlook, HEADER_LENGTH + header.length + 1, total)
               && reader.Holds(outlook, HEADER_LENGTH + |reader.buffered|)
    modifies reader, reader.conn
    ensures var stream := start + old(reader.Ahead());
            pulled <= |stream| && reader.conn.incoming == stream[pulled..]
    ensures read.Some? ==> frame.Frame? && frame.reply == read.value && pulled == total
    ensures frame.Frame? ==> (read.Some? <==> frame.length <= total)
  {
    ghost var stream := start + reader.Ahead();
    read, pulled := None, HEADER_LENGTH + |reader.buffered|;
    if header.Header? {
      ghost var needed := HEADER_LENGTH + header.length + 1;
      var rest := reader.ReadFull(header.length + 1, HEADER_LENGTH, needed, total, outlook);
      pulled := HEADER_LENGTH + |rest| + |reader.buffered|;
      DecodeRead(stream, start, header, rest, reader.Ahead());
      assert stream == start + (rest + (reader.buffered + reader.conn.incoming));
      assert reader.conn.incoming == stream[pulled..];
      if |rest| == header.length + 1 && rest[header.length] == '\n' {
        read := Some(Reply(header.status, rest[..header.length]));
      }
    }
  }

  /** The same as `Decode` for any way of parsing the header. */
  function DecodeWith(parse: string -> Header, bytes: string): Frame {
    if |bytes| < HEADER_LENGTH then Short else DecodeBody(parse(bytes[..HEADER_LENGTH]), bytes)
  }

  /** How long the response at the front of the stream is, by its header. */
  function LengthWith(parse: string -> Header, bytes: string): nat {
    if |bytes| < HEADER_LENGTH || !parse(bytes[..HEADER_LENGTH]).Header? then HEADER_LENGTH
    else HEADER_LENGTH + parse(bytes[..HEADER_LENGTH]).length + 1
  }

  /** Read the header through a fresh reader. */
  method ReadHeader(
    conn: Connection, ghost stream: string, ghost needed: nat, ghost total: nat, ghost outlook: Outlook)
    returns (reader: BufferedReader, start: string)
    requires stream == conn.incoming && needed >= HEADER_LENGTH
    requires Foretells(outlook, needed, total) && outlook(conn.schedule, |conn.incoming|, 0)
    modifies conn
    ensures fresh(reader) && reader.conn == conn
    ensures stream == start + reader.Ahead() && |start| <= HEADER_LENGTH
    ensures |start| == HEADER_LENGTH ==>
              start == stream[..HEADER_LENGTH] && reader.Holds(outlook, HEADER_LENGTH + |reader.buffered|)
    ensures |start| < HEADER_LENGTH ==> conn.incoming == stream[|start|..] && total == |start|
  {
    reader := new BufferedReader(conn);
    assert reader.Ahead() == stream;
    start := reader.ReadFull(HEADER_LENGTH, 0, needed, total, outlook);
  }

  /** Read one response through a fresh reader: header, then body and newline.  Whatever the reader still holds at the
      end is dropped with it. */
  method ReadResponse(
    conn: Connection, parse: string -> Header, ghost stream: string, ghost total: nat, ghost outlook: Outlook)
    returns (read: Option<Reply>, ghost pulled: nat)
    requires stream == conn.incoming && Foretells(outlook, LengthWith(parse, stream), total)
    requires outlook(conn.schedule, |conn.incoming|, 0)
    modifies conn
    ensures pulled <= |stream| && conn.incoming == stream[pulled..]
    ensures ReadIs(DecodeWith(parse, stream), total, read, pulled)
  {
    var reader, start := ReadHeader(conn, stream, LengthWith(parse, stream), total, outlook);
    if |start| < HEADER_LENGTH {
      return None, |start|;
    }
    var header := parse(start);
    ghost var frame := DecodeWith(parse, stream);
    assert frame == DecodeBody(header, stream) && start + reader.Ahead() == stream;
    assert header.Header? ==> LengthWith(parse, stream) == HEADER_LENGTH + header.length + 1;
    read, pulled := ReadBody(reader, header, start, frame, total, outlook);
  }

  /** What a read gives by what the stream holds first and how much leaves the connection in all: a response is read
      exactly when enough arrives before the deadline. */
  predicate ReadIs(frame: Frame, total: nat, read: Option<Reply>, pulled: nat) {
    && (read.Some? ==> frame.Frame? && frame.reply == read.value && pulled == total)
    && (frame.Frame? ==> (read.Some? <==> frame.length <= total))
  }

  lemma DecodeByHeader(bytes: string)
    ensures DecodeWith(ParseHeader, bytes) == Decode(bytes)
    ensures Decode(bytes).Frame? ==> LengthWith(ParseHeader, bytes) == Decode(bytes).length
  {
  }

  /** Read one response.  No result stands for any error: a missed deadline or a malformed response.  A response is
      read exactly when the chunks taken hold all of it, and then exactly those chunks have left the connection. */
  method ReadFromConnection(conn: Connection) returns (read: Option<Reply>, ghost pulled: nat)
    modifies conn
    ensures ReadLeaves(old(conn.incoming), pulled, conn.incoming, read)
    ensures Decode(old(conn.incoming)).Frame? ==>
              var length := Decode(old(conn.incoming)).length;
              var total := Filled(old(conn.schedule), |old(conn.incoming)|, 0, length);
              && (read.Some? <==> length <= total)
              && (read.Some? ==> pulled == total)
              && (read.Some? ==> (conn.incoming == old(conn.incoming)[length..] <==> total == length))
  {
    ghost var stream := conn.incoming;
    DecodeByHeader(stream);
    ghost var length := LengthWith(ParseHeader, stream);
    ghost var total := Filled(conn.schedule, |stream|, 0, length);
    PullingForetells(length, total);
    FilledBounds(conn.schedule, |stream|, 0, length);
    read, pulled := ReadResponse(conn, ParseHeader, stream, total, Pulling(length, total));
    if read.Some? {
      DroppedIsEqual(stream, length, pulled);
    }
  }

  lemma DroppedIsEqual(s: string, i: nat, j: nat)
    requires i <= |s| && j <= |s|
    ensures s[i..] == s[j..] <==> i == j
  {
    if s[i..] == s[j..] {
      assert |s[i..]| == |s[j..]|;
    }
  }

  /** In lockstep the stream holds one response and nothing else, so a read that succeeds returns that response
      and drops no byte of any other, however the bytes were chunked. */
  lemma LockstepReadLosesNothing(sent: Reply, pulled: nat, after: string, read: Reply)
    requires Encodable(sent) && ReadLeaves(Encode(sent), pulled, after, Some(read))
    ensures read == sent && after == "" && pulled == |Encode(sent)|
  {
    DecodeEncode(sent, "");
    assert Encode(sent) + "" == Encode(sent);
  }

  /** Out of lockstep: with two responses on the connection, whatever the chunks, the first is read exactly when enough
      arrives, and then the second is left without the bytes that came in one chunk with the end of the first. */
  method ReadBeforeAnother(first: Reply, second: Reply, schedule: seq<nat>)
    returns (read: Option<Reply>, left: string, ghost total: nat)
    requires Encodable(first) && Encodable(second)
    ensures total == Filled(schedule, |Encode(first)| + |Encode(second)|, 0, |Encode(first)|)
    ensures read == if |Encode(first)| <= total then Some(first) else None
    ensures read.Some? ==>
              && total - |Encode(first)| <= |Encode(second)|
              && left == Encode(second)[total - |Encode(first)|..]
              && (left == Encode(second) <==> total == |Encode(first)|)
  {
    ghost var length := |Encode(first)|;
    var stream := Encode(first) + Encode(second);
    DecodeEncode(first, Encode(second));
    total := Filled(schedule, |stream|, 0, length);
    FilledBounds(schedule, |stream|, 0, length);
    var conn := new Connection(stream, schedule);
    ghost var pulled: nat;
    read, pulled := ReadFromConnection(conn);
    left := conn.incoming;
    if read.Some? {
      LeftOfSecond(Encode(first), Encode(second), total);
    }
  }

  lemma LeftOfSecond(a: string, b: string, n: nat)
    requires |a| <= n <= |a + b|
    ensures (a + b)[n..] == b[n - |a|..]
    ensures (a + b)[n..] == b <==> n == |a|
  {
    if (a + b)[n..] == b {
      assert |(a + b)[n..]| == |b|;
    }
  }

  /** Bytes are really lost: a response that is read in one chunk with the first n bytes of the next one, as far as the
      buffer reaches. */
  lemma OneChunkPullsMore(first: Reply, second: Reply, n: nat)
    requires Encodable(first) && Encodable(second) && n <= |Encode(second)|
    requires |Encode(first)| + n <= 4096
    ensures var length := |Encode(first)|;
            Filled([length + n], length + |Encode(second)|, 0, length) == length + n
  {
    EncodeLength(first);
    var length := |Encode(first)|;
    assert Filled(Later([length + n]), |Encode(second)| - n, length + n, length) == length + n;
  }
}
