/** Byte-level layout of the telemetry stream: C `int` fields, their network byte
    order image (POSIX `htonl`/`ntohl`), the fixed-layout snapshot record and the
    raw host-order handshake integer. */
module Wire {

  /** One octet on the wire. */
  type byte = x: int | 0 <= x < 256

  /** 2^32, the number of values of a 32-bit word. */
  const WORD: int := 0x1_0000_0000

  /** 2^31, the first value outside the C `int` range. */
  const INT_LIMIT: int := 0x8000_0000

  /** A value representable by a 32-bit two's-complement C `int`. */
  predicate IsInt32(x: int) {
    -INT_LIMIT <= x < INT_LIMIT
  }

  predicate AllInt32(xs: seq<int>) {
    forall i | 0 <= i < |xs| :: IsInt32(xs[i])
  }

  /** The conversion of a C `int` to `uint32_t` that `htonl`'s argument undergoes. */
  function ToUint32(x: int): (u: int)
    requires IsInt32(x)
    ensures 0 <= u < WORD
    ensures u % WORD == x % WORD
  {
    if x < 0 then x + WORD else x
  }

  /** The reinterpretation of a `uint32_t` as a C `int` (what `%d` prints of `ntohl`'s result). */
  function ToInt32(u: int): (x: int)
    requires 0 <= u < WORD
    ensures IsInt32(x)
    ensures x % WORD == u % WORD
  {
    if u < INT_LIMIT then u else u - WORD
  }

  /** The four bytes of a 32-bit word, most significant first. */
  function BigEndian(u: int): (b: seq<byte>)
    requires 0 <= u < WORD
    ensures |b| == 4
  {
    var q1 := u / 256;
    var q2 := q1 / 256;
    [q2 / 256, q2 % 256, q1 % 256, u % 256]
  }

  /** The word whose bytes, most significant first, are `b`. */
  function FromBigEndian(b: seq<byte>): (u: int)
    requires |b| == 4
    ensures 0 <= u < WORD
  {
    ((b[0] as int * 256 + b[1]) * 256 + b[2]) * 256 + b[3]
  }

  lemma BigEndianRoundTrip(u: int)
    requires 0 <= u < WORD
    ensures FromBigEndian(BigEndian(u)) == u
  {
    var q1 := u / 256;
    var q2 := q1 / 256;
    assert u == q1 * 256 + u % 256;
    assert q1 == q2 * 256 + q1 % 256;
    assert q2 == (q2 / 256) * 256 + q2 % 256;
  }

  lemma FromBigEndianRoundTrip(b: seq<byte>)
    requires |b| == 4
    ensures BigEndian(FromBigEndian(b)) == b
  {
    var u := FromBigEndian(b);
    var q2: int := b[0] as int * 256 + b[1];
    var q1: int := q2 * 256 + b[2];
    assert u == q1 * 256 + b[3];
    assert u / 256 == q1 && u % 256 == b[3];
    assert q1 / 256 == q2 && q1 % 256 == b[2];
    assert q2 / 256 == b[0] && q2 % 256 == b[1];
  }

  /** The memory image of `htonl(x)` for a C `int` x: network byte order,
      four bytes that spell the 32-bit word of x most significant first. */
  function Htonl(x: int): (b: seq<byte>)
    requires IsInt32(x)
    ensures |b| == 4 && FromBigEndian(b) == ToUint32(x)
  {
    BigEndianRoundTrip(ToUint32(x));
    BigEndian(ToUint32(x))
  }

  /** `ntohl` applied to four bytes read from the wire, taken back as a C
      `int`: the `int` whose 32-bit word the bytes spell, most significant
      first. */
  function Ntohl(b: seq<byte>): (x: int)
    requires |b| == 4
    ensures IsInt32(x) && ToUint32(x) == FromBigEndian(b)
  {
    ToInt32(FromBigEndian(b))
  }

  lemma NtohlHtonl(x: int)
    requires IsInt32(x)
    ensures Ntohl(Htonl(x)) == x
  {
    BigEndianRoundTrip(ToUint32(x));
  }

  lemma HtonlNtohl(b: seq<byte>)
    requires |b| == 4
    ensures Htonl(Ntohl(b)) == b
  {
    FromBigEndianRoundTrip(b);
  }

  /** A snapshot record on the wire: each field `htonl`-encoded, 4 bytes per field,
      in field order (`send(sd, &message, sizeof(message), 0)`). */
  function EncodeRecord(fields: seq<int>): (bytes: seq<byte>)
    requires AllInt32(fields)
    ensures |bytes| == 4 * |fields|
    ensures forall i | 0 <= i < |fields| :: bytes[4 * i..4 * i + 4] == Htonl(fields[i])
  {
    if fields == [] then []
    else
      var rest := EncodeRecord(fields[1..]);
      assert forall i | 1 <= i < |fields| ::
        (Htonl(fields[0]) + rest)[4 * i..4 * i + 4] == rest[4 * (i - 1)..4 * (i - 1) + 4];
      Htonl(fields[0]) + rest
  }

  /** The receiver's view of a record buffer: field i is `ntohl` of bytes 4i..4i+3. */
  function DecodeRecord(bytes: seq<byte>): (fields: seq<int>)
    requires |bytes| % 4 == 0
    ensures |fields| == |bytes| / 4
    ensures AllInt32(fields)
    ensures forall i | 0 <= i < |fields| :: fields[i] == Ntohl(bytes[4 * i..4 * i + 4])
  {
    if bytes == [] then []
    else
      var rest := DecodeRecord(bytes[4..]);
      assert forall i | 1 <= i < |bytes| / 4 ::
        bytes[4 * i..4 * i + 4] == bytes[4..][4 * (i - 1)..4 * (i - 1) + 4];
      [Ntohl(bytes[..4])] + rest
  }

  /** Decoding what the sender encoded gives back the original fields. */
  lemma {:induction false} DecodeEncode(fields: seq<int>)
    requires AllInt32(fields)
    ensures DecodeRecord(EncodeRecord(fields)) == fields
  {
    var d := DecodeRecord(EncodeRecord(fields));
    forall i | 0 <= i < |fields| ensures d[i] == fields[i] {
      NtohlHtonl(fields[i]);
    }
  }

  /** Encoding a decoded buffer reproduces the buffer: the layout has no slack. */
  lemma {:induction false} EncodeDecode(bytes: seq<byte>)
    requires |bytes| % 4 == 0
    ensures EncodeRecord(DecodeRecord(bytes)) == bytes
  {
    var fields := DecodeRecord(bytes);
    var e := EncodeRecord(fields);
    forall i | 0 <= i < |fields| ensures e[4 * i..4 * i + 4] == bytes[4 * i..4 * i + 4] {
      HtonlNtohl(bytes[4 * i..4 * i + 4]);
      assert e[4 * i..4 * i + 4] == Htonl(fields[i]);
      assert fields[i] == Ntohl(bytes[4 * i..4 * i + 4]);
    }
    forall j | 0 <= j < |bytes| ensures e[j] == bytes[j] {
      var i := j / 4;
      assert e[4 * i..4 * i + 4][j - 4 * i] == e[j];
      assert bytes[4 * i..4 * i + 4][j - 4 * i] == bytes[j];
    }
  }

  /** Every record has `n` fields, each a C `int`. */
  predicate Uniform(records: seq<seq<int>>, n: int) {
    forall i | 0 <= i < |records| :: |records[i]| == n && AllInt32(records[i])
  }

  /** Records sent back to back on one connection, each in the layout above:
      the stream is a whole number of four-byte fields. */
  function Stream(records: seq<seq<int>>): (bytes: seq<byte>)
    requires forall i | 0 <= i < |records| :: AllInt32(records[i])
    ensures |bytes| % 4 == 0
  {
    if records == [] then [] else EncodeRecord(records[0]) + Stream(records[1..])
  }

  /** A stream of `m` records of `n` fields each is `4 * n * m` bytes long. */
  lemma {:induction false} StreamLength(records: seq<seq<int>>, n: int)
    requires Uniform(records, n)
    ensures |Stream(records)| == 4 * n * |records|
  {
    if records != [] {
      StreamLength(records[1..], n);
      MulSucc(4 * n, |records| - 1);
    }
  }

  lemma MulSucc(k: int, m: int)
    ensures k * (m + 1) == k + k * m
  {
  }

  /** Sending one more record appends its bytes to the stream. */
  lemma {:induction false} StreamAppend(records: seq<seq<int>>, r: seq<int>)
    requires forall i | 0 <= i < |records| :: AllInt32(records[i])
    requires AllInt32(r)
    ensures Stream(records + [r]) == Stream(records) + EncodeRecord(r)
  {
    if records == [] {
      assert records + [r] == [r];
      assert [r][1..] == [];
    } else {
      assert (records + [r])[1..] == records[1..] + [r];
      StreamAppend(records[1..], r);
    }
  }

  /** Byte order of the machine that sends or receives the raw handshake integer. */
  datatype ByteOrder = BigEndianHost | LittleEndianHost

  /** The memory image of a C `int` on a host of the given byte order, as sent
      without conversion (`send(sd, &consumers_number, sizeof(int), 0)`). */
  function HostBytes(x: int, order: ByteOrder): (b: seq<byte>)
    requires IsInt32(x)
    ensures |b| == 4
    ensures order == BigEndianHost ==> b == Htonl(x)
    ensures order == LittleEndianHost ==> b == [Htonl(x)[3], Htonl(x)[2], Htonl(x)[1], Htonl(x)[0]]
  {
    var w := BigEndian(ToUint32(x));
    match order
    case BigEndianHost => w
    case LittleEndianHost => [w[3], w[2], w[1], w[0]]
  }

  /** The C `int` a host of the given byte order reads from four raw bytes:
      the `int` whose memory image on that host they are. */
  function FromHostBytes(b: seq<byte>, order: ByteOrder): (x: int)
    requires |b| == 4
    ensures IsInt32(x) && HostBytes(x, order) == b
  {
    match order
    case BigEndianHost =>
      FromBigEndianRoundTrip(b);
      Ntohl(b)
    case LittleEndianHost =>
      FromBigEndianRoundTrip([b[3], b[2], b[1], b[0]]);
      Ntohl([b[3], b[2], b[1], b[0]])
  }

  /** Sender and receiver of the same byte order agree on the handshake value. */
  lemma HandshakeRoundTrip(x: int, order: ByteOrder)
    requires IsInt32(x)
    ensures FromHostBytes(HostBytes(x, order), order) == x
  {
    BigEndianRoundTrip(ToUint32(x));
  }

  /** Because the handshake skips `htonl`, a sender and a receiver of different
      byte orders disagree on it: a count of 1 is read as 2^24. */
  lemma HandshakeByteOrderMismatch()
    ensures FromHostBytes(HostBytes(1, LittleEndianHost), BigEndianHost) == 0x100_0000
  {
  }
}
