/** Length-prefixed frames: four big-endian bytes, then the payload. */
module Frame {
  import opened ByteText
  import opened Sequences

  const MAX_FRAME := 16 * 1024 * 1024
  const HEADER_LEN := 4

  function PutUint32(n: nat): (h: Bytes)
    requires n < 0x1_0000_0000
    ensures |h| == HEADER_LEN
  {
    [(n / 0x100_0000) as byte, (n / 0x1_0000 % 0x100) as byte, (n / 0x100 % 0x100) as byte, (n % 0x100) as byte]
  }

  function Uint32(h: Bytes): (n: nat)
    requires |h| == HEADER_LEN
    ensures n < 0x1_0000_0000
  {
    h[0] as nat * 0x100_0000 + h[1] as nat * 0x1_0000 + h[2] as nat * 0x100 + h[3] as nat
  }

  lemma Uint32OfPut(n: nat)
    requires n < 0x1_0000_0000
    ensures Uint32(PutUint32(n)) == n
  {
    assert n / 0x1_0000 == n / 0x100_0000 * 0x100 + n / 0x1_0000 % 0x100;
    assert n / 0x100 == n / 0x1_0000 * 0x100 + n / 0x100 % 0x100;
  }

  lemma PutOfUint32(h: Bytes)
    requires |h| == HEADER_LEN
    ensures PutUint32(Uint32(h)) == h
  {
    var n := Uint32(h);
    var a, b, c, d := h[0] as nat, h[1] as nat, h[2] as nat, h[3] as nat;
    assert n == ((a * 0x100 + b) * 0x100 + c) * 0x100 + d;
    assert n / 0x100 == (a * 0x100 + b) * 0x100 + c;
    assert n / 0x1_0000 == n / 0x100 / 0x100 == a * 0x100 + b;
    assert n / 0x100_0000 == n / 0x1_0000 / 0x100 == a;
  }

  function Encoded(payload: Bytes): Bytes
    requires |payload| <= MAX_FRAME
  {
    PutUint32(|payload|) + payload
  }

  datatype ReadResult = Payload(data: Bytes) | Eof | UnexpectedEof | TooLarge | ShortBody

  /** One ReadFrame on a stream holding s: its result and what it leaves unread. */
  function Read(s: Bytes): (ReadResult, Bytes) {
    if s == [] then (Eof, [])
    else if |s| < HEADER_LEN then (UnexpectedEof, [])
    else
      var n := Uint32(s[..HEADER_LEN]);
      if n > MAX_FRAME then (TooLarge, s[HEADER_LEN..])
      else if |s| < HEADER_LEN + n then (ShortBody, [])
      else (Payload(s[HEADER_LEN..HEADER_LEN + n]), s[HEADER_LEN + n..])
  }

  /** A connection's bytes, written at the back and read at the front. */
  class Stream {
    var data: Bytes

    constructor ()
      ensures data == []
    {
      data := [];
    }

    /** io.ReadFull into a buffer: reads what there is, up to the buffer's length. */
    method ReadFull(buf: array<byte>) returns (n: nat)
      modifies this, buf
      ensures n == if |old(data)| < buf.Length then |old(data)| else buf.Length
      ensures buf[..n] == old(data)[..n] && data == old(data)[n..]
    {
      n := if |data| < buf.Length then |data| else buf.Length;
      for i := 0 to n
        invariant data == old(data) && buf[..i] == data[..i]
      {
        ghost var was := buf[..i];
        buf[i] := data[i];
        assert buf[..i + 1] == was + [data[i]];
      }
      data := data[n..];
    }

    /** False when the payload is over the limit; then nothing is written. */
    method WriteFrame(payload: Bytes) returns (ok: bool)
      modifies this
      ensures ok <==> |payload| <= MAX_FRAME
      ensures data == old(data) + if ok then Encoded(payload) else []
    {
      if |payload| > MAX_FRAME {
        return false;
      }
      var n := |payload|;
      var hdr := new byte[4](_ => 0);
      hdr[0] := (n / 0x100_0000) as byte;
      hdr[1] := (n / 0x1_0000 % 0x100) as byte;
      hdr[2] := (n / 0x100 % 0x100) as byte;
      hdr[3] := (n % 0x100) as byte;
      assert hdr[..] == PutUint32(n);
      assert data + hdr[..] + payload == data + Encoded(payload);
      data := data + hdr[..];
      data := data + payload;
      ok := true;
    }

    method ReadFrame() returns (r: ReadResult)
      modifies this
      ensures (r, data) == old(Read(data))
    {
      ghost var s := data;
      var hdr := new byte[4](_ => 0);
      var got := ReadFull(hdr);
      if got < 4 {
        return if got == 0 then Eof else UnexpectedEof;
      }
      assert hdr[..4] == s[..4];
      var n := Uint32(hdr[..4]);
      if n > MAX_FRAME {
        return TooLarge;
      }
      var buf := new byte[n](_ => 0);
      got := ReadFull(buf);
      if got < n {
        return ShortBody;
      }
      assert buf[..] == buf[..n] == s[4..][..n] == s[4..4 + n] && s[4..][n..] == s[4 + n..];
      r := Payload(buf[..]);
    }
  }

  /** A frame read is a frame written: the two directions and the limits agree. */
  lemma ReadExactly(s: Bytes, payload: Bytes, rest: Bytes)
    ensures Read(s) == (Payload(payload), rest) <==> |payload| <= MAX_FRAME && s == Encoded(payload) + rest
  {
    if |payload| <= MAX_FRAME && s == Encoded(payload) + rest {
      Uint32OfPut(|payload|);
      assert s[..4] == PutUint32(|payload|) && s[4..4 + |payload|] == payload && s[4 + |payload|..] == rest;
    }
    if Read(s) == (Payload(payload), rest) {
      PutOfUint32(s[..4]);
      assert s == s[..4] + s[4..4 + |payload|] + s[4 + |payload|..];
    }
  }

  predicate Sendable(ps: seq<Bytes>) {
    forall i :: 0 <= i < |ps| ==> |ps[i]| <= MAX_FRAME
  }

  function EncodedAll(ps: seq<Bytes>): Bytes
    requires Sendable(ps)
  {
    if ps == [] then [] else Encoded(ps[0]) + EncodedAll(ps[1..])
  }

  /** n frames read in a row: their payloads and the bytes left, if all n were whole. */
  function ReadMany(n: nat, s: Bytes): Option<(seq<Bytes>, Bytes)> {
    if n == 0 then Some(([], s))
    else
      var (r, left) := Read(s);
      if !r.Payload? then None
      else
        match ReadMany(n - 1, left)
        case None => None
        case Some(more) => Some(([r.data] + more.0, more.1))
  }

  lemma ReadManyStep(n: nat, s: Bytes)
    requires 0 < n && Read(s).0.Payload?
    ensures ReadMany(n, s) ==
      match ReadMany(n - 1, Read(s).1)
      case None => None
      case Some(more) => Some(([Read(s).0.data] + more.0, more.1))
  {
  }

  lemma {:induction false} ReadsWhatWasWritten(s: Bytes, ps: seq<Bytes>, rest: Bytes)
    requires Sendable(ps) && s == EncodedAll(ps) + rest
    ensures ReadMany(|ps|, s) == Some((ps, rest))
  {
    if ps == [] {
      assert [] + rest == rest;
    } else {
      var left := EncodedAll(ps[1..]) + rest;
      assert s == Encoded(ps[0]) + left;
      ReadExactly(s, ps[0], left);
      ReadsWhatWasWritten(left, ps[1..], rest);
      ReadManyStep(|ps|, s);
      assert [ps[0]] + ps[1..] == ps;
    }
  }

  lemma {:induction false} ReadOnlyWhatWasWritten(n: nat, s: Bytes)
    requires ReadMany(n, s).Some?
    ensures var (ps, rest) := ReadMany(n, s).value; |ps| == n && Sendable(ps) && s == EncodedAll(ps) + rest
  {
    if n == 0 {
      assert [] + s == s;
    } else {
      var (r, left) := Read(s);
      ReadManyStep(n, s);
      var (ps, rest) := ReadMany(n - 1, left).value;
      ReadOnlyWhatWasWritten(n - 1, left);
      ReadExactly(s, r.data, left);
      var all := [r.data] + ps;
      OneFrameMore(r.data, ps);
      Assoc(Encoded(r.data), EncodedAll(ps), rest);
    }
  }

  lemma OneFrameMore(p: Bytes, ps: seq<Bytes>)
    requires |p| <= MAX_FRAME && Sendable(ps)
    ensures Sendable([p] + ps) && EncodedAll([p] + ps) == Encoded(p) + EncodedAll(ps)
  {
    assert ([p] + ps)[1..] == ps;
  }

  /**
   * Reading is the exact inverse of writing, whatever follows on the stream: n reads give payloads ps
   * and leave rest exactly when the stream is the frames of ps followed by rest.
   */
  lemma StreamExactly(s: Bytes, ps: seq<Bytes>, rest: Bytes)
    ensures ReadMany(|ps|, s) == Some((ps, rest)) <==> Sendable(ps) && s == EncodedAll(ps) + rest
  {
    if Sendable(ps) && s == EncodedAll(ps) + rest {
      ReadsWhatWasWritten(s, ps, rest);
    }
    if ReadMany(|ps|, s) == Some((ps, rest)) {
      ReadOnlyWhatWasWritten(|ps|, s);
    }
  }

  /** No frame is a proper prefix of another: what follows cannot change how a frame reads. */
  lemma PrefixFree(p: Bytes, q: Bytes, x: Bytes, y: Bytes)
    requires |p| <= MAX_FRAME && |q| <= MAX_FRAME && Encoded(p) + x == Encoded(q) + y
    ensures p == q && x == y
  {
    ReadExactly(Encoded(p) + x, p, x);
    ReadExactly(Encoded(q) + y, q, y);
  }

  /** A frame cut short is told from one that never came, and a header cut short from a body cut short; nothing is left. */
  lemma CutShort(payload: Bytes, n: nat)
    requires |payload| <= MAX_FRAME && n < |Encoded(payload)|
    ensures Read(Encoded(payload)[..n]) == (if n == 0 then Eof else if n < 4 then UnexpectedEof else ShortBody, [])
  {
    Uint32OfPut(|payload|);
    assert n >= 4 ==> Encoded(payload)[..n][..4] == PutUint32(|payload|);
  }

  /** A header that announces more than 16 MiB is refused as such, and only the header is consumed. */
  lemma Refused(n: nat, rest: Bytes)
    requires n < 0x1_0000_0000
    ensures Read(PutUint32(n) + rest) == (TooLarge, rest) <==> n > 16 * 1024 * 1024
  {
    Uint32OfPut(n);
    assert (PutUint32(n) + rest)[..4] == PutUint32(n) && (PutUint32(n) + rest)[4..] == rest;
  }
}
