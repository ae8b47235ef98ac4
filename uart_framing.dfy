/**
 * Octet stuffing of the built-in UART interface (the framing of section 4.2
 * of RFC 1662): the flag byte 0x7E and the escape byte 0x7D are sent as the
 * escape byte followed by the original byte XOR 0x20; every other byte is
 * sent unchanged, and a frame is closed by a single flag byte.
 *
 * The UART line is modelled as the sequence of bytes handed to
 * uart_send_byte, in order.
 */
module UartFraming {
  import opened Arith

  const FLAG: bv8 := 0x7E
  const ESCAPE: bv8 := 0x7D
  const XOR_MASK: bv8 := 0x20

  predicate IsSpecial(b: bv8) {
    b == FLAG || b == ESCAPE
  }

  /** The bytes that sending one data byte puts on the line. */
  function Stuff(b: bv8): (r: seq<bv8>)
    ensures |r| == if IsSpecial(b) then 2 else 1
    ensures FLAG !in r
    ensures IsSpecial(b) ==> r[0] == ESCAPE && r[1] ^ XOR_MASK == b
    ensures !IsSpecial(b) ==> r == [b] && b != ESCAPE
  {
    if IsSpecial(b) then [ESCAPE, b ^ XOR_MASK] else [b]
  }

  /** The bytes that sending a whole buffer puts on the line, byte after byte. */
  function StuffAll(data: seq<bv8>): (r: seq<bv8>)
    ensures FLAG !in r
    ensures |data| <= |r| <= 2 * |data|
  {
    if data == [] then [] else Stuff(data[0]) + StuffAll(data[1..])
  }

  lemma {:induction false} StuffAllAppend(a: seq<bv8>, b: seq<bv8>)
    ensures StuffAll(a + b) == StuffAll(a) + StuffAll(b)
  {
    if a == [] {
      assert a + b == b;
    } else {
      assert (a + b)[1..] == a[1..] + b;
      StuffAllAppend(a[1..], b);
    }
  }

  /**
   * The receiver side of the framing, written independently of the sender:
   * an escape byte is dropped and the byte after it is XORed with 0x20.
   * A flag inside the payload or an escape at its very end is malformed.
   */
  function Unstuff(s: seq<bv8>): Option<seq<bv8>>
    decreases |s|
  {
    if s == [] then Some([])
    else if s[0] == FLAG then None
    else if s[0] == ESCAPE then
      if |s| < 2 || s[1] == FLAG then None
      else match Unstuff(s[2..]) {
        case None => None
        case Some(rest) => Some([s[1] ^ XOR_MASK] + rest)
      }
    else match Unstuff(s[1..]) {
      case None => None
      case Some(rest) => Some([s[0]] + rest)
    }
  }

  /** Un-stuffing the stuffed payload recovers it exactly. */
  lemma {:induction false} UnstuffStuffAll(data: seq<bv8>)
    ensures Unstuff(StuffAll(data)) == Some(data)
  {
    if data != [] {
      var b := data[0];
      var s := StuffAll(data);
      assert s == Stuff(b) + StuffAll(data[1..]);
      UnstuffStuffAll(data[1..]);
      if IsSpecial(b) {
        assert s[2..] == StuffAll(data[1..]);
        assert (b ^ XOR_MASK) ^ XOR_MASK == b;
      } else {
        assert s[1..] == StuffAll(data[1..]);
      }
      assert [b] + data[1..] == data;
    }
  }

  /**
   * A receiver's view of a frame: everything before the first flag byte,
   * un-stuffed; no flag at all means the frame is not complete yet.
   */
  function DecodeFrame(s: seq<bv8>): Option<seq<bv8>>
  {
    if FLAG !in s then None
    else
      var k := FirstFlag(s);
      Unstuff(s[..k])
  }

  function FirstFlag(s: seq<bv8>): (k: nat)
    requires FLAG in s
    ensures k < |s| && s[k] == FLAG && FLAG !in s[..k]
  {
    if s[0] == FLAG then 0
    else
      assert FLAG in s[1..];
      var k := 1 + FirstFlag(s[1..]);
      assert s[..k] == [s[0]] + s[1..][..k - 1];
      k
  }

  /** One transfer (start, payload, stop) delivers exactly the payload. */
  lemma FrameRoundTrip(data: seq<bv8>)
    ensures DecodeFrame(StuffAll(data) + [FLAG]) == Some(data)
  {
    var s := StuffAll(data) + [FLAG];
    var k := FirstFlag(s);
    assert s[|StuffAll(data)|] == FLAG;
    assert k == |StuffAll(data)|;
    assert s[..k] == StuffAll(data);
    UnstuffStuffAll(data);
  }

  /** The UART line: every byte handed to uart_send_byte, in order. */
  class UartLine {
    var sent: seq<bv8>

    constructor ()
      ensures sent == []
    {
      sent := [];
    }

    /** ssd1306_uartStart: nothing is sent. */
    method Start()
      modifies this
      ensures sent == old(sent)
    {
    }

    /** ssd1306_uartStop: the frame delimiter. */
    method Stop()
      modifies this
      ensures sent == old(sent) + [FLAG]
    {
      sent := sent + [FLAG];
    }

    /** ssd1306_uartSendByte */
    method SendByte(data: bv8)
      modifies this
      ensures sent == old(sent) + Stuff(data)
    {
      var d := data;
      if d == FLAG || d == ESCAPE {
        sent := sent + [ESCAPE];
        d := d ^ XOR_MASK;
      }
      sent := sent + [d];
    }

    /** ssd1306_uartSendBytes: `len` bytes of `buffer`, one after another. */
    method SendBytes(buffer: array<bv8>, len: nat)
      requires len <= buffer.Length && len < 0x1_0000
      modifies this
      ensures sent == old(sent) + StuffAll(buffer[..len])
    {
      var n := len;
      var p := 0;
      while n > 0
        invariant 0 <= n <= len && p == len - n
        invariant sent == old(sent) + StuffAll(buffer[..p])
      {
        n := n - 1;
        SendByte(buffer[p]);
        StuffAllAppend(buffer[..p], [buffer[p]]);
        assert buffer[..p + 1] == buffer[..p] + [buffer[p]];
        p := p + 1;
      }
    }
  }
}
