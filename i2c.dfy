/**
 * The bit-banged I2C master (main/drivers/i2c.c, rust/src/i2c.rs).
 *
 * One abstract model serves both twins. The bus is a class whose `scl` and `sda`
 * fields are the levels the master drives; every level change and every SDA sample
 * is also appended to a ghost trace of line events. SDA reads come from the oracle
 * sequence `remote`, which stands in for the device on the other end of the wire;
 * once it is exhausted the released line reads high (no device pulls it low).
 *
 * The reference for the protocol is a receiver-side decoder (`Decode`) that turns a
 * trace into the symbols of the I2C-bus specification (NXP UM10204): a START or STOP
 * condition (section 3.1.4) and data bits sampled while SCL is high (section 3.1.3).
 */
module I2c {
  import Gpio
  import Seqs

  /** CPU clock assumed by the delay computation. */
  const CpuHz := 160000000

  /** Number of busy-wait iterations per half bit, `(160000000 / freq_hz) / 4` in uint32 arithmetic. */
  function DelayCycles(freqHz: int): (r: int)
    requires 0 < freqHz < 0x1_0000_0000
    ensures 0 <= r
    ensures 4 * freqHz * r <= CpuHz < 4 * freqHz * (r + 1)
  {
    var q := CpuHz / freqHz;
    DelayBounds(freqHz, q, q / 4);
    q / 4
  }

  /** Truncating twice, by f and then by 4, is truncating once by 4 * f. */
  lemma DelayBounds(f: int, q: int, r: int)
    requires 0 < f && q == CpuHz / f && r == q / 4
    ensures 0 <= r && 4 * f * r <= CpuHz < 4 * f * (r + 1)
  {
    assert f * q <= CpuHz < f * q + f;
    assert 4 * r <= q && q + 1 <= 4 * r + 4;
    MulMono(f, 4 * r, q);
    MulMono(f, q + 1, 4 * r + 4);
  }

  lemma MulMono(a: int, x: int, y: int)
    requires 0 < a && x <= y
    ensures a * x <= a * y
  {
    assert a * y - a * x == a * (y - x);
  }

  lemma DelayAt400kHz()
    ensures DelayCycles(400000) == 100
    ensures DelayCycles(100000) == 400
  {
  }

  // ---------------------------------------------------------------------------
  // Bytes and bits

  /** Bit i of a byte, `data & (1 << i) != 0`. */
  predicate BitAt(data: bv8, i: nat)
    requires i < 8
  {
    data & ((1 as bv8) << i) != 0
  }

  /** The bits of a byte in transmission order, most significant first (UM10204 section 3.1.5). */
  function ToBits(data: bv8): (bits: seq<bool>)
    ensures |bits| == 8
  {
    [BitAt(data, 7), BitAt(data, 6), BitAt(data, 5), BitAt(data, 4),
     BitAt(data, 3), BitAt(data, 2), BitAt(data, 1), BitAt(data, 0)]
  }

  /** Bit i is sent as the (7 - i)-th bit of the byte. */
  lemma ToBitsAt(data: bv8, i: nat)
    requires i < 8
    ensures ToBits(data)[7 - i] == BitAt(data, i)
  {
    if i == 0 {
    } else if i == 1 {
    } else if i == 2 {
    } else if i == 3 {
    } else if i == 4 {
    } else if i == 5 {
    } else if i == 6 {
    }
  }

  /** The bookkeeping of the first k + 1 samples of read_byte. */
  lemma SamplesStep(samples: seq<bool>, k: nat)
    requires k < |samples| <= 8
    ensures Assemble(samples[..k + 1]) == SetBitIf(Assemble(samples[..k]), 7 - k, samples[k])
    ensures SampleEvents(samples[..k + 1]) ==
            SampleEvents(samples[..k]) + [Drive(Scl, true), Sample(samples[k]), Drive(Scl, false)]
  {
    var b := samples[..k + 1];
    assert b[..k] == samples[..k];
  }

  /** The events of the first k + 1 data bits of write_byte. */
  lemma BitsEventsStep(data: bv8, i: nat)
    requires i < 8
    ensures BitsEvents(ToBits(data)[..8 - i]) == BitsEvents(ToBits(data)[..7 - i]) + BitEvents(BitAt(data, i))
  {
    var b := ToBits(data)[..8 - i];
    assert b[..7 - i] == ToBits(data)[..7 - i];
    ToBitsAt(data, i);
  }

  /** `data |= 1 << i` when the sampled bit is high. */
  function SetBitIf(data: bv8, i: nat, high: bool): bv8
    requires i < 8
  {
    if high then data | ((1 as bv8) << i) else data
  }

  /** The byte assembled by read_byte from the first |bits| samples: sample k sets bit 7 - k. */
  function Assemble(bits: seq<bool>): bv8
    requires |bits| <= 8
    decreases |bits|
  {
    if |bits| == 0 then 0
    else SetBitIf(Assemble(bits[..|bits| - 1]), 8 - |bits|, bits[|bits| - 1])
  }

  /** Assembling the samples of a byte sent MSB first gives the byte back. */
  lemma AssembleToBits(data: bv8)
    ensures Assemble(ToBits(data)) == data
  {
    AssembleUnfold(ToBits(data));
  }

  /** Reading eight samples gives the byte whose bit 7 - k is sample k. */
  lemma ToBitsAssemble(bits: seq<bool>)
    requires |bits| == 8
    ensures ToBits(Assemble(bits)) == bits
  {
    AssembleUnfold(bits);
    BitsOfAssembled(bits);
  }

  lemma BitsOfAssembled(b: seq<bool>)
    requires |b| == 8
    ensures ToBits(SetBitIf(SetBitIf(SetBitIf(SetBitIf(SetBitIf(SetBitIf(SetBitIf(SetBitIf(
                     0, 7, b[0]), 6, b[1]), 5, b[2]), 4, b[3]), 3, b[4]), 2, b[5]), 1, b[6]), 0, b[7])) == b
  {
    assert b == [b[0], b[1], b[2], b[3], b[4], b[5], b[6], b[7]];
  }

  /** Assemble of eight samples, written out. */
  lemma AssembleUnfold(b: seq<bool>)
    requires |b| == 8
    ensures Assemble(b) ==
      SetBitIf(SetBitIf(SetBitIf(SetBitIf(SetBitIf(SetBitIf(SetBitIf(SetBitIf(
        0, 7, b[0]), 6, b[1]), 5, b[2]), 4, b[3]), 3, b[4]), 2, b[5]), 1, b[6]), 0, b[7])
  {
    assert b[..8][..7] == b[..7];
    assert b[..7][..6] == b[..6];
    assert b[..6][..5] == b[..5];
    assert b[..5][..4] == b[..4];
    assert b[..4][..3] == b[..3];
    assert b[..3][..2] == b[..2];
    assert b[..2][..1] == b[..1];
    assert b[..1][..0] == [];
    assert Assemble(b[..1]) == SetBitIf(0, 7, b[0]);
    assert Assemble(b[..2]) == SetBitIf(Assemble(b[..1]), 6, b[1]);
    assert Assemble(b[..3]) == SetBitIf(Assemble(b[..2]), 5, b[2]);
    assert Assemble(b[..4]) == SetBitIf(Assemble(b[..3]), 4, b[3]);
    assert Assemble(b[..5]) == SetBitIf(Assemble(b[..4]), 3, b[4]);
    assert Assemble(b[..6]) == SetBitIf(Assemble(b[..5]), 2, b[5]);
    assert Assemble(b[..7]) == SetBitIf(Assemble(b[..6]), 1, b[6]);
    assert b[..8] == b;
  }

  /** The address byte of a write: the 7-bit address shifted left, u8 top bit discarded, R/W = 0. */
  function AddrByte(addr: bv8): (b: bv8)
    ensures !BitAt(b, 0)
    ensures b as int == (2 * addr as int) % 256
  {
    addr << 1
  }

  // ---------------------------------------------------------------------------
  // The remote device's SDA levels

  /** The next level the master will sample; an exhausted oracle leaves SDA pulled up. */
  function Head(remote: seq<bool>): bool { if |remote| == 0 then true else remote[0] }

  function Tail(remote: seq<bool>): seq<bool> { if |remote| == 0 then [] else remote[1..] }

  /** Level k of the oracle, high once it is exhausted. */
  function At(remote: seq<bool>, k: nat): bool { if k < |remote| then remote[k] else true }

  /** The next eight levels of the oracle, released (high) past its end. */
  function Peek8(remote: seq<bool>): (s: seq<bool>)
    ensures |s| == 8 && forall k :: 0 <= k < 8 ==> s[k] == At(remote, k)
  {
    seq(8, k requires 0 <= k < 8 => At(remote, k))
  }

  /** The oracle after k samples. */
  function Drop(remote: seq<bool>, k: nat): seq<bool> { if k < |remote| then remote[k..] else [] }

  lemma DropStep(remote: seq<bool>, k: nat)
    ensures Head(Drop(remote, k)) == At(remote, k)
    ensures Tail(Drop(remote, k)) == Drop(remote, k + 1)
  {
  }

  // ---------------------------------------------------------------------------
  // Line events

  datatype Line = Scl | Sda

  /** A level the master drives on a line, or a sample of SDA as seen on the wire. */
  datatype Event = Drive(line: Line, high: bool) | Sample(high: bool)

  /** The events of i2c_start: SDA high, SCL high, SDA low, SCL low. */
  const StartEvents: seq<Event> :=
    [Drive(Sda, true), Drive(Scl, true), Drive(Sda, false), Drive(Scl, false)]

  /** The events of i2c_stop: SDA low, SCL high, SDA high. */
  const StopEvents: seq<Event> := [Drive(Sda, false), Drive(Scl, true), Drive(Sda, true)]

  /** One data bit of write_byte: put it on SDA, then pulse SCL. */
  function BitEvents(b: bool): seq<Event> { [Drive(Sda, b), Drive(Scl, true), Drive(Scl, false)] }

  function BitsEvents(bits: seq<bool>): seq<Event>
    decreases |bits|
  {
    if |bits| == 0 then [] else BitsEvents(bits[..|bits| - 1]) + BitEvents(bits[|bits| - 1])
  }

  /** The acknowledge clock of write_byte: release SDA, SCL high, sample SDA (level v), SCL low. */
  function AckEvents(v: bool): seq<Event> { [Drive(Sda, true), Drive(Scl, true), Sample(v), Drive(Scl, false)] }

  /** All events of write_byte(data) when the device leaves SDA at level v during the ninth clock. */
  function ByteEvents(data: bv8, v: bool): seq<Event> { BitsEvents(ToBits(data)) + AckEvents(v) }

  /** One data clock of read_byte: SCL high, sample SDA, SCL low. */
  function SampleEvents(samples: seq<bool>): seq<Event>
    decreases |samples|
  {
    if |samples| == 0 then []
    else SampleEvents(samples[..|samples| - 1]) + [Drive(Scl, true), Sample(samples[|samples| - 1]), Drive(Scl, false)]
  }

  /** All events of read_byte(ack) with the given eight samples. */
  function ReadEvents(samples: seq<bool>, ack: bool): seq<Event>
  {
    [Drive(Sda, true)] + SampleEvents(samples)
    + [Drive(Sda, !ack), Drive(Scl, true), Drive(Scl, false), Drive(Sda, true)]
  }

  // ---------------------------------------------------------------------------
  // Transactions

  /** The bytes of frame f that go on the wire: up to and including the first one not acknowledged. */
  function Sent(f: seq<bv8>, remote: seq<bool>): seq<bv8>
    decreases |f|
  {
    if |f| == 0 then []
    else if Head(remote) then [f[0]]
    else [f[0]] + Sent(f[1..], Tail(remote))
  }

  /** Whether every byte of f is acknowledged. */
  predicate Acked(f: seq<bv8>, remote: seq<bool>)
    decreases |f|
  {
    |f| == 0 || (!Head(remote) && Acked(f[1..], Tail(remote)))
  }

  /** The oracle after the bytes of f have been offered. */
  function Rest(f: seq<bv8>, remote: seq<bool>): seq<bool>
    decreases |f|
  {
    if |f| == 0 then remote
    else if Head(remote) then Tail(remote)
    else Rest(f[1..], Tail(remote))
  }

  /** The byte-write events of frame f, ending after the first non-acknowledged byte. */
  function BodyEvents(f: seq<bv8>, remote: seq<bool>): seq<Event>
    decreases |f|
  {
    if |f| == 0 then []
    else ByteEvents(f[0], Head(remote)) + (if Head(remote) then [] else BodyEvents(f[1..], Tail(remote)))
  }

  /** The events of one i2c_write / i2c_write_reg of frame f. */
  function TxEvents(f: seq<bv8>, remote: seq<bool>): seq<Event>
  {
    StartEvents + BodyEvents(f, remote) + StopEvents
  }

  /** Unfolding the frame's events at byte j. */
  lemma BodyStep(f: seq<bv8>, j: nat, r: seq<bool>)
    requires j < |f|
    ensures BodyEvents(f[j..], r) ==
            ByteEvents(f[j], Head(r)) + (if Head(r) then [] else BodyEvents(f[j + 1..], Tail(r)))
  {
    assert f[j..][0] == f[j] && f[j..][1..] == f[j + 1..];
  }

  /** Unfolding the frame's sent bytes, acknowledgement and oracle at byte j. */
  lemma FrameStep(f: seq<bv8>, j: nat, r: seq<bool>)
    requires j < |f|
    ensures Sent(f[j..], r) == [f[j]] + (if Head(r) then [] else Sent(f[j + 1..], Tail(r)))
    ensures Acked(f[j..], r) == (!Head(r) && Acked(f[j + 1..], Tail(r)))
    ensures Rest(f[j..], r) == if Head(r) then Tail(r) else Rest(f[j + 1..], Tail(r))
  {
    assert f[j..][0] == f[j] && f[j..][1..] == f[j + 1..];
  }

  /** The events of bytes that are all acknowledged. */
  function AckedEvents(bytes: seq<bv8>): seq<Event>
    decreases |bytes|
  {
    if |bytes| == 0 then []
    else AckedEvents(bytes[..|bytes| - 1]) + ByteEvents(bytes[|bytes| - 1], false)
  }

  lemma AckedEventsStep(f: seq<bv8>, k: nat)
    requires k < |f|
    ensures AckedEvents(f[..k + 1]) == AckedEvents(f[..k]) + ByteEvents(f[k], false)
  {
    assert f[..k + 1][..k] == f[..k];
  }

  /** The device acknowledges each of the first k bytes. */
  ghost predicate AckedUpTo(r: seq<bool>, k: nat)
  {
    forall m :: 0 <= m < k ==> !At(r, m)
  }

  /** A frame whose first k bytes are acknowledged: their events, then those of the rest from oracle level k. */
  lemma {:induction false} BodySplit(f: seq<bv8>, r: seq<bool>, k: nat)
    requires k <= |f| && AckedUpTo(r, k)
    ensures BodyEvents(f, r) == AckedEvents(f[..k]) + BodyEvents(f[k..], Drop(r, k))
    decreases k
  {
    if k == 0 {
      assert f[..0] == [] && f[0..] == f && Drop(r, 0) == r;
    } else {
      var j := k - 1;
      BodySplit(f, r, j);
      DropStep(r, j);
      BodyStep(f, j, Drop(r, j));
      AckedEventsStep(f, j);
      Seqs.AppendAssoc(AckedEvents(f[..j]), ByteEvents(f[j], false), BodyEvents(f[k..], Drop(r, k)));
    }
  }

  /** A frame whose first k bytes are acknowledged: those bytes are sent, and the rest as from oracle level k. */
  lemma {:induction false} FrameSplit(f: seq<bv8>, r: seq<bool>, k: nat)
    requires k <= |f| && AckedUpTo(r, k)
    ensures Sent(f, r) == f[..k] + Sent(f[k..], Drop(r, k))
    ensures Acked(f, r) == Acked(f[k..], Drop(r, k))
    ensures Rest(f, r) == Rest(f[k..], Drop(r, k))
    decreases k
  {
    if k == 0 {
      assert f[..0] == [] && f[0..] == f && Drop(r, 0) == r;
    } else {
      var j := k - 1;
      FrameSplit(f, r, j);
      DropStep(r, j);
      FrameStep(f, j, Drop(r, j));
      assert f[..j] + [f[j]] == f[..k];
      Seqs.AppendAssoc(f[..j], [f[j]], Sent(f[k..], Drop(r, k)));
    }
  }

  /** A frame whose byte k is the first one not acknowledged ends there. */
  lemma FrameNack(f: seq<bv8>, r: seq<bool>, k: nat)
    requires k < |f| && AckedUpTo(r, k) && At(r, k)
    ensures BodyEvents(f, r) == AckedEvents(f[..k]) + ByteEvents(f[k], true)
    ensures Sent(f, r) == f[..k + 1] && !Acked(f, r) && Rest(f, r) == Drop(r, k + 1)
  {
    var d := Drop(r, k);
    DropStep(r, k);
    assert Head(d) && Tail(d) == Drop(r, k + 1);
    assert BodyEvents(f, r) == AckedEvents(f[..k]) + ByteEvents(f[k], true) by {
      BodySplit(f, r, k);
      BodyStep(f, k, d);
      var e := ByteEvents(f[k], true);
      assert BodyEvents(f[k..], d) == e + [] == e;
    }
    assert Sent(f, r) == f[..k + 1] && !Acked(f, r) && Rest(f, r) == Drop(r, k + 1) by {
      FrameSplit(f, r, k);
      FrameStep(f, k, d);
    }
  }

  /** A frame whose bytes are all acknowledged. */
  lemma FrameAllAcked(f: seq<bv8>, r: seq<bool>)
    requires AckedUpTo(r, |f|)
    ensures BodyEvents(f, r) == AckedEvents(f)
    ensures Sent(f, r) == f && Acked(f, r) && Rest(f, r) == Drop(r, |f|)
  {
    BodySplit(f, r, |f|);
    FrameSplit(f, r, |f|);
    assert f[..|f|] == f && f[|f|..] == [];
  }

  /**
   * The abort rule of i2c_write: the bytes sent are a non-empty prefix of the frame ending at
   * the first NACK, all bytes before it acknowledged; the oracle moves on by one level per byte sent.
   */
  lemma {:induction false} SentIsPrefixToFirstNack(f: seq<bv8>, remote: seq<bool>)
    requires |f| > 0
    ensures 1 <= |Sent(f, remote)| <= |f|
    ensures Sent(f, remote) == f[..|Sent(f, remote)|]
    ensures forall j :: 0 <= j < |Sent(f, remote)| - 1 ==> !At(remote, j)
    ensures |Sent(f, remote)| < |f| ==> At(remote, |Sent(f, remote)| - 1)
    ensures Rest(f, remote) == Drop(remote, |Sent(f, remote)|)
    decreases |f|
  {
    var s := Sent(f, remote);
    if Head(remote) {
      assert At(remote, 0);
      assert s == [f[0]] == f[..1];
      assert Rest(f, remote) == Tail(remote) == Drop(remote, 1);
    } else if |f| == 1 {
      assert f[1..] == [];
      assert Rest(f, remote) == Rest([], Tail(remote)) == Tail(remote);
      assert s == [f[0]] + Sent([], Tail(remote)) == [f[0]] == f;
      assert Drop(remote, 1) == Tail(remote);
    } else {
      var t := Tail(remote);
      SentIsPrefixToFirstNack(f[1..], t);
      var s' := Sent(f[1..], t);
      assert s == [f[0]] + s';
      assert s == f[..|s|] by { assert f[1..][..|s'|] == f[1..|s|]; }
      forall j | 0 <= j < |s| - 1
        ensures !At(remote, j)
      {
        if j > 0 { assert At(remote, j) == At(t, j - 1); }
      }
      if |s| < |f| {
        assert At(remote, |s| - 1) == At(t, |s'| - 1);
      }
      assert Drop(t, |s'|) == Drop(remote, |s|);
    }
  }

  /** The frame counts as acknowledged iff every byte of it was, and then all of it was sent. */
  lemma {:induction false} AckedIffAllAcked(f: seq<bv8>, remote: seq<bool>)
    ensures Acked(f, remote) <==> AckedUpTo(remote, |f|)
    ensures Acked(f, remote) ==> Sent(f, remote) == f
    decreases |f|
  {
    if |f| > 0 {
      var t := Tail(remote);
      AckedIffAllAcked(f[1..], t);
      assert f == [f[0]] + f[1..];
      assert AckedUpTo(remote, |f|) <==> !Head(remote) && AckedUpTo(t, |f| - 1) by {
        if AckedUpTo(remote, |f|) {
          assert !At(remote, 0);
          forall j | 0 <= j < |f| - 1 ensures !At(t, j) {
            assert At(t, j) == At(remote, j + 1);
          }
        }
        if !Head(remote) && AckedUpTo(t, |f| - 1) {
          forall j | 0 <= j < |f| ensures !At(remote, j) {
            if j > 0 { assert At(remote, j) == At(t, j - 1); }
          }
        }
      }
    }
  }

  // ---------------------------------------------------------------------------
  // A sequence of transactions

  /** The bus side of a run of write transactions: the bytes sent per transaction, the oracle left, the line events. */
  datatype Wire = Wire(sent: seq<seq<bv8>>, remote: seq<bool>, trace: seq<Event>)

  /** One more write transaction of frame f after w. */
  function Then(w: Wire, f: seq<bv8>): Wire
  {
    Wire(w.sent + [Sent(f, w.remote)], Rest(f, w.remote), w.trace + TxEvents(f, w.remote))
  }

  /** The write transactions `frames` run one after another from w. */
  function Run(w: Wire, frames: seq<seq<bv8>>): Wire
    decreases |frames|
  {
    if |frames| == 0 then w
    else Then(Run(w, frames[..|frames| - 1]), frames[|frames| - 1])
  }

  /** Whether every byte of every one of the transactions `frames` is acknowledged, starting from oracle r. */
  predicate AllAcked(frames: seq<seq<bv8>>, r: seq<bool>)
    decreases |frames|
  {
    |frames| == 0 ||
    (var init := frames[..|frames| - 1];
     AllAcked(init, r) && Acked(frames[|frames| - 1], Run(Wire([], r, []), init).remote))
  }

  /** One more transaction extends the run by its own share. */
  lemma RunStep(w: Wire, frames: seq<seq<bv8>>, f: seq<bv8>)
    ensures Run(w, frames + [f]) == Then(Run(w, frames), f)
  {
    assert (frames + [f])[..|frames|] == frames;
  }

  /** Running two lists of transactions one after the other is running their concatenation. */
  lemma {:induction false} RunAppend(w: Wire, a: seq<seq<bv8>>, b: seq<seq<bv8>>)
    ensures Run(w, a + b) == Run(Run(w, a), b)
    decreases |b|
  {
    if |b| == 0 {
      assert a + b == a;
    } else {
      var n, c := |b| - 1, b[|b| - 1];
      assert b == b[..n] + [c];
      assert a + b == (a + b[..n]) + [c];
      RunStep(w, a + b[..n], c);
      RunStep(Run(w, a), b[..n], c);
      RunAppend(w, a, b[..n]);
    }
  }

  /** The oracle a run leaves depends on the oracle it starts from only. */
  lemma {:induction false} RunRemote(w: Wire, frames: seq<seq<bv8>>)
    ensures Run(w, frames).remote == Run(Wire([], w.remote, []), frames).remote
    decreases |frames|
  {
    if |frames| > 0 {
      RunRemote(w, frames[..|frames| - 1]);
    }
  }

  /** e is a non-empty prefix of f. */
  predicate Truncates(e: seq<bv8>, f: seq<bv8>)
  {
    0 < |e| <= |f| && e == f[..|e|]
  }

  /**
   * A run appends one log entry per transaction, each a non-empty prefix of the frame
   * requested: the address byte always goes out and nothing beyond the requested bytes does.
   */
  lemma {:induction false} RunSentPrefixes(w: Wire, frames: seq<seq<bv8>>)
    requires forall k :: 0 <= k < |frames| ==> |frames[k]| > 0
    ensures |Run(w, frames).sent| == |w.sent| + |frames|
    ensures Run(w, frames).sent[..|w.sent|] == w.sent
    ensures forall k :: 0 <= k < |frames| ==> Truncates(Run(w, frames).sent[|w.sent| + k], frames[k])
    decreases |frames|
  {
    if |frames| == 0 {
      assert w.sent[..|w.sent|] == w.sent;
    } else {
      var n := |frames| - 1;
      var init := frames[..n];
      RunSentPrefixes(w, init);
      var v := Run(w, init);
      SentIsPrefixToFirstNack(frames[n], v.remote);
      assert frames == init + [frames[n]];
      TruncatesSnoc(v.sent, |w.sent|, init, Sent(frames[n], v.remote), frames[n]);
    }
  }

  lemma TruncatesSnoc(log: seq<seq<bv8>>, base: nat, frames: seq<seq<bv8>>, e: seq<bv8>, f: seq<bv8>)
    requires |log| == base + |frames|
    requires forall k :: 0 <= k < |frames| ==> Truncates(log[base + k], frames[k])
    requires Truncates(e, f)
    ensures (log + [e])[..base] == log[..base]
    ensures forall k :: 0 <= k < |frames| + 1 ==> Truncates((log + [e])[base + k], (frames + [f])[k])
  {
    forall k | 0 <= k < |frames| + 1
      ensures Truncates((log + [e])[base + k], (frames + [f])[k])
    {
      if k < |frames| {
        assert (log + [e])[base + k] == log[base + k];
      }
    }
  }

  /** When every transaction is acknowledged throughout, the log grows by exactly the frames requested. */
  lemma {:induction false} RunSentWhenAcked(w: Wire, frames: seq<seq<bv8>>)
    requires AllAcked(frames, w.remote)
    ensures Run(w, frames).sent == w.sent + frames
    decreases |frames|
  {
    if |frames| > 0 {
      var n := |frames| - 1;
      var init := frames[..n];
      RunSentWhenAcked(w, init);
      RunRemote(w, init);
      AckedIffAllAcked(frames[n], Run(w, init).remote);
      assert frames == init + [frames[n]];
      Seqs.AppendAssoc(w.sent, init, [frames[n]]);
    }
  }

  // ---------------------------------------------------------------------------
  // The receiver-side decoder

  /** What a receiver on the wire recognises. */
  datatype Sym = StartCond | StopCond | Bit(high: bool)

  /**
   * Decoder state: the levels of both lines, whether the current SCL-high period has seen
   * no START/STOP (`clean`), and the SDA level seen during it (`bit`).
   */
  datatype Dec = Dec(scl: bool, sda: bool, clean: bool, bit: bool)

  /** Both lines released and no clock period in progress. */
  predicate DecIdle(d: Dec) { d.scl && d.sda && !d.clean }

  /**
   * One event. An SDA change while SCL is high is a START (falling) or STOP (rising) condition;
   * a falling SCL ends a clock period and yields the SDA level held during it as a data bit.
   */
  function Step(d: Dec, e: Event): (Dec, seq<Sym>)
  {
    match e
    case Drive(Scl, h) =>
      if h && !d.scl then (Dec(true, d.sda, true, d.sda), [])
      else if !h && d.scl then (Dec(false, d.sda, false, d.bit), if d.clean then [Bit(d.bit)] else [])
      else (d, [])
    case Drive(Sda, h) =>
      if d.scl && h != d.sda then (Dec(d.scl, h, false, d.bit), [if h then StopCond else StartCond])
      else (Dec(d.scl, h, d.clean, if d.scl then h else d.bit), [])
    case Sample(v) =>
      if d.scl then (Dec(d.scl, d.sda, d.clean, v), []) else (d, [])
  }

  /** The symbols of a trace, and the decoder state at its end. */
  function Decode(d: Dec, es: seq<Event>): (seq<Sym>, Dec)
    decreases |es|
  {
    if |es| == 0 then ([], d)
    else
      var (syms, d1) := Decode(d, es[..|es| - 1]);
      var (d2, out) := Step(d1, es[|es| - 1]);
      (syms + out, d2)
  }

  lemma {:induction false} DecodeAppend(d: Dec, a: seq<Event>, b: seq<Event>)
    ensures Decode(d, a + b).0 == Decode(d, a).0 + Decode(Decode(d, a).1, b).0
    ensures Decode(d, a + b).1 == Decode(Decode(d, a).1, b).1
    decreases |b|
  {
    if |b| == 0 {
      assert a + b == a;
    } else {
      assert (a + b)[..|a + b| - 1] == a + b[..|b| - 1];
      DecodeAppend(d, a, b[..|b| - 1]);
    }
  }

  function BitSyms(bits: seq<bool>): (s: seq<Sym>)
    ensures |s| == |bits|
    ensures forall k :: 0 <= k < |bits| ==> s[k] == Bit(bits[k])
  {
    seq(|bits|, k requires 0 <= k < |bits| => Bit(bits[k]))
  }

  /** A byte on the wire: its eight bits MSB first, then the acknowledge bit (low = ACK). */
  function ByteSyms(data: bv8, nack: bool): seq<Sym> { BitSyms(ToBits(data)) + [Bit(nack)] }

  /** The bytes of a transaction: every byte but the last acknowledged, the last one with `lastNack`. */
  function FrameSyms(bytes: seq<bv8>, lastNack: bool): seq<Sym>
    decreases |bytes|
  {
    if |bytes| == 0 then []
    else if |bytes| == 1 then ByteSyms(bytes[0], lastNack)
    else ByteSyms(bytes[0], false) + FrameSyms(bytes[1..], lastNack)
  }

  lemma DecodeCons(d: Dec, e: Event, es: seq<Event>)
    ensures Decode(d, [e] + es).0 == Step(d, e).1 + Decode(Step(d, e).0, es).0
    ensures Decode(d, [e] + es).1 == Decode(Step(d, e).0, es).1
  {
    DecodeAppend(d, [e], es);
    assert [e][..0] == [];
  }

  /** From idle, the start events decode to a START condition and leave SCL low. */
  lemma DecodeStart(d: Dec)
    requires DecIdle(d)
    ensures Decode(d, StartEvents).0 == [StartCond]
    ensures !Decode(d, StartEvents).1.scl
  {
    var es := StartEvents;
    var d1 := Step(d, es[0]).0;
    var d2 := Step(d1, es[1]).0;
    var d3 := Step(d2, es[2]).0;
    DecodeCons(d, es[0], es[1..]);
    DecodeCons(d1, es[1], es[2..]);
    DecodeCons(d2, es[2], es[3..]);
    DecodeCons(d3, es[3], []);
    assert es == [es[0]] + es[1..] && es[1..] == [es[1]] + es[2..] && es[2..] == [es[2]] + es[3..];
    assert es[3..] == [es[3]] + [];
  }

  /** With SCL low, the stop events decode to a STOP condition and leave the bus idle. */
  lemma DecodeStop(d: Dec)
    requires !d.scl
    ensures Decode(d, StopEvents).0 == [StopCond]
    ensures DecIdle(Decode(d, StopEvents).1)
  {
    var es := StopEvents;
    var d1 := Step(d, es[0]).0;
    var d2 := Step(d1, es[1]).0;
    DecodeCons(d, es[0], es[1..]);
    DecodeCons(d1, es[1], es[2..]);
    DecodeCons(d2, es[2], []);
    assert es == [es[0]] + es[1..] && es[1..] == [es[1]] + es[2..] && es[2..] == [es[2]] + [];
  }

  /** A clock pulse with SCL low on entry: SDA set to b, SCL high, an optional sample, SCL low. */
  lemma DecodeClock(d: Dec, b: bool)
    requires !d.scl
    ensures Decode(d, BitEvents(b)).0 == [Bit(b)]
    ensures !Decode(d, BitEvents(b)).1.scl
  {
    var es := BitEvents(b);
    var d1 := Step(d, es[0]).0;
    var d2 := Step(d1, es[1]).0;
    DecodeCons(d, es[0], es[1..]);
    DecodeCons(d1, es[1], es[2..]);
    DecodeCons(d2, es[2], []);
    assert es == [es[0]] + es[1..] && es[1..] == [es[1]] + es[2..] && es[2..] == [es[2]] + [];
  }

  lemma DecodeAck(d: Dec, v: bool)
    requires !d.scl
    ensures Decode(d, AckEvents(v)).0 == [Bit(v)]
    ensures !Decode(d, AckEvents(v)).1.scl
  {
    var es := AckEvents(v);
    var d1 := Step(d, es[0]).0;
    var d2 := Step(d1, es[1]).0;
    var d3 := Step(d2, es[2]).0;
    DecodeCons(d, es[0], es[1..]);
    DecodeCons(d1, es[1], es[2..]);
    DecodeCons(d2, es[2], es[3..]);
    DecodeCons(d3, es[3], []);
    assert es == [es[0]] + es[1..] && es[1..] == [es[1]] + es[2..] && es[2..] == [es[2]] + es[3..];
    assert es[3..] == [es[3]] + [];
  }

  lemma DecodeSampleClock(d: Dec, v: bool)
    requires !d.scl
    ensures Decode(d, [Drive(Scl, true), Sample(v), Drive(Scl, false)]).0 == [Bit(v)]
    ensures !Decode(d, [Drive(Scl, true), Sample(v), Drive(Scl, false)]).1.scl
  {
    var es := [Drive(Scl, true), Sample(v), Drive(Scl, false)];
    var d1 := Step(d, es[0]).0;
    var d2 := Step(d1, es[1]).0;
    DecodeCons(d, es[0], es[1..]);
    DecodeCons(d1, es[1], es[2..]);
    DecodeCons(d2, es[2], []);
    assert es == [es[0]] + es[1..] && es[1..] == [es[1]] + es[2..] && es[2..] == [es[2]] + [];
  }

  /** The master's acknowledge clock of read_byte, then the release of SDA. */
  lemma DecodeMasterAck(d: Dec, ack: bool)
    requires !d.scl
    ensures Decode(d, [Drive(Sda, !ack), Drive(Scl, true), Drive(Scl, false), Drive(Sda, true)]).0 == [Bit(!ack)]
    ensures !Decode(d, [Drive(Sda, !ack), Drive(Scl, true), Drive(Scl, false), Drive(Sda, true)]).1.scl
  {
    var es := [Drive(Sda, !ack), Drive(Scl, true), Drive(Scl, false), Drive(Sda, true)];
    var d1 := Step(d, es[0]).0;
    var d2 := Step(d1, es[1]).0;
    var d3 := Step(d2, es[2]).0;
    DecodeCons(d, es[0], es[1..]);
    DecodeCons(d1, es[1], es[2..]);
    DecodeCons(d2, es[2], es[3..]);
    DecodeCons(d3, es[3], []);
    assert es == [es[0]] + es[1..] && es[1..] == [es[1]] + es[2..] && es[2..] == [es[2]] + es[3..];
    assert es[3..] == [es[3]] + [];
  }

  /** With SCL low, the data-bit events decode to those bits and SDA changes only while SCL is low. */
  lemma {:induction false} DecodeBits(d: Dec, bits: seq<bool>)
    requires !d.scl
    ensures Decode(d, BitsEvents(bits)).0 == BitSyms(bits)
    ensures !Decode(d, BitsEvents(bits)).1.scl
    decreases |bits|
  {
    if |bits| > 0 {
      var init, last := bits[..|bits| - 1], bits[|bits| - 1];
      DecodeBits(d, init);
      var ea, e := BitsEvents(init), BitEvents(last);
      assert BitsEvents(bits) == ea + e;
      DecodeAppend(d, ea, e);
      DecodeClock(Decode(d, ea).1, last);
      assert BitSyms(bits) == BitSyms(init) + [Bit(last)];
    }
  }

  /** With SCL low, write_byte's events decode to the byte's bits MSB first and the sampled acknowledge bit. */
  lemma DecodeByte(d: Dec, data: bv8, v: bool)
    requires !d.scl
    ensures Decode(d, ByteEvents(data, v)).0 == ByteSyms(data, v)
    ensures !Decode(d, ByteEvents(data, v)).1.scl
  {
    DecodeBits(d, ToBits(data));
    DecodeAppend(d, BitsEvents(ToBits(data)), AckEvents(v));
    DecodeAck(Decode(d, BitsEvents(ToBits(data))).1, v);
  }

  /** With SCL low, read_byte's events decode to the eight samples and then the master's ACK (low) or NACK bit. */
  lemma {:induction false} DecodeRead(d: Dec, samples: seq<bool>, ack: bool)
    requires !d.scl
    ensures Decode(d, ReadEvents(samples, ack)).0 == BitSyms(samples) + [Bit(!ack)]
    ensures !Decode(d, ReadEvents(samples, ack)).1.scl
  {
    var pre: seq<Event> := [Drive(Sda, true)];
    var post := [Drive(Sda, !ack), Drive(Scl, true), Drive(Scl, false), Drive(Sda, true)];
    DecodeCons(d, pre[0], []);
    assert pre == [pre[0]] + [];
    var d0 := Decode(d, pre).1;
    DecodeSamples(d0, samples);
    var d1 := Decode(d0, SampleEvents(samples)).1;
    DecodeMasterAck(d1, ack);
    DecodeAppend(d, pre, SampleEvents(samples));
    DecodeAppend(d, pre + SampleEvents(samples), post);
  }

  lemma {:induction false} DecodeSamples(d: Dec, samples: seq<bool>)
    requires !d.scl
    ensures Decode(d, SampleEvents(samples)).0 == BitSyms(samples)
    ensures !Decode(d, SampleEvents(samples)).1.scl
    decreases |samples|
  {
    if |samples| > 0 {
      var init, last := samples[..|samples| - 1], samples[|samples| - 1];
      var ea, e := SampleEvents(init), [Drive(Scl, true), Sample(last), Drive(Scl, false)];
      DecodeSamples(d, init);
      assert SampleEvents(samples) == ea + e;
      DecodeAppend(d, ea, e);
      DecodeSampleClock(Decode(d, ea).1, last);
      assert BitSyms(samples) == BitSyms(init) + [Bit(last)];
    }
  }

  /** With SCL low, the byte writes of a frame decode to the bytes actually sent with their acknowledge bits. */
  lemma {:induction false} DecodeBody(d: Dec, f: seq<bv8>, remote: seq<bool>)
    requires !d.scl && |f| > 0
    ensures Decode(d, BodyEvents(f, remote)).0 == FrameSyms(Sent(f, remote), !Acked(f, remote))
    ensures !Decode(d, BodyEvents(f, remote)).1.scl
    decreases |f|
  {
    var v := Head(remote);
    DecodeByte(d, f[0], v);
    var d1 := Decode(d, ByteEvents(f[0], v)).1;
    if v {
      assert BodyEvents(f, remote) == ByteEvents(f[0], v) + [];
      assert ByteEvents(f[0], v) + [] == ByteEvents(f[0], v);
    } else if |f| == 1 {
      assert f[1..] == [];
      assert BodyEvents(f, remote) == ByteEvents(f[0], v);
      assert Acked(f, remote);
    } else {
      DecodeBody(d1, f[1..], Tail(remote));
      DecodeAppend(d, ByteEvents(f[0], v), BodyEvents(f[1..], Tail(remote)));
      SentIsPrefixToFirstNack(f[1..], Tail(remote));
    }
  }

  /**
   * The protocol property of i2c_write / i2c_write_reg: from an idle bus the transaction's line
   * events decode to START, the bytes sent (each MSB first with its acknowledge bit, every byte
   * but possibly the last acknowledged), and STOP, and the bus is left idle.
   */
  lemma DecodeTx(d: Dec, f: seq<bv8>, remote: seq<bool>)
    requires DecIdle(d) && |f| > 0
    ensures Decode(d, TxEvents(f, remote)).0 ==
            [StartCond] + FrameSyms(Sent(f, remote), !Acked(f, remote)) + [StopCond]
    ensures DecIdle(Decode(d, TxEvents(f, remote)).1)
  {
    DecodeStart(d);
    var d1 := Decode(d, StartEvents).1;
    DecodeBody(d1, f, remote);
    var d2 := Decode(d1, BodyEvents(f, remote)).1;
    DecodeStop(d2);
    DecodeAppend(d, StartEvents, BodyEvents(f, remote));
    DecodeAppend(d, StartEvents + BodyEvents(f, remote), StopEvents);
  }

  // ---------------------------------------------------------------------------
  // The bus

  /** The OUT writes of `sda_high(); scl_high();` in i2c_init: W1TS of SDA's mask, then of SCL's. */
  method ReleaseLines(gpio: Gpio.Registers, scl: int, sda: int)
    requires gpio.Valid()
    modifies gpio
    ensures gpio.Valid() && gpio.regs == Gpio.ReleasedLines(old(gpio.regs), scl, sda)
  {
    gpio.WriteSet(Gpio.LineMask(sda));
    gpio.WriteSet(Gpio.LineMask(scl));
  }

  class Bus {
    /** Pin numbers and the delay count, fixed by i2c_init. */
    const sclPin: int
    const sdaPin: int
    const delayCycles: int
    /** The levels the master drives. */
    var scl: bool
    var sda: bool
    /** The SDA levels the device will present at the master's next samples. */
    var remote: seq<bool>
    /** Every line event since initialisation. */
    ghost var trace: seq<Event>
    /** The bytes each completed I2C write put on the wire, one sequence per transaction. */
    ghost var sent: seq<seq<bv8>>

    predicate Idle()
      reads this
    {
      scl && sda
    }

    /** The bus side as the transactions so far left it. */
    ghost function Log(): Wire
      reads this
    {
      Wire(sent, remote, trace)
    }

    /**
     * i2c_init: records the pins, computes the delay count, configures both pins as open-drain
     * and releases SDA, then SCL, with W1TS writes to the OUT register. The trace starts after
     * those two line events: it records the line events of the transactions.
     */
    constructor Init(gpio: Gpio.Registers, sclPin: int, sdaPin: int, freqHz: int, remote: seq<bool>)
      requires 0 < freqHz < 0x1_0000_0000
      requires gpio.Valid()
      modifies gpio
      ensures gpio.Valid()
      ensures this.sclPin == sclPin && this.sdaPin == sdaPin
      ensures delayCycles == DelayCycles(freqHz)
      ensures Idle() && this.remote == remote
      ensures trace == [] && sent == []
      ensures gpio.regs ==
        Gpio.ReleasedLines(Gpio.OpenDrainRegs(Gpio.OpenDrainRegs(old(gpio.regs), sclPin), sdaPin), sclPin, sdaPin)
    {
      this.sclPin := sclPin;
      this.sdaPin := sdaPin;
      delayCycles := DelayCycles(freqHz);
      this.remote := remote;
      new;
      gpio.SetOpenDrain(sclPin);
      gpio.SetOpenDrain(sdaPin);
      ReleaseLines(gpio, sclPin, sdaPin);
      sda := true;
      scl := true;
      trace := [];
      sent := [];
    }

    method SclHigh()
      modifies this
      ensures scl && sda == old(sda) && remote == old(remote) && sent == old(sent)
      ensures trace == old(trace) + [Drive(Scl, true)]
    {
      scl := true;
      trace := trace + [Drive(Scl, true)];
    }

    method SclLow()
      modifies this
      ensures !scl && sda == old(sda) && remote == old(remote) && sent == old(sent)
      ensures trace == old(trace) + [Drive(Scl, false)]
    {
      scl := false;
      trace := trace + [Drive(Scl, false)];
    }

    method SdaHigh()
      modifies this
      ensures sda && scl == old(scl) && remote == old(remote) && sent == old(sent)
      ensures trace == old(trace) + [Drive(Sda, true)]
    {
      sda := true;
      trace := trace + [Drive(Sda, true)];
    }

    method SdaLow()
      modifies this
      ensures !sda && scl == old(scl) && remote == old(remote) && sent == old(sent)
      ensures trace == old(trace) + [Drive(Sda, false)]
    {
      sda := false;
      trace := trace + [Drive(Sda, false)];
    }

    /** sda_read: the level on the wire, which the device may pull low. */
    method SdaRead() returns (high: bool)
      modifies this
      ensures high == Head(old(remote)) && remote == Tail(old(remote))
      ensures scl == old(scl) && sda == old(sda) && sent == old(sent)
      ensures trace == old(trace) + [Sample(high)]
    {
      high := Head(remote);
      remote := Tail(remote);
      trace := trace + [Sample(high)];
    }

    /** i2c_start: SDA falls while SCL is high; always succeeds. Opens a new transaction. */
    method Start() returns (ok: bool)
      modifies this
      ensures ok
      ensures !scl && !sda && remote == old(remote)
      ensures trace == old(trace) + StartEvents
      ensures sent == old(sent)
    {
      SdaHigh();
      SclHigh();
      SdaLow();
      SclLow();
      return true;
    }

    /** i2c_stop: SDA rises while SCL is high; both lines end released. */
    method Stop()
      modifies this
      ensures Idle() && remote == old(remote) && sent == old(sent)
      ensures trace == old(trace) + StopEvents
    {
      SdaLow();
      SclHigh();
      SdaHigh();
    }

    /** One iteration of write_byte's bit loop: the bit on SDA, then an SCL pulse. */
    method ClockOut(high: bool)
      modifies this
      ensures !scl && sda == high && remote == old(remote) && sent == old(sent)
      ensures trace == old(trace) + BitEvents(high)
    {
      if high {
        SdaHigh();
      } else {
        SdaLow();
      }
      SclHigh();
      SclLow();
    }

    /** The acknowledge clock of write_byte: release SDA, SCL high, sample SDA, SCL low. */
    method ClockAck() returns (level: bool)
      modifies this
      ensures level == Head(old(remote)) && remote == Tail(old(remote))
      ensures !scl && sda && sent == old(sent)
      ensures trace == old(trace) + AckEvents(level)
    {
      SdaHigh();
      SclHigh();
      level := SdaRead();
      SclLow();
    }

    /** i2c_write_byte: eight data bits MSB first, then the acknowledge clock; true iff SDA was low (ACK). */
    method WriteByte(data: bv8) returns (ack: bool)
      modifies this
      ensures ack == !Head(old(remote)) && remote == Tail(old(remote))
      ensures !scl && sda
      ensures trace == old(trace) + ByteEvents(data, Head(old(remote)))
      ensures sent == old(sent)
    {
      ClockOutByte(data);
      var level := ClockAck();
      ack := !level;
    }

    /** The bit loop of i2c_write_byte: each bit on SDA, MSB first, with an SCL pulse. */
    method ClockOutByte(data: bv8)
      modifies this
      ensures remote == old(remote) && sent == old(sent)
      ensures trace == old(trace) + BitsEvents(ToBits(data))
    {
      ghost var bits := ToBits(data);
      var i := 7;
      ghost var k := 0;
      while i >= 0
        invariant -1 <= i <= 7 && k == 7 - i
        invariant remote == old(remote) && sent == old(sent)
        invariant trace == old(trace) + BitsEvents(bits[..k])
      {
        BitsEventsStep(data, i);
        ClockOut(BitAt(data, i));
        i, k := i - 1, k + 1;
      }
      assert bits[..8] == bits;
    }

    /** One iteration of read_byte's bit loop: SCL high, sample SDA, SCL low. */
    method ClockIn() returns (high: bool)
      modifies this
      ensures high == Head(old(remote)) && remote == Tail(old(remote))
      ensures !scl && sda == old(sda) && sent == old(sent)
      ensures trace == old(trace) + [Drive(Scl, true), Sample(high), Drive(Scl, false)]
    {
      SclHigh();
      high := SdaRead();
      SclLow();
    }

    /** The bit loop of i2c_read_byte: eight samples MSB first, assembled into a byte. */
    method ClockInByte() returns (data: bv8)
      modifies this
      ensures data == Assemble(Peek8(old(remote)))
      ensures remote == Drop(old(remote), 8)
      ensures !scl && sda == old(sda) && sent == old(sent)
      ensures trace == old(trace) + SampleEvents(Peek8(old(remote)))
    {
      ghost var samples := Peek8(remote);
      data := 0;
      var i := 7;
      ghost var k := 0;
      while i >= 0
        invariant -1 <= i <= 7 && k == 7 - i
        invariant sda == old(sda) && sent == old(sent) && (k > 0 ==> !scl)
        invariant remote == Drop(old(remote), k)
        invariant data == Assemble(samples[..k])
        invariant trace == old(trace) + SampleEvents(samples[..k])
      {
        SamplesStep(samples, k);
        DropStep(old(remote), k);
        var high := ClockIn();
        data := SetBitIf(data, i, high);
        i, k := i - 1, k + 1;
      }
      assert samples[..8] == samples;
    }

    /** i2c_read_byte: SDA released, eight samples MSB first, then the master's ACK (SDA low) iff `ack`, then SDA released. */
    method ReadByte(ack: bool) returns (data: bv8)
      modifies this
      ensures ToBits(data) == Peek8(old(remote))
      ensures remote == Drop(old(remote), 8)
      ensures !scl && sda && sent == old(sent)
      ensures trace == old(trace) + ReadEvents(Peek8(old(remote)), ack)
    {
      SdaHigh();
      data := ClockInByte();
      ToBitsAssemble(Peek8(old(remote)));
      SendAck(ack);
    }

    /** The master's acknowledge clock after a read: SDA low iff `ack`, an SCL pulse, SDA released. */
    method SendAck(ack: bool)
      modifies this
      ensures !scl && sda && remote == old(remote) && sent == old(sent)
      ensures trace == old(trace) + [Drive(Sda, !ack), Drive(Scl, true), Drive(Scl, false), Drive(Sda, true)]
    {
      if ack {
        SdaLow();
      } else {
        SdaHigh();
      }
      SclHigh();
      SclLow();
      SdaHigh();
    }

    /**
     * The bookkeeping of a frame write, begun with oracle r0, trace t0 and log s0, after its
     * first k bytes, all acknowledged: SCL low, k oracle levels consumed, START and those
     * bytes on the trace, the log untouched.
     */
    ghost predicate Progress(f: seq<bv8>, r0: seq<bool>, t0: seq<Event>, s0: seq<seq<bv8>>, k: int)
      reads this
    {
      0 <= k <= |f| && !scl && sent == s0 && remote == Drop(r0, k) && AckedUpTo(r0, k)
      && trace == t0 + StartEvents + AckedEvents(f[..k])
    }

    /**
     * The state after a complete write transaction of frame f begun with oracle r0, trace t0
     * and log s0: both lines released, `ok` iff every byte was acknowledged, the oracle advanced
     * past the sampled acknowledgements, START, the bytes up to the first NACK and STOP on the
     * trace, and the bytes that went out appended to the log.
     */
    ghost predicate Done(f: seq<bv8>, r0: seq<bool>, t0: seq<Event>, s0: seq<seq<bv8>>, ok: bool)
      reads this
    {
      Idle() && ok == Acked(f, r0) && remote == Rest(f, r0)
      && trace == t0 + TxEvents(f, r0) && sent == s0 + [Sent(f, r0)]
    }

    /**
     * Writes byte j of a frame in progress; on a NACK sends STOP, which completes the
     * transaction (the `if (!i2c_write_byte(..)) { i2c_stop(); return false; }` of both writes).
     */
    method WriteOrStop(b: bv8, ghost f: seq<bv8>, ghost r0: seq<bool>, ghost t0: seq<Event>, ghost s0: seq<seq<bv8>>, ghost j: int)
      returns (ack: bool)
      requires Progress(f, r0, t0, s0, j) && j < |f| && f[j] == b
      modifies this
      ensures ack ==> Progress(f, r0, t0, s0, j + 1)
      ensures !ack ==> Done(f, r0, t0, s0, false)
    {
      ack := FrameByte(b, f, r0, t0, s0, j);
      if !ack {
        StopFrame(f, r0, t0, s0);
      }
    }

    /**
     * The bytes of the frame are all on the trace, SCL low: the transaction lacks only its
     * STOP and its entry in the log.
     */
    ghost predicate Unstopped(f: seq<bv8>, r0: seq<bool>, t0: seq<Event>, s0: seq<seq<bv8>>)
      reads this
    {
      !scl && t0 + StartEvents + BodyEvents(f, r0) == trace && sent == s0 && Rest(f, r0) == remote
    }

    /** The i2c_stop that ends a transaction. */
    method StopFrame(ghost f: seq<bv8>, ghost r0: seq<bool>, ghost t0: seq<Event>, ghost s0: seq<seq<bv8>>)
      requires Unstopped(f, r0, t0, s0)
      modifies this
      ensures Done(f, r0, t0, s0, Acked(f, r0))
    {
      ghost var t := trace;
      Stop();
      assert trace == t0 + (StartEvents + BodyEvents(f, r0) + StopEvents);
      sent := sent + [Sent(f, r0)];
    }

    /** Writes byte j of a frame in progress; on a NACK the transaction is complete but for the stop. */
    method FrameByte(b: bv8, ghost f: seq<bv8>, ghost r0: seq<bool>, ghost t0: seq<Event>, ghost s0: seq<seq<bv8>>, ghost j: int)
      returns (ack: bool)
      requires Progress(f, r0, t0, s0, j) && j < |f| && f[j] == b
      modifies this
      ensures ack ==> Progress(f, r0, t0, s0, j + 1)
      ensures !ack ==> Unstopped(f, r0, t0, s0) && !Acked(f, r0)
    {
      ghost var head := Head(remote);
      DropStep(r0, j);
      Seqs.AppendAssoc(t0 + StartEvents, AckedEvents(f[..j]), ByteEvents(b, head));
      if head {
        FrameNack(f, r0, j);
      } else {
        AckedEventsStep(f, j);
      }
      ack := WriteByte(b);
    }

    /** The frame is complete, every byte acknowledged: STOP ends the transaction. */
    method Finish(ghost f: seq<bv8>, ghost r0: seq<bool>, ghost t0: seq<Event>, ghost s0: seq<seq<bv8>>)
      requires Progress(f, r0, t0, s0, |f|)
      modifies this
      ensures Done(f, r0, t0, s0, true)
    {
      FrameAllAcked(f, r0);
      assert f[..|f|] == f;
      StopFrame(f, r0, t0, s0);
    }

    /**
     * The data loop shared by i2c_write and i2c_write_reg, from byte j of the frame on: each
     * data byte in turn, STOP at the first NACK, STOP after the last byte.
     */
    method WriteData(data: seq<bv8>, ghost f: seq<bv8>, ghost r0: seq<bool>, ghost t0: seq<Event>, ghost s0: seq<seq<bv8>>, ghost j: int)
      returns (ok: bool)
      requires Progress(f, r0, t0, s0, j) && 0 <= j <= |f| && f[j..] == data
      modifies this
      ensures Done(f, r0, t0, s0, ok)
    {
      var i := 0;
      ghost var k := j;
      while i < |data|
        invariant 0 <= i <= |data| && k == j + i
        invariant Progress(f, r0, t0, s0, k)
      {
        assert data[i] == f[k];
        ok := WriteOrStop(data[i], f, r0, t0, s0, k);
        if !ok {
          return;
        }
        i, k := i + 1, k + 1;
      }
      Finish(f, r0, t0, s0);
      ok := true;
    }

    /**
     * i2c_write: START, the address byte, the data bytes, STOP; a NACK stops the transaction at
     * once. Returns true iff every byte was acknowledged. The `!i2c_start()` early return is
     * unreachable since start always succeeds.
     */
    method Write(addr: bv8, data: seq<bv8>) returns (ok: bool)
      modifies this
      ensures Done([AddrByte(addr)] + data, old(remote), old(trace), old(sent), ok)
    {
      ghost var f := [AddrByte(addr)] + data;
      ghost var r0, t0, s0 := remote, trace, sent;
      var _ := Start();
      assert f[..0] == [] && Drop(r0, 0) == r0;
      ok := WriteOrStop(AddrByte(addr), f, r0, t0, s0, 0);
      if !ok {
        return;
      }
      assert f[1..] == data;
      ok := WriteData(data, f, r0, t0, s0, 1);
    }

    /** i2c_write_reg: as Write, with the register byte between the address and the data. */
    method WriteReg(addr: bv8, reg: bv8, data: seq<bv8>) returns (ok: bool)
      modifies this
      ensures Done([AddrByte(addr), reg] + data, old(remote), old(trace), old(sent), ok)
    {
      ghost var f := [AddrByte(addr), reg] + data;
      ghost var r0, t0, s0 := remote, trace, sent;
      var _ := Start();
      assert f[..0] == [] && Drop(r0, 0) == r0;
      ok := WriteOrStop(AddrByte(addr), f, r0, t0, s0, 0);
      if !ok {
        return;
      }
      ok := WriteOrStop(reg, f, r0, t0, s0, 1);
      if !ok {
        return;
      }
      assert f[2..] == data;
      ok := WriteData(data, f, r0, t0, s0, 2);
    }
  }
}
