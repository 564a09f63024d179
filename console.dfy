/**
 * The buffered transmitter of the USB Serial/JTAG console (main/drivers/console.c,
 * rust/src/console.rs): bytes collect in a 64-byte RAM buffer and are written to the
 * EP1 data register, followed by one WR_DONE write to EP1_CONF, when the buffer fills,
 * at the end of every string, or on an explicit flush.
 *
 * The register writes are recorded, in order, as a sequence of Write values; the
 * hardware FIFO behind them and the busy-wait after a flush are not modelled.
 */
module Console {
  import Seqs

  /** Capacity of the software buffer. */
  const BufferSize := 64

  const CR: bv8 := 0x0D
  const LF: bv8 := 0x0A

  /** One write to the console's registers: a data byte to EP1, or WR_DONE to EP1_CONF. */
  datatype Write = Data(b: bv8) | WrDone

  /** The data bytes of a sequence of register writes, in order. */
  function Bytes(out: seq<Write>): seq<bv8>
    decreases |out|
  {
    if |out| == 0 then []
    else Bytes(out[..|out| - 1]) + (if out[|out| - 1].Data? then [out[|out| - 1].b] else [])
  }

  /** The EP1 writes of the bytes of b, one per byte, in order. */
  function DataWrites(b: seq<bv8>): (r: seq<Write>)
    ensures |r| == |b|
    decreases |b|
  {
    if |b| == 0 then [] else DataWrites(b[..|b| - 1]) + [Data(b[|b| - 1])]
  }

  lemma DataWritesSnoc(b: seq<bv8>, c: bv8)
    ensures DataWrites(b + [c]) == DataWrites(b) + [Data(c)]
  {
    assert (b + [c])[..|b|] == b;
  }

  /** The k-th write of DataWrites(b) is the k-th byte of b. */
  lemma {:induction false} DataWritesAt(b: seq<bv8>, k: int)
    requires 0 <= k < |b|
    ensures DataWrites(b)[k] == Data(b[k])
    decreases |b|
  {
    if k < |b| - 1 {
      DataWritesAt(b[..|b| - 1], k);
    }
  }

  lemma BytesSnoc(out: seq<Write>, w: Write)
    ensures Bytes(out + [w]) == Bytes(out) + (if w.Data? then [w.b] else [])
  {
    assert (out + [w])[..|out|] == out;
  }

  /** Flushing b puts exactly the bytes of b on the wire, in order. */
  lemma {:induction false} BytesOfDataWrites(out: seq<Write>, b: seq<bv8>)
    ensures Bytes(out + DataWrites(b)) == Bytes(out) + b
    decreases |b|
  {
    if |b| == 0 {
      assert out + DataWrites(b) == out;
    } else {
      var n := |b| - 1;
      BytesOfDataWrites(out, b[..n]);
      assert DataWrites(b) == DataWrites(b[..n]) + [Data(b[n])];
      assert out + DataWrites(b) == (out + DataWrites(b[..n])) + [Data(b[n])];
      BytesSnoc(out + DataWrites(b[..n]), Data(b[n]));
      assert b == b[..n] + [b[n]];
    }
  }

  /**
   * The writes come in batches: every WR_DONE closes a batch of at least one data byte, and
   * no data byte is left without its WR_DONE.
   */
  predicate Batches(out: seq<Write>)
  {
    (|out| == 0 || out[|out| - 1] == WrDone) &&
    forall k :: 0 < k < |out| && out[k] == WrDone ==> out[k - 1].Data?
  }

  /** A batch of bytes closed by WR_DONE keeps the writes in batches. */
  lemma BatchesStep(out: seq<Write>, b: seq<bv8>)
    requires Batches(out) && |b| > 0 && (|out| == 0 || out[0] != WrDone)
    ensures Batches(out + DataWrites(b) + [WrDone])
    ensures (out + DataWrites(b) + [WrDone])[0] != WrDone
  {
    var r := out + DataWrites(b) + [WrDone];
    forall k | 0 < k < |r| && r[k] == WrDone
      ensures r[k - 1].Data?
    {
      if k < |out| {
        assert r[k] == out[k] && r[k - 1] == out[k - 1];
      } else if k < |out| + |b| {
        DataWritesAt(b, k - |out|);
        assert false;
      } else {
        DataWritesAt(b, |b| - 1);
        assert r[k - 1] == Data(b[|b| - 1]);
      }
    }
    if |out| == 0 {
      DataWritesAt(b, 0);
      assert r[0] == Data(b[0]);
    }
  }

  /** What the driver can have written: batches, none starting with WR_DONE. */
  predicate Sent(out: seq<Write>)
  {
    Batches(out) && (|out| == 0 || out[0] != WrDone)
  }

  /** A flush of a nonempty buffer keeps the writes in batches and puts the buffered bytes on the wire. */
  lemma FlushSent(out: seq<Write>, data: seq<bv8>, input: seq<bv8>)
    requires Sent(out) && |data| > 0 && Bytes(out) + data == input
    ensures Sent(out + DataWrites(data) + [WrDone])
    ensures Bytes(out + DataWrites(data) + [WrDone]) == input
  {
    BatchesStep(out, data);
    BytesOfDataWrites(out, data);
    BytesSnoc(out + DataWrites(data), WrDone);
  }

  /** The byte a char is stored as: Rust's `c as u8` keeps its low eight bits; C chars are bytes already. */
  function CharByte(c: char): bv8
  {
    (c as int % 256) as bv8
  }

  /** The bytes console_puts passes to console_putc for one char: a CR first if it is a newline. */
  function Encoded(c: char): seq<bv8>
  {
    if c == '\n' then [CR, CharByte(c)] else [CharByte(c)]
  }

  /** The bytes console_puts passes to console_putc for s: each char up to the first NUL, encoded. */
  function Expand(s: string): seq<bv8>
    decreases |s|
  {
    if |s| == 0 || s[0] == '\0' then [] else Encoded(s[0]) + Expand(s[1..])
  }

  /** A receiving terminal's view: every CR LF pair read back as the LF it stands for. */
  function Unexpand(t: seq<bv8>): seq<bv8>
    decreases |t|
  {
    if |t| == 0 then []
    else if |t| >= 2 && t[0] == CR && t[1] == LF then [LF] + Unexpand(t[2..])
    else [t[0]] + Unexpand(t[1..])
  }

  /** The string up to its first NUL. */
  function Terminated(s: string): string
    decreases |s|
  {
    if |s| == 0 || s[0] == '\0' then [] else [s[0]] + Terminated(s[1..])
  }

  /** A string of byte-sized chars. */
  predicate ByteChars(s: string)
  {
    forall k :: 0 <= k < |s| ==> s[k] as int < 256
  }

  /** The bytes of a string of byte-sized chars. */
  function Encode(s: string): (r: seq<bv8>)
    ensures |r| == |s|
  {
    seq(|s|, k requires 0 <= k < |s| => CharByte(s[k]))
  }

  /** Only the LF of an expanded newline is an LF: no expansion starts with one. */
  lemma ExpandHead(s: string)
    requires ByteChars(s)
    ensures |Expand(s)| > 0 ==> Expand(s)[0] != LF
  {
    if |s| > 0 && s[0] != '\0' && s[0] != '\n' {
      assert s[0] as int < 256;
      assert (s[0] as int % 256) == s[0] as int;
    }
  }

  /** The newline translation loses nothing: a terminal undoing it gets the string back. */
  lemma {:induction false} UnexpandExpand(s: string)
    requires ByteChars(s)
    ensures Unexpand(Expand(s)) == Encode(Terminated(s))
    decreases |s|
  {
    if |s| > 0 && s[0] != '\0' {
      var rest := s[1..];
      assert ByteChars(rest) by {
        forall k | 0 <= k < |rest| ensures rest[k] as int < 256 {
          assert rest[k] == s[k + 1];
        }
      }
      UnexpandExpand(rest);
      ExpandHead(rest);
      assert Terminated(s) == [s[0]] + Terminated(rest);
      assert Encode(Terminated(s)) == [CharByte(s[0])] + Encode(Terminated(rest));
      if s[0] == '\n' {
        assert CharByte(s[0]) == LF;
        assert Expand(s) == [CR, LF] + Expand(rest);
        assert ([CR, LF] + Expand(rest))[2..] == Expand(rest);
      } else {
        var t := [CharByte(s[0])] + Expand(rest);
        assert Expand(s) == t;
        assert t[1..] == Expand(rest);
        if |t| >= 2 && t[0] == CR {
          assert t[1] == Expand(rest)[0];
        }
      }
    }
  }

  /** A newline is sent as CR LF; every other char as its byte. */
  lemma ExpandStep(s: string, i: int)
    requires 0 <= i < |s| && s[i] != '\0'
    ensures Expand(s[i..]) == Encoded(s[i]) + Expand(s[i + 1..])
  {
    assert s[i..][1..] == s[i + 1..];
  }

  /** The message console_init prints. */
  const Greeting := "console initialized successfully!\n"

  /** Chars that are neither a newline nor a NUL pass one byte each to putc. */
  lemma {:induction false} PlainLength(s: string, t: string)
    requires forall k :: 0 <= k < |s| ==> s[k] != '\n' && s[k] != '\0'
    ensures |Expand(s + t)| == |s| + |Expand(t)|
    decreases |s|
  {
    if |s| > 0 {
      assert (s + t)[1..] == s[1..] + t;
      PlainLength(s[1..], t);
    } else {
      assert s + t == t;
    }
  }

  /** The greeting is 33 chars holding neither a newline nor a NUL, then a newline. */
  lemma GreetingPlain()
    ensures Greeting == Greeting[..33] + "\n"
    ensures forall k :: 0 <= k < 33 ==> Greeting[k] != '\n' && Greeting[k] != '\0'
  {
  }

  /** console_init passes 35 bytes to console_putc: 33 chars, then CR LF for the newline. */
  lemma GreetingLength()
    ensures |Expand(Greeting)| == 35
  {
    GreetingPlain();
    var text := Greeting[..33];
    assert |Expand("\n")| == 2;
    PlainLength(text, "\n");
  }

  /** The driver's state as a value: the register writes so far and the bytes still buffered. */
  datatype Tx = Tx(out: seq<Write>, pending: seq<bv8>)

  /**
   * console_putc on a state: the byte joins the buffer, and a buffer that reaches BufferSize
   * goes out as one batch closed by WR_DONE.
   */
  function PutcStep(t: Tx, c: bv8): Tx
  {
    if |t.pending| + 1 >= BufferSize then Tx(t.out + DataWrites(t.pending + [c]) + [WrDone], [])
    else Tx(t.out, t.pending + [c])
  }

  /** The state after passing bytes to console_putc one at a time. */
  function Fed(t: Tx, bytes: seq<bv8>): Tx
    decreases |bytes|
  {
    if |bytes| == 0 then t else Fed(PutcStep(t, bytes[0]), bytes[1..])
  }

  /** The register writes after flush_buffer: the pending bytes as one batch, if there are any. */
  function Flushed(t: Tx): seq<Write>
  {
    if |t.pending| == 0 then t.out else t.out + DataWrites(t.pending) + [WrDone]
  }

  /** One putc keeps every earlier write and loses no byte. */
  lemma PutcKeeps(t: Tx, c: bv8)
    ensures t.out <= PutcStep(t, c).out
    ensures Bytes(PutcStep(t, c).out) + PutcStep(t, c).pending == Bytes(t.out) + t.pending + [c]
  {
    if |t.pending| + 1 >= BufferSize {
      BytesOfDataWrites(t.out, t.pending + [c]);
      BytesSnoc(t.out + DataWrites(t.pending + [c]), WrDone);
    }
  }

  /** A flush keeps every earlier write and puts the pending bytes on the wire. */
  lemma FlushedKeeps(t: Tx)
    ensures t.out <= Flushed(t)
    ensures Bytes(Flushed(t)) == Bytes(t.out) + t.pending
  {
    if |t.pending| > 0 {
      BytesOfDataWrites(t.out, t.pending);
      BytesSnoc(t.out + DataWrites(t.pending), WrDone);
    }
  }

  /** Fewer bytes than the buffer holds, sent from an empty start and flushed, form one batch. */
  lemma OneBatch(bytes: seq<bv8>)
    requires 0 < |bytes| < BufferSize
    ensures Flushed(Fed(Tx([], []), bytes)) == DataWrites(bytes) + [WrDone]
  {
    FedShort(Tx([], []), bytes);
    assert [] + bytes == bytes;
    var t := Fed(Tx([], []), bytes);
    assert t.out == [] && t.pending == bytes;
    assert Flushed(t) == t.out + DataWrites(bytes) + [WrDone];
    assert t.out + DataWrites(bytes) == DataWrites(bytes);
  }

  lemma FedCons(t: Tx, c: bv8, rest: seq<bv8>)
    ensures Fed(t, [c] + rest) == Fed(PutcStep(t, c), rest)
  {
    assert ([c] + rest)[1..] == rest;
  }

  /** Feeding bytes keeps every earlier write and loses no byte. */
  lemma {:induction false} FedKeeps(t: Tx, bytes: seq<bv8>)
    ensures t.out <= Fed(t, bytes).out
    ensures Bytes(Fed(t, bytes).out) + Fed(t, bytes).pending == Bytes(t.out) + t.pending + bytes
    decreases |bytes|
  {
    if |bytes| > 0 {
      var t1 := PutcStep(t, bytes[0]);
      PutcKeeps(t, bytes[0]);
      FedKeeps(t1, bytes[1..]);
      assert bytes == [bytes[0]] + bytes[1..];
      Seqs.AppendAssoc(Bytes(t.out) + t.pending, [bytes[0]], bytes[1..]);
    }
  }

  /** Bytes that fit in the buffer only join it: no register is written. */
  lemma {:induction false} FedShort(t: Tx, bytes: seq<bv8>)
    requires |t.pending| + |bytes| < BufferSize
    ensures Fed(t, bytes) == Tx(t.out, t.pending + bytes)
    decreases |bytes|
  {
    if |bytes| > 0 {
      FedShort(PutcStep(t, bytes[0]), bytes[1..]);
      assert bytes == [bytes[0]] + bytes[1..];
      Seqs.AppendAssoc(t.pending, [bytes[0]], bytes[1..]);
    }
  }

  /** The console driver's state: the software buffer, its fill level, and the register writes so far. */
  class Transmitter {
    /** The software buffer; its first pos bytes wait for the next flush. */
    const buffer: array<bv8>
    var pos: int
    /** Every register write the driver has made, in order. */
    var out: seq<Write>
    /** Every byte passed to putc, in order. */
    ghost var input: seq<bv8>

    /**
     * Order is preserved: what went out followed by what still waits is exactly what came
     * in; the writes come in batches, and the buffer holds at most BufferSize bytes.
     */
    ghost predicate Conserved()
      reads this, buffer
    {
      buffer.Length == BufferSize && 0 <= pos <= BufferSize &&
      Sent(out) && Bytes(out) + buffer[..pos] == input
    }

    /** Between calls the buffer is never full: a full buffer is flushed at once. */
    ghost predicate Valid()
      reads this, buffer
    {
      Conserved() && pos < BufferSize
    }

    /** console_init: an empty buffer, then the greeting sent with console_puts. */
    constructor Init()
      ensures Valid() && pos == 0
      ensures Bytes(out) == Expand(Greeting) && input == Expand(Greeting)
      ensures out == DataWrites(Expand(Greeting)) + [WrDone]
    {
      buffer := new bv8[BufferSize];
      pos := 0;
      out := [];
      input := [];
      new;
      Puts(Greeting);
      GreetingLength();
      OneBatch(Expand(Greeting));
    }

    /**
     * flush_buffer: nothing when the buffer is empty; otherwise each buffered byte to EP1 in
     * order, one WR_DONE, and the buffer emptied.
     */
    method Flush()
      requires Conserved()
      modifies this
      ensures Valid() && pos == 0 && input == old(input)
      ensures old(pos) == 0 ==> out == old(out)
      ensures old(pos) > 0 ==> out == old(out) + DataWrites(old(buffer[..pos])) + [WrDone]
    {
      if pos == 0 {
        return;
      }
      var data := buffer[..pos];
      ghost var out0 := out;
      for i := 0 to pos
        invariant pos == |data| && input == old(input)
        invariant out == out0 + DataWrites(data[..i])
      {
        out := out + [Data(buffer[i])];
        assert data[..i + 1] == data[..i] + [data[i]];
        DataWritesSnoc(data[..i], data[i]);
      }
      assert data[..pos] == data;
      FlushSent(out0, data, input);
      out := out + [WrDone];
      pos := 0;
    }

    /** console_putc: stores the byte; the 64th byte flushes the buffer at once. */
    method Putc(c: bv8)
      requires Valid()
      modifies this, buffer
      ensures Valid() && input == old(input) + [c]
      ensures old(pos) + 1 < BufferSize ==> out == old(out) && pos == old(pos) + 1
      ensures old(pos) + 1 == BufferSize ==>
        out == old(out) + DataWrites(old(buffer[..pos]) + [c]) + [WrDone] && pos == 0
      ensures Tx(out, buffer[..pos]) == PutcStep(Tx(old(out), old(buffer[..pos])), c)
    {
      ghost var waiting := buffer[..pos];
      buffer[pos] := c;
      pos := pos + 1;
      input := input + [c];
      assert buffer[..pos] == waiting + [c];
      if pos >= BufferSize {
        Flush();
      }
    }

    /**
     * console_puts: each char up to the first NUL, a CR before every LF, then a flush; on
     * return the buffer is empty and everything passed in has gone out with its newlines
     * translated.
     */
    method Puts(s: string)
      requires Valid()
      modifies this, buffer
      ensures Valid() && pos == 0
      ensures input == old(input) + Expand(s)
      ensures Bytes(out) == Bytes(old(out)) + old(buffer[..pos]) + Expand(s)
      ensures old(out) <= out
      ensures out == Flushed(Fed(Tx(old(out), old(buffer[..pos])), Expand(s)))
    {
      PutChars(s);
      Flush();
    }

    /** The loop of console_puts: every char before the first NUL passed to putc, a CR before each LF. */
    method PutChars(s: string)
      requires Valid()
      modifies this, buffer
      ensures Valid() && input == old(input) + Expand(s)
      ensures Tx(out, buffer[..pos]) == Fed(Tx(old(out), old(buffer[..pos])), Expand(s))
      ensures old(out) <= out
    {
      ghost var input0 := input;
      ghost var final := Fed(Tx(out, buffer[..pos]), Expand(s));
      ghost var out0 := out;
      var i := 0;
      while i < |s| && s[i] != '\0'
        invariant Valid() && 0 <= i <= |s|
        invariant input + Expand(s[i..]) == input0 + Expand(s)
        invariant Fed(Tx(out, buffer[..pos]), Expand(s[i..])) == final
        invariant out0 <= out
      {
        ExpandStep(s, i);
        ghost var before := input;
        PutsStep(s, i);
        Seqs.AppendAssoc(before, Encoded(s[i]), Expand(s[i + 1..]));
        i := i + 1;
      }
      assert Expand(s[i..]) == [];
    }

    /** One round of console_puts: the char's bytes passed to putc, the rest of the string still to feed. */
    method PutsStep(s: string, i: int)
      requires Valid() && 0 <= i < |s| && s[i] != '\0'
      modifies this, buffer
      ensures Valid() && input == old(input) + Encoded(s[i])
      ensures Fed(Tx(out, buffer[..pos]), Expand(s[i + 1..])) ==
        Fed(Tx(old(out), old(buffer[..pos])), Encoded(s[i]) + Expand(s[i + 1..]))
      ensures old(out) <= out
    {
      ghost var t0, in0 := Tx(out, buffer[..pos]), input;
      ghost var rest := Expand(s[i + 1..]);
      var c := CharByte(s[i]);
      if s[i] == '\n' {
        Putc(CR);
        FedCons(t0, CR, [c] + rest);
        assert Encoded(s[i]) + rest == [CR] + ([c] + rest);
      } else {
        assert Encoded(s[i]) + rest == [c] + rest;
      }
      ghost var t1, in1 := Tx(out, buffer[..pos]), input;
      assert in1 + [c] == in0 + Encoded(s[i]) by {
        if s[i] == '\n' {
          Seqs.AppendAssoc(in0, [CR], [c]);
        }
      }
      Putc(c);
      FedCons(t1, c, rest);
    }
  }

  /** A string without NUL is its own terminated part. */
  lemma {:induction false} TerminatedPlain(s: string)
    requires forall k :: 0 <= k < |s| ==> s[k] != '\0'
    ensures Terminated(s) == s
    decreases |s|
  {
    if |s| > 0 {
      TerminatedPlain(s[1..]);
    }
  }
}
