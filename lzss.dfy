/**
 * The LZSS block decoder of src/lzss.rs.
 *
 * `Step` is one iteration of the decoder's `loop`, `Run` iterates it until the
 * loop breaks or a read hits the end of the input, and `Decode` is the whole
 * call.  `DecodeBlockContent` is the imperative decoder, over a fixed-size
 * `array` ring, proved to compute exactly what `Decode` describes.
 *
 * The reader is the input sequence together with a cursor; since every
 * successful `read_u8` is followed by `block_read += 1`, the cursor always
 * equals `block_read`.  The writer is a `Vec<u8>`, which only ever grows.
 */
module Lzss {
  import opened Base

  /** Size of the history ring. */
  const N: nat := 4096
  /** Upper limit for the match length. */
  const F: nat := 18
  /** A match of `THRESHOLD` or fewer bytes is never encoded as a reference. */
  const THRESHOLD: nat := 2
  /** Cells of `text_buf`; the last `F - 1` are never read or written. */
  const TEXT_BUF_LEN: nat := N + F - 1
  /** Every cell of the ring starts out as an ASCII space. */
  const PAD: byte := 0x20
  /** Initial ring cursor. */
  const START_CURSOR: nat := N - F

  /** The only way the decoder fails: `read_u8` at the end of its reader. */
  datatype DecodeError = UnexpectedEof

  /**
   * The variables of the decoder's loop: `text_buf`, `r`, `flags`,
   * `block_read` and the bytes written to `out` so far by this call
   * (`block_written` is their number).
   */
  datatype State = State(textBuf: seq<byte>, r: nat, flags: int, blockRead: nat, written: seq<byte>)

  /**
   * What every loop iteration preserves: the ring has its fixed size, the
   * cursor stays below `N`, the flag register fits 16 bits and the cells
   * beyond `N` still hold their initial padding.
   */
  predicate Valid(st: State) {
    && |st.textBuf| == TEXT_BUF_LEN
    && st.r < N
    && 0 <= st.flags < 0x1_0000
    && forall k | N <= k < TEXT_BUF_LEN :: st.textBuf[k] == PAD
  }

  /** The state before the first iteration. */
  function InitialState(): (st: State)
    ensures Valid(st) && st.r == START_CURSOR && st.blockRead == 0 && st.written == []
    ensures forall k | 0 <= k < TEXT_BUF_LEN :: st.textBuf[k] == PAD
  {
    State(seq(TEXT_BUF_LEN, _ => PAD), START_CURSOR, 0, 0, [])
  }

  // The flag register.  Its values are never negative, so the bitwise
  // operations of the Rust decoder are the arithmetic below.

  /** `flags >>= 1` */
  function Shift(flags: int): int {
    flags / 2
  }

  /** `flags & 0x100 == 0`: no buffered flag bit is left. */
  predicate Exhausted(flags: int) {
    flags / 0x100 % 2 == 0
  }

  /** `b | 0xff00`: eight flag bits with a sentinel above them. */
  function Refill(b: byte): int {
    b + 0xff00
  }

  /** `flags & 1 != 0`: the next token is a literal. */
  predicate LiteralBit(flags: int) {
    flags % 2 == 1
  }

  /** The ring offset of a back-reference `i, j`: `i | ((j & 0xf0) << 4)`. */
  function MatchOffset(i: byte, j: byte): (offset: nat)
    ensures offset < N
    ensures offset % 0x100 == i && offset / 0x100 == j / 0x10
  {
    i + (j / 0x10) * 0x100
  }

  /**
   * The number of bytes a back-reference copies: the loop `for k in 0..=j`
   * runs once more than `j = (j & 0x0f) + THRESHOLD`.
   */
  function MatchLength(j: byte): (len: nat)
    ensures THRESHOLD + 1 <= len <= F
    ensures len == j % 0x10 + 3
  {
    j % 0x10 + THRESHOLD + 1
  }

  /**
   * The copy loop of a back-reference from its `k`-th byte on: each byte is
   * read from the ring at `(offset + k) & (N - 1)`, written out and stored at
   * the cursor, which then advances modulo `N`.  Reading one byte at a time
   * makes an overlapping source re-read bytes this same copy stored.
   */
  function Copy(st: State, offset: nat, k: nat, len: nat): (res: State)
    requires Valid(st) && k <= len
    ensures Valid(res)
    ensures res.flags == st.flags && res.blockRead == st.blockRead
    ensures |res.written| == |st.written| + (len - k) && st.written <= res.written
    decreases len - k
  {
    if k == len then st
    else
      var b := st.textBuf[(offset + k) % N];
      Copy(st.(textBuf := st.textBuf[st.r := b], r := (st.r + 1) % N, written := st.written + [b]),
           offset, k + 1, len)
  }

  /**
   * How one iteration ends: the loop goes on, the loop breaks, or a read
   * failed for lack of input (`read_u8()?` returns the error).
   */
  datatype StepResult = Continue(st: State) | Break(st: State) | Eof(st: State)

  /**
   * One token after the flag register is settled: a back-reference when the
   * low flag bit is clear, a literal when it is set.  The budget is checked
   * before each byte of a back-reference and after its first byte; the
   * literal is read without checking and stored in the ring only while the
   * budget is not reached.
   */
  function Token(inp: seq<byte>, blockSize: nat, st: State): (res: StepResult)
    requires Valid(st) && st.blockRead <= blockSize && st.blockRead <= |inp|
    ensures Valid(res.st) && st.written <= res.st.written
    ensures st.blockRead <= res.st.blockRead <= |inp|
    ensures res.Continue? ==> st.blockRead < res.st.blockRead <= blockSize
    ensures res.Break? ==> blockSize <= res.st.blockRead <= blockSize + 1
    ensures res.Break? && res.st.blockRead == blockSize + 1 ==>
              res.st.written == st.written + [inp[blockSize]]
    ensures res.Eof? ==> res.st.blockRead == |inp| <= blockSize && res.st.written == st.written
  {
    if !LiteralBit(st.flags) then
      if st.blockRead >= blockSize then Break(st)
      else if st.blockRead == |inp| then Eof(st)
      else
        var i := inp[st.blockRead];
        var s1 := st.(blockRead := st.blockRead + 1);
        if s1.blockRead >= blockSize then Break(s1)
        else if s1.blockRead == |inp| then Eof(s1)
        else
          var j := inp[s1.blockRead];
          var s2 := s1.(blockRead := s1.blockRead + 1);
          Continue(Copy(s2, MatchOffset(i, j), 0, MatchLength(j)))
    else
      if st.blockRead == |inp| then Eof(st)
      else
        var b := inp[st.blockRead];
        var s1 := st.(blockRead := st.blockRead + 1, written := st.written + [b]);
        if s1.blockRead >= blockSize then Break(s1)
        else Continue(s1.(textBuf := s1.textBuf[s1.r := b], r := (s1.r + 1) % N))
  }

  /**
   * One iteration of the decoder's loop: shift the flag register, read a
   * fresh flag byte when the sentinel has been shifted out (checking the
   * budget before and after that read), then decode one token.
   */
  function Step(inp: seq<byte>, blockSize: nat, st: State): (res: StepResult)
    requires Valid(st) && st.blockRead <= blockSize && st.blockRead <= |inp|
    ensures Valid(res.st) && st.written <= res.st.written
    ensures st.blockRead <= res.st.blockRead <= |inp|
    ensures res.Continue? ==> st.blockRead < res.st.blockRead <= blockSize
    ensures res.Break? ==> blockSize <= res.st.blockRead <= blockSize + 1
    ensures res.Break? && res.st.blockRead == blockSize + 1 ==>
              res.st.written == st.written + [inp[blockSize]]
    ensures res.Eof? ==> res.st.blockRead == |inp| <= blockSize && res.st.written == st.written
  {
    var s0 := st.(flags := Shift(st.flags));
    if Exhausted(s0.flags) then
      if s0.blockRead >= blockSize then Break(s0)
      else if s0.blockRead == |inp| then Eof(s0)
      else
        var b := inp[s0.blockRead];
        var s1 := s0.(blockRead := s0.blockRead + 1);
        if s1.blockRead >= blockSize then Break(s1)
        else Token(inp, blockSize, s1.(flags := Refill(b)))
    else Token(inp, blockSize, s0)
  }

  /**
   * The loop from state `st` until it ends; the result is never `Continue`.
   * Every iteration that does not end the loop consumes input without
   * passing the budget, which is why the loop terminates.
   */
  function Run(inp: seq<byte>, blockSize: nat, st: State): (res: StepResult)
    requires Valid(st) && st.blockRead <= blockSize && st.blockRead <= |inp|
    ensures !res.Continue?
    ensures Valid(res.st) && st.written <= res.st.written
    ensures st.blockRead <= res.st.blockRead <= |inp|
    ensures res.Break? ==> blockSize <= res.st.blockRead <= blockSize + 1
    ensures res.Break? && res.st.blockRead == blockSize + 1 ==>
              |res.st.written| > 0 && res.st.written[|res.st.written| - 1] == inp[blockSize]
    ensures res.Eof? ==> res.st.blockRead == |inp| <= blockSize
    decreases blockSize - st.blockRead
  {
    var s := Step(inp, blockSize, st);
    if s.Continue? then Run(inp, blockSize, s.st) else s
  }

  /**
   * What a call returns (`Ok(block_written)` or the read error), what it
   * appended to `out`, and how many bytes it took from the reader.
   */
  datatype Decoded = Decoded(result: Result<nat, DecodeError>, written: seq<byte>, consumed: nat)

  /** The reference decoder: `decode_block_content(inp, block_size, out)`. */
  function Decode(inp: seq<byte>, blockSize: nat): (d: Decoded)
    ensures d.result.Ok? ==> d.result.value == |d.written|
  {
    var fin := Run(inp, blockSize, InitialState());
    Decoded(if fin.Eof? then Err(UnexpectedEof) else Ok(|fin.st.written|), fin.st.written, fin.st.blockRead)
  }

  /**
   * The copy loop of one back-reference, in place on the ring array:
   * `len` bytes from ring offset `offset` on, each appended to `out` and
   * stored at the advancing cursor.
   */
  method CopyMatch(textBuf: array<byte>, r: nat, offset: nat, len: nat,
                   ghost before: State, ghost prefix: seq<byte>, out: seq<byte>, blockWritten: nat)
    returns (r': nat, out': seq<byte>, blockWritten': nat)
    requires Valid(before) && textBuf[..] == before.textBuf && r == before.r
    requires out == prefix + before.written
    modifies textBuf
    ensures textBuf[..] == Copy(before, offset, 0, len).textBuf
    ensures r' == Copy(before, offset, 0, len).r
    ensures out' == prefix + Copy(before, offset, 0, len).written
    ensures blockWritten' == blockWritten + len
  {
    r', out', blockWritten' := r, out, blockWritten;
    ghost var written := before.written;
    for k := 0 to len
      invariant Valid(State(textBuf[..], r', before.flags, before.blockRead, written))
      invariant Copy(State(textBuf[..], r', before.flags, before.blockRead, written), offset, k, len)
                == Copy(before, offset, 0, len)
      invariant out' == prefix + written
      invariant blockWritten' == blockWritten + k
    {
      var b := textBuf[(offset + k) % N];
      out' := out' + [b];
      written := written + [b];
      blockWritten' := blockWritten' + 1;
      ghost var ring := textBuf[..];
      textBuf[r'] := b;
      assert textBuf[..] == ring[r' := b];
      r' := (r' + 1) % N;
    }
  }

  /** How the decoding of one token ends inside the loop body. */
  datatype Flow = Proceed | Stop | ReadFailed

  /**
   * One token of the loop body, after the flag register is settled: the
   * back-reference branch (two reads, each guarded by the budget, then the
   * copy) or the literal branch (one unguarded read; the byte is written out,
   * then the budget is checked before it is stored in the ring).  `Stop` is
   * a `break`, `ReadFailed` an error from `read_u8()?`.
   */
  method DecodeToken(inp: seq<byte>, blockSize: nat, textBuf: array<byte>, r: nat, flags: int,
                     blockRead: nat, blockWritten: nat, out: seq<byte>,
                     ghost written: seq<byte>, ghost prefix: seq<byte>)
    returns (flow: Flow, r': nat, blockRead': nat, blockWritten': nat, out': seq<byte>, ghost written': seq<byte>)
    requires Valid(State(textBuf[..], r, flags, blockRead, written))
    requires blockRead <= blockSize && blockRead <= |inp|
    requires out == prefix + written && blockWritten == |written|
    modifies textBuf
    ensures var t := Token(inp, blockSize, State(old(textBuf[..]), r, flags, blockRead, written));
      && State(textBuf[..], r', flags, blockRead', written') == t.st
      && flow == (if t.Continue? then Proceed else if t.Break? then Stop else ReadFailed)
    ensures out' == prefix + written' && blockWritten' == |written'|
  {
    ghost var settled := State(textBuf[..], r, flags, blockRead, written);
    r', blockRead', blockWritten', out', written' := r, blockRead, blockWritten, out, written;
    if !LiteralBit(flags) {
      if blockRead' >= blockSize {
        return Stop, r', blockRead', blockWritten', out', written';
      }
      if blockRead' == |inp| {
        return ReadFailed, r', blockRead', blockWritten', out', written';
      }
      var i := inp[blockRead'];
      blockRead' := blockRead' + 1;
      if blockRead' >= blockSize {
        return Stop, r', blockRead', blockWritten', out', written';
      }
      if blockRead' == |inp| {
        return ReadFailed, r', blockRead', blockWritten', out', written';
      }
      var j := inp[blockRead'];
      blockRead' := blockRead' + 1;

      var offset := MatchOffset(i, j);
      var len := MatchLength(j);
      ghost var before := State(textBuf[..], r', flags, blockRead', written');
      assert Token(inp, blockSize, settled) == Continue(Copy(before, offset, 0, len));
      r', out', blockWritten' := CopyMatch(textBuf, r', offset, len, before, prefix, out', blockWritten');
      written' := Copy(before, offset, 0, len).written;
      flow := Proceed;
    } else {
      if blockRead' == |inp| {
        return ReadFailed, r', blockRead', blockWritten', out', written';
      }
      var b := inp[blockRead'];
      blockRead' := blockRead' + 1;
      out' := out' + [b];
      written' := written' + [b];
      blockWritten' := blockWritten' + 1;
      if blockRead' >= blockSize {
        return Stop, r', blockRead', blockWritten', out', written';
      }
      ghost var ring := textBuf[..];
      textBuf[r'] := b;
      assert textBuf[..] == ring[r' := b];
      r' := (r' + 1) % N;
      flow := Proceed;
    }
  }

  /**
   * The decoder as src/lzss.rs writes it: a `loop` with its breaks over a
   * 4113-cell ring array, reading `inp` from a cursor and appending to `out`,
   * which holds `out0` before the call.
   */
  method DecodeBlockContent(inp: seq<byte>, blockSize: nat, out0: seq<byte>)
    returns (res: Result<nat, DecodeError>, out: seq<byte>, consumed: nat)
    ensures res == Decode(inp, blockSize).result
    ensures out == out0 + Decode(inp, blockSize).written
    ensures consumed == Decode(inp, blockSize).consumed
    ensures res.Ok? ==> res.value == |out| - |out0|
  {
    var textBuf := new byte[TEXT_BUF_LEN](_ => PAD);
    var r: nat := START_CURSOR;
    var flags := 0;
    var blockRead: nat := 0;
    var blockWritten: nat := 0;
    out := out0;
    ghost var written: seq<byte> := [];
    ghost var final := Run(inp, blockSize, InitialState());
    assert textBuf[..] == InitialState().textBuf;

    while true
      invariant textBuf.Length == TEXT_BUF_LEN
      invariant Valid(State(textBuf[..], r, flags, blockRead, written))
      invariant blockRead <= blockSize && blockRead <= |inp|
      invariant out == out0 + written && blockWritten == |written|
      invariant Run(inp, blockSize, State(textBuf[..], r, flags, blockRead, written)) == final
      decreases blockSize - blockRead
    {
      ghost var cur := State(textBuf[..], r, flags, blockRead, written);
      flags := Shift(flags);
      if Exhausted(flags) {
        if blockRead >= blockSize {
          assert final == Break(State(textBuf[..], r, flags, blockRead, written));
          break;
        }
        if blockRead == |inp| {
          assert final == Eof(State(textBuf[..], r, flags, blockRead, written));
          return Err(UnexpectedEof), out, blockRead;
        }
        var b := inp[blockRead];
        blockRead := blockRead + 1;
        if blockRead >= blockSize {
          assert final == Break(State(textBuf[..], r, flags, blockRead, written));
          break;
        }
        flags := Refill(b);
      }
      assert Step(inp, blockSize, cur) == Token(inp, blockSize, State(textBuf[..], r, flags, blockRead, written));
      var flow;
      flow, r, blockRead, blockWritten, out, written :=
        DecodeToken(inp, blockSize, textBuf, r, flags, blockRead, blockWritten, out, written, out0);
      if flow == Stop {
        assert final == Break(State(textBuf[..], r, flags, blockRead, written));
        break;
      }
      if flow == ReadFailed {
        assert final == Eof(State(textBuf[..], r, flags, blockRead, written));
        return Err(UnexpectedEof), out, blockRead;
      }
    }
    res, consumed := Ok(blockWritten), blockRead;
  }
}
