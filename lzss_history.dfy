/**
 * The ring of src/lzss.rs as a window on the output: between iterations,
 * the `N` cells behind the cursor hold the last `N` bytes this call wrote,
 * most recent first, with spaces where the output is shorter.  From this a
 * back-reference is what LZSS promises: each byte it writes repeats the
 * output byte a fixed distance behind it.
 */
module LzssHistory {
  import opened Base
  import opened Lzss
  import opened LzssProperties

  /** The byte `d` places from the end of `out`, or a space when `out` is shorter than that. */
  function Back(out: seq<byte>, d: nat): byte
    requires 0 < d
  {
    if d <= |out| then out[|out| - d] else PAD
  }

  /** The cell `d` places behind the cursor holds the byte `d` places from the end of the output. */
  predicate History(st: State) {
    && Valid(st)
    && forall d | 1 <= d <= N :: st.textBuf[(st.r + N - d) % N] == Back(st.written, d)
  }

  /** From index `from` on, every byte of `out` repeats the byte `d` places before it (a space before the start). */
  predicate CopiesBack(out: seq<byte>, from: nat, d: nat)
    requires 0 < d
  {
    forall t | from <= t < |out| :: out[t] == Back(out[..t], d)
  }

  /** How far behind the cursor `r` the ring offset `offset` lies, between 1 and `N`. */
  function Distance(r: nat, offset: nat): (d: nat)
    requires r < N && offset < N
    ensures 1 <= d <= N && (offset + d) % N == r
  {
    if offset < r then r - offset else r + N - offset
  }

  /** The all-spaces ring is the history of an empty output. */
  lemma InitialHistory()
    ensures History(InitialState())
  {
  }

  /** Storing a written byte at the cursor and advancing it keeps the ring the output's history. */
  lemma StoreHistory(st: State, b: byte)
    requires History(st)
    ensures History(st.(textBuf := st.textBuf[st.r := b], r := (st.r + 1) % N, written := st.written + [b]))
  {
    var next := st.(textBuf := st.textBuf[st.r := b], r := (st.r + 1) % N, written := st.written + [b]);
    forall d | 1 <= d <= N
      ensures next.textBuf[(next.r + N - d) % N] == Back(next.written, d)
    {
      if d == 1 {
        assert (next.r + N - 1) % N == st.r;
      } else {
        var cell := (st.r + N - (d - 1)) % N;
        assert (next.r + N - d) % N == cell;
        assert cell != st.r;
        assert st.textBuf[cell] == Back(st.written, d - 1);
        assert Back(next.written, d) == Back(st.written, d - 1);
      }
    }
  }

  /** The copy loop of a back-reference keeps the ring the output's history. */
  lemma {:induction false} CopyHistory(st: State, offset: nat, k: nat, len: nat)
    requires History(st) && k <= len
    ensures History(Copy(st, offset, k, len))
    decreases len - k
  {
    if k < len {
      var b := st.textBuf[(offset + k) % N];
      StoreHistory(st, b);
      CopyHistory(st.(textBuf := st.textBuf[st.r := b], r := (st.r + 1) % N, written := st.written + [b]),
                  offset, k + 1, len);
    }
  }

  /** A ring position `d` behind `r` is what `(r + N - d) % N` names. */
  lemma ModBack(a: nat, d: nat, r: nat)
    requires 1 <= d <= N && r < N && (a + d) % N == r
    ensures a % N == (r + N - d) % N
  {
  }

  /**
   * A copy whose source is `d` cells behind the cursor writes, byte by
   * byte, the output byte `d` places back, counting the bytes this same
   * copy has already written: an overlapping source repeats a pattern.
   */
  lemma {:induction false} CopyReproduces(st: State, offset: nat, k: nat, len: nat, d: nat)
    requires History(st) && k <= len && 1 <= d <= N && (offset + k + d) % N == st.r
    ensures CopiesBack(Copy(st, offset, k, len).written, |st.written|, d)
    decreases len - k
  {
    if k < len {
      var b := st.textBuf[(offset + k) % N];
      var next := st.(textBuf := st.textBuf[st.r := b], r := (st.r + 1) % N, written := st.written + [b]);
      ModBack(offset + k, d, st.r);
      assert b == Back(st.written, d);
      StoreHistory(st, b);
      CursorStep(offset + k + d);
      assert (offset + (k + 1) + d) % N == next.r;
      CopyReproduces(next, offset, k + 1, len, d);
      var out := Copy(st, offset, k, len).written;
      assert out == Copy(next, offset, k + 1, len).written;
      CopiesBackExtend(out, st.written, b, d);
    }
  }

  /** A byte that repeats the one `d` places back, placed before bytes that already do. */
  lemma CopiesBackExtend(out: seq<byte>, pre: seq<byte>, b: byte, d: nat)
    requires 0 < d && pre + [b] <= out && b == Back(pre, d)
    requires CopiesBack(out, |pre| + 1, d)
    ensures CopiesBack(out, |pre|, d)
  {
    assert out[..|pre|] == pre;
    assert out[|pre|] == b;
  }

  /** A token lets the loop go on only when every byte it reads is in the input and one more is in the budget. */
  lemma TokenContinues(inp: seq<byte>, blockSize: nat, st: State)
    requires Valid(st) && st.blockRead <= blockSize && st.blockRead <= |inp|
    ensures Token(inp, blockSize, st).Continue? ==>
      if LiteralBit(st.flags) then st.blockRead + 1 < blockSize && st.blockRead < |inp|
      else st.blockRead + 1 < blockSize && st.blockRead + 1 < |inp|
  {
  }

  /** A literal with budget left after it is stored in the ring, which stays the output's history. */
  lemma LiteralHistory(inp: seq<byte>, blockSize: nat, st: State)
    requires History(st) && st.blockRead + 1 < blockSize && st.blockRead < |inp|
    requires LiteralBit(st.flags)
    ensures Token(inp, blockSize, st).Continue? && History(Token(inp, blockSize, st).st)
  {
    TokenLiteral(inp, blockSize, st);
    HistoryIgnoresCounters(st, st.flags, st.blockRead + 1);
    StoreHistory(st.(blockRead := st.blockRead + 1), inp[st.blockRead]);
  }

  /** A token that lets the loop go on keeps the ring the output's history. */
  lemma TokenHistory(inp: seq<byte>, blockSize: nat, st: State)
    requires History(st) && st.blockRead <= blockSize && st.blockRead <= |inp|
    ensures Token(inp, blockSize, st).Continue? ==> History(Token(inp, blockSize, st).st)
  {
    TokenContinues(inp, blockSize, st);
    if Token(inp, blockSize, st).Continue? {
      if LiteralBit(st.flags) {
        LiteralHistory(inp, blockSize, st);
      } else {
        BackReferenceCopiesBack(inp, blockSize, st);
      }
    }
  }

  /** An iteration that reads a flag byte lets the loop go on only with two bytes left in the budget. */
  lemma StepContinues(inp: seq<byte>, blockSize: nat, st: State)
    requires Valid(st) && st.blockRead <= blockSize && st.blockRead <= |inp|
    ensures Step(inp, blockSize, st).Continue? && Exhausted(Shift(st.flags)) ==>
      st.blockRead + 1 < blockSize && st.blockRead < |inp|
  {
  }

  /** An iteration that lets the loop go on keeps the ring the output's history. */
  lemma StepHistory(inp: seq<byte>, blockSize: nat, st: State)
    requires History(st) && st.blockRead <= blockSize && st.blockRead <= |inp|
    ensures Step(inp, blockSize, st).Continue? ==> History(Step(inp, blockSize, st).st)
  {
    StepContinues(inp, blockSize, st);
    if Step(inp, blockSize, st).Continue? {
      if Exhausted(Shift(st.flags)) {
        StepWithRefill(inp, blockSize, st);
        HistoryIgnoresCounters(st, Refill(inp[st.blockRead]), st.blockRead + 1);
        TokenHistory(inp, blockSize, st.(flags := Refill(inp[st.blockRead]), blockRead := st.blockRead + 1));
      } else {
        StepWithoutRefill(inp, blockSize, st);
        HistoryIgnoresCounters(st, Shift(st.flags), st.blockRead);
        TokenHistory(inp, blockSize, st.(flags := Shift(st.flags)));
      }
    }
  }

  /** Every state the loop reaches from the start, up to its last iteration, keeps the ring the output's history. */
  lemma {:induction false} RunHistory(inp: seq<byte>, blockSize: nat, st: State, n: nat)
    requires History(st) && st.blockRead <= blockSize && st.blockRead <= |inp|
    ensures Reached(inp, blockSize, st, n).Some? ==> History(Reached(inp, blockSize, st, n).value)
    decreases n
  {
    StepHistory(inp, blockSize, st);
    if n > 0 && Step(inp, blockSize, st).Continue? {
      RunHistory(inp, blockSize, Step(inp, blockSize, st).st, n - 1);
    }
  }

  /** The state at the head of the loop after `n` more iterations, if the loop goes on that long. */
  function Reached(inp: seq<byte>, blockSize: nat, st: State, n: nat): (res: Option<State>)
    requires Valid(st) && st.blockRead <= blockSize && st.blockRead <= |inp|
    ensures res.Some? ==> Valid(res.value) && res.value.blockRead <= blockSize && res.value.blockRead <= |inp|
    ensures res.Some? ==> st.written <= res.value.written
    decreases n
  {
    if n == 0 then Some(st)
    else
      var s := Step(inp, blockSize, st);
      if s.Continue? then Reached(inp, blockSize, s.st, n - 1) else None
  }

  /**
   * The loop goes on after writing `len` bytes past index `from`, each
   * repeating the output byte `d` places back, with the ring still the
   * output's history.
   */
  predicate CopiedBack(t: StepResult, from: nat, len: nat, d: nat)
    requires 0 < d
  {
    && t.Continue?
    && |t.st.written| == from + len
    && CopiesBack(t.st.written, from, d)
    && History(t.st)
  }

  /** Neither the flag register nor the count of input bytes read has a bearing on the history. */
  lemma HistoryIgnoresCounters(st: State, flags: int, n: nat)
    requires History(st) && 0 <= flags < 0x1_0000
    ensures History(st.(flags := flags, blockRead := n))
  {
    var s := st.(flags := flags, blockRead := n);
    assert s.textBuf == st.textBuf && s.r == st.r && s.written == st.written;
  }

  /** A whole copy from ring offset `offset` repeats the output `Distance(r, offset)` bytes back and keeps the history. */
  lemma CopyBack(st: State, offset: nat, len: nat)
    requires History(st) && offset < N
    ensures CopiedBack(Continue(Copy(st, offset, 0, len)), |st.written|, len, Distance(st.r, offset))
  {
    CopyReproduces(st, offset, 0, len, Distance(st.r, offset));
    CopyHistory(st, offset, 0, len);
  }

  /**
   * A back-reference with both of its bytes inside the budget and the
   * input, decoded at a loop state whose ring is the output's history,
   * writes MatchLength(j) bytes, each repeating the output byte `d` places
   * back, where `d` is how far the offset lies behind the cursor.
   */
  lemma BackReferenceCopiesBack(inp: seq<byte>, blockSize: nat, st: State)
    requires History(st) && st.blockRead + 1 < blockSize && st.blockRead + 1 < |inp|
    requires !LiteralBit(st.flags)
    ensures var i := inp[st.blockRead];
      var j := inp[st.blockRead + 1];
      CopiedBack(Token(inp, blockSize, st), |st.written|, MatchLength(j), Distance(st.r, MatchOffset(i, j)))
  {
    var i, j := inp[st.blockRead], inp[st.blockRead + 1];
    var s2 := st.(blockRead := st.blockRead + 2);
    HistoryIgnoresCounters(st, st.flags, st.blockRead + 2);
    TokenBackReference(inp, blockSize, st);
    CopyBack(s2, MatchOffset(i, j), MatchLength(j));
  }

  /** Every loop head the decoder reaches from its start has the ring as the output's history. */
  lemma DecodeHistory(inp: seq<byte>, blockSize: nat, n: nat)
    ensures Reached(inp, blockSize, InitialState(), n).Some? ==> History(Reached(inp, blockSize, InitialState(), n).value)
  {
    InitialHistory();
    RunHistory(inp, blockSize, InitialState(), n);
  }

  /** The first iteration of `MixedStream`: the flag byte 0x01, then the literal 'A'. */
  lemma MixedFirst(inp: seq<byte>)
    requires inp == [0x01, 0x41, 0xEE, 0xF0]
    ensures var s := Step(inp, 4, InitialState());
      && s.Continue? && History(s.st)
      && s.st.written == [0x41] && s.st.blockRead == 2
      && s.st.flags == Refill(0x01) && s.st.r == START_CURSOR + 1
  {
    var init := InitialState();
    InitialHistory();
    StepWithRefill(inp, 4, init);
    var settled := init.(flags := Refill(0x01), blockRead := 1);
    TokenLiteral(inp, 4, settled);
    StoreHistory(settled.(blockRead := 2), 0x41);
  }

  /** The second iteration of `MixedStream`: `EE F0` copies three bytes from the cell just behind the cursor. */
  lemma MixedSecond(inp: seq<byte>, st: State)
    requires inp == [0x01, 0x41, 0xEE, 0xF0]
    requires History(st) && st.written == [0x41] && st.blockRead == 2
    requires st.flags == Refill(0x01) && st.r == START_CURSOR + 1
    ensures var s := Step(inp, 4, st);
      && s.Continue? && s.st.written == [0x41, 0x41, 0x41, 0x41]
      && s.st.blockRead == 4 && s.st.flags == Shift(Refill(0x01))
  {
    StepWithoutRefill(inp, 4, st);
    BackReferenceCopiesBack(inp, 4, st.(flags := Shift(st.flags)));
    assert MatchOffset(0xEE, 0xF0) == START_CURSOR && Distance(st.r, START_CURSOR) == 1;
    var w := Step(inp, 4, st).st.written;
    assert |w| == 4 && w[..1] == [0x41];
    assert w[..2] == [0x41, w[1]];
    assert w[..3] == [0x41, w[1], w[2]];
  }

  /** The third iteration of `MixedStream`: the next token is a back-reference, and the budget is spent. */
  lemma MixedThird(inp: seq<byte>, st: State)
    requires Valid(st) && |inp| == 4 && st.blockRead == 4 && st.flags == Shift(Refill(0x01))
    ensures Step(inp, 4, st) == Break(st.(flags := Shift(st.flags)))
  {
    StepWithoutRefill(inp, 4, st);
  }

  /**
   * A stream mixing both kinds of token: flag byte 0x01, the literal 'A',
   * then a back-reference to the cell just behind the cursor with length 3
   * (`EE F0`: offset 0xFEE, the cursor's start).  It decodes to "AAAA",
   * the copy repeating the byte it has just written.
   */
  lemma MixedStream()
    ensures Decode([0x01, 0x41, 0xEE, 0xF0], 4) == Decoded(Ok(4), [0x41, 0x41, 0x41, 0x41], 4)
  {
    var inp: seq<byte> := [0x01, 0x41, 0xEE, 0xF0];
    var init := InitialState();
    MixedFirst(inp);
    var s1 := Step(inp, 4, init).st;
    MixedSecond(inp, s1);
    var s2 := Step(inp, 4, s1).st;
    MixedThird(inp, s2);
    RunUnfold(inp, 4, init);
    RunUnfold(inp, 4, s1);
    RunUnfold(inp, 4, s2);
  }

  /** The first iteration of `ExactBudgetCanFail`: the flag byte 0x05, then the literal 'A'. */
  lemma ExactFirst(inp: seq<byte>)
    requires inp == [0x05, 0x41, 0xEE, 0xF0]
    ensures var s := Step(inp, 4, InitialState());
      s.Continue? && s.st.blockRead == 2 && s.st.flags == Refill(0x05)
  {
    var init := InitialState();
    StepWithRefill(inp, 4, init);
    TokenLiteral(inp, 4, init.(flags := Refill(0x05), blockRead := 1));
  }

  /** The second iteration of `ExactBudgetCanFail`: `EE F0` is a back-reference that spends the budget exactly. */
  lemma ExactSecond(inp: seq<byte>, st: State)
    requires inp == [0x05, 0x41, 0xEE, 0xF0]
    requires Valid(st) && st.blockRead == 2 && st.flags == Refill(0x05)
    ensures var s := Step(inp, 4, st);
      s.Continue? && s.st.blockRead == 4 && s.st.flags == Shift(Refill(0x05))
  {
    StepWithoutRefill(inp, 4, st);
    TokenBackReference(inp, 4, st.(flags := Shift(st.flags)));
  }

  /** The third iteration of `ExactBudgetCanFail`: a literal bit, and no byte left to read. */
  lemma ExactThird(inp: seq<byte>, st: State)
    requires Valid(st) && |inp| == 4 && st.blockRead == 4 && st.flags == Shift(Refill(0x05))
    ensures Step(inp, 4, st).Eof?
  {
    StepWithoutRefill(inp, 4, st);
  }

  /**
   * An input exactly as long as the budget can still fail: after the
   * back-reference `EE F0` uses the last budgeted byte, the third flag bit
   * of 0x05 asks for a literal, whose read has no budget check and finds
   * the end of the input.
   */
  lemma ExactBudgetCanFail()
    ensures Decode([0x05, 0x41, 0xEE, 0xF0], 4).result == Err(UnexpectedEof)
  {
    var inp: seq<byte> := [0x05, 0x41, 0xEE, 0xF0];
    var init := InitialState();
    ExactFirst(inp);
    var s1 := Step(inp, 4, init).st;
    ExactSecond(inp, s1);
    var s2 := Step(inp, 4, s1).st;
    ExactThird(inp, s2);
    RunUnfold(inp, 4, init);
    RunUnfold(inp, 4, s1);
    RunUnfold(inp, 4, s2);
  }
}
