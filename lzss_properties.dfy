/** Properties of the LZSS decoder of src/lzss.rs, proved about the reference decoder `Decode`. */
module LzssProperties {
  import opened Base
  import opened Lzss

  // ---------------------------------------------------------------------
  // The input budget and the end of the input

  /** With a zero budget the decoder reads nothing, writes nothing and returns 0. */
  lemma ZeroBudget(inp: seq<byte>)
    ensures Decode(inp, 0) == Decoded(Ok(0), [], 0)
  {
  }

  /**
   * How much input a call consumes.  A successful call stops at the budget,
   * or one byte past it, and then the extra byte is a literal it emitted
   * last; a failed call read all of an input no longer than the budget.
   * So input shorter than the budget always fails and input longer than it
   * never does; input exactly as long as the budget can go either way,
   * because a literal is read without a budget check.
   */
  lemma Budget(inp: seq<byte>, blockSize: nat)
    ensures var d := Decode(inp, blockSize);
      && d.consumed <= |inp| && d.consumed <= blockSize + 1
      && (d.result.Ok? ==> d.result.value == |d.written|)
      && (d.result.Ok? ==> d.consumed == blockSize || d.consumed == blockSize + 1)
      && (d.consumed == blockSize + 1 ==> d.result.Ok? && |d.written| > 0 && d.written[|d.written| - 1] == inp[blockSize])
      && (d.result.Err? ==> d.consumed == |inp| <= blockSize)
      && (|inp| < blockSize ==> d.result.Err?)
      && (|inp| > blockSize ==> d.result.Ok?)
  {
  }

  /**
   * An iteration that reads one byte past the budget started exactly at the
   * budget with flag bits left and a literal bit next: the iteration before
   * it ended at the budget without breaking.
   */
  lemma OvershootStartsAtBudget(inp: seq<byte>, blockSize: nat, st: State)
    requires Valid(st) && st.blockRead <= blockSize && st.blockRead <= |inp|
    requires Step(inp, blockSize, st).Break? && Step(inp, blockSize, st).st.blockRead == blockSize + 1
    ensures st.blockRead == blockSize
    ensures !Exhausted(Shift(st.flags)) && LiteralBit(Shift(st.flags))
  {
  }

  /**
   * An iteration that reaches the budget and does not break decoded a
   * back-reference: a literal that reaches the budget breaks, and so does a
   * flag byte.
   */
  lemma ReachingBudgetIsBackReference(inp: seq<byte>, blockSize: nat, st: State)
    requires Valid(st) && st.blockRead <= blockSize && st.blockRead <= |inp|
    requires Step(inp, blockSize, st).Continue? && Step(inp, blockSize, st).st.blockRead == blockSize
    ensures |Step(inp, blockSize, st).st.written| >= |st.written| + THRESHOLD + 1
  {
  }

  /**
   * An iteration that breaks inside a token emits nothing for it, except
   * the literal whose read reached the budget.
   */
  lemma BreakEmitsAtMostTheLiteral(inp: seq<byte>, blockSize: nat, st: State)
    requires Valid(st) && st.blockRead <= blockSize && st.blockRead <= |inp|
    requires Step(inp, blockSize, st).Break?
    ensures var s := Step(inp, blockSize, st).st;
      || s.written == st.written
      || (0 < s.blockRead && s.written == st.written + [inp[s.blockRead - 1]])
  {
  }

  /**
   * A flag byte read with one byte of budget left is consumed, and the loop
   * breaks before the register is refilled or any token is decoded.
   */
  lemma FlagByteAtBudget(inp: seq<byte>, blockSize: nat, st: State)
    requires Valid(st) && st.blockRead < blockSize <= st.blockRead + 1 && st.blockRead < |inp|
    requires Exhausted(Shift(st.flags))
    ensures Step(inp, blockSize, st) == Break(st.(flags := Shift(st.flags), blockRead := st.blockRead + 1))
  {
  }

  /**
   * The first byte of a back-reference read with one byte of budget left is
   * consumed, and the loop breaks with nothing written for the token.
   */
  lemma OffsetByteAtBudget(inp: seq<byte>, blockSize: nat, st: State)
    requires Valid(st) && st.blockRead < blockSize <= st.blockRead + 1 && st.blockRead < |inp|
    requires !LiteralBit(st.flags)
    ensures Token(inp, blockSize, st) == Break(st.(blockRead := st.blockRead + 1))
  {
  }

  /**
   * An iteration that starts with the budget used up reads nothing, unless
   * the flag register still holds bits and the next one is a literal: that
   * literal is read without a check and written out, or the read fails at
   * the end of the input.
   */
  lemma AtBudget(inp: seq<byte>, blockSize: nat, st: State)
    requires Valid(st) && st.blockRead == blockSize <= |inp|
    ensures var s0 := st.(flags := Shift(st.flags));
      && (Exhausted(s0.flags) || !LiteralBit(s0.flags) ==> Step(inp, blockSize, st) == Break(s0))
      && (!Exhausted(s0.flags) && LiteralBit(s0.flags) && blockSize < |inp| ==>
            Step(inp, blockSize, st) == Break(s0.(blockRead := blockSize + 1, written := st.written + [inp[blockSize]])))
      && (!Exhausted(s0.flags) && LiteralBit(s0.flags) && blockSize == |inp| ==> Step(inp, blockSize, st) == Eof(s0))
  {
  }

  /**
   * A literal is always written out; it is stored at the cursor, which then
   * advances, only when the budget is not reached after reading it.
   */
  lemma LiteralStored(inp: seq<byte>, blockSize: nat, st: State)
    requires Valid(st) && st.blockRead <= blockSize && st.blockRead < |inp|
    requires LiteralBit(st.flags)
    ensures var t := Token(inp, blockSize, st);
      && t.st.written == st.written + [inp[st.blockRead]] && t.st.blockRead == st.blockRead + 1
      && (st.blockRead + 1 >= blockSize ==> t.Break? && t.st.textBuf == st.textBuf && t.st.r == st.r)
      && (st.blockRead + 1 < blockSize ==>
            && t.Continue? && t.st.textBuf == st.textBuf[st.r := inp[st.blockRead]] && t.st.r == (st.r + 1) % N)
  {
  }

  /** On a prefix of the input, an iteration either runs out of input or does what it does on the whole input. */
  lemma StepOnPrefix(short: seq<byte>, inp: seq<byte>, blockSize: nat, st: State)
    requires short <= inp
    requires Valid(st) && st.blockRead <= blockSize && st.blockRead <= |short|
    ensures Step(short, blockSize, st).Eof? || Step(short, blockSize, st) == Step(inp, blockSize, st)
  {
    assert forall k | 0 <= k < |short| :: short[k] == inp[k];
  }

  lemma {:induction false} RunOnPrefix(short: seq<byte>, inp: seq<byte>, blockSize: nat, st: State)
    requires short <= inp
    requires Valid(st) && st.blockRead <= blockSize && st.blockRead <= |short|
    ensures Run(short, blockSize, st).Eof? || Run(short, blockSize, st) == Run(inp, blockSize, st)
    ensures Run(short, blockSize, st).st.written <= Run(inp, blockSize, st).st.written
    decreases blockSize - st.blockRead
  {
    StepOnPrefix(short, inp, blockSize, st);
    var s := Step(short, blockSize, st);
    if s.Continue? {
      RunOnPrefix(short, inp, blockSize, s.st);
    }
  }

  /**
   * Decoding a truncated input: what it writes is a prefix of what the whole
   * input decodes to, and when it succeeds it is the whole input's result.
   */
  lemma Truncated(short: seq<byte>, inp: seq<byte>, blockSize: nat)
    requires short <= inp
    ensures Decode(short, blockSize).written <= Decode(inp, blockSize).written
    ensures Decode(short, blockSize).result.Ok? ==> Decode(short, blockSize) == Decode(inp, blockSize)
  {
    RunOnPrefix(short, inp, blockSize, InitialState());
  }

  /**
   * The decoder never looks beyond the first `blockSize + 1` bytes of its
   * input: two inputs that agree on them decode alike.
   */
  lemma IgnoresInputBeyondBudget(inp: seq<byte>, other: seq<byte>, blockSize: nat)
    requires |inp| > blockSize && |other| > blockSize
    requires inp[..blockSize + 1] == other[..blockSize + 1]
    ensures Decode(inp, blockSize) == Decode(other, blockSize)
  {
    var common := inp[..blockSize + 1];
    Budget(common, blockSize);
    Truncated(common, inp, blockSize);
    Truncated(common, other, blockSize);
  }

  // ---------------------------------------------------------------------
  // The flag register

  /** The register after `m` shifts. */
  function Shr(flags: int, m: nat): int {
    if m == 0 then flags else Shift(Shr(flags, m - 1))
  }

  /** `0xff00 >> m`: where the sentinel bits sit after `m` shifts. */
  const SENTINEL: seq<int> := [0xff00, 0x7f80, 0x3fc0, 0x1fe0, 0x0ff0, 0x07f8, 0x03fc, 0x01fe, 0x00ff]

  /** `0x100 >> m`: a byte shifted `m` times is below this. */
  const BYTE_LIMIT: seq<int> := [0x100, 0x80, 0x40, 0x20, 0x10, 0x08, 0x04, 0x02, 0x01]

  lemma {:induction false} ShiftedRefill(b: byte, m: nat)
    requires m <= 8
    ensures Shr(Refill(b), m) == Shr(b, m) + SENTINEL[m]
    ensures 0 <= Shr(b, m) < BYTE_LIMIT[m]
  {
    if m > 0 {
      ShiftedRefill(b, m - 1);
    }
  }

  /**
   * A flag byte `b` drives the next eight tokens: after `m < 8` further
   * shifts the sentinel is still there and the low bit is bit `m` of `b`
   * (set: literal, clear: back-reference); after the eighth shift the
   * sentinel is gone and the next iteration reads a new flag byte.
   */
  lemma FlagByteSchedule(b: byte, m: nat)
    requires m <= 8
    ensures 0 < m < 8 ==> !Exhausted(Shr(Refill(b), m))
    ensures m == 8 ==> Exhausted(Shr(Refill(b), m))
    ensures m < 8 ==> (LiteralBit(Shr(Refill(b), m)) <==> Shr(b, m) % 2 == 1)
  {
    ShiftedRefill(b, m);
    SentinelBits(Shr(b, m), m);
  }

  /**
   * Bit 8 of a value below `0x100 >> m` plus the sentinel `0xff00 >> m` is
   * set for `0 < m < 8` and clear for `m = 8`; below eight shifts the
   * sentinel leaves the low bit alone.
   */
  lemma SentinelBits(v: int, m: nat)
    requires m <= 8 && 0 <= v < BYTE_LIMIT[m]
    ensures 0 < m < 8 ==> !Exhausted(v + SENTINEL[m])
    ensures m == 8 ==> Exhausted(v + SENTINEL[m])
    ensures m < 8 ==> (LiteralBit(v + SENTINEL[m]) <==> v % 2 == 1)
  {
    if m == 0 {
    } else if m == 1 {
      assert (v + 0x7f80) / 0x100 == 0x7f;
    } else if m == 2 {
      assert (v + 0x3fc0) / 0x100 == 0x3f;
    } else if m == 3 {
      assert (v + 0x1fe0) / 0x100 == 0x1f;
    } else if m == 4 {
      assert (v + 0x0ff0) / 0x100 == 0x0f;
    } else if m == 5 {
      assert (v + 0x07f8) / 0x100 == 0x07;
    } else if m == 6 {
      assert (v + 0x03fc) / 0x100 == 0x03;
    } else if m == 7 {
      assert (v + 0x01fe) / 0x100 == 0x01;
    } else {
      assert (v + 0x00ff) / 0x100 == 0;
    }
  }

  /** The register before the first iteration asks for a flag byte at once. */
  lemma FirstIterationReadsFlags()
    ensures Exhausted(Shift(InitialState().flags))
  {
  }

  // ---------------------------------------------------------------------
  // Back-references

  /** Advancing a ring position modulo `N` commutes with reducing it. */
  lemma CursorStep(a: nat)
    ensures (a % N + 1) % N == (a + 1) % N
  {
    if a % N + 1 < N {
      assert (a + 1) / N == a / N;
    } else {
      assert (a + 1) / N == a / N + 1;
    }
  }

  /**
   * A back-reference whose source starts one byte behind the cursor repeats
   * that byte: the copy re-reads, byte by byte, what it has just stored.
   */
  lemma {:induction false} OverlappingCopyRepeats(st: State, offset: nat, k: nat, len: nat)
    requires Valid(st) && k <= len && (offset + k + 1) % N == st.r
    ensures AllFrom(Copy(st, offset, k, len).written, |st.written|, st.textBuf[(offset + k) % N])
    decreases len - k
  {
    if k < len {
      var b := st.textBuf[(offset + k) % N];
      var next := st.(textBuf := st.textBuf[st.r := b], r := (st.r + 1) % N, written := st.written + [b]);
      CursorStep(offset + k + 1);
      assert next.textBuf[(offset + k + 1) % N] == b;
      OverlappingCopyRepeats(next, offset, k + 1, len);
      var res := Copy(next, offset, k + 1, len);
      assert Copy(st, offset, k, len) == res;
      assert res.written[|st.written|] == next.written[|st.written|];
    }
  }

  /** Every cell of the ring proper (the first `N` cells) holds `c`. */
  predicate UniformRing(textBuf: seq<byte>, c: byte) {
    |textBuf| >= N && forall t | 0 <= t < N :: textBuf[t] == c
  }

  /** Every byte of `s` from index `from` on is `c`. */
  predicate AllFrom(s: seq<byte>, from: nat, c: byte) {
    forall t | from <= t < |s| :: s[t] == c
  }

  /** Copying out of a ring that holds a single value writes only that value and keeps the ring uniform. */
  lemma {:induction false} CopyFromUniformRing(st: State, offset: nat, k: nat, len: nat, c: byte)
    requires Valid(st) && k <= len && UniformRing(st.textBuf, c)
    ensures UniformRing(Copy(st, offset, k, len).textBuf, c)
    ensures AllFrom(Copy(st, offset, k, len).written, |st.written|, c)
    decreases len - k
  {
    if k < len {
      var b := st.textBuf[(offset + k) % N];
      var next := st.(textBuf := st.textBuf[st.r := b], r := (st.r + 1) % N, written := st.written + [b]);
      assert b == c;
      assert UniformRing(next.textBuf, c);
      CopyFromUniformRing(next, offset, k + 1, len, c);
      var res := Copy(next, offset, k + 1, len);
      assert Copy(st, offset, k, len) == res;
      assert res.written[|st.written|] == next.written[|st.written|];
    }
  }

  /**
   * Offsets into history that was never written are not rejected: when the
   * first token is a back-reference, whatever its offset, it decodes to
   * padding (ASCII spaces).
   */
  lemma FirstBackReferenceIsPadding(inp: seq<byte>, blockSize: nat)
    requires |inp| >= 3 && blockSize >= 3 && inp[0] % 2 == 0
    ensures var d := Decode(inp, blockSize);
      && |d.written| >= MatchLength(inp[2])
      && forall t | 0 <= t < MatchLength(inp[2]) :: d.written[t] == PAD
  {
    var init := InitialState();
    var settled := init.(flags := Refill(inp[0]), blockRead := 1);
    StepWithRefill(inp, blockSize, init);
    TokenBackReference(inp, blockSize, settled);
    var copied := Copy(settled.(blockRead := 3), MatchOffset(inp[1], inp[2]), 0, MatchLength(inp[2]));
    assert UniformRing(settled.textBuf, PAD);
    CopyFromUniformRing(settled.(blockRead := 3), MatchOffset(inp[1], inp[2]), 0, MatchLength(inp[2]), PAD);
    RunUnfold(inp, blockSize, init);
    assert Run(inp, blockSize, init) == Run(inp, blockSize, copied);
    assert copied.written <= Decode(inp, blockSize).written;
  }

  /** A back-reference token with both of its bytes inside the budget and the input is copied in full. */
  lemma TokenBackReference(inp: seq<byte>, blockSize: nat, st: State)
    requires Valid(st) && st.blockRead + 1 < blockSize && st.blockRead + 1 < |inp|
    requires !LiteralBit(st.flags)
    ensures var i := inp[st.blockRead];
      var j := inp[st.blockRead + 1];
      Token(inp, blockSize, st) == Continue(Copy(st.(blockRead := st.blockRead + 2), MatchOffset(i, j), 0, MatchLength(j)))
  {
  }

  /** A literal read with budget left after it is stored in the ring and the loop goes on. */
  lemma TokenLiteral(inp: seq<byte>, blockSize: nat, st: State)
    requires Valid(st) && st.blockRead + 1 < blockSize && st.blockRead < |inp|
    requires LiteralBit(st.flags)
    ensures var b := inp[st.blockRead];
      Token(inp, blockSize, st)
      == Continue(st.(blockRead := st.blockRead + 1, written := st.written + [b],
                      textBuf := st.textBuf[st.r := b], r := (st.r + 1) % N))
  {
  }

  // ---------------------------------------------------------------------
  // A round trip through literal-only streams

  /** Literal-only encoding: every group of up to eight bytes behind a flag byte of all ones. */
  function EncodeLiterals(data: seq<byte>): (enc: seq<byte>)
    ensures |enc| == |data| + (|data| + 7) / 8
    decreases |data|
  {
    if data == [] then []
    else if |data| <= 8 then [0xff] + data
    else [0xff] + data[..8] + EncodeLiterals(data[8..])
  }

  function Min(a: nat, b: nat): nat {
    if a < b then a else b
  }

  /** The encoding still to be read when `k` literals of the current group are decoded. */
  function Pending(k: nat, data: seq<byte>): seq<byte>
    requires k <= 8
  {
    data[..Min(8 - k, |data|)] + EncodeLiterals(data[Min(8 - k, |data|)..])
  }

  /** The register at the loop head after `k` literals of a group of all-ones flags. */
  predicate LiteralPhase(flags: int, k: nat) {
    if k == 8 then Exhausted(Shift(flags)) else 1 <= k && flags == Shr(Refill(0xff), k - 1)
  }

  lemma PendingAfterLiteral(k: nat, data: seq<byte>)
    requires k < 8 && data != []
    ensures Pending(k, data) == [data[0]] + Pending(k + 1, data[1..])
  {
    var c := Min(8 - k, |data|);
    assert data[1..][..Min(8 - (k + 1), |data| - 1)] == data[1..c];
    assert data[1..][Min(8 - (k + 1), |data| - 1)..] == data[c..];
    assert data[..c] == [data[0]] + data[1..c];
  }

  lemma PendingAtGroupStart(data: seq<byte>)
    requires data != []
    ensures Pending(8, data) == [0xff] + Pending(0, data)
  {
    assert data[..0] == [] && data[0..] == data;
    if |data| <= 8 {
      assert data[..Min(8, |data|)] == data && data[Min(8, |data|)..] == [];
    }
  }

  lemma LiteralBits(k: nat)
    requires k < 8
    ensures (0 < k ==> !Exhausted(Shr(Refill(0xff), k))) && LiteralBit(Shr(Refill(0xff), k))
    ensures k == 7 ==> Exhausted(Shift(Shr(Refill(0xff), k)))
  {
    FlagByteSchedule(0xff, k);
    FlagByteSchedule(0xff, 8);
    AllOnesShifted(k);
  }

  /** The all-ones flag byte shifted `k` times keeps its low `8 - k` bits set. */
  lemma {:induction false} AllOnesShifted(k: nat)
    requires k <= 8
    ensures Shr(0xff, k) == BYTE_LIMIT[k] - 1
  {
    if k > 0 {
      AllOnesShifted(k - 1);
      assert BYTE_LIMIT[k - 1] == 2 * BYTE_LIMIT[k];
    }
  }

  /** One literal token with `k < 8` literals of the group decoded before it. */
  lemma {:induction false} LiteralToken(inp: seq<byte>, st: State, k: nat, data: seq<byte>)
    requires Valid(st) && st.blockRead <= |inp| && k < 8 && data != []
    requires st.flags == Shr(Refill(0xff), k)
    requires inp[st.blockRead..] == Pending(k, data)
    ensures var t := Token(inp, |inp|, st);
      && (|data| == 1 ==> t == Break(t.st) && t.st.written == st.written + data && t.st.blockRead == |inp|)
      && (|data| > 1 ==> t == Continue(t.st) && t.st.written == st.written + [data[0]] && t.st.flags == st.flags
                         && LiteralPhase(t.st.flags, k + 1) && inp[t.st.blockRead..] == Pending(k + 1, data[1..]))
    decreases |data|
  {
    LiteralBits(k);
    PendingAfterLiteral(k, data);
    assert inp[st.blockRead] == data[0];
    assert inp[st.blockRead + 1..] == Pending(k + 1, data[1..]);
    if |data| == 1 {
      assert Pending(k + 1, data[1..]) == [];
    } else {
      assert |Pending(k + 1, data[1..])| > 0;
    }
  }

  /** An iteration with flag bits left decodes one token under the shifted register. */
  lemma StepWithoutRefill(inp: seq<byte>, blockSize: nat, st: State)
    requires Valid(st) && st.blockRead <= blockSize && st.blockRead <= |inp|
    requires !Exhausted(Shift(st.flags))
    ensures Step(inp, blockSize, st) == Token(inp, blockSize, st.(flags := Shift(st.flags)))
  {
  }

  /** An iteration with the register exhausted and two bytes left in the budget reads a flag byte, then one token. */
  lemma StepWithRefill(inp: seq<byte>, blockSize: nat, st: State)
    requires Valid(st) && st.blockRead + 1 < blockSize && st.blockRead < |inp|
    requires Exhausted(Shift(st.flags))
    ensures Step(inp, blockSize, st)
         == Token(inp, blockSize, st.(flags := Refill(inp[st.blockRead]), blockRead := st.blockRead + 1))
  {
  }

  /** The iteration that starts a new group of a literal-only stream. */
  lemma LiteralGroupStart(inp: seq<byte>, st: State, data: seq<byte>)
    requires Valid(st) && st.blockRead <= |inp|
    requires LiteralPhase(st.flags, 8)
    requires inp[st.blockRead..] == Pending(8, data) && data != []
    ensures var s := Step(inp, |inp|, st);
      && (|data| == 1 ==> s.Break? && s.st.written == st.written + data && s.st.blockRead == |inp|)
      && (|data| > 1 ==> && s.Continue? && s.st.written == st.written + [data[0]]
                         && LiteralPhase(s.st.flags, 1) && inp[s.st.blockRead..] == Pending(1, data[1..]))
  {
    PendingAtGroupStart(data);
    assert inp[st.blockRead] == 0xff;
    var settled := st.(flags := Refill(0xff), blockRead := st.blockRead + 1);
    assert inp[settled.blockRead..] == Pending(0, data);
    assert |Pending(0, data)| > 0;
    StepWithRefill(inp, |inp|, st);
    LiteralToken(inp, settled, 0, data);
  }

  /** An iteration `k` literals into a group, with `0 < k < 8`. */
  lemma LiteralMidGroup(inp: seq<byte>, st: State, k: nat, data: seq<byte>)
    requires Valid(st) && st.blockRead <= |inp|
    requires 0 < k < 8 && LiteralPhase(st.flags, k)
    requires inp[st.blockRead..] == Pending(k, data) && data != []
    ensures var s := Step(inp, |inp|, st);
      && (|data| == 1 ==> s.Break? && s.st.written == st.written + data && s.st.blockRead == |inp|)
      && (|data| > 1 ==> && s.Continue? && s.st.written == st.written + [data[0]]
                         && LiteralPhase(s.st.flags, k + 1) && inp[s.st.blockRead..] == Pending(k + 1, data[1..]))
  {
    var s0 := st.(flags := Shift(st.flags));
    assert s0.flags == Shr(Refill(0xff), k);
    LiteralBits(k);
    StepWithoutRefill(inp, |inp|, st);
    LiteralToken(inp, s0, k, data);
  }

  /** The loop: an iteration that continues is followed by the rest of the run, any other ends it. */
  lemma RunUnfold(inp: seq<byte>, blockSize: nat, st: State)
    requires Valid(st) && st.blockRead <= blockSize && st.blockRead <= |inp|
    ensures var s := Step(inp, blockSize, st);
      Run(inp, blockSize, st) == if s.Continue? then Run(inp, blockSize, s.st) else s
  {
  }

  lemma AppendFirstThenRest(a: seq<byte>, data: seq<byte>)
    requires data != []
    ensures a + [data[0]] + data[1..] == a + data
  {
    assert [data[0]] + data[1..] == data;
  }

  /** The group position after one more literal. */
  function NextPhase(k: nat): nat {
    if k == 8 then 1 else k + 1
  }

  /**
   * One iteration of a literal-only stream, `k` literals into the current
   * group, seen from the loop: either the run ends with the last literal,
   * or it goes on from `next`, one literal further.
   */
  lemma LiteralIteration(inp: seq<byte>, st: State, k: nat, data: seq<byte>) returns (next: State)
    requires Valid(st) && st.blockRead <= |inp|
    requires k <= 8 && LiteralPhase(st.flags, k)
    requires inp[st.blockRead..] == Pending(k, data) && data != []
    ensures |data| == 1 ==> var res := Run(inp, |inp|, st);
      res.Break? && res.st.written == st.written + data && res.st.blockRead == |inp|
    ensures |data| > 1 ==>
      && Valid(next) && next.blockRead <= |inp| && next.written == st.written + [data[0]]
      && LiteralPhase(next.flags, NextPhase(k)) && inp[next.blockRead..] == Pending(NextPhase(k), data[1..])
      && Run(inp, |inp|, st) == Run(inp, |inp|, next)
  {
    RunUnfold(inp, |inp|, st);
    if k == 8 {
      LiteralGroupStart(inp, st, data);
    } else {
      LiteralMidGroup(inp, st, k, data);
    }
    next := Step(inp, |inp|, st).st;
  }

  /** From a loop head `k` literals into a group, the rest of a literal-only stream decodes to `data`. */
  lemma {:induction false} RunLiterals(inp: seq<byte>, st: State, k: nat, data: seq<byte>)
    requires Valid(st) && st.blockRead <= |inp|
    requires k <= 8 && LiteralPhase(st.flags, k)
    requires inp[st.blockRead..] == Pending(k, data)
    requires data == [] ==> k == 8
    ensures var res := Run(inp, |inp|, st);
      res.Break? && res.st.written == st.written + data && res.st.blockRead == |inp|
    decreases |data|
  {
    if data == [] {
      assert Pending(8, data) == [];
      RunUnfold(inp, |inp|, st);
    } else {
      var next := LiteralIteration(inp, st, k, data);
      if |data| > 1 {
        RunLiterals(inp, next, NextPhase(k), data[1..]);
        AppendFirstThenRest(st.written, data);
      }
    }
  }

  /**
   * A literal-only stream, read with its own length as the budget, decodes
   * back to its data: every byte is consumed and the returned count is the
   * data's length.
   */
  lemma LiteralRoundTrip(data: seq<byte>)
    ensures var enc := EncodeLiterals(data);
      Decode(enc, |enc|) == Decoded(Ok(|data|), data, |enc|)
  {
    var enc := EncodeLiterals(data);
    assert data[..0] == [] && data[0..] == data;
    assert Pending(8, data) == enc;
    RunLiterals(enc, InitialState(), 8, data);
  }
}
