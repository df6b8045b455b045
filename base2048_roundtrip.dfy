/** Properties of the base2048 codec that relate `encode` and `decode`:
    with tables that invert each other, decoding the text `encode` writes
    gives back the bytes. */
module Base2048RoundTrip {
  import opened Wrappers
  import opened Bits
  import opened Base2048

  /** The values of a run of bits read eight at a time (a last run of
      fewer than eight bits is dropped). */
  function Unbits(w: seq<bool>): (r: seq<nat>)
    ensures |r| == |w| / 8
    decreases |w|
  {
    if |w| < 8 then [] else [FromBits(w[..8])] + Unbits(w[8..])
  }

  lemma UnbitsByte(x: nat, t: seq<bool>)
    requires x < 256
    ensures Unbits(ToBits(x, 8) + t) == [x] + Unbits(t)
  {
    var w := ToBits(x, 8) + t;
    assert w[..8] == ToBits(x, 8) && w[8..] == t;
    Pow2Values();
    FromToBits(x, 8);
  }

  /** Reading back the bits of a byte string gives the bytes. */
  lemma {:induction false} UnbitsOfBytes(b: seq<byte>)
    ensures Unbits(BitsOf(b)) == b
  {
    if b != [] {
      UnbitsByte(b[0], BitsOf(b[1..]));
      UnbitsOfBytes(b[1..]);
      assert b == [b[0]] + b[1..];
    }
  }

  /** A stage of `8 + r` bits is its top byte followed by its low `r` bits. */
  lemma SplitStage(stage: nat, r: nat)
    requires stage < Pow2(r + 8)
    ensures Shr(stage, r) < 256 && Low(stage, r) < Pow2(r)
    ensures ToBits(stage, r + 8) == ToBits(Shr(stage, r), 8) + ToBits(Low(stage, r), r)
  {
    var w := ToBits(stage, r + 8);
    var hi, lo := w[..8], w[8..];
    assert w == hi + lo;
    FromToBits(stage, r + 8);
    ShrValue(stage, r);
    SplitValue(hi, lo);
    ToFromBits(hi);
    ToFromBits(lo);
    Pow2Values();
  }

  lemma Regroup(a: seq<nat>, x: nat, b: seq<nat>)
    ensures (a + [x]) + b == a + ([x] + b)
  {
  }

  /** The inner `while remaining > 8` loop of `decode` moves whole bytes
      from the stage to the output and loses no bit. */
  lemma {:induction false} DrainKeeps(out: seq<nat>, stage: nat, rem: nat, t: seq<bool>)
    requires stage < Pow2(rem) && (rem + |t|) % 8 == 0
    ensures var d := Drain(out, stage, rem);
      d.1 < Pow2(d.2) && d.2 % 8 == rem % 8 && (rem > 0 ==> d.2 > 0)
      && d.0 + Unbits(ToBits(d.1, d.2) + t) == out + Unbits(ToBits(stage, rem) + t)
    decreases rem
  {
    if rem > 8 {
      var r := rem - 8;
      var hi, lo := Shr(stage, r), Low(stage, r);
      SplitStage(stage, r);
      DrainKeeps(out + [hi], lo, r, t);
      UnbitsByte(hi, ToBits(lo, r) + t);
      Regroup(out, hi, Unbits(ToBits(lo, r) + t));
      Reassociate(ToBits(hi, 8), ToBits(lo, r), t);
    }
  }

  /** Staging the bits of `chunk` after those of `stage` appends them. */
  lemma JoinBits(stage: nat, rem: nat, chunk: seq<bool>)
    requires stage < Pow2(rem)
    ensures Or(Shl(stage, |chunk|), FromBits(chunk)) < Pow2(rem + |chunk|)
    ensures ToBits(Or(Shl(stage, |chunk|), FromBits(chunk)), rem + |chunk|) == ToBits(stage, rem) + chunk
  {
    JoinValue(stage, rem, chunk);
    ToFromBits(ToBits(stage, rem) + chunk);
  }

  /** The decoder's state while it reads the text for the bits `u`: at
      most eight bits staged, whole bytes once `u` is added, and `residue`
      in step with the staged bits. */
  predicate Pending(st: DecState, u: seq<bool>) {
    st.remaining <= 8 && st.stage < Pow2(st.remaining) && (st.remaining + |u|) % 8 == 0
    && (|u| > 0 ==> st.residue == st.remaining % 8)
  }

  /** After a character that carries `chunk`, staged as `staged` and
      drained to `d`, the state is `Pending` for the bits `rest` after it,
      and holds the same bits. */
  lemma StageKeeps(st: DecState, staged: nat, d: (seq<nat>, nat, nat), residue: nat, chunk: seq<bool>, rest: seq<bool>)
    requires Pending(st, chunk + rest) && chunk != []
    requires residue == (st.residue + 11) % 8 && (rest != [] ==> |chunk| == 11)
    requires staged < Pow2(st.remaining + |chunk|)
    requires ToBits(staged, st.remaining + |chunk|) == ToBits(st.stage, st.remaining) + chunk
    requires d == Drain(st.out, staged, st.remaining + |chunk|)
    ensures Pending(DecState(d.0, d.1, d.2, residue), rest)
    ensures d.0 + Unbits(ToBits(d.1, d.2) + rest) == st.out + Unbits(ToBits(st.stage, st.remaining) + (chunk + rest))
  {
    DrainKeeps(st.out, staged, st.remaining + |chunk|, rest);
    StagePending(st, d, residue, chunk, rest);
    StagedBits(st.out, d.0, ToBits(st.stage, st.remaining), chunk, rest,
               ToBits(staged, st.remaining + |chunk|), ToBits(d.1, d.2));
  }

  lemma StagePending(st: DecState, d: (seq<nat>, nat, nat), residue: nat, chunk: seq<bool>, rest: seq<bool>)
    requires Pending(st, chunk + rest) && chunk != []
    requires residue == (st.residue + 11) % 8 && (rest != [] ==> |chunk| == 11)
    requires d.2 <= 8 && d.1 < Pow2(d.2) && d.2 % 8 == (st.remaining + |chunk|) % 8
    ensures Pending(DecState(d.0, d.1, d.2, residue), rest)
  {
    var total := |chunk + rest|;
    assert total == |chunk| + |rest|;
    assert (st.remaining + total) % 8 == 0 && (total > 0 ==> st.residue == st.remaining % 8);
    PendingAfter(st.remaining, total, |chunk|, d.2, |rest|, st.residue, residue);
  }

  lemma StagedBits(out0: seq<nat>, out1: seq<nat>, a: seq<bool>, chunk: seq<bool>, rest: seq<bool>,
                   staged: seq<bool>, drained: seq<bool>)
    requires staged == a + chunk
    requires out1 + Unbits(drained + rest) == out0 + Unbits(staged + rest)
    ensures out1 + Unbits(drained + rest) == out0 + Unbits(a + (chunk + rest))
  {
    Reassociate(a, chunk, rest);
  }

  /** The counts `Pending` tracks, from one character to the next. */
  lemma PendingAfter(rem: nat, total: nat, n: nat, rem': nat, restLen: nat, residue0: nat, residue: nat)
    requires (rem + total) % 8 == 0 && total == n + restLen && n > 0
    requires (total > 0 ==> residue0 == rem % 8) && (restLen > 0 ==> n == 11)
    requires rem' % 8 == (rem + n) % 8 && residue == (residue0 + 11) % 8
    ensures (rem' + restLen) % 8 == 0 && (restLen > 0 ==> residue == rem' % 8)
  {
  }

  /** The first character `encode` writes for the bits `u`: a tail
      character for at most three bits, a digit otherwise, and it carries
      the first `Width(u)` bits. */
  function Width(u: seq<bool>): nat {
    if |u| > 11 then 11 else |u|
  }

  lemma EmitHead(enc: seq<char>, u: seq<bool>)
    requires |enc| == 2048 && u != []
    ensures var s, v := Emit(enc, u), FromBits(u[..Width(u)]);
      s != [] && s[1..] == Emit(enc, u[Width(u)..]) && (|s| > 1 <==> |u| > 11)
      && (|u| <= 3 ==> v < 8 && s[0] == TAIL[v])
      && (|u| > 3 ==> v < 2048 && s[0] == enc[v])
  {
    Pow2Values();
    if |u| <= 11 {
      assert u[..|u|] == u && u[|u|..] == [];
      if |u| <= 3 {
        Pow2Monotone(|u|, 3);
      } else {
        Pow2Monotone(|u|, 11);
      }
    }
  }

  /** With inverse tables, the first character `encode` writes for the
      bits `u` passes the decoder's checks and stages the bits it was made
      from. */
  lemma FirstStep(enc: seq<char>, dec: seq<int>, u: seq<bool>, pos: nat, st: DecState)
    requires Tables(enc, dec) && u != [] && Pending(st, u)
    ensures var s := Emit(enc, u);
      s != [] && s[1..] == Emit(enc, u[Width(u)..])
      && Step(dec, s[0], pos, if |s| > 1 then Some(s[1]) else None, st)
         == Success(Advance(st, Width(u), FromBits(u[..Width(u)]), (st.residue + 11) % 8))
  {
    var s := Emit(enc, u);
    var v := FromBits(u[..Width(u)]);
    var next := if |s| > 1 then Some(s[1]) else None;
    EmitHead(enc, u);
    if |u| <= 3 {
      assert u[..Width(u)] == u;
      TailIndex(v);
      TailWidth(st.remaining, |u|);
      TailDecodes(dec, s[0], v, pos, next, st.remaining, (st.residue + 11) % 8, |u|);
    } else {
      DigitDecodes(dec, s[0], v, pos, next, st.remaining, st.residue, |u|);
    }
    StepSucceeds(dec, s[0], pos, next, st, Width(u), v);
  }

  /** A tail character ends the text and carries the bits that complete
      the last byte. */
  lemma TailDecodes(dec: seq<int>, c: char, k: nat, pos: nat, next: Option<char>, rem: nat, residue: nat, n: nat)
    requires DecTable(dec) && c as int <= 4339 && dec[c as int] == NOT_A_DIGIT && IndexOf(TAIL, c) == Some(k)
    requires next == None && rem <= 8 && residue < 8
    requires n == 8 - rem && k < Pow2(n)
    ensures NewBits(dec, c, pos, next, rem, residue) == Success((n, k))
  {
    assert c as int in ZeroSet(dec);
  }

  lemma TailWidth(rem: nat, n: nat)
    requires rem <= 8 && 1 <= n <= 3 && (rem + n) % 8 == 0
    ensures n == 8 - rem
  {
  }

  /** A digit carries eleven bits, or, last in the text, the eleven less
      the padding `residue` counts, which are exactly the bits left. */
  lemma DigitDecodes(dec: seq<int>, c: char, v: nat, pos: nat, next: Option<char>, rem: nat, residue0: nat, n: nat)
    requires DecTable(dec) && c as int < 4340 && dec[c as int] == v < 2048
    requires rem <= 8 && 4 <= n && (rem + n) % 8 == 0 && residue0 == rem % 8
    requires next.Some? <==> n > 11
    ensures NewBits(dec, c, pos, next, rem, (residue0 + 11) % 8) == Success((if n > 11 then 11 else n, v))
  {
    DigitWidth(rem, residue0, (residue0 + 11) % 8, n);
    assert c as int !in ZeroSet(dec);
  }

  lemma DigitWidth(rem: nat, residue0: nat, residue: nat, n: nat)
    requires rem <= 8 && 4 <= n && (rem + n) % 8 == 0
    requires residue0 == rem % 8 && residue == (residue0 + 11) % 8
    ensures n <= 11 ==> n == 11 - residue
  {
  }

  /** `DecodeChars` on a text whose first step succeeds. */
  lemma DecodeCharsFirst(dec: seq<int>, s: seq<char>, pos: nat, st: DecState, st': DecState)
    requires DecTable(dec) && st.remaining <= 8 && s != []
    requires Step(dec, s[0], pos, if |s| > 1 then Some(s[1]) else None, st) == Success(st')
    ensures DecodeChars(dec, s, pos, st) == DecodeChars(dec, s[1..], pos + 1, st')
  {
  }

  /** No bits left: `decode` flushes the stage, which holds nothing or a
      whole byte. */
  lemma FinishBits(st: DecState)
    requires Pending(st, [])
    ensures Finish(st) == Pack(st.out + Unbits(ToBits(st.stage, st.remaining) + []))
  {
    assert ToBits(st.stage, st.remaining) + [] == ToBits(st.stage, st.remaining);
    if st.remaining == 8 {
      Pow2Values();
      UnbitsByte(st.stage, []);
      assert Unbits([]) == [] && [st.stage] + [] == [st.stage];
      assert Flushed(st) == st.out + [st.stage];
    } else {
      assert st.out + [] == st.out;
    }
  }

  /** The state after the first character for the bits `u` is `Pending`
      for the bits after that character, and holds the same bits. */
  lemma AdvanceKeeps(st: DecState, u: seq<bool>)
    requires u != [] && Pending(st, u)
    ensures var st' := Advance(st, Width(u), FromBits(u[..Width(u)]), (st.residue + 11) % 8);
      Pending(st', u[Width(u)..])
      && st'.out + Unbits(ToBits(st'.stage, st'.remaining) + u[Width(u)..])
         == st.out + Unbits(ToBits(st.stage, st.remaining) + u)
  {
    var chunk, rest := u[..Width(u)], u[Width(u)..];
    var v, residue := FromBits(chunk), (st.residue + 11) % 8;
    assert u == chunk + rest;
    var staged := Or(Shl(st.stage, |chunk|), v);
    var d := Drain(st.out, staged, st.remaining + |chunk|);
    JoinBits(st.stage, st.remaining, chunk);
    StageKeeps(st, staged, d, residue, chunk, rest);
  }

  /** Decoding the text `encode` writes for the bits `u`, from a state that
      is `Pending` for `u`, yields the bits held and `u`, as bytes. */
  lemma {:induction false} DecodeEmitted(enc: seq<char>, dec: seq<int>, u: seq<bool>, pos: nat, st: DecState)
    requires Tables(enc, dec) && Pending(st, u)
    ensures DecodeChars(dec, Emit(enc, u), pos, st) == Pack(st.out + Unbits(ToBits(st.stage, st.remaining) + u))
    decreases |u|
  {
    if u == [] {
      FinishBits(st);
    } else {
      var s := Emit(enc, u);
      var st' := Advance(st, Width(u), FromBits(u[..Width(u)]), (st.residue + 11) % 8);
      FirstStep(enc, dec, u, pos, st);
      AdvanceKeeps(st, u);
      DecodeCharsFirst(dec, s, pos, st, st');
      DecodeEmitted(enc, dec, u[Width(u)..], pos + 1, st');
    }
  }

  /** `decode(encode(b)) == b` for every byte string, when the tables
      invert each other. */
  lemma RoundTrip(enc: seq<char>, dec: seq<int>, b: seq<byte>)
    requires Tables(enc, dec)
    ensures DecodeSpec(dec, EncodeSpec(enc, b)) == Success(b)
  {
    var st := DecState([], 0, 0, 0);
    DecodeEmitted(enc, dec, BitsOf(b), 0, st);
    assert ToBits(0, 0) + BitsOf(b) == BitsOf(b);
    UnbitsOfBytes(b);
    assert [] + Unbits(BitsOf(b)) == b;
  }
}
