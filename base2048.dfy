/** The base2048 codec of src/salamander/base2048.py: bytes become text,
    eleven bits per character, and back. The two lookup tables, which the
    source unpacks from a compressed resource file, are parameters: `enc`
    maps an 11-bit value to its character and `dec` maps a code point below
    4340 to its 11-bit value, or to 0xFFFF for the code points that are
    not digits. */
module Base2048 {
  import opened Wrappers
  import opened Bits
  import Arith

  type byte = x: int | 0 <= x < 256

  /** The characters that carry the last one to three bits. */
  const TAIL: seq<char> := ['\U{0F0D}', '\U{0F0E}', '\U{0F0F}', '\U{0F10}', '\U{0F11}', '\U{0F06}', '\U{0F08}', '\U{0F12}']

  /** The mark `dec` holds for a code point that is not a digit. */
  const NOT_A_DIGIT := 0xFFFF

  /** A decoding table: one entry per code point up to 4339, each an 11-bit
      value or the mark. */
  predicate DecTable(dec: seq<int>) {
    |dec| == 4340 && forall c :: 0 <= c < 4340 ==> dec[c] == NOT_A_DIGIT || 0 <= dec[c] < 2048
  }

  /** The two tables agree: `dec` inverts `enc`, and the tail characters are
      marked as non-digits. */
  predicate Tables(enc: seq<char>, dec: seq<int>) {
    DecTable(dec) && |enc| == 2048
    && (forall v :: 0 <= v < 2048 ==> enc[v] as int < 4340 && dec[enc[v] as int] == v)
    && (forall k :: 0 <= k < 8 ==> dec[TAIL[k] as int] == NOT_A_DIGIT)
  }

  /** `ZERO_SET`: the code points the decoding table marks. */
  function ZeroSet(dec: seq<int>): (z: set<int>)
    ensures forall c :: c in z <==> 0 <= c < |dec| && dec[c] == NOT_A_DIGIT
  {
    set c | 0 <= c < |dec| && dec[c] == NOT_A_DIGIT
  }

  /** With agreeing tables, `ZERO_SET` holds every tail character and no
      digit character, so `decode` tells the two kinds apart by it. */
  lemma ZeroSetTables(enc: seq<char>, dec: seq<int>)
    requires Tables(enc, dec)
    ensures forall k :: 0 <= k < 8 ==> TAIL[k] as int in ZeroSet(dec)
    ensures forall v :: 0 <= v < 2048 ==> enc[v] as int !in ZeroSet(dec)
  {
    assert forall k :: 0 <= k < 8 ==> 0x0F06 <= TAIL[k] as int <= 0x0F12;
  }

  /** `seq.index(c)`, with `None` for the `ValueError`. */
  function IndexOf(s: seq<char>, c: char): (r: Option<nat>)
    ensures r.Some? ==> r.value < |s| && s[r.value] == c && c !in s[..r.value]
    ensures r.None? ==> c !in s
  {
    if s == [] then None
    else if s[0] == c then Some(0)
    else match IndexOf(s[1..], c)
      case None => None
      case Some(k) =>
        assert s[..k + 1] == [s[0]] + s[1..][..k];
        Some(k + 1)
  }

  /** `s.index(s[k])` is `k` when nothing before `k` equals `s[k]`. */
  lemma {:induction false} IndexOfFirst(s: seq<char>, k: nat)
    requires k < |s| && forall j :: 0 <= j < k ==> s[j] != s[k]
    ensures IndexOf(s, s[k]) == Some(k)
  {
    if k > 0 {
      assert s[1..][k - 1] == s[k];
      IndexOfFirst(s[1..], k - 1);
    }
  }

  /** The tail characters are distinct code points below 4340, so
      `TAIL.index` finds each at its own place. */
  lemma TailIndex(k: nat)
    requires k < 8
    ensures IndexOf(TAIL, TAIL[k]) == Some(k) && TAIL[k] as int <= 4339
  {
    assert forall j :: 0 <= j < 8 ==> 0x0F06 <= TAIL[j] as int <= 0x0F12;
    assert forall j :: 0 <= j < k ==> TAIL[j] != TAIL[k];
    IndexOfFirst(TAIL, k);
  }

  lemma Pow2Values()
    ensures Pow2(0) == 1 && Pow2(3) == 8 && Pow2(8) == 256 && Pow2(11) == 2048
  {
    assert Pow2(3) == 8;
    assert Pow2(8) == 256;
    assert Pow2(11) == 2048;
  }

  /** `iter(iterable)` wrapped with a one-item look-ahead buffer. */
  class Peekable<T> {
    /** What the wrapped iterator has still to yield. */
    var source: seq<T>
    /** The `deque` of items already pulled from the iterator by `peek`. */
    var cache: seq<T>

    predicate Valid()
      reads this
    {
      |cache| <= 1
    }

    /** The items still to come, buffered ones first. */
    function Rest(): seq<T>
      reads this
    {
      cache + source
    }

    constructor(items: seq<T>)
      ensures Valid() && Rest() == items
    {
      source := items;
      cache := [];
    }

    /** `peek()`: the next item without consuming it; `None` stands for
        `StopIteration`. */
    method Peek() returns (r: Option<T>)
      requires Valid()
      modifies this
      ensures Valid() && Rest() == old(Rest())
      ensures r == if Rest() == [] then None else Some(Rest()[0])
    {
      if cache == [] {
        if source == [] {
          return None;
        }
        cache := [source[0]];
        source := source[1..];
      }
      r := Some(cache[0]);
    }

    /** `has_more()` */
    method HasMore() returns (b: bool)
      requires Valid()
      modifies this
      ensures Valid() && Rest() == old(Rest())
      ensures b <==> Rest() != []
    {
      var p := Peek();
      b := p.Some?;
    }

    /** `__next__()`: the buffered item first, then the iterator's. */
    method Next() returns (r: Option<T>)
      requires Valid()
      modifies this
      ensures Valid()
      ensures old(Rest()) == [] ==> r == None && Rest() == []
      ensures old(Rest()) != [] ==> r == Some(old(Rest())[0]) && Rest() == old(Rest())[1..]
    {
      if cache != [] {
        r := Some(cache[0]);
        cache := cache[1..];
      } else if source == [] {
        r := None;
      } else {
        r := Some(source[0]);
        source := source[1..];
      }
    }
  }

  // ---------------------------------------------------------------- encode

  /** The bits of a byte string, eight per byte, most significant first. */
  function BitsOf(b: seq<byte>): (w: seq<bool>)
    ensures |w| == 8 * |b|
  {
    if b == [] then [] else ToBits(b[0], 8) + BitsOf(b[1..])
  }

  /** The text for a run of bits: a character per 11 bits; the last one to
      eleven bits make the last character, a tail character when there are
      at most three of them. */
  function Emit(enc: seq<char>, w: seq<bool>): (s: seq<char>)
    requires |enc| == 2048
    ensures |s| == (|w| + 10) / 11
    decreases |w|
  {
    Pow2Values();
    if |w| > 11 then [enc[FromBits(w[..11])]] + Emit(enc, w[11..])
    else if w == [] then []
    else if |w| <= 3 then
      Pow2Monotone(|w|, 3);
      [TAIL[FromBits(w)]]
    else [enc[FromBits(w)]]
  }

  /** What `encode` returns. */
  function EncodeSpec(enc: seq<char>, b: seq<byte>): (s: seq<char>)
    requires |enc| == 2048
    ensures |s| == (8 * |b| + 10) / 11
  {
    Emit(enc, BitsOf(b))
  }

  /** A byte arriving when at least four bits are staged completes a
      character: its high bits join the staged ones ... */
  lemma FlushValues(stage: nat, rem: nat, x: byte)
    requires 4 <= rem <= 11 && stage < Pow2(rem)
    ensures var need, r := 11 - rem, rem - 3;
      var bx := ToBits(x, 8);
      FromBits(ToBits(stage, rem) + bx[..need]) == Or(Shl(stage, need), Shr(x, r)) < 2048
      && bx[need..] == ToBits(Low(x, r), r)
  {
    var need, r := 11 - rem, rem - 3;
    var bx := ToBits(x, 8);
    ByteSplit(x, need, r);
    JoinValue(stage, rem, bx[..need]);
    Pow2Values();
  }

  /** The first `need` bits of a byte are its top bits and the others its
      low bits. */
  lemma ByteSplit(x: byte, need: nat, r: nat)
    requires need + r == 8
    ensures var bx := ToBits(x, 8);
      FromBits(bx[..need]) == Shr(x, r) && bx[need..] == ToBits(Low(x, r), r)
  {
    var bx := ToBits(x, 8);
    var b1, b2 := bx[..need], bx[need..];
    assert bx == b1 + b2;
    assert x < Pow2(8) by {
      Pow2Values();
    }
    FromToBits(x, 8);
    SplitValue(b1, b2);
    ShrValue(x, r);
    ToFromBits(b2);
  }

  /** The value of the staged bits followed by `chunk` is the staging
      step `(stage << len(chunk)) | chunk`. */
  lemma JoinValue(stage: nat, rem: nat, chunk: seq<bool>)
    requires stage < Pow2(rem)
    ensures FromBits(ToBits(stage, rem) + chunk) == Or(Shl(stage, |chunk|), FromBits(chunk))
  {
    FromToBits(stage, rem);
    FromBitsAppend(ToBits(stage, rem), chunk);
    ShlValue(stage, |chunk|);
    OrShift(stage, |chunk|, FromBits(chunk));
  }

  /** ... and its low bits stay staged. */
  lemma FlushSplit(enc: seq<char>, a: seq<bool>, bx: seq<bool>, rest: seq<bool>, need: nat)
    requires |enc| == 2048 && |a| + need == 11 && need < |bx|
    ensures FromBits(a + bx[..need]) < 2048
    ensures Emit(enc, a + (bx + rest)) == [enc[FromBits(a + bx[..need])]] + Emit(enc, bx[need..] + rest)
  {
    var w := a + (bx + rest);
    assert w[..11] == a + bx[..need] && w[11..] == bx[need..] + rest;
    EmitChunk(enc, w);
  }

  /** More than eleven bits: the first eleven make a character. */
  lemma EmitChunk(enc: seq<char>, w: seq<bool>)
    requires |enc| == 2048 && |w| > 11
    ensures FromBits(w[..11]) < 2048
    ensures Emit(enc, w) == [enc[FromBits(w[..11])]] + Emit(enc, w[11..])
  {
    Pow2Values();
  }

  /** A byte arriving when at most three bits are staged is staged too:
      its bits follow the staged ones. */
  lemma ShiftStep(stage: nat, rem: nat, x: byte)
    requires rem <= 3 && stage < Pow2(rem)
    ensures Or(Shl(stage, 8), x) == FromBits(ToBits(stage, rem) + ToBits(x, 8))
  {
    assert x < Pow2(8) by {
      Pow2Values();
    }
    FromToBits(x, 8);
    JoinValue(stage, rem, ToBits(x, 8));
  }

  /** The encoder's loop invariant after `i` bytes: `s` written so far,
      `remaining` bits staged in `stage`, and the rest of the output is what
      the staged bits and the bytes still to come make. */
  predicate Staged(enc: seq<char>, bys: seq<byte>, i: nat, s: seq<char>, stage: nat, remaining: nat)
    requires |enc| == 2048 && i <= |bys|
  {
    remaining <= 11 && stage < Pow2(remaining)
    && s + Emit(enc, ToBits(stage, remaining) + BitsOf(bys[i..])) == EncodeSpec(enc, bys)
  }

  lemma NextByte(bys: seq<byte>, i: nat)
    requires i < |bys|
    ensures BitsOf(bys[i..]) == ToBits(bys[i], 8) + BitsOf(bys[i + 1..])
  {
    assert bys[i..][1..] == bys[i + 1..];
  }

  /** A flush step of `encode` keeps its loop invariant. */
  lemma FlushKeeps(enc: seq<char>, bys: seq<byte>, i: nat, s: seq<char>, stage: nat, rem0: nat,
                   need: nat, r: nat, index: nat)
    requires |enc| == 2048 && i < |bys| && 4 <= rem0
    requires Staged(enc, bys, i, s, stage, rem0)
    requires need == 11 - rem0 && r == 8 - need && index == Or(Shl(stage, need), Shr(bys[i], r))
    ensures index < 2048 && Staged(enc, bys, i + 1, s + [enc[index]], Low(bys[i], r), r)
  {
    var rest := BitsOf(bys[i + 1..]);
    NextByte(bys, i);
    FlushValues(stage, rem0, bys[i]);
    FlushSplit(enc, ToBits(stage, rem0), ToBits(bys[i], 8), rest, need);
    AppendOne(s, enc[index], Emit(enc, ToBits(Low(bys[i], r), r) + rest));
  }

  lemma AppendOne(s: seq<char>, c: char, t: seq<char>)
    ensures (s + [c]) + t == s + ([c] + t)
  {
  }

  /** A shift step of `encode` keeps its loop invariant. */
  lemma ShiftKeeps(enc: seq<char>, bys: seq<byte>, i: nat, s: seq<char>, stage0: nat, rem0: nat,
                   stage: nat, remaining: nat)
    requires |enc| == 2048 && i < |bys| && rem0 <= 3
    requires Staged(enc, bys, i, s, stage0, rem0)
    requires stage == Or(Shl(stage0, 8), bys[i]) && remaining == rem0 + 8
    ensures Staged(enc, bys, i + 1, s, stage, remaining)
  {
    ShiftBits(stage0, rem0, bys[i], stage, remaining);
    NextByte(bys, i);
    Reassociate(ToBits(stage0, rem0), ToBits(bys[i], 8), BitsOf(bys[i + 1..]));
  }

  /** The bits staged after a shift step are the old ones and the byte's. */
  lemma ShiftBits(stage0: nat, rem0: nat, x: byte, stage: nat, remaining: nat)
    requires rem0 <= 3 && stage0 < Pow2(rem0)
    requires stage == Or(Shl(stage0, 8), x) && remaining == rem0 + 8
    ensures ToBits(stage, remaining) == ToBits(stage0, rem0) + ToBits(x, 8) && stage < Pow2(remaining)
  {
    var a, bx := ToBits(stage0, rem0), ToBits(x, 8);
    ShiftStep(stage0, rem0, x);
    ToFromBits(a + bx);
  }

  lemma Reassociate(a: seq<bool>, b: seq<bool>, c: seq<bool>)
    ensures (a + b) + c == a + (b + c)
  {
  }

  /** The staged bits left at the end make at most one character. */
  lemma LastChar(enc: seq<char>, bys: seq<byte>, s: seq<char>, stage: nat, remaining: nat)
    requires |enc| == 2048 && Staged(enc, bys, |bys|, s, stage, remaining)
    ensures remaining == 0 ==> s == EncodeSpec(enc, bys)
    ensures 1 <= remaining <= 3 ==> stage < 8 && s + [TAIL[stage]] == EncodeSpec(enc, bys)
    ensures remaining > 3 ==> stage < 2048 && s + [enc[stage]] == EncodeSpec(enc, bys)
  {
    assert bys[|bys|..] == [];
    assert ToBits(stage, remaining) + [] == ToBits(stage, remaining);
    FromToBits(stage, remaining);
    Pow2Values();
    if 1 <= remaining <= 3 {
      Pow2Monotone(remaining, 3);
    } else if remaining > 3 {
      Pow2Monotone(remaining, 11);
    }
  }

  /** `encode(bys)` */
  method Encode(bys: seq<byte>, enc: seq<char>) returns (s: seq<char>)
    requires |enc| == 2048
    ensures s == EncodeSpec(enc, bys)
  {
    s := [];
    var stage: nat := 0;
    var remaining: nat := 0;
    assert ToBits(stage, remaining) + BitsOf(bys[0..]) == BitsOf(bys);
    for i := 0 to |bys|
      invariant Staged(enc, bys, i, s, stage, remaining)
    {
      var x := bys[i];
      var need := 11 - remaining;
      ghost var stage0, rem0 := stage, remaining;
      if need < 8 {
        remaining := 8 - need;
        var index := Or(Shl(stage, need), Shr(x, remaining));
        FlushKeeps(enc, bys, i, s, stage, rem0, need, remaining, index);
        s := s + [enc[index]];
        stage := Low(x, remaining);
      } else {
        stage := Or(Shl(stage, 8), x);
        remaining := remaining + 8;
        ShiftKeeps(enc, bys, i, s, stage0, rem0, stage, remaining);
      }
    }
    LastChar(enc, bys, s, stage, remaining);
    if remaining > 0 {
      s := s + [if remaining <= 3 then TAIL[stage] else enc[stage]];
    }
  }

  // ---------------------------------------------------------------- decode

  /** `DecodeError` with the position and character its message names, and
      the `ValueError` that `bytes(ret)` raises for a value over 255. */
  datatype DecodeError =
    | InvalidCharacter(pos: nat, code: int)
    | UnexpectedCharacter(pos: nat, ch: char, terminatorPos: nat, terminator: char)
    | InvalidTermination(pos: nat, ch: char)
    | InvalidTail(pos: nat, ch: char)
    | ByteOutOfRange

  /** The decoder's variables between two characters: the values `ret`
      collected, and `remaining` bits staged in `stage`. */
  datatype DecState = DecState(out: seq<nat>, stage: nat, remaining: nat, residue: nat)

  /** The inner `while remaining > 8` loop: whole bytes leave the stage. */
  function Drain(out: seq<nat>, stage: nat, remaining: nat): (r: (seq<nat>, nat, nat))
    ensures r.2 <= 8 && |out| <= |r.0| && r.0[..|out|] == out
    ensures remaining <= 8 ==> r == (out, stage, remaining)
    decreases remaining
  {
    if remaining > 8 then
      var rem := remaining - 8;
      var r := Drain(out + [Shr(stage, rem)], Low(stage, rem), rem);
      assert r.0[..|out|] == (out + [Shr(stage, rem)])[..|out|];
      r
    else (out, stage, remaining)
  }

  /** The bits one character contributes, as `(n_new_bits, new_bits)`: the
      checks and the table lookup of one pass of the `for i, c in chars`
      loop. `c` is at position `pos`, `next` is the character after it, if
      any, and `residue` has already been advanced. */
  function NewBits(dec: seq<int>, c: char, pos: nat, next: Option<char>, remaining: nat, residue: nat)
    : (r: Result<(nat, nat), DecodeError>)
    requires DecTable(dec) && remaining <= 8 && residue < 8
  {
    var numeric := c as int;
    if numeric > 4339 then Failure(InvalidCharacter(pos, numeric))
    else if numeric in ZeroSet(dec) then
      if next.Some? then Failure(UnexpectedCharacter(pos + 1, next.value, pos, c))
      else match IndexOf(TAIL, c)
        case None => Failure(InvalidTermination(pos, c))
        case Some(index) =>
          var need := 8 - remaining;
          if index < Pow2(need) then Success((need, index)) else Failure(InvalidTail(pos, c))
    else Success((if next.Some? then 11 else 11 - residue, dec[numeric]))
  }

  /** One pass of the `for i, c in chars` loop. */
  function Step(dec: seq<int>, c: char, pos: nat, next: Option<char>, st: DecState): (r: Result<DecState, DecodeError>)
    requires DecTable(dec) && st.remaining <= 8
    ensures r.Success? ==> r.value.remaining <= 8
  {
    var residue := (st.residue + 11) % 8;
    match NewBits(dec, c, pos, next, st.remaining, residue)
      case Failure(e) => Failure(e)
      case Success((n, bits)) => Success(Advance(st, n, bits, residue))
  }

  /** The state after `n` new bits `bits` join the stage and whole bytes
      are drained from it. */
  function Advance(st: DecState, n: nat, bits: nat, residue: nat): (r: DecState)
    ensures r.remaining <= 8 && r.residue == residue
  {
    var (out, stage, remaining) := Drain(st.out, Or(Shl(st.stage, n), bits), st.remaining + n);
    DecState(out, stage, remaining, residue)
  }

  /** `bytes(ret)`: fails exactly when a value is over 255 (see
      `PackFails`). */
  function Pack(out: seq<nat>): (r: Result<seq<byte>, DecodeError>)
    ensures r.Success? ==> r.value == out
  {
    if forall k :: 0 <= k < |out| ==> out[k] < 256 then
      Success(seq(|out|, k requires 0 <= k < |out| => out[k] as byte))
    else Failure(ByteOutOfRange)
  }

  lemma PackFails(out: seq<nat>)
    ensures Pack(out).Failure? <==> exists k :: 0 <= k < |out| && out[k] >= 256
  {
  }

  /** After the loop: the staged bits, if any, make the last value. */
  function Flushed(st: DecState): seq<nat>
    requires st.remaining <= 8
  {
    if st.remaining > 0 then st.out + [Shr(st.stage, 8 - st.remaining)] else st.out
  }

  /** What `decode` returns once every character is read. */
  function Finish(st: DecState): Result<seq<byte>, DecodeError>
    requires st.remaining <= 8
  {
    Pack(Flushed(st))
  }

  /** Decoding the characters `s` that start at position `pos`, from the
      state `st`. */
  function DecodeChars(dec: seq<int>, s: seq<char>, pos: nat, st: DecState): Result<seq<byte>, DecodeError>
    requires DecTable(dec) && st.remaining <= 8
    decreases |s|
  {
    if s == [] then Finish(st)
    else match Step(dec, s[0], pos, if |s| > 1 then Some(s[1]) else None, st)
      case Failure(e) => Failure(e)
      case Success(st') => DecodeChars(dec, s[1..], pos + 1, st')
  }

  /** What `decode` returns or raises. */
  function DecodeSpec(dec: seq<int>, s: seq<char>): Result<seq<byte>, DecodeError>
    requires DecTable(dec)
  {
    DecodeChars(dec, s, 0, DecState([], 0, 0, 0))
  }

  /** `enumerate(string)` */
  function Enumerate(s: seq<char>): (e: seq<(nat, char)>)
    ensures |e| == |s| && forall k :: 0 <= k < |s| ==> e[k] == (k, s[k])
  {
    seq(|s|, k requires 0 <= k < |s| => (k, s[k]))
  }

  /** `decode(string)` */
  method Decode(s: seq<char>, dec: seq<int>) returns (r: Result<seq<byte>, DecodeError>)
    requires DecTable(dec)
    ensures r == DecodeSpec(dec, s)
  {
    var ret: seq<nat> := [];
    var remaining: nat := 0;
    var stage: nat := 0;
    var chars := new Peekable(Enumerate(s));
    var residue: nat := 0;
    ghost var k: nat := 0;
    ghost var spec := DecodeSpec(dec, s);
    while true
      invariant chars.Valid() && k <= |s| && chars.Rest() == Enumerate(s)[k..]
      invariant remaining <= 8 && residue < 8 && residue == ResidueAt(k)
      invariant DecodeChars(dec, s[k..], k, DecState(ret, stage, remaining, residue)) == spec
      decreases |s| - k
    {
      Enumerated(s, k);
      var item := chars.Next();
      if item.None? {
        break;
      }
      var (i, c) := item.value;
      ghost var st0 := DecState(ret, stage, remaining, residue);
      var failure;
      failure, ret, stage, remaining, residue := DecodePass(chars, dec, i, c, ret, stage, remaining, residue, NextChar(s, k));
      DecodeCharsStep(dec, s, k, st0);
      ResidueNext(k, st0.residue, residue);
      if failure.Some? {
        return Failure(failure.value);
      }
      k := k + 1;
    }
    DecodeCharsDone(dec, s, k, DecState(ret, stage, remaining, residue));
    r := FlushStage(ret, stage, remaining, residue);
  }

  /** `residue` before the character at position `k`: eleven more bits
      each time, counted modulo eight. */
  function ResidueAt(k: nat): (r: nat)
    ensures r < 8
  {
    if k == 0 then 0 else (ResidueAt(k - 1) + 11) % 8
  }

  lemma ResidueNext(k: nat, residue0: nat, residue: nat)
    requires residue0 == ResidueAt(k) && residue == (residue0 + 11) % 8
    ensures residue == ResidueAt(k + 1) && residue < 8
  {
  }

  /** The running residue is `11 * k % 8`. */
  lemma {:induction false} ResidueValue(k: nat)
    ensures ResidueAt(k) == (11 * k) % 8
  {
    if k > 0 {
      ResidueValue(k - 1);
      var q, c := (11 * (k - 1)) / 8, (ResidueAt(k - 1) + 11) / 8;
      assert 11 * k == (q + c) * 8 + ResidueAt(k);
      Arith.ModUnique(11 * k, 8, q + c, ResidueAt(k));
    }
  }

  /** The end of `decode`: the staged bits, if any, make the last value,
      and `bytes(ret)` checks every value. */
  method FlushStage(ret0: seq<nat>, stage: nat, remaining: nat, ghost residue: nat)
    returns (r: Result<seq<byte>, DecodeError>)
    requires remaining <= 8
    ensures r == Finish(DecState(ret0, stage, remaining, residue))
  {
    var ret := ret0;
    if remaining > 0 {
      ret := ret + [Shr(stage, 8 - remaining)];
    }
    r := Pack(ret);
  }

  /** One pass of `decode`'s `for i, c in chars` loop, for the item
      `(i, c)` just taken from `chars`: `Step`, or the error it raises. */
  method DecodePass(chars: Peekable<(nat, char)>, dec: seq<int>, i: nat, c: char,
                    ret0: seq<nat>, stage0: nat, remaining0: nat, residue0: nat, ghost next: Option<char>)
    returns (failure: Option<DecodeError>, ret: seq<nat>, stage: nat, remaining: nat, residue: nat)
    requires chars.Valid() && DecTable(dec) && remaining0 <= 8 && residue0 < 8
    requires chars.Rest() != [] ==> chars.Rest()[0].0 == i + 1
    requires next == NextOf(chars.Rest())
    modifies chars
    ensures chars.Valid() && chars.Rest() == old(chars.Rest())
    ensures remaining <= 8 && residue == (residue0 + 11) % 8
    ensures Step(dec, c, i, next, DecState(ret0, stage0, remaining0, residue0))
      == if failure.Some? then Failure(failure.value) else Success(DecState(ret, stage, remaining, residue))
  {
    ghost var st0 := DecState(ret0, stage0, remaining0, residue0);
    residue := (residue0 + 11) % 8;
    var bits := CharBits(chars, dec, i, c, remaining0, residue, next);
    if bits.Failure? {
      StepFails(dec, c, i, next, st0);
      return Some(bits.error), ret0, stage0, remaining0, residue;
    }
    StepSucceeds(dec, c, i, next, st0, bits.value.0, bits.value.1);
    var (nNewBits, newBits) := bits.value;
    ret, stage, remaining := StageBits(ret0, stage0, remaining0, nNewBits, newBits, st0, residue);
    failure := None;
  }

  /** The checks and the lookup for the character `c` at position `i` in
      one pass of `decode`'s loop, looking ahead through `chars`. */
  method CharBits(chars: Peekable<(nat, char)>, dec: seq<int>, i: nat, c: char, remaining: nat, residue: nat,
                  ghost next: Option<char>)
    returns (r: Result<(nat, nat), DecodeError>)
    requires chars.Valid() && DecTable(dec) && remaining <= 8 && residue < 8
    requires chars.Rest() != [] ==> chars.Rest()[0].0 == i + 1
    requires next == NextOf(chars.Rest())
    modifies chars
    ensures chars.Valid() && chars.Rest() == old(chars.Rest())
    ensures r == NewBits(dec, c, i, next, remaining, residue)
  {
    var numeric := c as int;
    if numeric > 4339 {
      return Failure(InvalidCharacter(i, numeric));
    }
    var nNewBits: nat, newBits: nat := 0, 0;
    if numeric in ZeroSet(dec) {
      var more := chars.HasMore();
      if more {
        var peeked := chars.Peek();
        var (iNext, cNext) := peeked.value;
        return Failure(UnexpectedCharacter(iNext, cNext, i, c));
      }
      var index := IndexOf(TAIL, c);
      if index.None? {
        return Failure(InvalidTermination(i, c));
      }
      var need := 8 - remaining;
      if index.value < Pow2(need) {
        nNewBits, newBits := need, index.value;
      } else {
        return Failure(InvalidTail(i, c));
      }
    } else {
      newBits := dec[numeric];
      var more := chars.HasMore();
      nNewBits := if more then 11 else 11 - residue;
    }
    r := Success((nNewBits, newBits));
  }

  /** The rest of one pass of `decode`'s loop: the new bits join the stage,
      then the inner `while remaining > 8` loop moves whole bytes out. */
  method StageBits(ret0: seq<nat>, stage0: nat, remaining0: nat, nNewBits: nat, newBits: nat,
                   ghost st0: DecState, ghost residue: nat)
    returns (ret: seq<nat>, stage: nat, remaining: nat)
    requires st0.out == ret0 && st0.stage == stage0 && st0.remaining == remaining0
    ensures DecState(ret, stage, remaining, residue) == Advance(st0, nNewBits, newBits, residue)
  {
    ret := ret0;
    remaining := remaining0 + nNewBits;
    stage := Or(Shl(stage0, nNewBits), newBits);
    ghost var staged := (ret, stage, remaining);
    while remaining > 8
      invariant Drain(ret, stage, remaining) == Drain(staged.0, staged.1, staged.2)
      decreases remaining
    {
      remaining := remaining - 8;
      ret := ret + [Shr(stage, remaining)];
      stage := Low(stage, remaining);
    }
  }

  /** `Step` fails exactly as `NewBits` does ... */
  lemma StepFails(dec: seq<int>, c: char, pos: nat, next: Option<char>, st: DecState)
    requires DecTable(dec) && st.remaining <= 8
    requires NewBits(dec, c, pos, next, st.remaining, (st.residue + 11) % 8).Failure?
    ensures Step(dec, c, pos, next, st) == Failure(NewBits(dec, c, pos, next, st.remaining, (st.residue + 11) % 8).error)
  {
  }

  /** ... and otherwise stages the new bits and drains whole bytes. */
  lemma StepSucceeds(dec: seq<int>, c: char, pos: nat, next: Option<char>, st: DecState, n: nat, bits: nat)
    requires DecTable(dec) && st.remaining <= 8
    requires NewBits(dec, c, pos, next, st.remaining, (st.residue + 11) % 8) == Success((n, bits))
    ensures Step(dec, c, pos, next, st) == Success(Advance(st, n, bits, (st.residue + 11) % 8))
  {
  }

  /** Walking through `enumerate(s)`: the item at `k` is `(k, s[k])`. */
  lemma Enumerated(s: seq<char>, k: nat)
    requires k <= |s|
    ensures Enumerate(s)[k..] == [] <==> k == |s|
    ensures k < |s| ==> Enumerate(s)[k..][0] == (k, s[k]) && Enumerate(s)[k..][1..] == Enumerate(s)[k + 1..]
    ensures k < |s| ==> NextChar(s, k) == NextOf(Enumerate(s)[k + 1..])
  {
  }

  /** The character of the next item of `enumerate(s)`, if any. */
  function NextOf(rest: seq<(nat, char)>): Option<char> {
    if rest == [] then None else Some(rest[0].1)
  }

  /** The character after position `k`, if any. */
  function NextChar(s: seq<char>, k: nat): Option<char> {
    if k + 1 < |s| then Some(s[k + 1]) else None
  }

  /** The end of the text: only the staged bits are left to flush. */
  lemma DecodeCharsDone(dec: seq<int>, s: seq<char>, k: nat, st: DecState)
    requires DecTable(dec) && st.remaining <= 8 && k == |s|
    ensures DecodeChars(dec, s[k..], k, st) == Finish(st)
  {
    assert s[k..] == [];
  }

  /** One step of `DecodeChars` on a suffix of the text. */
  lemma DecodeCharsStep(dec: seq<int>, s: seq<char>, k: nat, st: DecState)
    requires DecTable(dec) && st.remaining <= 8 && k < |s|
    ensures DecodeChars(dec, s[k..], k, st) ==
      match Step(dec, s[k], k, if k + 1 < |s| then Some(s[k + 1]) else None, st)
        case Failure(e) => Failure(e)
        case Success(st') => DecodeChars(dec, s[k + 1..], k + 1, st')
  {
    assert s[k..][1..] == s[k + 1..];
  }
}
