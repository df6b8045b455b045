/** The ways `decode` in src/salamander/base2048.py rejects a text. */
module Base2048Errors {
  import opened Wrappers
  import opened Bits
  import opened Base2048

  /** A character `decode` rejects whatever it has read before: a code
      point over 4339, a non-digit with anything after it, or a last
      non-digit that is not a tail character. */
  predicate BadAt(dec: seq<int>, s: seq<char>, k: nat)
    requires DecTable(dec) && k < |s|
  {
    var c := s[k] as int;
    c > 4339 || (c in ZeroSet(dec) && (k + 1 < |s| || IndexOf(TAIL, s[k]).None?))
  }

  /** The checks of `NewBits` that do not depend on the state fail for a
      bad character. */
  lemma BadFails(dec: seq<int>, s: seq<char>, k: nat, st: DecState)
    requires DecTable(dec) && k < |s| && st.remaining <= 8 && BadAt(dec, s, k)
    ensures Step(dec, s[k], k, if k + 1 < |s| then Some(s[k + 1]) else None, st).Failure?
  {
  }

  /** Decoding from position `j` fails when a bad character lies ahead. */
  lemma {:induction false} RejectsFrom(dec: seq<int>, s: seq<char>, j: nat, k: nat, st: DecState)
    requires DecTable(dec) && j <= k < |s| && st.remaining <= 8 && BadAt(dec, s, k)
    ensures DecodeChars(dec, s[j..], j, st).Failure?
    decreases k - j
  {
    DecodeCharsStep(dec, s, j, st);
    if j == k {
      BadFails(dec, s, k, st);
    } else {
      match Step(dec, s[j], j, if j + 1 < |s| then Some(s[j + 1]) else None, st)
      case Failure(_) =>
      case Success(st') =>
        RejectsFrom(dec, s, j + 1, k, st');
    }
  }

  /** `decode` raises `DecodeError` for a text with a bad character
      anywhere in it. */
  lemma DecodeRejects(dec: seq<int>, s: seq<char>, k: nat)
    requires DecTable(dec) && k < |s| && BadAt(dec, s, k)
    ensures DecodeSpec(dec, s).Failure?
  {
    assert s[0..] == s;
    RejectsFrom(dec, s, 0, k, DecState([], 0, 0, 0));
  }

  /** A tail character whose index does not fit in the bits the last byte
      still needs is rejected with `InvalidTail`. */
  lemma TailOverflows(dec: seq<int>, k: nat, pos: nat, rem: nat, residue: nat)
    requires DecTable(dec) && k < 8 && dec[TAIL[k] as int] == NOT_A_DIGIT
    requires rem <= 8 && residue < 8 && k >= Pow2(8 - rem)
    ensures NewBits(dec, TAIL[k], pos, None, rem, residue) == Failure(InvalidTail(pos, TAIL[k]))
  {
    TailIndex(k);
    assert TAIL[k] as int in ZeroSet(dec);
  }

  /** A last digit whose value does not fit in the bits it may carry makes
      a value over 255, which `bytes(ret)` rejects: the one-character text
      of digit 2047 carries eight bits. */
  lemma OverlongDigit(enc: seq<char>, dec: seq<int>)
    requires Tables(enc, dec)
    ensures DecodeSpec(dec, [enc[2047]]) == Failure(ByteOutOfRange)
  {
    var s := [enc[2047]];
    var st := DecState([], 0, 0, 0);
    assert enc[2047] as int !in ZeroSet(dec);
    assert NewBits(dec, enc[2047], 0, None, 0, 3) == Success((8, 2047));
    ShlValue(0, 8);
    var st' := DecState([], 2047, 8, 3);
    assert Step(dec, enc[2047], 0, None, st) == Success(st');
    DecodeCharsStep(dec, s, 0, st);
    assert s[0..] == s && s[1..] == [];
    assert Flushed(st') == [2047];
    assert DecodeChars(dec, s[1..], 1, st') == Pack([2047]);
    var out: seq<nat> := [2047];
    assert out[0] >= 256;
    PackFails(out);
  }
}
