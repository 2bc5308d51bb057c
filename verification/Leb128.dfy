/** The incremental decoder of src/mmap/sample4/main.c against the signed LEB128 encoding
    of section 7.6 of DWARF Version 5. The parser works on 32-bit words; its meaning is
    given by integers. */
module Leb128 {
  import opened Basics

  const TWO_TO_31 := 0x8000_0000
  const TWO_TO_32 := 0x1_0000_0000

  type uint32 = w: int | 0 <= w < TWO_TO_32

  // ----- The encoding -----

  function Pow128(n: nat): (p: nat)
    ensures p > 0
  {
    if n == 0 then 1 else 128 * Pow128(n - 1)
  }

  /** The number made of the low seven bits of the bytes, least significant group first. */
  function Groups(bytes: seq<byte>): nat {
    if bytes == [] then 0 else
    Groups(bytes[..|bytes| - 1]) + (bytes[|bytes| - 1] % 128) * Pow128(|bytes| - 1)
  }

  /** Only the last byte has its top bit clear. */
  predicate IsEncoding(bytes: seq<byte>) {
    && bytes != [] && bytes[|bytes| - 1] < 128
    && forall i :: 0 <= i < |bytes| - 1 ==> bytes[i] >= 128
  }

  /** The signed number: bit 6 of the last byte is the sign. */
  function Value(bytes: seq<byte>): int
    requires bytes != []
  {
    Groups(bytes) - if bytes[|bytes| - 1] % 128 >= 64 then Pow128(|bytes|) else 0
  }

  function Encode(v: int): seq<byte>
    decreases if v < 0 then -v else v
  {
    var low, rest := v % 128, v / 128;
    if (rest == 0 && low < 64) || (rest == -1 && low >= 64) then [low] else [128 + low] + Encode(rest)
  }

  function EncodeAll(values: seq<int>): seq<byte> {
    if values == [] then [] else Encode(values[0]) + EncodeAll(values[1..])
  }

  /** The 32-bit two's complement number congruent to `v`. */
  function Signed32(v: int): (r: int)
    ensures -TWO_TO_31 <= r < TWO_TO_31 && (v - r) % TWO_TO_32 == 0
    ensures -TWO_TO_31 <= v < TWO_TO_31 ==> r == v
  {
    var u := v % TWO_TO_32;
    if u < TWO_TO_31 then u else u - TWO_TO_32
  }

  /** The numbers completed by `bytes` when `pending` has already been read. */
  function Decode(pending: seq<byte>, bytes: seq<byte>): seq<int>
    decreases |bytes|
  {
    if bytes == [] then [] else
    var read := pending + [bytes[0]];
    if bytes[0] >= 128 then Decode(read, bytes[1..]) else [Signed32(Value(read))] + Decode([], bytes[1..])
  }

  /** No encoding is longer than five bytes, so that no shift reaches the word size. */
  predicate Shiftable(pending: nat, bytes: seq<byte>)
    decreases |bytes|
  {
    bytes == [] || (pending < 5 && Shiftable(if bytes[0] >= 128 then pending + 1 else 0, bytes[1..]))
  }

  // ----- Round trip -----

  lemma {:induction false} GroupsFit(bytes: seq<byte>)
    ensures Groups(bytes) < Pow128(|bytes|)
  {
    if bytes == [] {
    } else {
      var n := |bytes| - 1;
      GroupsFit(bytes[..n]);
      hide Pow128;
      Scaled(bytes[n] % 128, 127, Pow128(n));
      PowerStep(n);
    }
  }

  lemma Scaled(a: nat, b: nat, p: nat)
    requires a <= b
    ensures a * p <= b * p
  {
  }

  lemma PowerStep(n: nat)
    ensures Pow128(n + 1) == 128 * Pow128(n)
  {
  }

  lemma {:induction false} GroupsHead(b: byte, bytes: seq<byte>)
    ensures Groups([b] + bytes) == b % 128 + 128 * Groups(bytes)
  {
    var all, n := [b] + bytes, |bytes|;
    if n == 0 {
      assert all[..0] == [];
      assert Pow128(0) == 1;
    } else {
      GroupsHead(b, bytes[..n - 1]);
      assert all[..n] == [b] + bytes[..n - 1];
      var low, p := bytes[n - 1] % 128, Pow128(n - 1);
      assert low * (128 * p) == 128 * (low * p);
    }
  }

  lemma ValueHead(b: byte, bytes: seq<byte>)
    requires bytes != []
    ensures Value([b] + bytes) == b % 128 + 128 * Value(bytes)
  {
    GroupsHead(b, bytes);
  }

  /** One group stands for itself: 64 and above count as negative. */
  lemma OneGroup(low: byte)
    requires low < 128
    ensures IsEncoding([low]) && Value([low]) == if low < 64 then low else low - 128
  {
    assert [low][..0] == [];
    assert Pow128(0) == 1 && Pow128(1) == 128;
    assert Groups([low]) == Groups([]) + low * Pow128(0);
  }

  lemma {:induction false} EncodeMeansValue(v: int)
    ensures IsEncoding(Encode(v)) && Value(Encode(v)) == v
    decreases if v < 0 then -v else v
  {
    hide Value, Groups;
    var low, rest := v % 128, v / 128;
    if (rest == 0 && low < 64) || (rest == -1 && low >= 64) {
      OneGroup(low);
      assert Encode(v) == [low];
    } else {
      EncodeMeansValue(rest);
      ValueHead(128 + low, Encode(rest));
    }
  }

  lemma {:induction false} EncodeIsShort(v: int, n: nat)
    requires -64 * Pow128(n) <= v < 64 * Pow128(n)
    ensures |Encode(v)| <= n + 1
    decreases n
  {
    var low, rest := v % 128, v / 128;
    if !((rest == 0 && low < 64) || (rest == -1 && low >= 64)) {
      assert n > 0;
      EncodeIsShort(rest, n - 1);
    }
  }

  lemma Int32IsShort(v: int)
    requires -TWO_TO_31 <= v < TWO_TO_31
    ensures |Encode(v)| <= 5
  {
    assert Pow128(4) == 128 * (128 * (128 * (128 * Pow128(0))));
    EncodeIsShort(v, 4);
  }

  lemma {:induction false} DecodeOne(pending: seq<byte>, e: seq<byte>, rest: seq<byte>)
    requires IsEncoding(e)
    ensures Decode(pending, e + rest) == [Signed32(Value(pending + e))] + Decode([], rest)
    ensures |pending| + |e| <= 5 ==> Shiftable(|pending|, e + rest) == Shiftable(0, rest)
    decreases |e|
  {
    var read := pending + [e[0]];
    assert (e + rest)[1..] == e[1..] + rest;
    if |e| == 1 {
      assert e[1..] + rest == rest && read == pending + e;
    } else {
      DecodeOne(read, e[1..], rest);
      assert read + e[1..] == pending + e;
    }
  }

  /** Decoding the concatenated encodings of any 32-bit numbers gives the same numbers. */
  lemma {:induction false} RoundTrip(values: seq<int>)
    requires forall v <- values :: -TWO_TO_31 <= v < TWO_TO_31
    ensures Decode([], EncodeAll(values)) == values && Shiftable(0, EncodeAll(values))
  {
    hide Encode, Value;
    if values == [] {
    } else {
      var v, e := values[0], Encode(values[0]);
      assert forall w :: w in values[1..] ==> w in values;
      RoundTrip(values[1..]);
      EncodeMeansValue(v);
      assert v in values;
      Int32IsShort(v);
      DecodeOne([], e, EncodeAll(values[1..]));
      assert [] + e == e;
    }
  }

  /** The examples of the standard, with their bytes as it gives them. */
  lemma StandardExamples()
    ensures Encode(2) == [2] && Encode(-2) == [0x7e]
    ensures Encode(127) == [127 + 0x80, 0] && Encode(-127) == [1 + 0x80, 0x7f]
    ensures Encode(128) == [0 + 0x80, 1] && Encode(-128) == [0 + 0x80, 0x7f]
    ensures Encode(129) == [1 + 0x80, 1] && Encode(-129) == [0x7f + 0x80, 0x7e]
  {
  }

  // ----- Words -----

  /** Bitwise `&` and `|`, digit by digit. */
  function And(a: nat, b: nat): nat {
    if a == 0 || b == 0 then 0 else
    (if a % 2 == 1 && b % 2 == 1 then 1 else 0) + 2 * And(a / 2, b / 2)
  }

  function Or(a: nat, b: nat): nat {
    if a == 0 then b else if b == 0 then a else
    (if a % 2 == 1 || b % 2 == 1 then 1 else 0) + 2 * Or(a / 2, b / 2)
  }

  predicate Digit(a: nat, k: nat) {
    if k == 0 then a % 2 == 1 else Digit(a / 2, k - 1)
  }

  lemma {:induction false} ZeroHasNoDigit(k: nat)
    ensures !Digit(0, k)
  {
    if k == 0 {
    } else {
      ZeroHasNoDigit(k - 1);
    }
  }

  /** They do what they should to every digit. */
  lemma {:induction false} DigitsOfAndOr(a: nat, b: nat, k: nat)
    ensures Digit(And(a, b), k) <==> Digit(a, k) && Digit(b, k)
    ensures Digit(Or(a, b), k) <==> Digit(a, k) || Digit(b, k)
    decreases k
  {
    ZeroHasNoDigit(k);
    if a == 0 || b == 0 {
    } else if k == 0 {
      OrHalves(a, b);
    } else {
      OrHalves(a, b);
      DigitsOfAndOr(a / 2, b / 2, k - 1);
    }
  }

  lemma OrHalves(a: nat, b: nat)
    requires a > 0 && b > 0
    ensures And(a, b) / 2 == And(a / 2, b / 2) && Or(a, b) / 2 == Or(a / 2, b / 2)
    ensures And(a, b) % 2 == 1 <==> a % 2 == 1 && b % 2 == 1
    ensures Or(a, b) % 2 == 1 <==> a % 2 == 1 || b % 2 == 1
  {
  }

  function Pow2(n: nat): (p: nat)
    ensures p > 0
  {
    if n == 0 then 1 else 2 * Pow2(n - 1)
  }

  /** `<<` on a 32-bit word, defined below the width of the word. */
  function ShiftLeft(w: uint32, n: nat): uint32
    requires n < 32
  {
    w * Pow2(n) % TWO_TO_32
  }

  /** The cast to `int32_t`. */
  function AsInt32(w: uint32): int {
    if w < TWO_TO_31 then w else w - TWO_TO_32
  }

  /** A mask of ones keeps a remainder. */
  lemma {:induction false} AndMask(a: nat, n: nat)
    ensures And(a, Pow2(n) - 1) == a % Pow2(n)
  {
    if n == 0 {
    } else {
      AndMask(a / 2, n - 1);
      HalfRemainder(a, Pow2(n - 1));
    }
  }

  lemma HalfRemainder(a: nat, p: nat)
    requires p > 0
    ensures a % (2 * p) == a % 2 + 2 * (a / 2 % p)
  {
    var h := a / 2;
    assert a == 2 * p * (h / p) + (a % 2 + 2 * (h % p));
    DivMod(a, 2 * p, h / p, a % 2 + 2 * (h % p));
  }

  /** A single one picks a digit. */
  lemma {:induction false} AndBit(a: nat, n: nat)
    ensures And(a, Pow2(n)) != 0 <==> a % Pow2(n + 1) >= Pow2(n)
  {
    if n > 0 {
      AndBit(a / 2, n - 1);
      HalfRemainder(a, Pow2(n));
    } else {
      assert Pow2(0) == 1 && Pow2(1) == 2;
    }
  }

  /** The three masks of `put_char`. */
  lemma Masks(c: byte)
    ensures And(c, 0x7f) == c % 128
    ensures And(c, 0x80) == 0 <==> c < 128
    ensures And(c, 0x40) != 0 <==> c % 128 >= 64
  {
    hide And;
    PowersAgree(1);
    assert Pow128(1) == 128 * Pow128(0);
    assert Pow2(7) == 2 * Pow2(6) && Pow2(8) == 2 * Pow2(7);
    AndMask(c, 7);
    AndBit(c, 7);
    AndBit(c, 6);
  }

  /** Words without a common one are added. */
  lemma {:induction false} OrIsAdd(a: nat, m: nat, n: nat)
    requires a < Pow2(n)
    ensures m * Pow2(n) >= 0 && Or(a, m * Pow2(n)) == a + m * Pow2(n)
  {
    if n > 0 {
      hide Or;
      var b := m * Pow2(n - 1);
      assert m * Pow2(n) == 2 * b;
      OrIsAdd(a / 2, m, n - 1);
      OrAtEven(a, b);
    } else {
      assert a == 0;
    }
  }

  lemma OrAtEven(a: nat, b: nat)
    ensures Or(a, 2 * b) == a % 2 + 2 * Or(a / 2, b)
  {
  }

  lemma {:induction false} Pow2Adds(m: nat, n: nat)
    ensures Pow2(m + n) == Pow2(m) * Pow2(n)
  {
    if n == 0 {
    } else {
      Pow2Adds(m, n - 1);
      assert Pow2(m + n) == 2 * Pow2(m + n - 1);
    }
  }

  lemma {:induction false} PowersAgree(k: nat)
    ensures Pow128(k) == Pow2(7 * k)
  {
    if k == 0 {
    } else {
      PowersAgree(k - 1);
      Pow2Adds(7 * k - 7, 7);
      assert Pow2(7) == 128;
    }
  }

  /** A shift keeps the low digits of the word, above `n` zeros. */
  lemma ShiftKeepsLow(w: uint32, n: nat)
    requires n < 32
    ensures ShiftLeft(w, n) == (w % Pow2(32 - n)) * Pow2(n)
    ensures Pow2(n) * Pow2(32 - n) == TWO_TO_32
  {
    WordSize();
    hide Pow2;
    Pow2Adds(n, 32 - n);
    ScaledRemainder(w, Pow2(n), Pow2(32 - n));
  }

  lemma WordSize()
    ensures Pow2(32) == TWO_TO_32
  {
    assert Pow2(8) == 256;
    Pow2Adds(8, 8);
    Pow2Adds(16, 16);
  }

  lemma ScaledRemainder(w: nat, p: nat, q: nat)
    requires p > 0 && q > 0
    ensures p * q > 0 && w * p % (p * q) == w % q * p
  {
    ScaledDivision(w, p, q);
    DivMod(w * p, p * q, w / q, w % q * p);
  }

  lemma ScaledDivision(w: nat, p: nat, q: nat)
    requires p > 0 && q > 0
    ensures p * q > 0 && w * p == (p * q) * (w / q) + w % q * p
    ensures w % q * p <= p * q - p
  {
    var t, u := w / q, w % q;
    assert w * p == (q * t) * p + u * p;
    assert (q * t) * p == (p * q) * t;
    assert u * p <= (q - 1) * p;
  }

  /** Oring a shifted word above smaller ones adds it, modulo 2^32. */
  lemma OrShifted(a: uint32, w: uint32, n: nat)
    requires n < 32 && a < Pow2(n)
    ensures Or(a, ShiftLeft(w, n)) == (a + w * Pow2(n)) % TWO_TO_32
  {
    hide Or, ShiftLeft, Pow2;
    var p, q := Pow2(n), Pow2(32 - n);
    ShiftKeepsLow(w, n);
    OrIsAdd(a, w % q, n);
    ScaledDivision(w, p, q);
    DivMod(a + w * p, TWO_TO_32, w / q, a + w % q * p);
  }

  // ----- The parser -----

  datatype ParserState = Zero | Partial | Finished

  class Parser {
    var result: uint32
    var shift: nat
    var state: ParserState

    /** The bytes of the number being read. */
    ghost var taken: seq<byte>

    /** While a number is being read, `result` holds its groups and `shift` their width. */
    ghost predicate Valid()
      reads this
    {
      match state
      case Zero => result == 0 && shift == 0 && taken == []
      case Partial =>
        && 1 <= |taken| <= 5 && shift == 7 * |taken|
        && result == Groups(taken) % TWO_TO_32
        && (shift < 32 ==> result < Pow2(shift))
      case Finished => taken == []
    }

    /** `struct Parser parser = {}`. */
    constructor ()
      ensures Valid() && taken == []
    {
      result, shift, state, taken := 0, 0, Zero, [];
    }

    /** `put_char`: 0 and the number when `c` completes one, otherwise -2 and `*res` as it was
        `before`. The source's shift is undefined once five bytes have been read without an
        end. */
    method PutChar(c: byte, before: int) returns (status: int, res: int)
      requires Valid() && |taken| < 5
      modifies this
      ensures Valid()
      ensures c >= 128 ==> status == -2 && res == before && taken == old(taken) + [c] && state == Partial
      ensures c < 128 ==>
                status == 0 && taken == [] && state == Finished &&
                res == Signed32(Value(old(taken) + [c]))
    {
      hide And, Or, ShiftLeft, Groups, Pow128, Pow2, Value, Signed32;
      if state == Finished {
        state, shift, result := Zero, 0, 0;
      }
      ghost var start, all := taken, taken + [c];
      Masks(c);
      AddGroup(result, start, c);
      state := Partial;
      result := Or(result, ShiftLeft(And(c, 0x7f), shift));
      shift := shift + 7;
      res := before;
      if And(c, 0x80) == 0 {
        Finish(result, all);
        if shift < 32 && And(c, 0x40) != 0 {
          result := Or(result, ShiftLeft(0xffff_ffff, shift));
        }
        res := AsInt32(result);
        state, taken := Finished, [];
        return 0, res;
      }
      taken := all;
      return -2, res;
    }
  }

  /** The loop over the bytes of the file: a new parser, and one number printed for each 0. */
  method DecodeAll(bytes: seq<byte>) returns (printed: seq<int>)
    requires Shiftable(0, bytes)
    ensures printed == Decode([], bytes)
  {
    var parser := new Parser();
    var value := 0;
    printed := [];
    for i := 0 to |bytes|
      invariant parser.Valid() && fresh(parser)
      invariant Shiftable(|parser.taken|, bytes[i..])
      invariant Decode([], bytes) == printed + Decode(parser.taken, bytes[i..])
    {
      hide Signed32, Value;
      assert bytes[i..][0] == bytes[i] && bytes[i..][1..] == bytes[i + 1..];
      var status;
      status, value := parser.PutChar(bytes[i], value);
      if status == 0 {
        printed := printed + [value];
      }
    }
  }

  /** A group or-ed in at its place is added to the groups before it, modulo the word. */
  lemma AddGroup(result: uint32, before: seq<byte>, c: byte)
    requires |before| < 5 && result == if before == [] then 0 else Groups(before) % TWO_TO_32
    ensures Or(result, ShiftLeft(c % 128, 7 * |before|)) == Groups(before + [c]) % TWO_TO_32
    ensures 7 * |before| + 7 < 32 ==> Groups(before + [c]) % TWO_TO_32 < Pow2(7 * |before| + 7)
  {
    hide Or, ShiftLeft, Groups, Pow2, Pow128;
    var k := |before|;
    GroupsLast(before, c);
    GroupsInWord(before);
    PowersAgree(k);
    OrShifted(result, c % 128, 7 * k);
    if k + 1 < 5 {
      GroupsInWord(before + [c]);
    }
  }

  lemma GroupsLast(before: seq<byte>, b: byte)
    ensures Groups(before + [b]) == Groups(before) + (b % 128) * Pow128(|before|)
  {
    var all := before + [b];
    assert all[..|all| - 1] == before;
  }

  /** The groups of four bytes fit a word. */
  lemma GroupsInWord(bytes: seq<byte>)
    requires |bytes| < 5
    ensures Groups(bytes) < Pow2(7 * |bytes|) && Groups(bytes) % TWO_TO_32 == Groups(bytes)
    ensures bytes == [] ==> Groups(bytes) == 0
  {
    hide Pow128;
    GroupsFit(bytes);
    PowersAgree(|bytes|);
    ShiftKeepsLow(0, 7 * |bytes|);
    var p, q := Pow2(7 * |bytes|), Pow2(32 - 7 * |bytes|);
    assert p <= p * q;
  }

  /** The sign extension makes the word congruent to the signed number. */
  lemma Finish(result: uint32, all: seq<byte>)
    requires 1 <= |all| <= 5 && result == Groups(all) % TWO_TO_32
    ensures var negative := all[|all| - 1] % 128 >= 64;
            var word := if 7 * |all| < 32 && negative then Or(result, ShiftLeft(0xffff_ffff, 7 * |all|)) else result;
            0 <= word < TWO_TO_32 && AsInt32(word) == Signed32(Value(all))
  {
    hide Or, ShiftLeft, Groups, Pow2, Pow128, Signed32, AsInt32;
    if 7 * |all| < 32 {
      SignExtended(result, all);
    } else {
      FiveGroups();
      SameRemainder(Groups(all), -8);
    }
    CastIsSigned(Value(all));
  }

  lemma SignExtended(result: uint32, all: seq<byte>)
    requires 1 <= |all| < 5 && result == Groups(all) % TWO_TO_32
    ensures result == Groups(all)
    ensures Or(result, ShiftLeft(0xffff_ffff, 7 * |all|)) == (Groups(all) - Pow128(|all|)) % TWO_TO_32
  {
    hide Or, ShiftLeft, Groups, Pow2, Pow128;
    var n := 7 * |all|;
    PowersAgree(|all|);
    GroupsInWord(all);
    OrShifted(result, 0xffff_ffff, n);
    assert 0xffff_ffff * Pow2(n) == TWO_TO_32 * Pow2(n) - Pow2(n);
    SameRemainder(result - Pow2(n), Pow2(n));
  }

  lemma CastIsSigned(v: int)
    ensures AsInt32(v % TWO_TO_32) == Signed32(v)
  {
  }

  lemma SameRemainder(a: int, t: int)
    ensures (a + TWO_TO_32 * t) % TWO_TO_32 == a % TWO_TO_32
  {
  }

  lemma FiveGroups()
    ensures Pow128(5) == 8 * TWO_TO_32
  {
    assert Pow128(5) == 128 * (128 * (128 * (128 * (128 * Pow128(0)))));
  }
}
