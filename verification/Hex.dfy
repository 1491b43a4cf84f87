/** Printing a number in hexadecimal, as int_to_str of
    kernel/yanix/functions/kfunctions.c does: the number is first turned around, digit by
    digit, and the zeros this loses are counted. */
module Hex {
  import opened Basics

  type Nibble = d: nat | d < 16

  function Digit(d: Nibble): char {
    if d >= 10 then 'A' + (d - 10) as char else '0' + d as char
  }

  /** A number in hexadecimal. */
  function Hex(n: nat): string {
    if n < 16 then [Digit(n)] else Hex(n / 16) + [Digit(n % 16)]
  }

  /** The digits of a number, the least significant first, without zeros in front. */
  function LowFirst(n: nat): seq<Nibble> {
    if n == 0 then [] else [n % 16] + LowFirst(n / 16)
  }

  /** The number with these digits, the most significant first. */
  function Value(ds: seq<Nibble>): nat {
    if ds == [] then 0 else Value(ds[..|ds| - 1]) * 16 + ds[|ds| - 1]
  }

  function Reverse(ds: seq<Nibble>): seq<Nibble> {
    if ds == [] then [] else [ds[|ds| - 1]] + Reverse(ds[..|ds| - 1])
  }

  function Chars(ds: seq<Nibble>): (s: string)
    ensures |s| == |ds|
  {
    if ds == [] then [] else [Digit(ds[0])] + Chars(ds[1..])
  }

  function Zeros(n: nat): seq<Nibble> {
    if n == 0 then [] else Zeros(n - 1) + [0]
  }

  function Power(k: nat): nat { if k == 0 then 1 else 16 * Power(k - 1) }

  lemma {:induction false} CharsConcat(a: seq<Nibble>, b: seq<Nibble>)
    ensures Chars(a + b) == Chars(a) + Chars(b)
  {
    if a == [] {
      assert a + b == b;
    } else {
      CharsConcat(a[1..], b);
      assert (a + b)[1..] == a[1..] + b;
    }
  }

  lemma {:induction false} ReverseConcat(a: seq<Nibble>, b: seq<Nibble>)
    ensures Reverse(a + b) == Reverse(b) + Reverse(a)
  {
    if b == [] {
      assert a + b == a;
    } else {
      assert (a + b)[..|a + b| - 1] == a + b[..|b| - 1];
      ReverseConcat(a, b[..|b| - 1]);
    }
  }

  /** The usual way to print is the digits from the most significant one down. */
  lemma {:induction false} HexIsDigits(n: nat)
    requires n > 0
    ensures Hex(n) == Chars(Reverse(LowFirst(n)))
  {
    var d, low := n % 16, LowFirst(n / 16);
    ReverseConcat([d], low);
    assert Reverse([d]) == [d];
    CharsConcat(Reverse(low), [d]);
    assert Chars([d]) == [Digit(d)];
    if n < 16 {
      assert low == [] && Reverse(low) == [];
    } else {
      HexIsDigits(n / 16);
    }
  }

  const TABLE: string := "0123456789ABCDEF"

  /** The place of a character in a table, or its length. */
  function PlaceIn(table: string, c: char): nat {
    if table == "" || table[0] == c then 0 else 1 + PlaceIn(table[1..], c)
  }

  lemma {:induction false} PlaceUnique(table: string, d: nat)
    requires d < |table| && forall i | 0 <= i < d :: table[i] != table[d]
    ensures PlaceIn(table, table[d]) == d
  {
    if d > 0 { PlaceUnique(table[1..], d - 1); }
  }

  /** The number that a string of digits stands for. */
  function ReadBack(s: string): nat {
    if s == "" then 0 else ReadBack(s[..|s| - 1]) * 16 + PlaceIn(TABLE, s[|s| - 1])
  }

  lemma DigitInTable(d: Nibble)
    ensures PlaceIn(TABLE, Digit(d)) == d
  {
    assert Digit(d) == TABLE[d];
    PlaceUnique(TABLE, d);
  }

  /** What is printed reads back as the number, and starts with a zero only if it is one. */
  lemma {:induction false} ReadsBack(n: nat)
    ensures ReadBack(Hex(n)) == n && Hex(n) != "" && (Hex(n)[0] == '0' <==> n == 0)
  {
    DigitInTable(n % 16);
    if n >= 16 {
      ReadsBack(n / 16);
      var s := Hex(n / 16);
      assert (s + [Digit(n % 16)])[..|s|] == s;
    } else {
      assert [Digit(n)][..0] == "";
    }
  }

  /** Turning digits around twice: the digits of a value, least significant first, are the
      digits it was made of, last one first, when the first one is not zero. */
  lemma {:induction false} LowFirstOfValue(ds: seq<Nibble>)
    requires ds != [] && ds[0] != 0
    ensures Value(ds) > 0 && LowFirst(Value(ds)) == Reverse(ds)
  {
    var init, d := ds[..|ds| - 1], ds[|ds| - 1];
    if init == [] {
      assert Value(init) == 0 && Value(ds) == d && LowFirst(d) == [d] + LowFirst(0);
    } else {
      LowFirstOfValue(init);
      var v := Value(init) * 16 + d;
      assert v / 16 == Value(init) && v % 16 == d;
    }
  }

  lemma {:induction false} ZerosLength(n: nat)
    ensures |Zeros(n)| == n && Reverse(Zeros(n)) == Zeros(n)
  {
    if n > 0 {
      ZerosLength(n - 1);
      ZerosComm(n - 1);
    }
  }

  lemma {:induction false} ZerosComm(n: nat)
    ensures [0] + Zeros(n) == Zeros(n) + [0]
  {
    if n > 0 { ZerosComm(n - 1); }
  }

  lemma {:induction false} ReverseLength(ds: seq<Nibble>)
    ensures |Reverse(ds)| == |ds|
  {
    if ds != [] { ReverseLength(ds[..|ds| - 1]); }
  }

  /** The most significant digit is not zero. */
  lemma {:induction false} TopDigit(n: nat)
    requires n > 0
    ensures LowFirst(n) != [] && LowFirst(n)[|LowFirst(n)| - 1] != 0
  {
    if n >= 16 { TopDigit(n / 16); }
  }

  lemma {:induction false} ZerosAt(n: nat, i: nat)
    requires i < n
    ensures |Zeros(n)| == n && Zeros(n)[i] == 0
  {
    ZerosLength(n);
    if i < n - 1 { ZerosAt(n - 1, i); }
  }

  lemma PowersOf16()
    ensures Power(8) == 0x1_0000_0000
  {
    assert Power(4) == 0x1_0000;
    assert Power(8) == 16 * 16 * 16 * 16 * Power(4);
  }

  lemma {:induction false} PowerMonotone(a: nat, b: nat)
    requires a <= b
    ensures Power(a) <= Power(b)
  {
    if a < b { PowerMonotone(a, b - 1); }
  }

  /** What the digits turned so far are: `z` zeros and then `q`, whose value was built up. */
  ghost predicate Turned(val: nat, tmp: nat, z: nat, q: seq<Nibble>, reversed: nat) {
    && LowFirst(val) == Zeros(z) + q + LowFirst(tmp)
    && reversed == Value(q) < Power(|q|) && (q != [] ==> q[0] != 0 && reversed > 0)
    && z + |q| <= 8 && tmp < Power(8 - z - |q|)
  }

  lemma TurnedZero(val: nat, tmp: nat, z: nat)
    requires Turned(val, tmp, z, [], 0) && tmp > 0 && tmp % 16 == 0
    ensures Turned(val, tmp / 16, z + 1, [], 0)
  {
    assert Zeros(z) + [] + LowFirst(tmp) == Zeros(z + 1) + [] + LowFirst(tmp / 16);
  }

  lemma TurnedDigit(val: nat, tmp: nat, z: nat, q: seq<Nibble>, reversed: nat)
    requires Turned(val, tmp, z, q, reversed) && tmp > 0 && (q == [] ==> tmp % 16 != 0)
    ensures Turned(val, tmp / 16, z, q + [tmp % 16], reversed * 16 + tmp % 16)
  {
    var d: Nibble := tmp % 16;
    assert (q + [d])[..|q|] == q;
    assert Zeros(z) + q + LowFirst(tmp) == Zeros(z) + (q + [d]) + LowFirst(tmp / 16);
  }

  lemma Fits(val: nat, tmp: nat, z: nat, q: seq<Nibble>, reversed: nat)
    requires Turned(val, tmp, z, q, reversed) && tmp > 0
    ensures reversed * 16 + tmp % 16 < 0x1_0000_0000
  {
    PowersOf16();
    assert z + |q| < 8;
    PowerMonotone(|q| + 1, 8);
  }

  /** The first loop of int_to_str. */
  method TurnAround(val: nat) returns (reversed: nat, zeros: nat, ghost q: seq<Nibble>)
    requires val < 0x1_0000_0000
    ensures Turned(val, 0, zeros, q, reversed)
  {
    PowersOf16();
    var tmp := val;
    reversed, zeros, q := 0, 0, [];
    assert Zeros(0) + [] + LowFirst(val) == LowFirst(val);
    while tmp > 0
      invariant Turned(val, tmp, zeros, q, reversed)
    {
      Fits(val, tmp, zeros, q, reversed);
      var r := U32(reversed * 0x10 + tmp % 0x10);
      if r == 0 && tmp % 0x10 == 0 {
        TurnedZero(val, tmp, zeros);
        zeros := zeros + 1;
      } else {
        TurnedDigit(val, tmp, zeros, q, reversed);
        q := q + [tmp % 16];
      }
      reversed := r;
      tmp := tmp / 0x10;
    }
  }

  /** The second loop of int_to_str: the digits of the turned number, lowest first. */
  method PutDigits(strbuf: array<char>, reversed: nat) returns (i: nat)
    requires |LowFirst(reversed)| < strbuf.Length
    modifies strbuf
    ensures i == |LowFirst(reversed)| && strbuf[..i] == Chars(LowFirst(reversed))
  {
    i := 0;
    var rest := reversed;
    while rest > 0
      invariant i + |LowFirst(rest)| == |LowFirst(reversed)|
      invariant strbuf[..i] + Chars(LowFirst(rest)) == Chars(LowFirst(reversed))
      decreases rest
    {
      ghost var done := strbuf[..i];
      var d: Nibble := rest % 0x10;
      strbuf[i] := if d >= 0xA then 'A' + (d - 10) as char else '0' + d as char;
      assert strbuf[..i + 1] == done + [Digit(d)];
      DigitMoves(done, rest);
      i := i + 1;
      rest := rest / 0x10;
    }
  }

  lemma DigitMoves(done: string, rest: nat)
    requires rest > 0
    ensures done + [Digit(rest % 16)] + Chars(LowFirst(rest / 16)) == done + Chars(LowFirst(rest))
  {
    assert LowFirst(rest)[1..] == LowFirst(rest / 16);
  }

  /** The third loop of int_to_str: the zeros that were lost. */
  method PutZeros(strbuf: array<char>, at: nat, zeros: nat) returns (i: nat)
    requires at + zeros < strbuf.Length
    modifies strbuf
    ensures i == at + zeros && strbuf[..i] == old(strbuf[..at]) + Chars(Zeros(zeros))
  {
    i := at;
    var x := 0;
    while x < zeros
      invariant x <= zeros && i == at + x
      invariant strbuf[..i] == old(strbuf[..at]) + Chars(Zeros(x))
    {
      ghost var done := strbuf[..i];
      strbuf[i] := '0';
      assert strbuf[..i + 1] == done + ['0'];
      CharsConcat(Zeros(x), [0]);
      assert Chars([0]) == ['0'];
      i := i + 1;
      x := x + 1;
    }
  }

  /** Putting the digits of `q` last one first and then the zeros prints the number. */
  lemma TurnedBack(val: nat, z: nat, q: seq<Nibble>, reversed: nat)
    requires Turned(val, 0, z, q, reversed) && val > 0
    ensures reversed > 0 && |LowFirst(reversed)| == |q| && Chars(LowFirst(reversed)) + Chars(Zeros(z)) == Hex(val)
  {
    NotAllZeros(val, z, q);
    assert Zeros(z) + q + [] == Zeros(z) + q;
    LowFirstOfValue(q);
    ReverseLength(q);
    HexIsDigits(val);
    ReverseConcat(Zeros(z), q);
    ZerosLength(z);
    CharsConcat(Reverse(q), Zeros(z));
  }

  lemma NotAllZeros(val: nat, z: nat, q: seq<Nibble>)
    requires val > 0 && LowFirst(val) == Zeros(z) + q + []
    ensures q != []
  {
    TopDigit(val);
    ZerosLength(z);
    if q == [] {
      assert LowFirst(val) == Zeros(z);
      ZerosAt(z, z - 1);
    }
  }

  /** int_to_str: any 32-bit number in hexadecimal, ended by a null, within nine bytes. */
  method IntToStr(strbuf: array<char>, val: nat) returns (i: nat)
    requires val < 0x1_0000_0000 && strbuf.Length == 9
    modifies strbuf
    ensures i < 9 && strbuf[..i] == Hex(val) && strbuf[i] == '\0'
  {
    var reversed, zeros, q := TurnAround(val);
    if reversed == 0 {
      if val > 0 { TurnedBack(val, zeros, q, reversed); }
      strbuf[0] := '0';
      strbuf[1] := '\0';
      return 1;
    }
    TurnedBack(val, zeros, q, reversed);
    i := PutDigits(strbuf, reversed);
    i := PutZeros(strbuf, i, zeros);
    strbuf[i] := '\0';
  }
}
