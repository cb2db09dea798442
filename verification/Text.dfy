/** The texts of the key file: decimal numbers, base64 (section 4 of RFC 4648) and lists of strings. */
module Text {

  // ---- decimal numbers ------------------------------------------------------------------

  function Digit(d: nat): char
    requires d < 10
  {
    "0123456789"[d]
  }

  predicate IsDigit(c: char) { '0' <= c <= '9' }

  function Digits(n: nat): (s: string)
    ensures s != [] && forall i :: 0 <= i < |s| ==> IsDigit(s[i])
  {
    if n < 10 then [Digit(n)] else Digits(n / 10) + [Digit(n % 10)]
  }

  /** What "%d" prints. */
  function Print(n: int): (s: string)
    ensures forall i :: 0 <= i < |s| ==> IsDigit(s[i]) || s[i] == '-'
  {
    if n < 0 then "-" + Digits(-n) else Digits(n)
  }

  /** The number that continues `acc` with the leading digits of `s`. */
  function Number(acc: nat, s: string): nat
    decreases |s|
  {
    if s == [] || !IsDigit(s[0]) then acc else Number(10 * acc + (s[0] as int - '0' as int), s[1..])
  }

  predicate IsSpace(c: char) {
    c == ' ' || c == '\t' || c == '\n' || c == '\r' || c as int == 11 || c as int == 12
  }

  /** What atoi reads: leading space, a sign, and as many digits as there are. */
  function Read(s: string): int {
    if s == [] then 0
    else if IsSpace(s[0]) then Read(s[1..])
    else if s[0] == '-' then -(Number(0, s[1..]) as int)
    else if s[0] == '+' then Number(0, s[1..])
    else Number(0, s)
  }

  lemma {:induction false} NumberOfMore(acc: nat, s: string, d: char)
    requires IsDigit(d) && forall i :: 0 <= i < |s| ==> IsDigit(s[i])
    ensures Number(acc, s + [d]) == 10 * Number(acc, s) + (d as int - '0' as int)
    decreases |s|
  {
    if s == [] {
      assert [d][1..] == [];
    } else {
      NumberOfMore(10 * acc + (s[0] as int - '0' as int), s[1..], d);
      assert (s + [d])[1..] == s[1..] + [d];
    }
  }

  lemma {:induction false} NumberOfDigits(n: nat)
    ensures Number(0, Digits(n)) == n
  {
    hide Number, Digit;
    if n < 10 {
      OneDigit(n);
    } else {
      NumberOfDigits(n / 10);
      OneDigit(n % 10);
      NumberOfMore(0, Digits(n / 10), Digit(n % 10));
    }
  }

  lemma OneDigit(d: nat)
    requires d < 10
    ensures Number(0, [Digit(d)]) == d && Digit(d) as int - '0' as int == d
  {
    assert Number(0, [Digit(d)]) == Number(d, []);
  }

  /** Reading what was printed gives the number back, for every integer. */
  lemma ReadOfPrint(n: int)
    ensures Read(Print(n)) == n
  {
    if n < 0 {
      assert ("-" + Digits(-n))[1..] == Digits(-n);
      NumberOfDigits(-n);
    } else {
      assert IsDigit(Digits(n)[0]);
      NumberOfDigits(n);
    }
  }

  /** The printed form: the decimal digits, the last one being the remainder, after a sign if need be. */
  lemma PrintIsDecimal(n: int)
    ensures 0 <= n < 10 ==> Print(n) == ['0' + n as char]
    ensures n >= 10 ==> Print(n) == Print(n / 10) + ['0' + (n % 10) as char]
    ensures n < 0 ==> Print(n) == "-" + Print(-n)
  {
    OneDigit(n % 10);
  }

  /** How a number is written: "0", or an optional minus sign and digits that do not begin with a zero. */
  predicate Canonical(s: string) {
    s == "0" || LeadingNonzero(s) || (s != [] && s[0] == '-' && LeadingNonzero(s[1..]))
  }

  predicate LeadingNonzero(s: string) {
    s != [] && s[0] != '0' && forall i :: 0 <= i < |s| ==> IsDigit(s[i])
  }

  lemma {:induction false} DigitsAreCanonical(n: nat)
    requires n > 0
    ensures LeadingNonzero(Digits(n))
  {
    if n >= 10 {
      DigitsAreCanonical(n / 10);
    }
  }

  lemma PrintIsCanonical(n: int)
    ensures Canonical(Print(n))
  {
    if n != 0 {
      DigitsAreCanonical(if n > 0 then n else -n);
      assert n < 0 ==> Print(n)[1..] == Digits(-n);
    }
  }

  lemma DigitsOfMore(m: nat, d: nat)
    requires m > 0 && d < 10
    ensures Digits(10 * m + d) == Digits(m) + [Digit(d)]
  {
    assert (10 * m + d) / 10 == m && (10 * m + d) % 10 == d;
  }

  lemma {:induction false} DigitsOfNumber(s: string)
    requires LeadingNonzero(s)
    ensures Number(0, s) > 0 && Digits(Number(0, s)) == s
  {
    hide Number, Digits, Digit;
    var n := |s| - 1;
    var front, d: nat := s[..n], s[n] as int - '0' as int;
    assert s == front + [s[n]];
    NumberOfMore(0, front, s[n]);
    DigitOf(d, s[n]);
    if n == 0 {
      NumberOfNothing(0);
    } else {
      DigitsOfNumber(front);
      DigitsOfMore(Number(0, front), d);
    }
  }

  lemma DigitOf(d: nat, c: char)
    requires IsDigit(c) && d == c as int - '0' as int
    ensures Digit(d) == c && Digits(d) == [c]
  {
    OneDigit(d);
  }

  lemma NumberOfNothing(acc: nat)
    ensures Number(acc, []) == acc
  {}

  /** Printing undoes reading on exactly the texts that printing writes, so the text of a number is the only
      canonical one with its value. */
  lemma PrintOfRead(s: string)
    ensures Print(Read(s)) == s <==> Canonical(s)
  {
    PrintIsCanonical(Read(s));
    if LeadingNonzero(s) {
      DigitsOfNumber(s);
    } else if Canonical(s) && s != "0" {
      DigitsOfNumber(s[1..]);
      assert s == "-" + s[1..];
    } else if s == "0" {
      assert Number(0, "0") == Number(0, []);
    }
  }

  lemma {:induction false} ReadAfterSpace(space: string, s: string)
    requires forall i :: 0 <= i < |space| ==> IsSpace(space[i])
    ensures Read(space + s) == Read(s)
  {
    if space == [] {
      assert space + s == s;
    } else {
      ReadAfterSpace(space[1..], s);
      assert (space + s)[1..] == space[1..] + s;
    }
  }

  lemma {:induction false} NumberStops(acc: nat, digits: string, rest: string)
    requires forall i :: 0 <= i < |digits| ==> IsDigit(digits[i])
    requires rest == [] || !IsDigit(rest[0])
    ensures Number(acc, digits + rest) == Number(acc, digits)
    decreases |digits|
  {
    if digits == [] {
      assert digits + rest == rest;
    } else {
      NumberStops(10 * acc + (digits[0] as int - '0' as int), digits[1..], rest);
      assert (digits + rest)[1..] == digits[1..] + rest;
    }
  }

  lemma ReadAfterSign(digits: string, rest: string)
    requires forall i :: 0 <= i < |digits| ==> IsDigit(digits[i])
    requires rest == [] || !IsDigit(rest[0])
    ensures Read("+" + (digits + rest)) == Number(0, digits) && Read("-" + (digits + rest)) == 0 - Number(0, digits)
    ensures digits != [] || rest == [] || !(IsSpace(rest[0]) || rest[0] in {'+', '-'}) ==>
              Read(digits + rest) == Number(0, digits)
  {
    hide Number;
    var text := digits + rest;
    assert ("+" + text)[1..] == text && ("-" + text)[1..] == text;
    NumberStops(0, digits, rest);
    NumberOfNothing(0);
    assert digits == [] ==> text == rest;
  }

  /** Reading passes over leading space and one sign, and takes the digits that follow, zeros in front included, up
      to the first character that is none; without digits the number is 0. */
  lemma ReadIsTolerant(space: string, digits: string, rest: string)
    requires forall i :: 0 <= i < |space| ==> space[i] == ' ' || 9 <= space[i] as int <= 13
    requires forall i :: 0 <= i < |digits| ==> '0' <= digits[i] <= '9'
    requires rest == [] || !('0' <= rest[0] <= '9')
    ensures Read(space + ("+" + (digits + rest))) == Number(0, digits)
    ensures Read(space + ("-" + (digits + rest))) == 0 - Number(0, digits)
    ensures digits != [] || rest == [] || !(rest[0] in {' ', '+', '-'} || 9 <= rest[0] as int <= 13) ==>
              Read(space + (digits + rest)) == Number(0, digits)
  {
    hide Read, Number;
    var text := digits + rest;
    ReadAfterSign(digits, rest);
    ReadAfterSpace(space, text);
    ReadAfterSpace(space, "+" + text);
    ReadAfterSpace(space, "-" + text);
  }

  /** The value of a string of digits. */
  lemma NumberIsDecimal(digits: string, d: char)
    requires (forall i :: 0 <= i < |digits| ==> '0' <= digits[i] <= '9') && '0' <= d <= '9'
    ensures Number(0, []) == 0 && Number(0, digits + [d]) == 10 * Number(0, digits) + (d as int - '0' as int)
  {
    NumberOfMore(0, digits, d);
  }

  // ---- base64 ---------------------------------------------------------------------------

  type Byte = b: int | 0 <= b < 256

  function Letter(v: nat): char
    requires v < 64
  {
    if v < 26 then 'A' + v as char
    else if v < 52 then 'a' + (v - 26) as char
    else if v < 62 then '0' + (v - 52) as char
    else if v == 62 then '+' else '/'
  }

  predicate IsLetter(c: char) {
    'A' <= c <= 'Z' || 'a' <= c <= 'z' || '0' <= c <= '9' || c == '+' || c == '/'
  }

  function Value(c: char): (v: nat)
    requires IsLetter(c)
    ensures v < 64
  {
    if 'A' <= c <= 'Z' then c as int - 'A' as int
    else if 'a' <= c <= 'z' then c as int - 'a' as int + 26
    else if '0' <= c <= '9' then c as int - '0' as int + 52
    else if c == '+' then 62 else 63
  }

  lemma ValueOfLetter(v: nat)
    requires v < 64
    ensures Letter(v) != '=' && IsLetter(Letter(v)) && Value(Letter(v)) == v
  {}

  function Encode(bs: seq<Byte>): (s: string)
    ensures forall i :: 0 <= i < |s| ==> IsLetter(s[i]) || s[i] == '='
  {
    if bs == [] then []
    else if |bs| == 1 then [Letter(bs[0] / 4), Letter(bs[0] % 4 * 16), '=', '=']
    else if |bs| == 2 then
      [Letter(bs[0] / 4), Letter(bs[0] % 4 * 16 + bs[1] / 16), Letter(bs[1] % 16 * 4), '=']
    else
      [Letter(bs[0] / 4), Letter(bs[0] % 4 * 16 + bs[1] / 16), Letter(bs[1] % 16 * 4 + bs[2] / 64), Letter(bs[2] % 64)]
      + Encode(bs[3..])
  }

  /** The alphabet of section 4 of RFC 4648: A to Z, a to z, 0 to 9, + and /. */
  lemma LetterIsStandard(v: nat)
    requires v < 64
    ensures Letter(0) == 'A' && Letter(26) == 'a' && Letter(52) == '0' && Letter(62) == '+' && Letter(63) == '/'
    ensures v !in {25, 51, 61, 62, 63} ==> Letter(v + 1) as int == Letter(v) as int + 1
  {}

  /** The number that the first `k` letters of a text stand for, six bits each, the first letter highest. */
  function Bits(s: string, k: nat): nat
    requires k <= |s| && forall i :: 0 <= i < k ==> IsLetter(s[i])
  {
    if k == 0 then 0 else 64 * Bits(s, k - 1) + Value(s[k - 1])
  }

  lemma BitsOfFour(s: string)
    requires |s| >= 4 && IsLetter(s[0]) && IsLetter(s[1])
    ensures Bits(s, 2) == 64 * Value(s[0]) + Value(s[1])
    ensures IsLetter(s[2]) ==> Bits(s, 3) == 4096 * Value(s[0]) + 64 * Value(s[1]) + Value(s[2])
    ensures IsLetter(s[2]) && IsLetter(s[3]) ==>
              Bits(s, 4) == 262144 * Value(s[0]) + 4096 * Value(s[1]) + 64 * Value(s[2]) + Value(s[3])
  {
    hide Value, IsLetter;
    assert Bits(s, 1) == 64 * Bits(s, 0) + Value(s[0]);
    assert Bits(s, 2) == 64 * Bits(s, 1) + Value(s[1]);
    if IsLetter(s[2]) {
      assert Bits(s, 3) == 64 * Bits(s, 2) + Value(s[2]);
      if IsLetter(s[3]) {
        assert Bits(s, 4) == 64 * Bits(s, 3) + Value(s[3]);
      }
    }
  }

  lemma {:induction false} EncodedLength(bs: seq<Byte>)
    ensures |Encode(bs)| == (|bs| + 2) / 3 * 4
  {
    hide Letter;
    if |bs| >= 3 {
      EncodedLength(bs[3..]);
    }
  }

  /** Four letters hold three bytes, the first byte in the highest bits; one or two bytes at the end are followed
      by zero bits and padded with '='. */
  lemma EncodeIsBigEndian(bs: seq<Byte>)
    requires bs != []
    ensures var s := Encode(bs);
            var x, y, z: int := bs[0], if |bs| > 1 then bs[1] else 0, if |bs| > 2 then bs[2] else 0;
            && |s| == (|bs| + 2) / 3 * 4 && IsLetter(s[0]) && IsLetter(s[1])
            && (|bs| == 1 ==> s[2..] == "==" && Bits(s, 2) == x * 16)
            && (|bs| == 2 ==> IsLetter(s[2]) && s[3..] == "=" && Bits(s, 3) == (x * 256 + y) * 4)
            && (|bs| >= 3 ==> IsLetter(s[2]) && IsLetter(s[3]) && s[4..] == Encode(bs[3..])
                              && Bits(s, 4) == x * 65536 + y * 256 + z)
  {
    hide Letter, Value, IsLetter, Bits, Encode;
    EncodedLength(bs);
    EncodedGroup(bs);
    GroupBits(bs[0], if |bs| > 1 then bs[1] else 0, if |bs| > 2 then bs[2] else 0, Encode(bs));
  }

  lemma EncodedGroup(bs: seq<Byte>)
    requires bs != []
    ensures var s := Encode(bs);
            var x, y: Byte := bs[0], if |bs| > 1 then bs[1] else 0;
            var z: Byte := if |bs| > 2 then bs[2] else 0;
            && |s| >= 4 && s[0] == Letter(x / 4) && s[1] == Letter(x % 4 * 16 + y / 16)
            && (|bs| == 1 ==> s[2..] == "==")
            && (|bs| >= 2 ==> s[2] == Letter(y % 16 * 4 + z / 64))
            && (|bs| == 2 ==> s[3..] == "=")
            && (|bs| >= 3 ==> s[3] == Letter(z % 64) && s[4..] == Encode(bs[3..]))
  {
    hide Letter, IsLetter;
  }

  lemma GroupBits(x: Byte, y: Byte, z: Byte, s: string)
    requires |s| >= 4 && s[0] == Letter(x / 4) && s[1] == Letter(x % 4 * 16 + y / 16)
    ensures IsLetter(s[0]) && IsLetter(s[1]) && (y == 0 ==> Bits(s, 2) == (x as int) * 16)
    ensures s[2] == Letter(y % 16 * 4 + z / 64) ==>
              && IsLetter(s[2])
              && (z == 0 ==> Bits(s, 3) == ((x as int) * 256 + y) * 4)
              && (s[3] == Letter(z % 64) ==> IsLetter(s[3]) && Bits(s, 4) == (x as int) * 65536 + (y as int) * 256 + z)
  {
    hide Letter, Value, IsLetter, Bits;
    GroupLetters(x, y, z);
    BitsOfFour(s);
    GroupValue(x, y, z);
  }

  lemma GroupLetters(x: Byte, y: Byte, z: Byte)
    ensures x / 4 < 64 && x % 4 * 16 + y / 16 < 64 && y % 16 * 4 + z / 64 < 64 && z % 64 < 64
    ensures forall v :: v in [x / 4, x % 4 * 16 + y / 16, y % 16 * 4 + z / 64, z % 64] ==>
              IsLetter(Letter(v)) && Value(Letter(v)) == v
  {
    hide Letter, Value, IsLetter;
    BitsOfGroup(x, y, z);
    ValueOfLetter(x / 4);
    ValueOfLetter(x % 4 * 16 + y / 16);
    ValueOfLetter(y % 16 * 4 + z / 64);
    ValueOfLetter(z % 64);
  }

  lemma GroupValue(x: int, y: int, z: int)
    ensures 64 * (x / 4) + x % 4 * 16 == x * 16
    ensures 4096 * (x / 4) + 64 * (x % 4 * 16 + y / 16) + y % 16 * 4 == (x * 256 + y) * 4
    ensures 262144 * (x / 4) + 4096 * (x % 4 * 16 + y / 16) + 64 * (y % 16 * 4 + z / 64) + z % 64
         == x * 65536 + y * 256 + z
  {}

  /** Decodes groups of four; a group that is none ends the text. */
  function Decode(s: string): seq<Byte> {
    if |s| < 4 || !IsLetter(s[0]) || !IsLetter(s[1]) then []
    else
      var a, b := Value(s[0]), Value(s[1]);
      if s[2] == '=' && s[3] == '=' then [a * 4 + b / 16]
      else if !IsLetter(s[2]) then []
      else
        var c := Value(s[2]);
        if s[3] == '=' then [a * 4 + b / 16, b % 16 * 16 + c / 4]
        else if !IsLetter(s[3]) then []
        else [a * 4 + b / 16, b % 16 * 16 + c / 4, c % 4 * 64 + Value(s[3])] + Decode(s[4..])
  }

  /** The bits of three bytes, taken six at a time and put together again. */
  lemma BitsOfGroup(x: Byte, y: Byte, z: Byte)
    ensures x / 4 < 64 && x % 4 * 16 + y / 16 < 64 && y % 16 * 4 + z / 64 < 64 && z % 64 < 64
    ensures x / 4 * 4 + (x % 4 * 16 + y / 16) / 16 == x
    ensures (x % 4 * 16 + y / 16) % 16 * 16 + (y % 16 * 4 + z / 64) / 4 == y
    ensures (y % 16 * 4 + z / 64) % 4 * 64 + z % 64 == z
  {}

  lemma FullGroup(x: Byte, y: Byte, z: Byte, rest: string)
    ensures x / 4 < 64 && x % 4 * 16 + y / 16 < 64 && y % 16 * 4 + z / 64 < 64 && z % 64 < 64
    ensures Decode([Letter(x / 4), Letter(x % 4 * 16 + y / 16), Letter(y % 16 * 4 + z / 64), Letter(z % 64)] + rest)
         == [x, y, z] + Decode(rest)
  {
    hide Letter, Value, IsLetter;
    BitsOfGroup(x, y, z);
    ValueOfLetter(x / 4);
    ValueOfLetter(x % 4 * 16 + y / 16);
    ValueOfLetter(y % 16 * 4 + z / 64);
    ValueOfLetter(z % 64);
    var group := [Letter(x / 4), Letter(x % 4 * 16 + y / 16), Letter(y % 16 * 4 + z / 64), Letter(z % 64)];
    assert (group + rest)[4..] == rest;
  }

  lemma OneByte(x: Byte)
    ensures Decode(Encode([x])) == [x]
  {
    hide Letter, Value, IsLetter;
    BitsOfGroup(x, 0, 0);
    ValueOfLetter(x / 4);
    ValueOfLetter(x % 4 * 16);
  }

  lemma TwoBytes(x: Byte, y: Byte)
    ensures Decode(Encode([x, y])) == [x, y]
  {
    hide Letter, Value, IsLetter;
    BitsOfGroup(x, y, 0);
    ValueOfLetter(x / 4);
    ValueOfLetter(x % 4 * 16 + y / 16);
    ValueOfLetter(y % 16 * 4);
  }

  /** Decoding what was encoded gives the bytes back. */
  lemma {:induction false} DecodeOfEncode(bs: seq<Byte>)
    ensures Decode(Encode(bs)) == bs
  {
    hide Letter, Value, IsLetter, Decode;
    if bs == [] {
      NothingToDecode();
    } else if |bs| == 1 {
      OneByte(bs[0]);
      assert bs == [bs[0]];
    } else if |bs| == 2 {
      TwoBytes(bs[0], bs[1]);
      assert bs == [bs[0], bs[1]];
    } else {
      FullGroup(bs[0], bs[1], bs[2], Encode(bs[3..]));
      DecodeOfEncode(bs[3..]);
      assert bs == [bs[0], bs[1], bs[2]] + bs[3..];
    }
  }

  lemma NothingToDecode()
    ensures Decode(Encode([])) == []
  {}

  // ---- lists of strings -----------------------------------------------------------------

  /** The text of a list: a separator after each string. */
  function Join(list: seq<string>): string {
    if list == [] then [] else list[0] + [';'] + Join(list[1..])
  }

  /** The strings of a text; the separator after the last one may be missing. */
  function Split(s: string): (list: seq<string>)
    ensures s != [] ==> list != []
  {
    if s == [] then []
    else if s[0] == ';' then [[]] + Split(s[1..])
    else if |s| == 1 then [s]
    else
      var rest := Split(s[1..]);
      [[s[0]] + rest[0]] + rest[1..]
  }

  lemma JoinOfMore(c: char, list: seq<string>)
    requires list != []
    ensures Join([[c] + list[0]] + list[1..]) == [c] + Join(list)
  {
    hide Join;
    JoinFirst([c] + list[0], list[1..]);
    JoinFirst(list[0], list[1..]);
    assert [list[0]] + list[1..] == list;
  }

  lemma JoinFirst(first: string, rest: seq<string>)
    ensures Join([first] + rest) == first + [';'] + Join(rest)
  {
    assert ([first] + rest)[1..] == rest;
  }

  lemma JoinOfNone()
    ensures Join([]) == []
  {}

  /** Splitting only takes the separators out, and all of them: the pieces hold none, and joining them gives the
      text back, with the separator after the last one if that was missing. */
  lemma {:induction false} JoinOfSplit(s: string)
    ensures forall i :: 0 <= i < |Split(s)| ==> Plain(Split(s)[i])
    ensures Join(Split(s)) == if s == [] || s[|s| - 1] == ';' then s else s + [';']
  {
    hide Join;
    JoinOfNone();
    if s != [] {
      var rest := Split(s[1..]);
      JoinOfSplit(s[1..]);
      if s[0] == ';' {
        JoinFirst([], rest);
      } else if |s| == 1 {
        JoinFirst(s, []);
        assert [s] + [] == Split(s) && s + [';'] + [] == s + [';'];
      } else {
        JoinOfMore(s[0], rest);
      }
    }
  }

  predicate Plain(s: string) {
    forall i :: 0 <= i < |s| ==> s[i] != ';'
  }

  lemma {:induction false} SplitOfPiece(p: string, rest: string)
    requires Plain(p)
    ensures Split(p + [';'] + rest) == [p] + Split(rest)
  {
    if p == [] {
      assert (p + [';'] + rest)[1..] == rest;
    } else {
      SplitOfPiece(p[1..], rest);
      assert (p + [';'] + rest)[1..] == p[1..] + [';'] + rest;
      assert [p[0]] + p[1..] == p;
    }
  }

  /** Strings without separators survive being joined and split. */
  lemma {:induction false} SplitOfJoin(list: seq<string>)
    requires forall i :: 0 <= i < |list| ==> Plain(list[i])
    ensures Split(Join(list)) == list
  {
    if list != [] {
      SplitOfPiece(list[0], Join(list[1..]));
      SplitOfJoin(list[1..]);
    }
  }
}
