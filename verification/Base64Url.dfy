/** The base64url spelling of section 5 of RFC 4648, without padding, as the two confirmation classes use it. */
module Base64Url {
  import opened Basics

  newtype Byte = x: int | 0 <= x < 256

  type Sextet = x: int | 0 <= x < 64

  function CharOf(v: Sextet): char {
    if v < 26 then 'A' + v as char
    else if v < 52 then 'a' + (v - 26) as char
    else if v < 62 then '0' + (v - 52) as char
    else if v == 62 then '-'
    else '_'
  }

  predicate InAlphabet(c: char) {
    'A' <= c <= 'Z' || 'a' <= c <= 'z' || '0' <= c <= '9' || c == '-' || c == '_'
  }

  function ValueOf(c: char): Sextet
    requires InAlphabet(c)
  {
    if 'A' <= c <= 'Z' then (c - 'A') as int
    else if 'a' <= c <= 'z' then (c - 'a') as int + 26
    else if '0' <= c <= '9' then (c - '0') as int + 52
    else if c == '-' then 62
    else 63
  }

  lemma Quotient(q: nat, d: nat, r: nat)
    requires r < d
    ensures (q * d + r) / d == q && (q * d + r) % d == r
  {
    var n := q * d + r;
    var k, m := n / d, n % d;
    assert n == k * d + m;
    assert (k - q) * d == r - m;
    Multiples(k - q, d);
  }

  lemma Multiples(p: int, d: nat)
    ensures (p > 0 ==> p * d >= d) && (p < 0 ==> p * d + d <= 0)
  {
    if p > 0 {
      AtLeastOnce(p, d);
    } else if p < 0 {
      AtLeastOnce(-p, d);
      assert (-p) * d == -(p * d);
    }
  }

  lemma {:induction false} AtLeastOnce(p: nat, d: nat)
    requires p > 0
    ensures p * d >= d
  {
    if p > 1 {
      AtLeastOnce(p - 1, d);
      assert p * d == (p - 1) * d + d;
    }
  }

  /** The alphabet of table 2 of the standard: where its five runs begin and end, and that each goes up by one. */
  lemma TheAlphabetIs(v: Sextet)
    ensures CharOf(0) == 'A' && CharOf(25) == 'Z' && CharOf(26) == 'a' && CharOf(51) == 'z'
    ensures CharOf(52) == '0' && CharOf(61) == '9' && CharOf(62) == '-' && CharOf(63) == '_'
    ensures v !in {25, 51, 61, 62, 63} ==> CharOf(v + 1) as int == CharOf(v) as int + 1
  {
  }

  lemma CharsAndValues(v: Sextet)
    ensures InAlphabet(CharOf(v)) && ValueOf(CharOf(v)) == v
  {
  }

  function Spell(n: nat, k: nat): (s: string)
    ensures |s| == k
  {
    if k == 0 then "" else Spell(n / 64, k - 1) + [CharOf(n % 64)]
  }

  function Number(s: string): nat
    requires forall c :: c in s ==> InAlphabet(c)
  {
    if s == "" then 0 else Number(s[..|s| - 1]) * 64 + ValueOf(s[|s| - 1])
  }

  function Power64(k: nat): (p: nat)
    ensures p > 0
  {
    if k == 0 then 1 else 64 * Power64(k - 1)
  }

  lemma {:induction false} NumberOfSpelling(n: nat, k: nat)
    requires n < Power64(k)
    ensures forall c :: c in Spell(n, k) ==> InAlphabet(c)
    ensures Number(Spell(n, k)) == n
  {
    if k > 0 {
      NumberOfSpelling(n / 64, k - 1);
      CharsAndValues(n % 64);
      var head, last := Spell(n / 64, k - 1), CharOf(n % 64);
      assert Spell(n, k) == head + [last];
      hide Spell, CharOf, InAlphabet, ValueOf;
      assert (head + [last])[..|head + [last]| - 1] == head;
    }
  }

  /** Three bytes make four characters; a last one or two make two or three. */
  function Encode(b: seq<Byte>): (s: string) {
    if |b| == 0 then ""
    else if |b| == 1 then Spell(b[0] as int * 16, 2)
    else if |b| == 2 then Spell((b[0] as int * 256 + b[1] as int) * 4, 3)
    else Spell(b[0] as int * 65536 + b[1] as int * 256 + b[2] as int, 4) + Encode(b[3..])
  }

  lemma SpellsOut(n: nat)
    ensures Spell(n, 2) == [CharOf(n / 64 % 64), CharOf(n % 64)]
    ensures Spell(n, 3) == [CharOf(n / 64 / 64 % 64), CharOf(n / 64 % 64), CharOf(n % 64)]
    ensures Spell(n, 4) == [CharOf(n / 64 / 64 / 64 % 64), CharOf(n / 64 / 64 % 64), CharOf(n / 64 % 64), CharOf(n % 64)]
  {
    hide CharOf;
    assert Spell(n / 64 / 64 / 64 / 64, 0) == "";
    assert Spell(n / 64, 1) == [CharOf(n / 64 % 64)];
    assert Spell(n / 64 / 64, 1) == [CharOf(n / 64 / 64 % 64)];
    assert Spell(n / 64 / 64 / 64, 1) == [CharOf(n / 64 / 64 / 64 % 64)];
    assert Spell(n / 64, 2) == [CharOf(n / 64 / 64 % 64), CharOf(n / 64 % 64)];
    assert Spell(n / 64 / 64, 2) == [CharOf(n / 64 / 64 / 64 % 64), CharOf(n / 64 / 64 % 64)];
  }

  lemma TheLettersAre()
    ensures CharOf(25) == 'Z' && CharOf(32) == 'g' && CharOf(38) == 'm' && CharOf(60) == '8' && CharOf(61) == '9'
    ensures CharOf(47) == 'v' && CharOf(24) == 'Y' && CharOf(5) == 'F' && CharOf(50) == 'y'
  {
  }

  lemma VectorsF()
    ensures Encode([102]) == "Zg" && Encode([102, 111]) == "Zm8"
  {
    hide Spell, CharOf;
    SpellsOut(102 * 16);
    SpellsOut((102 * 256 + 111) * 4);
    TheLettersAre();
  }

  lemma EncodesThree(x: Byte, y: Byte, z: Byte, rest: seq<Byte>)
    ensures Encode([x, y, z] + rest) == Spell(x as int * 65536 + y as int * 256 + z as int, 4) + Encode(rest)
  {
    hide Spell;
    assert ([x, y, z] + rest)[3..] == rest;
  }

  lemma VectorsFooAndBar()
    ensures Spell(102 * 65536 + 111 * 256 + 111, 4) == "Zm9v" && Spell(98 * 65536 + 97 * 256 + 114, 4) == "YmFy"
  {
    hide Spell, CharOf;
    SpellsOut(102 * 65536 + 111 * 256 + 111);
    SpellsOut(98 * 65536 + 97 * 256 + 114);
    TheLettersAre();
  }

  /** Test vectors of section 10 of RFC 4648, less the padding: "f", "fo", "foo" and "foobar". */
  lemma TheVectorsAre()
    ensures Encode([102]) == "Zg" && Encode([102, 111]) == "Zm8" && Encode([102, 111, 111]) == "Zm9v"
    ensures Encode([102, 111, 111, 98, 97, 114]) == "Zm9vYmFy"
  {
    hide Spell, Encode;
    VectorsF();
    VectorsFooAndBar();
    EncodesThree(102, 111, 111, []);
    EncodesThree(98, 97, 114, []);
    EncodesThree(102, 111, 111, [98, 97, 114]);
    assert Encode([]) == "" by { EncodesNothing(); }
    assert [102, 111, 111] + [] == [102, 111, 111] && [98, 97, 114] + [] == [98, 97, 114];
    assert [102, 111, 111] + [98, 97, 114] == [102, 111, 111, 98, 97, 114];
  }

  lemma EncodesNothing()
    ensures Encode([]) == ""
  {
  }

  /** Four characters for every three bytes, rounded up. */
  lemma {:induction false} EncodedLength(b: seq<Byte>)
    ensures |Encode(b)| == (4 * |b| + 2) / 3
  {
    hide Spell;
    if |b| > 2 {
      EncodedLength(b[3..]);
    }
  }

  /** The tolerant decoder underneath: left-over bits are dropped, and so is a single left-over character. */
  function DecodeGroups(s: string): seq<Byte>
    requires forall c :: c in s ==> InAlphabet(c)
  {
    if |s| < 2 then []
    else if |s| == 2 then [((Number(s) / 16) % 256) as Byte]
    else if |s| == 3 then [((Number(s) / 1024) % 256) as Byte, ((Number(s) / 4) % 256) as Byte]
    else
      var n := Number(s[..4]);
      [((n / 65536) % 256) as Byte, ((n / 256) % 256) as Byte, (n % 256) as Byte] + DecodeGroups(s[4..])
  }

  /** Nothing outside the alphabet, and nothing empty, is decoded at all. */
  function Decode(s: string): Option<seq<Byte>> {
    if s == "" || exists c :: c in s && !InAlphabet(c) then None else Some(DecodeGroups(s))
  }

  lemma PowersOf64()
    ensures Power64(2) == 4096 && Power64(3) == 262144 && Power64(4) == 16777216
  {
    assert Power64(0) == 1 && Power64(1) == 64;
  }

  lemma {:induction false} GroupsAreInverted(b: seq<Byte>)
    ensures forall c :: c in Encode(b) ==> InAlphabet(c)
    ensures DecodeGroups(Encode(b)) == b
  {
    hide Spell, InAlphabet;
    if |b| == 0 {
    } else if |b| == 1 {
      OneByte(b[0]);
      assert b == [b[0]];
    } else if |b| == 2 {
      TwoBytes(b[0], b[1]);
      assert b == [b[0], b[1]];
    } else {
      GroupsAreInverted(b[3..]);
      var s := Encode(b);
      assert s == Spell(b[0] as int * 65536 + b[1] as int * 256 + b[2] as int, 4) + Encode(b[3..]);
      ThreeBytes(b[0], b[1], b[2], Encode(b[3..]));
      hide DecodeGroups, Encode;
      assert DecodeGroups(s) == [b[0], b[1], b[2]] + b[3..] == b;
    }
  }

  lemma OneByte(x: Byte)
    ensures forall c :: c in Encode([x]) ==> InAlphabet(c)
    ensures DecodeGroups(Encode([x])) == [x]
  {
    hide Spell, InAlphabet, Number, Power64;
    PowersOf64();
    BytesOfOne(x);
    NumberOfSpelling(x as int * 16, 2);
    assert Encode([x]) == Spell(x as int * 16, 2);
  }

  lemma BytesOfOne(x: Byte)
    ensures x as int * 16 < 4096 && ((x as int * 16) / 16) % 256 == x as int
  {
    Quotient(x as int, 16, 0);
  }

  lemma TwoBytes(x: Byte, y: Byte)
    ensures forall c :: c in Encode([x, y]) ==> InAlphabet(c)
    ensures DecodeGroups(Encode([x, y])) == [x, y]
  {
    hide Spell, InAlphabet, Number, Power64;
    var n := (x as int * 256 + y as int) * 4;
    PowersOf64();
    BytesOfTwo(x, y);
    NumberOfSpelling(n, 3);
    assert Encode([x, y]) == Spell(n, 3);
  }

  lemma BytesOfTwo(x: Byte, y: Byte)
    ensures
      var n := (x as int * 256 + y as int) * 4;
      n < 262144 && (n / 1024) % 256 == x as int && (n / 4) % 256 == y as int
  {
    var a, b := x as int, y as int;
    Quotient(a, 1024, b * 4);
    Quotient(a * 256 + b, 4, 0);
    Quotient(a, 256, b);
  }

  lemma ThreeBytes(x: Byte, y: Byte, z: Byte, rest: string)
    requires forall c :: c in rest ==> InAlphabet(c)
    ensures
      var s := Spell(x as int * 65536 + y as int * 256 + z as int, 4) + rest;
      && (forall c :: c in s ==> InAlphabet(c))
      && DecodeGroups(s) == [x, y, z] + DecodeGroups(rest)
  {
    hide Spell, InAlphabet, Number, Power64, DecodeGroups;
    var n := x as int * 65536 + y as int * 256 + z as int;
    PowersOf64();
    BytesOfThree(x, y, z);
    NumberOfSpelling(n, 4);
    FirstGroup(Spell(n, 4), rest);
  }

  lemma BytesOfThree(x: Byte, y: Byte, z: Byte)
    ensures
      var n := x as int * 65536 + y as int * 256 + z as int;
      n < 16777216 && (n / 65536) % 256 == x as int && (n / 256) % 256 == y as int && n % 256 == z as int
  {
    var a, b, c := x as int, y as int, z as int;
    Quotient(a, 65536, b * 256 + c);
    Quotient(a * 256 + b, 256, c);
    Quotient(a, 256, b);
  }

  lemma FirstGroup(head: string, rest: string)
    requires |head| == 4 && (forall c :: c in head + rest ==> InAlphabet(c))
    requires (forall c :: c in head ==> InAlphabet(c)) && (forall c :: c in rest ==> InAlphabet(c))
    ensures
      var n := Number(head);
      DecodeGroups(head + rest)
      == [((n / 65536) % 256) as Byte, ((n / 256) % 256) as Byte, (n % 256) as Byte] + DecodeGroups(rest)
  {
    hide InAlphabet, Number;
    assert (head + rest)[..4] == head && (head + rest)[4..] == rest;
  }

  /** Decoding what was encoded gives back exactly the bytes, and there is always something to decode. */
  lemma DecodeInvertsEncode(b: seq<Byte>)
    requires b != []
    ensures Decode(Encode(b)) == Some(b)
  {
    GroupsAreInverted(b);
  }

  // ---------------------------------------------------------------------------------------------------
  // Which texts spell the same bytes
  // ---------------------------------------------------------------------------------------------------

  ghost predicate AllInAlphabet(s: string) {
    forall c :: c in s ==> InAlphabet(c)
  }

  /** By how many values the last character may differ without making a difference. */
  function Slack(s: string): (k: nat)
    ensures k in {1, 4, 16}
  {
    if |s| % 4 == 2 then 16 else if |s| % 4 == 3 then 4 else 1
  }

  function RoundDown(v: Sextet, k: nat): (r: Sextet)
    requires k in {1, 4, 16}
    ensures r <= v && r % k == 0 && v - r == v % k
  {
    v - v % k
  }

  /** The text without what the decoder does not look at: a single left-over character, and left-over bits. */
  function Normal(s: string): string
    requires AllInAlphabet(s)
  {
    if |s| % 4 == 0 then s
    else
      var front, last := s[..|s| - 1], s[|s| - 1];
      if |s| % 4 == 1 then front else front + [CharOf(RoundDown(ValueOf(last), Slack(s)))]
  }

  lemma ValuesAndChars(c: char)
    requires InAlphabet(c)
    ensures CharOf(ValueOf(c)) == c
  {
  }

  lemma NumberOfMore(front: string, c: char)
    requires AllInAlphabet(front) && InAlphabet(c)
    ensures AllInAlphabet(front + [c]) && Number(front + [c]) == Number(front) * 64 + ValueOf(c)
  {
    hide ValueOf, InAlphabet;
    assert (front + [c])[..|front|] == front;
  }

  lemma SpellStep(n: nat, k: nat)
    requires k > 0
    ensures Spell(n, k) == Spell(n / 64, k - 1) + [CharOf(n % 64)] && Power64(k) == 64 * Power64(k - 1)
  {
  }

  /** The spelling of the number a text stands for is the text. */
  lemma {:induction false} SpellingOfNumber(s: string)
    requires AllInAlphabet(s)
    ensures Number(s) < Power64(|s|) && Spell(Number(s), |s|) == s
  {
    hide InAlphabet, CharOf, ValueOf;
    if s != "" {
      hide Number, Spell, Power64;
      var front, last := s[..|s| - 1], s[|s| - 1];
      assert s == front + [last] && last in s && forall c :: c in front ==> c in s;
      SpellingOfNumber(front);
      ValuesAndChars(last);
      NumberOfMore(front, last);
      SpellStep(Number(s), |s|);
      Quotient(Number(front), 64, ValueOf(last));
    }
  }

  lemma OneGroup(s: string, x: Byte, y: Byte)
    requires AllInAlphabet(s)
    ensures |s| == 2 ==>
      && DecodeGroups(s) == [((Number(s) / 16) % 256) as Byte]
      && Normal(s) == s[..1] + [CharOf(RoundDown(ValueOf(s[1]), 16))]
    ensures |s| == 3 ==>
      && DecodeGroups(s) == [((Number(s) / 1024) % 256) as Byte, ((Number(s) / 4) % 256) as Byte]
      && Normal(s) == s[..2] + [CharOf(RoundDown(ValueOf(s[2]), 4))]
    ensures Encode([x]) == Spell(x as int * 16, 2) && Encode([x, y]) == Spell((x as int * 256 + y as int) * 4, 3)
  {
    hide InAlphabet, Number, Spell, CharOf, ValueOf, RoundDown;
  }

  lemma PairIsNormal(s: string)
    requires AllInAlphabet(s) && |s| == 2
    ensures AllInAlphabet(Normal(s)) && Encode(DecodeGroups(s)) == Normal(s)
  {
    hide Spell, Number, InAlphabet, ValueOf, CharOf, RoundDown, DecodeGroups, Encode, Normal;
    var a, b := ValueOf(s[0]), ValueOf(s[1]);
    NumberOfPair(s);
    CharsAndValues(RoundDown(b, 16));
    var t := [s[0], CharOf(RoundDown(b, 16))];
    assert s[0] in s && s[..1] + [CharOf(RoundDown(b, 16))] == t;
    NumberOfPair(t);
    SpellingOfNumber(t);
    var q := BitsOfTwo(a, b);
    OneGroup(s, q as Byte, 0);
  }

  /** Twelve bits are one byte and four bits over. */
  lemma BitsOfTwo(a: Sextet, b: Sextet) returns (q: nat)
    ensures
      var n := a * 64 + b;
      q < 256 && n / 16 == q && (n / 16) % 256 == q && q * 16 == a * 64 + RoundDown(b, 16)
  {
    q := a * 4 + b / 16;
    Quotient(q, 16, b % 16);
  }

  lemma NumberOfPair(s: string)
    requires AllInAlphabet(s) && |s| == 2
    ensures Number(s) == ValueOf(s[0]) * 64 + ValueOf(s[1])
  {
    hide ValueOf, InAlphabet;
    assert s[0] in s && s[1] in s && forall c :: c in s[..1] ==> c in s;
    assert s[..1][..0] == "" && s[..1][0] == s[0];
    assert Number(s[..1]) == Number("") * 64 + ValueOf(s[0]);
  }

  lemma TripleIsNormal(s: string)
    requires AllInAlphabet(s) && |s| == 3
    ensures AllInAlphabet(Normal(s)) && Encode(DecodeGroups(s)) == Normal(s)
  {
    hide Spell, Number, InAlphabet, ValueOf, CharOf, RoundDown, DecodeGroups, Encode, Normal;
    var front, c := s[..2], ValueOf(s[2]);
    CharsAndValues(RoundDown(c, 4));
    var t := front + [CharOf(RoundDown(c, 4))];
    assert s == front + [s[2]] && forall x :: x in front ==> x in s;
    SpellingOfNumber(front);
    PowersOf64();
    NumberOfMore(front, s[2]);
    NumberOfMore(front, CharOf(RoundDown(c, 4)));
    SpellingOfNumber(t);
    var q := BitsOfThree(Number(front), c);
    OneGroup(s, (q / 256) as Byte, (q % 256) as Byte);
  }

  /** Eighteen bits are two bytes and two bits over. */
  lemma BitsOfThree(m: nat, c: Sextet) returns (q: nat)
    requires m < 4096
    ensures
      var n := m * 64 + c;
      && q < 65536 && n / 4 == q && n / 1024 == q / 256 && q * 4 == m * 64 + RoundDown(c, 4)
      && (n / 1024) % 256 == q / 256 && (n / 4) % 256 == q % 256 && (q / 256) * 256 + q % 256 == q
  {
    q := m * 16 + c / 4;
    Quotient(q, 4, c % 4);
    RegroupTwo(q);
    Quotient(q / 256, 1024, (q % 256) * 4 + c % 4);
  }

  lemma RegroupTwo(n: nat)
    requires n < 65536
    ensures (n / 256) % 256 == n / 256 && (n / 256) * 256 + n % 256 == n
  {
  }

  lemma RegroupThree(n: nat)
    requires n < 16777216
    ensures ((n / 65536) % 256) * 65536 + ((n / 256) % 256) * 256 + n % 256 == n
  {
    assert (n / 256) / 256 == n / 65536;
    RegroupTwo(n / 256);
  }

  /** Encoding what was decoded gives the text back without what the decoder does not look at. */
  lemma {:induction false} EncodeAfterDecode(s: string)
    requires AllInAlphabet(s)
    ensures AllInAlphabet(Normal(s)) && Encode(DecodeGroups(s)) == Normal(s)
    decreases |s|
  {
    hide Spell, Number, InAlphabet, CharOf, ValueOf;
    if |s| < 2 {
    } else if |s| == 2 {
      PairIsNormal(s);
    } else if |s| == 3 {
      TripleIsNormal(s);
    } else {
      var head, rest := s[..4], s[4..];
      assert forall c :: c in rest || c in head ==> c in s;
      EncodeAfterDecode(rest);
      SpellingOfNumber(head);
      PowersOf64();
      RegroupThree(Number(head));
      EncodeGroup(DecodeGroups(s), Number(head), DecodeGroups(rest));
      NormalInGroups(s);
    }
  }

  lemma EncodeGroup(b: seq<Byte>, n: nat, rest: seq<Byte>)
    requires n < 16777216
    requires b == [((n / 65536) % 256) as Byte, ((n / 256) % 256) as Byte, (n % 256) as Byte] + rest
    ensures Encode(b) == Spell(n, 4) + Encode(rest)
  {
    hide Spell;
    RegroupThree(n);
    assert b[3..] == rest;
  }

  lemma NormalInGroups(s: string)
    requires AllInAlphabet(s) && |s| >= 4
    ensures AllInAlphabet(s[4..]) && Normal(s) == s[..4] + Normal(s[4..])
  {
    hide InAlphabet, CharOf, ValueOf;
    var rest := s[4..];
    assert forall c :: c in rest ==> c in s;
    assert s == s[..4] + rest && |rest| % 4 == |s| % 4;
    if |s| % 4 != 0 {
      assert rest[|rest| - 1] == s[|s| - 1];
      assert s[..|s| - 1] == s[..4] + rest[..|rest| - 1];
    }
  }

  /** A text is what its bytes are spelled as: no single character is left over, and no bits are. */
  predicate IsCanonical(s: string)
    requires AllInAlphabet(s)
  {
    |s| % 4 != 1 && (s != "" ==> ValueOf(s[|s| - 1]) % Slack(s) == 0)
  }

  /** Exactly the texts that come back when their bytes are spelled again. */
  lemma CanonicalExactlyWhen(s: string)
    requires s != "" && AllInAlphabet(s)
    ensures Decode(s).Some? && (Encode(Decode(s).value) == s <==> IsCanonical(s))
    ensures IsCanonical(s) <==>
      && |s| % 4 != 1
      && (|s| % 4 == 2 ==> ValueOf(s[|s| - 1]) % 16 == 0)
      && (|s| % 4 == 3 ==> ValueOf(s[|s| - 1]) % 4 == 0)
  {
    hide Encode, DecodeGroups, InAlphabet, CharOf, ValueOf;
    EncodeAfterDecode(s);
    var v, front := ValueOf(s[|s| - 1]), s[..|s| - 1];
    ValuesAndChars(s[|s| - 1]);
    CharsAndValues(RoundDown(v, Slack(s)));
    assert s == front + [s[|s| - 1]];
    if |s| % 4 > 1 {
      assert Normal(s)[|s| - 1] == CharOf(RoundDown(v, Slack(s)));
    }
  }

  /** Exactly the texts that stand for given bytes: those that are their spelling but for what is not looked at. */
  lemma SpellsExactlyWhen(s: string, b: seq<Byte>)
    requires b != []
    ensures Decode(s) == Some(b) <==> AllInAlphabet(s) && Normal(s) == Encode(b)
  {
    hide Encode, DecodeGroups, InAlphabet, CharOf, ValueOf;
    GroupsAreInverted(b);
    DecodeInvertsEncode(b);
    if AllInAlphabet(s) {
      EncodeAfterDecode(s);
      GroupsAreInverted(DecodeGroups(s));
      assert s == "" ==> Normal(s) == "";
    }
  }

  /** The text with the two left-over bits of its last character replaced. */
  function Respelled(e: string, i: Sextet): string
    requires e != "" && InAlphabet(e[|e| - 1]) && i < 4
  {
    e[..|e| - 1] + [CharOf(RoundDown(ValueOf(e[|e| - 1]), 4) + i)]
  }

  lemma EncodingOfTwoOver(b: seq<Byte>)
    requires |b| % 3 == 2
    ensures |Encode(b)| % 4 == 3 && AllInAlphabet(Encode(b)) && IsCanonical(Encode(b)) && InAlphabet(Encode(b)[|Encode(b)| - 1])
  {
    hide Encode, DecodeGroups, InAlphabet, CharOf, ValueOf;
    EncodedLength(b);
    DecodeInvertsEncode(b);
    GroupsAreInverted(b);
    assert Encode(b)[|Encode(b)| - 1] in Encode(b);
    CanonicalExactlyWhen(Encode(b));
  }

  /** All the texts that stand for these bytes, when they are two over a multiple of three, as a signature is. */
  ghost function Spellings(b: seq<Byte>): set<string>
    requires |b| % 3 == 2
  {
    EncodingOfTwoOver(b);
    {Respelled(Encode(b), 0), Respelled(Encode(b), 1), Respelled(Encode(b), 2), Respelled(Encode(b), 3)}
  }

  lemma LastDiffers(e: string, i: Sextet, k: Sextet)
    requires e != "" && InAlphabet(e[|e| - 1]) && i < k < 4
    ensures Respelled(e, i) != Respelled(e, k)
  {
    var v := RoundDown(ValueOf(e[|e| - 1]), 4);
    CharsAndValues(v + i);
    CharsAndValues(v + k);
    hide CharOf, ValueOf, InAlphabet;
    assert Respelled(e, i)[|e| - 1] == CharOf(v + i) && Respelled(e, k)[|e| - 1] == CharOf(v + k);
  }

  /** What `Normal` makes of a text whose last character carries two left-over bits. */
  lemma NormalOfTwoOver(front: string, v: Sextet)
    requires AllInAlphabet(front) && |front| % 4 == 2
    ensures AllInAlphabet(front + [CharOf(v)]) && Normal(front + [CharOf(v)]) == front + [CharOf(RoundDown(v, 4))]
  {
    hide InAlphabet, CharOf, ValueOf, RoundDown;
    CharsAndValues(v);
    var s := front + [CharOf(v)];
    assert s[..|s| - 1] == front && s[|s| - 1] == CharOf(v);
  }

  lemma RoundsBack(v: Sextet, i: Sextet)
    requires v % 4 == 0 && i < 4
    ensures v + i < 64 && RoundDown(v, 4) == v && RoundDown(v + i, 4) == v
  {
    hide RoundDown;
    var q := v / 4;
    assert v == q * 4 && q < 16;
    Quotient(q, 4, i);
  }

  /** A respelling of an encoding stands for the same bytes. */
  lemma RespelledIsNormal(e: string, i: Sextet)
    requires AllInAlphabet(e) && |e| % 4 == 3 && IsCanonical(e) && InAlphabet(e[|e| - 1]) && i < 4
    ensures AllInAlphabet(Respelled(e, i)) && Normal(Respelled(e, i)) == e
  {
    hide InAlphabet, CharOf, ValueOf, RoundDown, Normal;
    var front, v := e[..|e| - 1], ValueOf(e[|e| - 1]);
    assert e == front + [e[|e| - 1]] && forall c :: c in front ==> c in e;
    ValuesAndChars(e[|e| - 1]);
    RoundsBack(v, i);
    NormalOfTwoOver(front, v + i);
  }

  lemma NormalLength(s: string)
    requires AllInAlphabet(s)
    ensures |Normal(s)| == if |s| % 4 == 1 then |s| - 1 else |s|
  {
    hide InAlphabet, CharOf, ValueOf, RoundDown;
  }

  lemma ThreeOver(n: nat, m: nat)
    requires m % 4 == 3 && m == if n % 4 == 1 then n - 1 else n
    ensures n == m && (n - 1) % 4 == 2
  {
    Quotient(n / 4, 4, 0);
    Quotient(m / 4, 4, 2);
  }

  lemma RoundsOnce(v: Sextet) returns (i: Sextet)
    ensures i < 4 && RoundDown(RoundDown(v, 4), 4) + i == v
  {
    i := v % 4;
  }

  /** A text that stands for the bytes of an encoding is one of its respellings. */
  lemma NormalIsRespelled(s: string, e: string)
    requires AllInAlphabet(e) && |e| % 4 == 3 && InAlphabet(e[|e| - 1])
    requires AllInAlphabet(s) && Normal(s) == e
    ensures exists i: Sextet :: i < 4 && s == Respelled(e, i)
  {
    hide InAlphabet, CharOf, ValueOf, RoundDown, Normal;
    NormalLength(s);
    ThreeOver(|s|, |e|);
    var front, v := s[..|s| - 1], ValueOf(s[|s| - 1]);
    ValuesAndChars(s[|s| - 1]);
    assert s == front + [CharOf(v)] && forall c :: c in front ==> c in s;
    NormalOfTwoOver(front, v);
    assert e[..|e| - 1] == front && e[|e| - 1] == CharOf(RoundDown(v, 4));
    CharsAndValues(RoundDown(v, 4));
    var i := RoundsOnce(v);
    assert s == Respelled(e, i);
  }

  /** There are exactly four of them, and no other text is decoded to the bytes. */
  lemma FourSpellings(b: seq<Byte>, s: string)
    requires |b| % 3 == 2
    ensures |Spellings(b)| == 4
    ensures s in Spellings(b) <==> Decode(s) == Some(b)
  {
    hide Encode, Decode, InAlphabet, CharOf, ValueOf, Respelled, Normal, IsCanonical;
    var e := Encode(b);
    EncodingOfTwoOver(b);
    SpellsExactlyWhen(s, b);
    LastDiffers(e, 0, 1);
    LastDiffers(e, 0, 2);
    LastDiffers(e, 0, 3);
    LastDiffers(e, 1, 2);
    LastDiffers(e, 1, 3);
    LastDiffers(e, 2, 3);
    RespelledIsNormal(e, 0);
    RespelledIsNormal(e, 1);
    RespelledIsNormal(e, 2);
    RespelledIsNormal(e, 3);
    if AllInAlphabet(s) && Normal(s) == e {
      NormalIsRespelled(s, e);
    }
  }
}
