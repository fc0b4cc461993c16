/** Klayr32 addresses (elements/cryptography/src/address.ts): text form and back. */
module Klayr32 {
  import opened Wrappers
  import opened Regroup
  import opened Checksum
  import opened ErrorDetection

  const CHARSET: string := "zxvcpmbn3465o978uyrtkqew2adsjhfg"
  const ADDRESS_LENGTH := 20
  const TEXT_LENGTH := 41

  /* ---- Characters ---- */

  function IndexFrom(s: string, c: char, i: nat): int
    requires i <= |s|
    decreases |s| - i
  {
    if i == |s| then -1 else if s[i] == c then i else IndexFrom(s, c, i + 1)
  }

  /** KLAYR32_CHARSET.indexOf */
  function IndexOf(c: char): int {
    IndexFrom(CHARSET, c, 0)
  }

  lemma {:induction false} IndexFromSpec(s: string, c: char, i: nat)
    requires i <= |s|
    ensures var r := IndexFrom(s, c, i);
            && (r == -1 || i <= r < |s|)
            && (r >= 0 ==> s[r] == c && forall j | i <= j < r :: s[j] != c)
            && (r == -1 ==> forall j | i <= j < |s| :: s[j] != c)
    decreases |s| - i
  {
    if i < |s| && s[i] != c {
      IndexFromSpec(s, c, i + 1);
    }
  }

  /** The code of each character of the alphabet, by which its characters are seen to differ. */
  function Code(c: char): int {
    match c
    case 'z' => 0 case 'x' => 1 case 'v' => 2 case 'c' => 3
    case 'p' => 4 case 'm' => 5 case 'b' => 6 case 'n' => 7
    case '3' => 8 case '4' => 9 case '6' => 10 case '5' => 11
    case 'o' => 12 case '9' => 13 case '7' => 14 case '8' => 15
    case 'u' => 16 case 'y' => 17 case 'r' => 18 case 't' => 19
    case 'k' => 20 case 'q' => 21 case 'e' => 22 case 'w' => 23
    case '2' => 24 case 'a' => 25 case 'd' => 26 case 's' => 27
    case 'j' => 28 case 'h' => 29 case 'f' => 30 case 'g' => 31
    case _ => -1
  }

  lemma CharsetSize()
    ensures |CHARSET| == 32
  {
  }

  lemma CharsetCode(i: nat)
    requires i < 32
    ensures Code(CHARSET[i]) == i
  {
  }

  /** Characters and 5-bit values correspond one to one. */
  lemma CharOfIndex(c: char)
    ensures -1 <= IndexOf(c) < 32
    ensures IndexOf(c) >= 0 <==> c in CHARSET
    ensures IndexOf(c) >= 0 ==> CHARSET[IndexOf(c)] == c
  {
    CharsetSize();
    IndexFromSpec(CHARSET, c, 0);
    hide IndexFrom;
    var r := IndexFrom(CHARSET, c, 0);
    if c in CHARSET {
      var j :| 0 <= j < |CHARSET| && CHARSET[j] == c;
    }
  }

  lemma IndexOfChar(n: nat)
    requires n < 32
    ensures CHARSET[n] in CHARSET && IndexOf(CHARSET[n]) == n
  {
    CharsetSize();
    var c := CHARSET[n];
    hide IndexFrom, Code;
    CharOfIndex(c);
    CharsetCode(n);
    CharsetCode(IndexOf(c));
  }

  /** convertUInt5ToBase32 */
  function ToBase32(xs: seq<int>): string
    requires InRange(xs, 5)
  {
    CharsetSize();
    Pow2Of5();
    seq(|xs|, i requires 0 <= i < |xs| => CHARSET[xs[i]])
  }

  lemma Pow2Of5()
    ensures Pow2(5) == 32 && Pow2(8) == 256
  {
  }

  predicate Alphabetic(s: string) {
    forall i | 0 <= i < |s| :: s[i] in CHARSET
  }

  function FromBase32(s: string): seq<int> {
    seq(|s|, i requires 0 <= i < |s| => IndexOf(s[i]))
  }

  lemma TextRoundTrip(s: string)
    requires Alphabetic(s)
    ensures InRange(FromBase32(s), 5) && ToBase32(FromBase32(s)) == s
  {
    Pow2Of5();
    hide IndexOf;
    forall i | 0 <= i < |s|
      ensures 0 <= IndexOf(s[i]) < 32 && CHARSET[IndexOf(s[i])] == s[i]
    {
      CharOfIndex(s[i]);
    }
  }

  lemma ValuesRoundTrip(xs: seq<int>)
    requires InRange(xs, 5)
    ensures Alphabetic(ToBase32(xs)) && FromBase32(ToBase32(xs)) == xs
  {
    Pow2Of5();
    hide IndexOf;
    forall i | 0 <= i < |xs|
      ensures CHARSET[xs[i]] in CHARSET && IndexOf(CHARSET[xs[i]]) == xs[i]
    {
      IndexOfChar(xs[i]);
    }
  }

  /* ---- Values as words ---- */

  function Word(n: int): bv32
    requires 0 <= n < 32
  {
    (n as bv5) as bv32
  }

  function Number(w: bv32): int {
    ((w & 31) as bv5) as int
  }

  lemma WordRoundTrip(n: int)
    requires 0 <= n < 32
    ensures Word(n) < 32 && Number(Word(n)) == n
  {
  }

  lemma NumberRoundTrip(w: bv32)
    requires w < 32
    ensures 0 <= Number(w) < 32 && Word(Number(w)) == w
  {
  }

  function Words(xs: seq<int>): (ws: seq<bv32>)
    requires InRange(xs, 5)
    ensures |ws| == |xs|
  {
    Pow2Of5();
    seq(|xs|, i requires 0 <= i < |xs| => Word(xs[i]))
  }

  function Numbers(ws: seq<bv32>): (xs: seq<int>)
    ensures |xs| == |ws|
  {
    seq(|ws|, i requires 0 <= i < |ws| => Number(ws[i]))
  }

  lemma WordsRoundTrip(xs: seq<int>)
    requires InRange(xs, 5)
    ensures Symbols(Words(xs)) && Numbers(Words(xs)) == xs
  {
    hide Word, Number;
    Pow2Of5();
    forall i | 0 <= i < |xs|
      ensures Word(xs[i]) < 32 && Number(Word(xs[i])) == xs[i]
    {
      WordRoundTrip(xs[i]);
    }
  }

  lemma NumbersRoundTrip(ws: seq<bv32>)
    requires Symbols(ws)
    ensures InRange(Numbers(ws), 5) && Words(Numbers(ws)) == ws
  {
    hide Word, Number;
    Pow2Of5();
    forall i | 0 <= i < |ws|
      ensures 0 <= Number(ws[i]) < 32 && Word(Number(ws[i])) == ws[i]
    {
      NumberRoundTrip(ws[i]);
    }
  }

  lemma WordsConcat(a: seq<int>, b: seq<int>)
    requires InRange(a, 5) && InRange(b, 5)
    ensures InRange(a + b, 5) && Words(a + b) == Words(a) + Words(b)
  {
    hide Word;
  }

  /* ---- Addresses ---- */

  lemma BytesInRange(address: bytes)
    ensures InRange(address, 8)
  {
    Pow2Of5();
  }

  function Values(address: bytes): (xs: seq<int>)
    ensures InRange(xs, 5)
  {
    BytesInRange(address);
    DigitsInRange(Bits(address, 8), 5);
    Convert(address, 8, 5)
  }

  /** addressToKlayr32: the address in 5-bit values, and its checksum. */
  function AddressToKlayr32(address: bytes): string {
    var uint5Address := Values(address);
    var checksum := CreateChecksum(Words(uint5Address));
    ChecksumInRange(uint5Address);
    ToBase32(uint5Address + Numbers(checksum))
  }

  lemma ChecksumInRange(xs: seq<int>)
    requires InRange(xs, 5)
    ensures var c := CreateChecksum(Words(xs));
            && Symbols(c) && |c| == 6 && InRange(xs + Numbers(c), 5)
  {
    hide CreateChecksum, Word, Number;
    WordsRoundTrip(xs);
    ChecksumIff(Words(xs), ZEROS);
    NumbersRoundTrip(CreateChecksum(Words(xs)));
  }

  /** getKlayr32AddressFromAddress */
  function ToText(address: bytes, prefix: string): string {
    prefix + AddressToKlayr32(address)
  }

  /** validateKlayr32Address, with its errors in the order of the source. */
  function Validate(text: string, prefix: string): Result<()> {
    if |text| != TEXT_LENGTH then Err(InvalidAddressLength)
    else if text[..3] != prefix then Err(InvalidAddressPrefix)
    else if !Alphabetic(text[3..]) then Err(InvalidAddressCharacter)
    else
      TextRoundTrip(text[3..]);
      if !VerifyChecksum(Words(FromBase32(text[3..]))) then Err(InvalidAddressChecksum) else Ok(())
  }

  /** getAddressFromKlayr32Address */
  function FromText(text: string, prefix: string): Result<seq<int>> {
    var _ :- Validate(text, prefix);
    Ok(Convert(FromBase32(text[3..TEXT_LENGTH - 6]), 5, 8))
  }

  /** Every 20-byte address decodes back from its text. */
  lemma AddressRoundTrip(address: bytes, prefix: string)
    requires |address| == ADDRESS_LENGTH && |prefix| == 3
    ensures FromText(ToText(address, prefix), prefix) == Ok(address)
  {
    hide Convert, Bits, Digits, IndexOf, ToBase32, FromBase32, CreateChecksum, VerifyChecksum, Word, Number, Alphabetic, InRange;
    BytesInRange(address);
    ConvertRoundTrip(address, 8, 5);
    var xs := Values(address);
    var c := CreateChecksum(Words(xs));
    ChecksumInRange(xs);
    var all := xs + Numbers(c);
    var body := ToBase32(all);
    var text := prefix + body;
    ValuesRoundTrip(all);
    ToBase32Length(all);
    assert text[..3] == prefix && text[3..] == body;
    NumbersRoundTrip(c);
    WordsConcat(xs, Numbers(c));
    WordsRoundTrip(xs);
    ChecksumIff(Words(xs), c);
    assert text[3..TEXT_LENGTH - 6] == body[..32];
    FromBase32Prefix(body, 32);
    assert all[..32] == xs;
  }

  lemma ToBase32Length(xs: seq<int>)
    requires InRange(xs, 5)
    ensures |ToBase32(xs)| == |xs|
  {
  }

  lemma FromBase32Prefix(s: string, n: nat)
    requires n <= |s|
    ensures |FromBase32(s)| == |s|
    ensures FromBase32(s[..n]) == FromBase32(s)[..n] && FromBase32(s[n..]) == FromBase32(s)[n..]
  {
    hide IndexOf;
  }

  /** Every accepted text is the text of the address it decodes to, which has 20 bytes. */
  lemma TextIsCanonical(text: string, prefix: string)
    requires FromText(text, prefix).Ok?
    ensures var address := FromText(text, prefix).value;
            && |address| == ADDRESS_LENGTH && InRange(address, 8)
            && ToText(address, prefix) == text
  {
    hide Convert, Bits, Digits, IndexOf, ToBase32, FromBase32, CreateChecksum, VerifyChecksum, Word, Number, Alphabetic, InRange;
    var body := text[3..];
    var all := FromBase32(body);
    TextRoundTrip(body);
    FromBase32Prefix(body, 32);
    var xs, cs := all[..32], all[32..];
    SubRange(all, 32);
    assert text[3..TEXT_LENGTH - 6] == body[..32];
    ConvertRoundTrip(xs, 5, 8);
    var address := Convert(xs, 5, 8);
    AsBytes(address);
    assert Values(address) == xs;
    assert all == xs + cs;
    WordsConcat(xs, cs);
    WordsRoundTrip(xs);
    WordsRoundTrip(cs);
    ChecksumIff(Words(xs), Words(cs));
    assert text == prefix + body;
  }

  /** Different characters of the alphabet stand for different symbols. */
  lemma {:induction false} SameDistance(s: string, t: string)
    requires |s| == |t| && Alphabetic(s) && Alphabetic(t)
    ensures InRange(FromBase32(s), 5) && InRange(FromBase32(t), 5)
    ensures Distance(Words(FromBase32(s)), Words(FromBase32(t))) == Distance(s, t)
    decreases |s|
  {
    hide IndexOf, Word, Alphabetic, InRange, FromBase32;
    TextRoundTrip(s);
    TextRoundTrip(t);
    FromBase32Prefix(s, 0);
    FromBase32Prefix(t, 0);
    if s != [] {
      var n := |s| - 1;
      AlphabeticFront(s);
      AlphabeticFront(t);
      SameDistance(s[..n], t[..n]);
      WordsFront(s);
      WordsFront(t);
      SameSymbol(s[n], t[n]);
    }
  }

  lemma AlphabeticFront(s: string)
    requires Alphabetic(s) && s != []
    ensures Alphabetic(s[..|s| - 1]) && s[|s| - 1] in CHARSET
  {
  }

  lemma SameSymbol(c: char, d: char)
    requires c in CHARSET && d in CHARSET
    ensures 0 <= IndexOf(c) < 32 && 0 <= IndexOf(d) < 32 && (Word(IndexOf(c)) == Word(IndexOf(d)) <==> c == d)
  {
    hide IndexOf, Word;
    CharOfIndex(c);
    CharOfIndex(d);
    WordRoundTrip(IndexOf(c));
    WordRoundTrip(IndexOf(d));
  }

  lemma WordsFront(s: string)
    requires s != [] && Alphabetic(s) && InRange(FromBase32(s), 5)
    ensures var n := |s| - 1;
            && InRange(FromBase32(s[..n]), 5) && 0 <= IndexOf(s[n]) < 32
            && Words(FromBase32(s)) == Words(FromBase32(s[..n])) + [Word(IndexOf(s[n]))]
  {
    hide IndexOf, Word, Alphabetic;
    Pow2Of5();
    var n := |s| - 1;
    AlphabeticFront(s);
    CharOfIndex(s[n]);
    FromBase32Prefix(s, n);
    assert FromBase32(s) == FromBase32(s[..n]) + [IndexOf(s[n])];
  }

  /** Two different accepted texts differ in at least four characters behind the prefix: up to three mistyped ones are noticed. */
  lemma AddressesDiffer(s: string, t: string, prefix: string)
    requires Validate(s, prefix).Ok? && Validate(t, prefix).Ok? && s != t
    ensures |s| == |t| == TEXT_LENGTH && Distance(s[3..], t[3..]) >= 4
  {
    hide IndexOf, ToBase32, FromBase32, VerifyChecksum, Word, Alphabetic, InRange, Distance;
    var a, b := s[3..], t[3..];
    assert s == prefix + a && t == prefix + b;
    TextRoundTrip(a);
    TextRoundTrip(b);
    SameDistance(a, b);
    WordsRoundTrip(FromBase32(a));
    WordsRoundTrip(FromBase32(b));
    FromBase32Prefix(a, 0);
    FromBase32Prefix(b, 0);
    assert Words(FromBase32(a)) != Words(FromBase32(b)) by {
      if Words(FromBase32(a)) == Words(FromBase32(b)) {
        SameText(a, b);
        assert false;
      }
    }
    ThreeErrorsDetected(Words(FromBase32(a)), Words(FromBase32(b)));
  }

  lemma SameText(a: string, b: string)
    requires Alphabetic(a) && Alphabetic(b) && InRange(FromBase32(a), 5) && InRange(FromBase32(b), 5)
    requires Words(FromBase32(a)) == Words(FromBase32(b))
    ensures a == b
  {
    hide IndexOf, ToBase32, FromBase32, Word, Number, Alphabetic, InRange;
    WordsRoundTrip(FromBase32(a));
    WordsRoundTrip(FromBase32(b));
    TextRoundTrip(a);
    TextRoundTrip(b);
  }

  lemma SubRange(xs: seq<int>, n: nat)
    requires InRange(xs, 5) && n <= |xs|
    ensures InRange(xs[..n], 5) && InRange(xs[n..], 5)
  {
  }

  /** Values below 256 are bytes. */
  lemma AsBytes(xs: seq<int>)
    requires InRange(xs, 8)
    ensures forall i | 0 <= i < |xs| :: 0 <= xs[i] < 256
  {
    Pow2Of5();
  }

  /* ---- What is accepted, and what is said otherwise ---- */

  /** The accepted texts are exactly the texts of the 20-byte addresses. */
  lemma AcceptedIff(text: string, prefix: string)
    requires |prefix| == 3
    ensures Validate(text, prefix).Ok? <==> exists address: bytes :: |address| == ADDRESS_LENGTH && ToText(address, prefix) == text
  {
    hide Convert, Validate, ToText, FromText, InRange;
    ValidateIsFirst(text, prefix);
    if Validate(text, prefix).Ok? {
      TextIsCanonical(text, prefix);
      var xs := FromText(text, prefix).value;
      AsBytes(xs);
      var address: bytes := xs;
      assert |address| == ADDRESS_LENGTH && ToText(address, prefix) == text;
    }
    if address: bytes :| |address| == ADDRESS_LENGTH && ToText(address, prefix) == text {
      AddressRoundTrip(address, prefix);
    }
  }

  lemma ValidateIsFirst(text: string, prefix: string)
    ensures FromText(text, prefix).Ok? <==> Validate(text, prefix).Ok?
  {
    hide Convert, FromBase32, VerifyChecksum, Alphabetic;
  }

  /** Which error a text gets: length, prefix, characters and checksum are looked at in this order. */
  lemma ValidateOutcomes(text: string, prefix: string)
    ensures Validate(text, prefix) == Err(InvalidAddressLength) <==> |text| != 41
    ensures Validate(text, prefix) == Err(InvalidAddressPrefix) <==> |text| == 41 && !(prefix == text[..3])
    ensures Validate(text, prefix) == Err(InvalidAddressCharacter) <==>
              |text| == 41 && prefix == text[..3] && exists i | 3 <= i < 41 :: text[i] !in CHARSET
    ensures Validate(text, prefix) == Err(InvalidAddressChecksum) <==>
              && |text| == 41 && prefix == text[..3] && (forall i | 3 <= i < 41 :: text[i] in CHARSET)
              && InRange(FromBase32(text[3..]), 5)
              && CreateChecksum(Words(FromBase32(text[3..]))[..32]) != Words(FromBase32(text[3..]))[32..]
  {
    hide FromBase32, VerifyChecksum, Words, CreateChecksum, InRange;
    if |text| == 41 {
      var body := text[3..];
      assert forall i | 3 <= i < 41 :: text[i] == body[i - 3];
      assert Alphabetic(body) <==> forall i | 3 <= i < 41 :: text[i] in CHARSET by {
        assert forall i | 0 <= i < 38 :: body[i] == text[i + 3];
      }
      hide Alphabetic;
      if Alphabetic(body) {
        TextRoundTrip(body);
        FromBase32Prefix(body, 32);
        ChecksumSplits(FromBase32(body));
      }
    }
  }

  lemma ChecksumSplits(xs: seq<int>)
    requires InRange(xs, 5) && |xs| == 38
    ensures VerifyChecksum(Words(xs)) <==> CreateChecksum(Words(xs)[..32]) == Words(xs)[32..]
  {
    hide Words, CreateChecksum, VerifyChecksum, InRange;
    WordsRoundTrip(xs);
    var ws := Words(xs);
    assert ws == ws[..32] + ws[32..];
    ChecksumIff(ws[..32], ws[32..]);
  }

  /* ---- The exported functions, on top of the source's loops ---- */

  method AddressToText(address: bytes, prefix: string) returns (text: string)
    ensures text == ToText(address, prefix)
  {
    hide Convert, CreateChecksum, ToBase32, Word, Number, Words, Numbers;
    ghost var spec := Values(address);
    var uint5Address := ConvertUIntArray(address, 8, 5);
    var uint5Checksum := CreateChecksumLoop(Words(uint5Address));
    ChecksumInRange(uint5Address);
    return prefix + ToBase32(uint5Address + Numbers(uint5Checksum));
  }

  /** validateKlayr32Address, on top of the checksum loop. */
  method ValidateText(text: string, prefix: string) returns (r: Result<()>)
    ensures r == Validate(text, prefix)
  {
    hide FromBase32, Alphabetic, Polymod, Words;
    if |text| != TEXT_LENGTH {
      return Err(InvalidAddressLength);
    }
    if text[..3] != prefix {
      return Err(InvalidAddressPrefix);
    }
    if !Alphabetic(text[3..]) {
      return Err(InvalidAddressCharacter);
    }
    TextRoundTrip(text[3..]);
    var integerSequence := FromBase32(text[3..]);
    var chk := PolymodLoop(Words(integerSequence));
    if chk != 1 {
      return Err(InvalidAddressChecksum);
    }
    return Ok(());
  }

  method TextToAddress(text: string, prefix: string) returns (r: Result<seq<int>>)
    ensures r == FromText(text, prefix)
  {
    hide Convert, FromBase32, VerifyChecksum, Validate;
    var valid := ValidateText(text, prefix);
    if valid.Err? {
      return Err(valid.error);
    }
    assert |text| == TEXT_LENGTH by { ValidLength(text, prefix); }
    var integerSequence := FromBase32(text[3..TEXT_LENGTH - 6]);
    var integerSequence8 := ConvertUIntArray(integerSequence, 5, 8);
    return Ok(integerSequence8);
  }

  lemma ValidLength(text: string, prefix: string)
    requires Validate(text, prefix).Ok?
    ensures |text| == TEXT_LENGTH && |prefix| == 3
  {
  }
}
