/** The addresses of elements/cryptography/test/address.spec.ts, which pin alphabet, generator and order of bits. */
module PublishedAddresses {
  import opened Wrappers
  import opened Regroup
  import opened Checksum
  import opened ErrorDetection
  import opened Klayr32

  lemma CodeIsIndex(c: char)
    requires Code(c) >= 0
    ensures IndexOf(c) == Code(c) && c in CHARSET
  {
    CharsetSize();
    CodeIsPlace(c);
    hide IndexOf, Code;
    IndexOfChar(Code(c));
  }

  lemma CodeIsPlace(c: char)
    requires Code(c) >= 0
    ensures Code(c) < |CHARSET| == 32 && CHARSET[Code(c)] == c
  {
  }

  /** The characters `t` stand for the symbols `xs`, which leave the checksum in state `s` and spell the number `n`. */
  ghost predicate Spells(t: string, xs: seq<int>, s: bv32, n: int) {
    && |t| == |xs| && InRange(xs, 5) && Alphabetic(t) && FromBase32(t) == xs
    && Run(1, Words(xs)) == s && Numeral(xs, 5) == n
  }

  lemma NothingSpelt()
    ensures Spells([], [], 1, 0)
  {
  }

  /** One more character. */
  lemma Next(t: string, xs: seq<int>, s: bv32, n: int, c: char, x: int, w: bv32, r: bv32) returns (t': string, xs': seq<int>)
    requires Spells(t, xs, s, n) && Code(c) == x >= 0 && x < 32 && Word(x) == w && Xor(TimesDirect(s), w) == r
    ensures t' == t + [c] && xs' == xs + [x] && Spells(t', xs', r, 32 * n + x)
  {
    t', xs' := t + [c], xs + [x];
    CodeIsIndex(c);
    hide Code, IndexOf, Word, TimesDirect, Xor, Words, Run, Numeral, Alphabetic, FromBase32, InRange;
    NextCharacter(t, c);
    NextSymbol(xs, x);
  }

  lemma NextCharacter(t: string, c: char)
    requires Alphabetic(t) && c in CHARSET
    ensures Alphabetic(t + [c]) && FromBase32(t + [c]) == FromBase32(t) + [IndexOf(c)]
  {
    hide IndexOf;
  }

  lemma NextSymbol(xs: seq<int>, x: int)
    requires InRange(xs, 5) && 0 <= x < 32
    ensures InRange(xs + [x], 5) && Numeral(xs + [x], 5) == 32 * Numeral(xs, 5) + x
    ensures Run(1, Words(xs + [x])) == Xor(TimesDirect(Run(1, Words(xs))), Word(x))
  {
    Pow2Of5();
    assert InRange([x], 5) && Words([x]) == [Word(x)] && (xs + [x])[..|xs|] == xs;
    hide Word, InRange, Words, Xor, Pow2;
    WordsConcat(xs, [x]);
    var ws, w := Words(xs), Word(x);
    assert (ws + [w])[..|ws|] == ws;
    TimesIsDirect(Run(1, ws));
    hide Times, TimesDirect;
  }

  lemma NextByte(bs: bytes, n: int, b: byte) returns (bs': bytes)
    requires Numeral(bs, 8) == n
    ensures bs' == bs + [b] && Numeral(bs', 8) == 256 * n + b
  {
    bs' := bs + [b];
    Pow2Of5();
    assert bs'[..|bs|] == bs;
  }

  lemma NoNumeral(w: nat)
    ensures Numeral([], w) == 0
  {
  }

  lemma SameBits(xs: seq<int>, bs: bytes)
    requires InRange(xs, 5) && |xs| == 32 && |bs| == 20 && Numeral(xs, 5) == Numeral(bs, 8)
    ensures Convert(xs, 5, 8) == bs
  {
    hide Convert, InRange, Numeral;
    BytesInRange(bs);
    ConvertKeepsNumber(xs, 5, 8);
    ConvertRoundTrip(xs, 5, 8);
    SameNumber(Convert(xs, 5, 8), bs, 8);
  }

  /** The values of the alphabet as words. */
  lemma SmallWords()
    ensures Word(0) == 0 && Word(1) == 1 && Word(2) == 2 && Word(3) == 3 && Word(4) == 4 && Word(5) == 5 && Word(6) == 6 && Word(7) == 7
    ensures Word(8) == 8 && Word(9) == 9 && Word(10) == 10 && Word(11) == 11 && Word(12) == 12 && Word(13) == 13 && Word(14) == 14 && Word(15) == 15
    ensures Word(16) == 16 && Word(17) == 17 && Word(18) == 18 && Word(19) == 19 && Word(20) == 20 && Word(21) == 21 && Word(22) == 22 && Word(23) == 23
    ensures Word(24) == 24 && Word(25) == 25 && Word(26) == 26 && Word(27) == 27 && Word(28) == 28 && Word(29) == 29 && Word(30) == 30 && Word(31) == 31
  {
  }

  /** A text that spells symbols with remainder one is accepted, and decodes to the bytes of the first 32. */
  lemma Accepted(body: string, prefix: string, xs: seq<int>, n: int, head: string, ys: seq<int>, s: bv32, m: int)
    requires Spells(body, xs, 1, n) && |prefix| == 3 && |body| == 38
    requires Spells(head, ys, s, m) && |head| == 32 && head <= body
    ensures Validate(prefix + body, prefix) == Ok(())
    ensures FromText(prefix + body, prefix) == Ok(Convert(ys, 5, 8)) && InRange(ys, 5) && Numeral(ys, 5) == m
  {
    hide Convert, IndexOf, Words, Alphabetic, InRange, Run, Numeral;
    var text := prefix + body;
    assert text[..3] == prefix && text[3..] == body;
    TextRoundTrip(body);
    FromBase32Prefix(body, 32);
    assert text[3..TEXT_LENGTH - 6] == body[..32] == head;
  }

  lemma Sample8() returns (t: string, xs: seq<int>)
    ensures t == "3hyz7vtp" && Spells(t, xs, 0x135f7723, 0x4762070a64)
  {
    SmallWords();
    hide Spells, Word;
    t, xs := [], [];
    NothingSpelt();
    t, xs := Next(t, xs, 0x1, 0x0, '3', 8, 8, 0x28);
    t, xs := Next(t, xs, 0x28, 0x8, 'h', 29, 29, 0x51d);
    t, xs := Next(t, xs, 0x51d, 0x11d, 'y', 17, 17, 0xa3b1);
    t, xs := Next(t, xs, 0xa3b1, 0x23b1, 'z', 0, 0, 0x147620);
    t, xs := Next(t, xs, 0x147620, 0x47620, '7', 14, 14, 0x28ec40e);
    t, xs := Next(t, xs, 0x28ec40e, 0x8ec40e, 'v', 2, 2, 0x2ab2d670);
    t, xs := Next(t, xs, 0x2ab2d670, 0x11d881c2, 't', 19, 19, 0x1985e2e8);
    t, xs := Next(t, xs, 0x1985e2e8, 0x23b103853, 'p', 4, 4, 0x135f7723);
  }

  lemma Sample16() returns (t: string, xs: seq<int>)
    ensures t == "3hyz7vtpcts3thsm" && Spells(t, xs, 0x397f70d6, 0x4762070a641cf689f765)
  {
    SmallWords();
    hide Spells, Word;
    t, xs := Sample8();
    t, xs := Next(t, xs, 0x135f7723, 0x4762070a64, 'c', 3, 3, 0x2dc6800c);
    t, xs := Next(t, xs, 0x2dc6800c, 0x8ec40e14c83, 't', 19, 19, 0x2a35f4b7);
    t, xs := Next(t, xs, 0x2a35f4b7, 0x11d881c299073, 's', 27, 27, 0x961ba00);
    t, xs := Next(t, xs, 0x961ba00, 0x23b10385320e7b, '3', 8, 8, 0x329659f2);
    t, xs := Next(t, xs, 0x329659f2, 0x4762070a641cf68, 't', 19, 19, 0x3ef7388f);
    t, xs := Next(t, xs, 0x3ef7388f, 0x8ec40e14c839ed13, 'h', 29, 29, 0xa2a80b6);
    t, xs := Next(t, xs, 0xa2a80b6, 0x11d881c299073da27d, 's', 27, 27, 0x209b5893);
    t, xs := Next(t, xs, 0x209b5893, 0x23b10385320e7b44fbb, 'm', 5, 5, 0x397f70d6);
  }

  lemma Sample24() returns (t: string, xs: seq<int>)
    ensures t == "3hyz7vtpcts3thsmduh98pwx" && Spells(t, xs, 0x2f340d1, 0x4762070a641cf689f765d43ad792e1)
  {
    SmallWords();
    hide Spells, Word;
    t, xs := Sample16();
    t, xs := Next(t, xs, 0x397f70d6, 0x4762070a641cf689f765, 'd', 26, 26, 0x2619524e);
    t, xs := Next(t, xs, 0x2619524e, 0x8ec40e14c839ed13eecba, 'u', 16, 16, 0x3404f2bc);
    t, xs := Next(t, xs, 0x3404f2bc, 0x11d881c299073da27dd9750, 'h', 29, 29, 0x3198889e);
    t, xs := Next(t, xs, 0x3198889e, 0x23b10385320e7b44fbb2ea1d, '9', 13, 13, 0x244742a3);
    t, xs := Next(t, xs, 0x244742a3, 0x4762070a641cf689f765d43ad, '8', 15, 15, 0x4acb8b1);
    t, xs := Next(t, xs, 0x4acb8b1, 0x8ec40e14c839ed13eecba875af, 'p', 4, 4, 0x33c79849);
    t, xs := Next(t, xs, 0x33c79849, 0x11d881c299073da27dd9750eb5e4, 'w', 23, 23, 0x14cf0feb);
    t, xs := Next(t, xs, 0x14cf0feb, 0x23b10385320e7b44fbb2ea1d6bc97, 'x', 1, 1, 0x2f340d1);
  }

  lemma Sample32() returns (t: string, xs: seq<int>)
    ensures t == "3hyz7vtpcts3thsmduh98pwxrjnbw7cc" && Spells(t, xs, 0xfa64d41, 0x4762070a641cf689f765d43ad792e1970e6bb863)
  {
    SmallWords();
    hide Spells, Word;
    t, xs := Sample24();
    t, xs := Next(t, xs, 0x2f340d1, 0x4762070a641cf689f765d43ad792e1, 'r', 18, 18, 0x25024d80);
    t, xs := Next(t, xs, 0x25024d80, 0x8ec40e14c839ed13eecba875af25c32, 'j', 28, 28, 0x2c0d5cc2);
    t, xs := Next(t, xs, 0x2c0d5cc2, 0x11d881c299073da27dd9750eb5e4b865c, 'n', 7, 7, 0x134e6d63);
    t, xs := Next(t, xs, 0x134e6d63, 0x23b10385320e7b44fbb2ea1d6bc970cb87, 'b', 6, 6, 0x2fe5c809);
    t, xs := Next(t, xs, 0x2fe5c809, 0x4762070a641cf689f765d43ad792e1970e6, 'w', 23, 23, 0x1536a3a1);
    t, xs := Next(t, xs, 0x1536a3a1, 0x8ec40e14c839ed13eecba875af25c32e1cd7, '7', 14, 14, 0x3dc6c99e);
    t, xs := Next(t, xs, 0x3dc6c99e, 0x11d881c299073da27dd9750eb5e4b865c39aee, 'c', 3, 3, 0x177ef53a);
    t, xs := Next(t, xs, 0x177ef53a, 0x23b10385320e7b44fbb2ea1d6bc970cb8735dc3, 'c', 3, 3, 0xfa64d41);
  }

  lemma Sample38() returns (t: string, xs: seq<int>)
    ensures t == "3hyz7vtpcts3thsmduh98pwxrjnbw7ccoxchxu" && Spells(t, xs, 0x1, 0x11d881c299073da27dd9750eb5e4b865c39aee18d811f430)
  {
    SmallWords();
    hide Spells, Word;
    t, xs := Sample32();
    t, xs := Next(t, xs, 0xfa64d41, 0x4762070a641cf689f765d43ad792e1970e6bb863, 'o', 12, 12, 0x37526809);
    t, xs := Next(t, xs, 0x37526809, 0x8ec40e14c839ed13eecba875af25c32e1cd770c6c, 'x', 1, 1, 0x20218990);
    t, xs := Next(t, xs, 0x20218990, 0x11d881c299073da27dd9750eb5e4b865c39aee18d81, 'c', 3, 3, 0x2e2550b0);
    t, xs := Next(t, xs, 0x2e2550b0, 0x23b10385320e7b44fbb2ea1d6bc970cb8735dc31b023, 'h', 29, 29, 0x2d25b48b);
    t, xs := Next(t, xs, 0x2d25b48b, 0x4762070a641cf689f765d43ad792e1970e6bb8636047d, 'x', 1, 1, 0x36536445);
    t, xs := Next(t, xs, 0x36536445, 0x8ec40e14c839ed13eecba875af25c32e1cd770c6c08fa1, 'u', 16, 16, 0x1);
  }

  lemma Other8() returns (t: string, xs: seq<int>)
    ensures t == "kjm548jq" && Spells(t, xs, 0x20ce9e1a, 0xa70ab4bf95)
  {
    SmallWords();
    hide Spells, Word;
    t, xs := [], [];
    NothingSpelt();
    t, xs := Next(t, xs, 0x1, 0x0, 'k', 20, 20, 0x34);
    t, xs := Next(t, xs, 0x34, 0x14, 'j', 28, 28, 0x69c);
    t, xs := Next(t, xs, 0x69c, 0x29c, 'm', 5, 5, 0xd385);
    t, xs := Next(t, xs, 0xd385, 0x5385, '5', 11, 11, 0x1a70ab);
    t, xs := Next(t, xs, 0x1a70ab, 0xa70ab, '4', 9, 9, 0x34e1569);
    t, xs := Next(t, xs, 0x34e1569, 0x14e1569, '8', 15, 15, 0x12a8fa9d);
    t, xs := Next(t, xs, 0x12a8fa9d, 0x29c2ad2f, 'j', 28, 28, 0x133737d3);
    t, xs := Next(t, xs, 0x133737d3, 0x53855a5fc, 'q', 21, 21, 0x20ce9e1a);
  }

  lemma Other16() returns (t: string, xs: seq<int>)
    ensures t == "kjm548jqdrgzqroz" && Spells(t, xs, 0x9dba9b6, 0xa70ab4bf95d4be0ac980)
  {
    SmallWords();
    hide Spells, Word;
    t, xs := Other8();
    t, xs := Next(t, xs, 0x20ce9e1a, 0xa70ab4bf95, 'd', 26, 26, 0x33c7a1e9);
    t, xs := Next(t, xs, 0x33c7a1e9, 0x14e15697f2ba, 'r', 18, 18, 0x14c83bee);
    t, xs := Next(t, xs, 0x14c83bee, 0x29c2ad2fe5752, 'g', 31, 31, 0x215c06f);
    t, xs := Next(t, xs, 0x215c06f, 0x53855a5fcaea5f, 'z', 0, 0, 0x39d25a52);
    t, xs := Next(t, xs, 0x39d25a52, 0xa70ab4bf95d4be0, 'q', 21, 21, 0x33bc02c1);
    t, xs := Next(t, xs, 0x33bc02c1, 0x14e15697f2ba97c15, 'r', 18, 18, 0x1bbc5eee);
    t, xs := Next(t, xs, 0x1bbc5eee, 0x29c2ad2fe5752f82b2, 'o', 12, 12, 0x2f02a059);
    t, xs := Next(t, xs, 0x2f02a059, 0x53855a5fcaea5f0564c, 'z', 0, 0, 0x9dba9b6);
  }

  lemma Other24() returns (t: string, xs: seq<int>)
    ensures t == "kjm548jqdrgzqrozpkew9z82" && Spells(t, xs, 0xed60573, 0xa70ab4bf95d4be0ac980252d7681f8)
  {
    SmallWords();
    hide Spells, Word;
    t, xs := Other16();
    t, xs := Next(t, xs, 0x9dba9b6, 0xa70ab4bf95d4be0ac980, 'p', 4, 4, 0x25d42f3e);
    t, xs := Next(t, xs, 0x25d42f3e, 0x14e15697f2ba97c1593004, 'k', 20, 20, 0x36c10b0a);
    t, xs := Next(t, xs, 0x36c10b0a, 0x29c2ad2fe5752f82b260094, 'e', 22, 22, 0x124de9e7);
    t, xs := Next(t, xs, 0x124de9e7, 0x53855a5fcaea5f0564c01296, 'w', 23, 23, 0xf955898);
    t, xs := Next(t, xs, 0xf955898, 0xa70ab4bf95d4be0ac980252d7, '9', 13, 13, 0x3130d328);
    t, xs := Next(t, xs, 0x3130d328, 0x14e15697f2ba97c1593004a5aed, 'z', 0, 0, 0x314c346e);
    t, xs := Next(t, xs, 0x314c346e, 0x29c2ad2fe5752f82b260094b5da0, '8', 15, 15, 0x3ed0dca1);
    t, xs := Next(t, xs, 0x3ed0dca1, 0x53855a5fcaea5f0564c01296bb40f, '2', 24, 24, 0xed60573);
  }

  lemma Other32() returns (t: string, xs: seq<int>)
    ensures t == "kjm548jqdrgzqrozpkew9z82kqfvtpmv" && Spells(t, xs, 0x23fefe63, 0xa70ab4bf95d4be0ac980252d7681f8a57c2990a2)
  {
    SmallWords();
    hide Spells, Word;
    t, xs := Other24();
    t, xs := Next(t, xs, 0xed60573, 0xa70ab4bf95d4be0ac980252d7681f8, 'k', 20, 20, 0x195b6e51);
    t, xs := Next(t, xs, 0x195b6e51, 0x14e15697f2ba97c1593004a5aed03f14, 'q', 21, 21, 0x88ee012);
    t, xs := Next(t, xs, 0x88ee012, 0x29c2ad2fe5752f82b260094b5da07e295, 'f', 30, 30, 0xf7d1ba4);
    t, xs := Next(t, xs, 0xf7d1ba4, 0x53855a5fcaea5f0564c01296bb40fc52be, 'v', 2, 2, 0x2c38b4a7);
    t, xs := Next(t, xs, 0x2c38b4a7, 0xa70ab4bf95d4be0ac980252d7681f8a57c2, 't', 19, 19, 0x15f361d7);
    t, xs := Next(t, xs, 0x15f361d7, 0x14e15697f2ba97c1593004a5aed03f14af853, 'p', 4, 4, 0x257e8754);
    t, xs := Next(t, xs, 0x257e8754, 0x29c2ad2fe5752f82b260094b5da07e295f0a64, 'm', 5, 5, 0x2394065b);
    t, xs := Next(t, xs, 0x2394065b, 0x53855a5fcaea5f0564c01296bb40fc52be14c85, 'v', 2, 2, 0x23fefe63);
  }

  lemma Other38() returns (t: string, xs: seq<int>)
    ensures t == "kjm548jqdrgzqrozpkew9z82kqfvtpmvavj7d6" && Spells(t, xs, 0x1, 0x29c2ad2fe5752f82b260094b5da07e295f0a6428b22e3b4a)
  {
    SmallWords();
    hide Spells, Word;
    t, xs := Other32();
    t, xs := Next(t, xs, 0x23fefe63, 0xa70ab4bf95d4be0ac980252d7681f8a57c2990a2, 'a', 25, 25, 0x2ea1f978);
    t, xs := Next(t, xs, 0x2ea1f978, 0x14e15697f2ba97c1593004a5aed03f14af85321459, 'v', 2, 2, 0x3db08d94);
    t, xs := Next(t, xs, 0x3db08d94, 0x29c2ad2fe5752f82b260094b5da07e295f0a6428b22, 'j', 28, 28, 0x19b67465);
    t, xs := Next(t, xs, 0x19b67465, 0x53855a5fcaea5f0564c01296bb40fc52be14c851645c, '7', 14, 14, 0x152da689);
    t, xs := Next(t, xs, 0x152da689, 0xa70ab4bf95d4be0ac980252d7681f8a57c2990a2c8b8e, 'd', 26, 26, 0x3ea66c8a);
    t, xs := Next(t, xs, 0x3ea66c8a, 0x14e15697f2ba97c1593004a5aed03f14af85321459171da, '6', 10, 10, 0x1);
  }

  const SAMPLE_BODY: string := "3hyz7vtpcts3thsmduh98pwxrjnbw7ccoxchxu"
  const OTHER_BODY: string := "kjm548jqdrgzqrozpkew9z82kqfvtpmvavj7d6"
  const SAMPLE: bytes := [0x47, 0x62, 0x07, 0x0a, 0x64, 0x1c, 0xf6, 0x89, 0xf7, 0x65, 0xd4, 0x3a, 0xd7, 0x92, 0xe1, 0x97, 0x0e, 0x6b, 0xb8, 0x63]

  lemma SampleBytes5() returns (bs: bytes)
    ensures bs == [0x47, 0x62, 0x07, 0x0a, 0x64] && Numeral(bs, 8) == 0x4762070a64
  {
    NoNumeral(8);
    hide Numeral;
    bs := [];
    bs := NextByte(bs, 0x0, 0x47);
    bs := NextByte(bs, 0x47, 0x62);
    bs := NextByte(bs, 0x4762, 0x07);
    bs := NextByte(bs, 0x476207, 0x0a);
    bs := NextByte(bs, 0x4762070a, 0x64);
  }

  lemma SampleBytes10() returns (bs: bytes)
    ensures bs == [0x47, 0x62, 0x07, 0x0a, 0x64, 0x1c, 0xf6, 0x89, 0xf7, 0x65] && Numeral(bs, 8) == 0x4762070a641cf689f765
  {
    hide Numeral;
    bs := SampleBytes5();
    bs := NextByte(bs, 0x4762070a64, 0x1c);
    bs := NextByte(bs, 0x4762070a641c, 0xf6);
    bs := NextByte(bs, 0x4762070a641cf6, 0x89);
    bs := NextByte(bs, 0x4762070a641cf689, 0xf7);
    bs := NextByte(bs, 0x4762070a641cf689f7, 0x65);
  }

  lemma SampleBytes15() returns (bs: bytes)
    ensures bs == [0x47, 0x62, 0x07, 0x0a, 0x64, 0x1c, 0xf6, 0x89, 0xf7, 0x65, 0xd4, 0x3a, 0xd7, 0x92, 0xe1] && Numeral(bs, 8) == 0x4762070a641cf689f765d43ad792e1
  {
    hide Numeral;
    bs := SampleBytes10();
    bs := NextByte(bs, 0x4762070a641cf689f765, 0xd4);
    bs := NextByte(bs, 0x4762070a641cf689f765d4, 0x3a);
    bs := NextByte(bs, 0x4762070a641cf689f765d43a, 0xd7);
    bs := NextByte(bs, 0x4762070a641cf689f765d43ad7, 0x92);
    bs := NextByte(bs, 0x4762070a641cf689f765d43ad792, 0xe1);
  }

  lemma SampleBytes20() returns (bs: bytes)
    ensures bs == [0x47, 0x62, 0x07, 0x0a, 0x64, 0x1c, 0xf6, 0x89, 0xf7, 0x65, 0xd4, 0x3a, 0xd7, 0x92, 0xe1, 0x97, 0x0e, 0x6b, 0xb8, 0x63] && Numeral(bs, 8) == 0x4762070a641cf689f765d43ad792e1970e6bb863
  {
    hide Numeral;
    bs := SampleBytes15();
    bs := NextByte(bs, 0x4762070a641cf689f765d43ad792e1, 0x97);
    bs := NextByte(bs, 0x4762070a641cf689f765d43ad792e197, 0x0e);
    bs := NextByte(bs, 0x4762070a641cf689f765d43ad792e1970e, 0x6b);
    bs := NextByte(bs, 0x4762070a641cf689f765d43ad792e1970e6b, 0xb8);
    bs := NextByte(bs, 0x4762070a641cf689f765d43ad792e1970e6bb8, 0x63);
  }

  lemma SampleNumeral()
    ensures Numeral(SAMPLE, 8) == 0x4762070a641cf689f765d43ad792e1970e6bb863
  {
    hide Numeral;
    var bs := SampleBytes20();
  }

  /** The address of the test of getAddressFromKlayr32Address and getKlayr32AddressFromAddress. */
  lemma SampleAddress()
    ensures FromText("kly" + SAMPLE_BODY, "kly") == Ok(SAMPLE)
    ensures ToText(SAMPLE, "kly") == "kly" + SAMPLE_BODY
  {
    var head, ys := Sample32();
    var body, xs := Sample38();
    hide Spells, FromText, ToText, Validate, Convert, Numeral, InRange;
    Accepted(body, "kly", xs, 0x11d881c299073da27dd9750eb5e4b865c39aee18d811f430, head, ys, 0xfa64d41, 0x4762070a641cf689f765d43ad792e1970e6bb863);
    assert body == SAMPLE_BODY;
    SampleNumeral();
    assert |ys| == 32 by { SpeltLength(head, ys, 0xfa64d41, 0x4762070a641cf689f765d43ad792e1970e6bb863); }
    SameBits(ys, SAMPLE);
    TextIsCanonical("kly" + SAMPLE_BODY, "kly");
  }

  lemma SpeltLength(t: string, xs: seq<int>, s: bv32, n: int)
    requires Spells(t, xs, s, n)
    ensures |xs| == |t|
  {
  }

  /** A further published address; together the two use every character of the alphabet. */
  lemma OtherAddress()
    ensures Validate("kly" + OTHER_BODY, "kly") == Ok(())
  {
    var head, ys := Other32();
    var body, xs := Other38();
    hide Spells, Validate;
    Accepted(body, "kly", xs, 0x29c2ad2fe5752f82b260094b5da07e295f0a6428b22e3b4a, head, ys, 0x23fefe63, 0xa70ab4bf95d4be0ac980252d7681f8a57c2990a2);
    assert body == OTHER_BODY;
  }
}
