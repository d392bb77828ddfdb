/** What the expansion of a prefix is, and the test vectors that BIP-173 publishes (its section on
    test vectors), with literal results (internal/helper/sdk/bech32.go, lines 22-302). */
module Bech32Vectors {
  import opened Bech32Checksum
  import opened Bech32Codec
  import opened Bech32Refusals

  // ---------------------------------------------------------------- the expanded prefix

  /** Every character of a prefix is spelled by its two halves: the upper three bits of all
      characters, a zero, then the lower five bits of all. */
  lemma ExpandSpells(hrp: string, k: nat)
    requires k < |hrp| && hrp[k] as int < 256
    ensures var e := Expand(hrp);
            && |e| == 2 * |hrp| + 1 && e[|hrp|] == 0
            && 32 * (e[k] as int) + e[|hrp| + 1 + k] as int == hrp[k] as int
            && e[k] as int < 8 && (e[|hrp| + 1 + k] as int) < 32
  {
    IndexFitsByte(hrp[k] as int / 32);
    IndexFitsByte(hrp[k] as int % 32);
  }

  // ---------------------------------------------------------------- a few symbols at a time

  lemma RunOne(p: Poly, vs: Bytes)
    requires |vs| == 1
    ensures Run(p, vs) == Step(p, Sym(vs[0]))
  {
    assert vs[..0] == [];
  }

  lemma RunTwo(p: Poly, vs: Bytes)
    requires |vs| == 2
    ensures Run(p, vs) == Step(Step(p, Sym(vs[0])), Sym(vs[1]))
  {
    hide Step;
    RunOne(p, vs[..1]);
  }

  lemma RunThree(p: Poly, vs: Bytes)
    requires |vs| == 3
    ensures Run(p, vs) == Step(Step(Step(p, Sym(vs[0])), Sym(vs[1])), Sym(vs[2]))
  {
    hide Step;
    RunTwo(p, vs[..2]);
  }

  lemma RunSix(p: Poly, vs: Bytes)
    requires |vs| == 6
    ensures Run(p, vs) == Step(Step(Step(Run(p, vs[..3]), Sym(vs[3])), Sym(vs[4])), Sym(vs[5]))
    ensures Run(p, vs[..3]) == Step(Step(Step(p, Sym(vs[0])), Sym(vs[1])), Sym(vs[2]))
  {
    hide Step;
    assert vs == vs[..3] + vs[3..];
    RunConcat(p, vs[..3], vs[3..]);
    RunThree(p, vs[..3]);
    RunThree(Run(p, vs[..3]), vs[3..]);
  }

  // ---------------------------------------------------------------- the shortest valid string

  lemma Shortest1()
    ensures Run(Poly(0, 0, 0, 0, 0, 1), [3, 0, 1, 0, 0, 0]) == Poly(30, 22, 21, 21, 29, 18)
  {
    RunSix(Poly(0, 0, 0, 0, 0, 1), [3, 0, 1, 0, 0, 0]);
  }

  lemma Shortest2()
    ensures Run(Poly(30, 22, 21, 21, 29, 18), [0, 0, 0]) == Poly(10, 28, 25, 31, 20, 30)
  {
    RunThree(Poly(30, 22, 21, 21, 29, 18), [0, 0, 0]);
  }

  lemma ExpandA()
    ensures Expand("a") == [3, 0, 1]
  {
    IndexFitsByte(3);
    IndexFitsByte(1);
  }

  lemma ShortestChecksum()
    ensures Checksum("a", []) == [10, 28, 25, 31, 20, 31]
  {
    hide Run, Step;
    ExpandA();
    assert Expand("a") + ([] + Zeros(6)) == [3, 0, 1, 0, 0, 0] + [0, 0, 0];
    RunConcat(ONE, [3, 0, 1, 0, 0, 0], [0, 0, 0]);
    Shortest1();
    Shortest2();
  }

  // ---------------------------------------------------------------- every letter once

  const ALL_VALUES: Bytes := [
    0, 1, 2, 3, 4, 5, 6, 7, 8, 9, 10, 11, 12, 13, 14, 15,
    16, 17, 18, 19, 20, 21, 22, 23, 24, 25, 26, 27, 28, 29, 30, 31]

  lemma ExpandAbcdef()
    ensures Expand("abcdef") == [3, 3, 3, 3, 3, 3, 0, 1, 2, 3, 4, 5, 6]
  {
  }

  lemma Prefix1()
    ensures Run(Poly(0, 0, 0, 0, 0, 1), [3, 3, 3, 3, 3, 3]) == Poly(30, 21, 23, 22, 30, 17)
  {
    RunSix(Poly(0, 0, 0, 0, 0, 1), [3, 3, 3, 3, 3, 3]);
  }

  lemma Prefix2()
    ensures Run(Poly(30, 21, 23, 22, 30, 17), [0, 1, 2, 3, 4, 5]) == Poly(19, 6, 12, 13, 13, 8)
  {
    RunSix(Poly(30, 21, 23, 22, 30, 17), [0, 1, 2, 3, 4, 5]);
  }

  lemma Prefix3()
    ensures Run(Poly(19, 6, 12, 13, 13, 8), [6]) == Poly(29, 30, 16, 3, 19, 10)
  {
    RunOne(Poly(19, 6, 12, 13, 13, 8), [6]);
  }

  lemma PrefixFed()
    ensures Run(Poly(0, 0, 0, 0, 0, 1), [3, 3, 3, 3, 3, 3, 0, 1, 2, 3, 4, 5, 6]) == Poly(29, 30, 16, 3, 19, 10)
  {
    hide Run, Step;
    var p := Poly(0, 0, 0, 0, 0, 1);
    var v1 := [3, 3, 3, 3, 3, 3];
    Prefix1();
    var v2 := v1 + [0, 1, 2, 3, 4, 5];
    RunConcat(p, v1, [0, 1, 2, 3, 4, 5]);
    Prefix2();
    var v3 := v2 + [6];
    RunConcat(p, v2, [6]);
    Prefix3();
    assert [3, 3, 3, 3, 3, 3, 0, 1, 2, 3, 4, 5, 6] == v3;
  }

  lemma AllValuesJoined()
    ensures ALL_VALUES == [0, 1, 2, 3, 4, 5] + [6, 7, 8, 9, 10, 11] + [12, 13, 14, 15, 16, 17] +
                          [18, 19, 20, 21, 22, 23] + [24, 25, 26, 27, 28, 29] + [30, 31]
  {
  }

  lemma Values1()
    ensures Run(Poly(29, 30, 16, 3, 19, 10), [0, 1, 2, 3, 4, 5]) == Poly(23, 29, 19, 3, 9, 12)
  {
    RunSix(Poly(29, 30, 16, 3, 19, 10), [0, 1, 2, 3, 4, 5]);
  }

  lemma Values2()
    ensures Run(Poly(23, 29, 19, 3, 9, 12), [6, 7, 8, 9, 10, 11]) == Poly(23, 24, 25, 19, 22, 29)
  {
    RunSix(Poly(23, 29, 19, 3, 9, 12), [6, 7, 8, 9, 10, 11]);
  }

  lemma Values3()
    ensures Run(Poly(23, 24, 25, 19, 22, 29), [12, 13, 14, 15, 16, 17]) == Poly(7, 0, 16, 0, 8, 13)
  {
    RunSix(Poly(23, 24, 25, 19, 22, 29), [12, 13, 14, 15, 16, 17]);
  }

  lemma Values4()
    ensures Run(Poly(7, 0, 16, 0, 8, 13), [18, 19, 20, 21, 22, 23]) == Poly(20, 23, 24, 18, 7, 0)
  {
    RunSix(Poly(7, 0, 16, 0, 8, 13), [18, 19, 20, 21, 22, 23]);
  }

  lemma Values5()
    ensures Run(Poly(20, 23, 24, 18, 7, 0), [24, 25, 26, 27, 28, 29]) == Poly(23, 0, 15, 20, 24, 7)
  {
    RunSix(Poly(20, 23, 24, 18, 7, 0), [24, 25, 26, 27, 28, 29]);
  }

  lemma Values6()
    ensures Run(Poly(23, 0, 15, 20, 24, 7), [30, 31]) == Poly(13, 0, 26, 13, 18, 22)
  {
    RunTwo(Poly(23, 0, 15, 20, 24, 7), [30, 31]);
  }

  lemma ValuesFed()
    ensures Run(Poly(29, 30, 16, 3, 19, 10), ALL_VALUES) == Poly(13, 0, 26, 13, 18, 22)
  {
    hide Run, Step, ALL_VALUES;
    var p := Poly(29, 30, 16, 3, 19, 10);
    var v1 := [0, 1, 2, 3, 4, 5];
    Values1();
    var v2 := v1 + [6, 7, 8, 9, 10, 11];
    RunConcat(p, v1, [6, 7, 8, 9, 10, 11]);
    Values2();
    var v3 := v2 + [12, 13, 14, 15, 16, 17];
    RunConcat(p, v2, [12, 13, 14, 15, 16, 17]);
    Values3();
    var v4 := v3 + [18, 19, 20, 21, 22, 23];
    RunConcat(p, v3, [18, 19, 20, 21, 22, 23]);
    Values4();
    var v5 := v4 + [24, 25, 26, 27, 28, 29];
    RunConcat(p, v4, [24, 25, 26, 27, 28, 29]);
    Values5();
    var v6 := v5 + [30, 31];
    RunConcat(p, v5, [30, 31]);
    Values6();
    AllValuesJoined();
  }

  lemma ZerosFed()
    ensures Run(Poly(13, 0, 26, 13, 18, 22), Zeros(6)) == Poly(27, 0, 0, 0, 6, 15)
  {
    assert Zeros(6) == [0, 0, 0, 0, 0, 0];
    RunSix(Poly(13, 0, 26, 13, 18, 22), [0, 0, 0, 0, 0, 0]);
  }

  lemma CharsetChecksum()
    ensures Checksum("abcdef", ALL_VALUES) == [27, 0, 0, 0, 6, 14]
  {
    hide Run, Step, Expand, Zeros, ALL_VALUES;
    RunConcat(ONE, Expand("abcdef"), ALL_VALUES + Zeros(6));
    RunConcat(Poly(29, 30, 16, 3, 19, 10), ALL_VALUES, Zeros(6));
    ExpandAbcdef();
    PrefixFed();
    ValuesFed();
    ZerosFed();
  }

  // ---------------------------------------------------------------- the strings

  lemma LettersOfShortest()
    ensures Letters([]) == "" && Letters([10, 28, 25, 31, 20, 31]) == "2uel5l"
  {
  }

  lemma ShortestText()
    ensures ToLower("a") == ToLower("A") == "a" && AllPrintable("a")
    ensures "a" + "1" + "" + "2uel5l" == "a12uel5l"
    ensures ToLower("A12UEL5L") == ToLower("a12uel5l") == "a12uel5l"
    ensures !HasUpper("a12uel5l") && !HasLower("A12UEL5L")
  {
  }

  /** "A12UEL5L" and "a12uel5l" are valid. */
  lemma ShortestVector()
    ensures Encode("a", []) == Ok("a12uel5l") && Encode("A", []) == Ok("a12uel5l")
    ensures DecodeNoLimit("a12uel5l") == DecodeNoLimit("A12UEL5L") == Ok(("a", []))
  {
    hide Checksum, DecodeNoLimit, Letters, ToLower, HasUpper, HasLower, AllPrintable;
    ShortestChecksum();
    LettersOfShortest();
    ShortestText();
    DecodeUndoesEncode("a", [], "a12uel5l");
    DecodeUndoesEncode("a", [], "A12UEL5L");
  }

  lemma Letters1()
    ensures FiveBit([0, 1, 2, 3, 4, 5]) && Letters([0, 1, 2, 3, 4, 5]) == "qpzry9"
  {
  }

  lemma Letters2()
    ensures FiveBit([6, 7, 8, 9, 10, 11]) && Letters([6, 7, 8, 9, 10, 11]) == "x8gf2t"
  {
  }

  lemma Letters3()
    ensures FiveBit([12, 13, 14, 15, 16, 17]) && Letters([12, 13, 14, 15, 16, 17]) == "vdw0s3"
  {
  }

  lemma Letters4()
    ensures FiveBit([18, 19, 20, 21, 22, 23]) && Letters([18, 19, 20, 21, 22, 23]) == "jn54kh"
  {
  }

  lemma Letters5()
    ensures FiveBit([24, 25, 26, 27, 28, 29]) && Letters([24, 25, 26, 27, 28, 29]) == "ce6mua"
  {
  }

  lemma Letters6()
    ensures FiveBit([30, 31]) && Letters([30, 31]) == "7l"
  {
  }

  lemma LettersOfAll()
    ensures FiveBit(ALL_VALUES) && Letters(ALL_VALUES) == CHARSET
  {
    hide Letters, FiveBit, Five, Letter, ALL_VALUES, CHARSET;
    Letters1();
    var v1 := [0, 1, 2, 3, 4, 5];
    Letters2();
    var v2 := v1 + [6, 7, 8, 9, 10, 11];
    LettersConcat(v1, [6, 7, 8, 9, 10, 11]);
    Letters3();
    var v3 := v2 + [12, 13, 14, 15, 16, 17];
    LettersConcat(v2, [12, 13, 14, 15, 16, 17]);
    Letters4();
    var v4 := v3 + [18, 19, 20, 21, 22, 23];
    LettersConcat(v3, [18, 19, 20, 21, 22, 23]);
    Letters5();
    var v5 := v4 + [24, 25, 26, 27, 28, 29];
    LettersConcat(v4, [24, 25, 26, 27, 28, 29]);
    Letters6();
    var v6 := v5 + [30, 31];
    LettersConcat(v5, [30, 31]);
    AllValuesJoined();
    LettersJoined();
  }

  lemma LettersJoined()
    ensures "qpzry9" + "x8gf2t" + "vdw0s3" + "jn54kh" + "ce6mua" + "7l" == CHARSET
  {
  }

  lemma LettersOfChecksum()
    ensures Letters([27, 0, 0, 0, 6, 14]) == "mqqqxw"
  {
  }

  /** "abcdef1qpzry9x8gf2tvdw0s3jn54khce6mua7lmqqqxw" is valid: every letter stands for its value. */
  lemma CharsetVector()
    ensures Encode("abcdef", ALL_VALUES) == Ok("abcdef1" + "qpzry9x8gf2tvdw0s3jn54khce6mua7l" + "mqqqxw")
    ensures DecodeNoLimit("abcdef1" + "qpzry9x8gf2tvdw0s3jn54khce6mua7l" + "mqqqxw") == Ok(("abcdef", ALL_VALUES))
  {
    hide Checksum, DecodeNoLimit, Letters, ALL_VALUES, FiveBit, AllPrintable;
    Abcdef();
    CharsetChecksum();
    LettersOfAll();
    LettersOfChecksum();
    DecodeOfEncode("abcdef", ALL_VALUES);
  }

  lemma Abcdef()
    ensures ToLower("abcdef") == "abcdef" && "abcdef" + "1" == "abcdef1" && AllPrintable("abcdef")
  {
  }

  lemma UpperCaseText()
    ensures ToLower("A1G7SGD8") == "a1g7sgd8" == "a" + "1" + "" + "g7sgd8"
    ensures AllPrintable("A1G7SGD8") && !HasLower("A1G7SGD8") && "a1g7sgd8"[2..] == "g7sgd8"
  {
  }

  lemma UpperCaseLetters()
    ensures Letters([8, 30, 16, 8, 13, 7]) == "g7sgd8"
  {
  }

  /** "A1G7SGD8" is invalid: its checksum was taken over the prefix in upper case. */
  lemma UpperCaseChecksumRefused()
    ensures DecodeNoLimit("A1G7SGD8") == Err(InvalidChecksum("2uel5l", "g7sgd8"))
  {
    hide Checksum, VerifyChecksum, Letters, ToLower, HasUpper, HasLower, AllPrintable, DecodeUnsafe, CaseError;
    var checksum: Bytes := [8, 30, 16, 8, 13, 7];
    UpperCaseText();
    UpperCaseLetters();
    LettersOfShortest();
    ShortestChecksum();
    NormalizeAccepts("A1G7SGD8");
    DecodeUnsafeOfParts("a", [], checksum);
    ChecksumUnique("a", [], checksum);
    assert checksum[0] != Checksum("a", [])[0];
  }

  lemma Separated(s: string, one: int)
    requires -1 <= one < |s| && (one >= 0 ==> s[one] == '1')
    requires forall k :: one < k < |s| ==> s[k] != '1'
    ensures LastIndexOf(s, '1') == one
  {
    hide LastIndexOf;
    LastIndexSound(s, '1');
  }

  /** A clean lower-case string whose separator is at `one`. */
  predicate Lowered(s: string, one: int) {
    && |s| >= 8 && -1 <= one < |s| && (one >= 0 ==> s[one] == '1') && (forall k :: one < k < |s| ==> s[k] != '1')
    && AllPrintable(s) && !HasUpper(s)
  }

  lemma SeparatorRefused(s: string, one: int)
    requires Lowered(s, one) && (one < 1 || one + 7 > |s|)
    ensures DecodeNoLimit(s) == Err(InvalidSeparatorIndex(one))
  {
    hide LastIndexOf, CaseError, ToBytes, VerifyChecksum, Checksum;
    NormalizeAccepts(s);
    ToLowerFixed(s);
    Separated(s, one);
  }

  lemma StrangerRefused(s: string, one: int)
    requires Lowered(s, one) && 1 <= one && one + 7 <= |s| && s[one + 1] !in CHARSET
    ensures DecodeNoLimit(s) == Err(NonCharsetChar(s[one + 1]))
  {
    hide LastIndexOf, CaseError, ToBytes, VerifyChecksum, Checksum, CHARSET;
    NormalizeAccepts(s);
    ToLowerFixed(s);
    Separated(s, one);
    var data := s[one + 1..];
    ToBytesExact(data);
    assert data[0] !in CHARSET && !InCharset(data);
    var c := ToBytes(data).error.character;
    var j :| 0 <= j < |data| && FirstStranger(data, j, c);
    InCharsetUpTo(data, j, 0);
  }

  lemma SpaceRefused()
    ensures DecodeNoLimit(" 1nwldj5") == Err(InvalidCharacter(' '))
  {
    hide DecodeUnsafe, VerifyChecksum, Checksum;
    var s := " 1nwldj5";
    assert s[..1] == " " && s[..1][..0] == "";
    assert CaseError(s[..1]) == Some(InvalidCharacter(' '));
    CaseErrorSticks(s, 1);
  }

  lemma ShortRefused(s: string)
    requires |s| < 8
    ensures DecodeNoLimit(s) == Err(InvalidLength(|s|))
  {
  }

  /** The strings that are invalid for another reason than the checksum, each with its error:
      characters out of range, no separator, no prefix, a letter outside the charset, no room for a
      checksum. */
  lemma InvalidVectors()
    ensures DecodeNoLimit(" 1nwldj5") == Err(InvalidCharacter(' '))
    ensures DecodeNoLimit("pzry9x0s0muk") == Err(InvalidSeparatorIndex(-1))
    ensures DecodeNoLimit("1pzry9x0s0muk") == Err(InvalidSeparatorIndex(0))
    ensures DecodeNoLimit("1qzzfhee") == Err(InvalidSeparatorIndex(0))
    ensures DecodeNoLimit("li1dgmt3") == Err(InvalidSeparatorIndex(2))
    ensures DecodeNoLimit("x1b4n0q5v") == Err(NonCharsetChar('b'))
    ensures DecodeNoLimit("10a06t8") == Err(InvalidLength(7))
  {
    hide DecodeNoLimit, Lowered, CHARSET;
    SpaceRefused();
    NoSeparator();
    EmptyPrefix();
    EmptyPrefixShort();
    ShortChecksum();
    OutsideCharset();
    SeparatorRefused("pzry9x0s0muk", -1);
    SeparatorRefused("1pzry9x0s0muk", 0);
    SeparatorRefused("1qzzfhee", 0);
    SeparatorRefused("li1dgmt3", 2);
    StrangerRefused("x1b4n0q5v", 1);
    ShortRefused("10a06t8");
  }

  lemma NoSeparator()
    ensures Lowered("pzry9x0s0muk", -1)
  {
  }

  lemma EmptyPrefix()
    ensures Lowered("1pzry9x0s0muk", 0)
  {
  }

  lemma EmptyPrefixShort()
    ensures Lowered("1qzzfhee", 0)
  {
  }

  lemma ShortChecksum()
    ensures Lowered("li1dgmt3", 2)
  {
  }

  lemma OutsideCharset()
    ensures Lowered("x1b4n0q5v", 1) && 'b' !in CHARSET
  {
  }
}
