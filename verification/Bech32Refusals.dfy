/** Why a string is refused: every error names the first thing that is wrong, and each kind of error
    comes up exactly when its check is the first to fail (internal/helper/sdk/bech32.go, lines 20-32,
    153-261 and 285-296). */
module Bech32Refusals {
  import opened Bech32Checksum
  import opened Bech32Codec

  // ---------------------------------------------------------------- letter case

  predicate Clean(s: string) {
    AllPrintable(s) && !(HasLower(s) && HasUpper(s))
  }

  /** At this character the string stops being clean, and this is what is wrong with it. */
  predicate FirstFault(s: string, i: nat, e: Error)
    requires i < |s|
  {
    && Clean(s[..i]) && !Clean(s[..i + 1])
    && e == if 33 <= s[i] as int <= 126 then MixedCase else InvalidCharacter(s[i])
  }

  predicate HasFault(s: string, e: Error) {
    exists i :: 0 <= i < |s| && FirstFault(s, i, e)
  }

  /** A string is clean when its characters are 33 to 126 and not both cases of A to Z occur; lowering
      moves A to Z by 32 and nothing else. */
  lemma CleanExactly(s: string)
    ensures Clean(s) <==>
            && (forall k :: 0 <= k < |s| ==> 33 <= s[k] as int <= 126)
            && !((exists k :: 0 <= k < |s| && 'A' <= s[k] <= 'Z') && (exists k :: 0 <= k < |s| && 'a' <= s[k] <= 'z'))
    ensures forall k :: 0 <= k < |s| ==>
              ToLower(s)[k] as int == s[k] as int + if 'A' <= s[k] <= 'Z' then 32 else 0
  {
  }

  lemma CleanUpTo(s: string, i: nat)
    requires Clean(s) && i <= |s|
    ensures Clean(s[..i])
  {
    HasPrefix(s, i);
  }

  lemma CleanWithin(s: string, i: nat, n: nat)
    requires i <= n <= |s| && Clean(s[..n])
    ensures Clean(s[..i])
  {
    CleanUpTo(s[..n], i);
    assert s[..n][..i] == s[..i];
  }

  /** The fault that is reported is the first one. */
  lemma {:induction false} CaseErrorIsFirst(s: string)
    ensures CaseError(s).None? <==> Clean(s)
    ensures CaseError(s).Some? ==> HasFault(s, CaseError(s).value)
    decreases |s|
  {
    NormalizeAccepts(s);
    if CaseError(s).Some? {
      var init := s[..|s| - 1];
      CaseErrorIsFirst(init);
      if CaseError(init).Some? {
        var i :| 0 <= i < |init| && FirstFault(init, i, CaseError(init).value);
        assert init[..i] == s[..i] && init[..i + 1] == s[..i + 1];
        assert FirstFault(s, i, CaseError(s).value);
      } else {
        assert s[..|s| - 1 + 1] == s;
        assert FirstFault(s, |s| - 1, CaseError(s).value);
      }
    }
  }

  lemma FaultsAgree(s: string, i: nat, e: Error, i': nat, e': Error)
    requires i < |s| && i' < |s| && FirstFault(s, i, e) && FirstFault(s, i', e')
    ensures e == e'
  {
    hide Clean;
    if i < i' {
      CleanWithin(s, i + 1, i');
    } else if i' < i {
      CleanWithin(s, i' + 1, i);
    }
  }

  lemma FaultIsNotClean(s: string, e: Error)
    requires HasFault(s, e)
    ensures !Clean(s) && (e.MixedCase? || e.InvalidCharacter?)
  {
    hide Clean;
    var i :| 0 <= i < |s| && FirstFault(s, i, e);
    if Clean(s) {
      CleanUpTo(s, i + 1);
    }
  }

  // ---------------------------------------------------------------- characters outside the charset

  lemma {:induction false} IndexFromNone(c: char, i: nat)
    requires i <= |CHARSET|
    ensures IndexFrom(c, i).None? ==> c !in CHARSET[i..]
    decreases |CHARSET| - i
  {
    if i < |CHARSET| && CHARSET[i] != c {
      IndexFromNone(c, i + 1);
      assert CHARSET[i..] == [CHARSET[i]] + CHARSET[i + 1..];
    }
  }

  predicate InCharset(s: string) {
    forall k :: 0 <= k < |s| ==> s[k] in CHARSET
  }

  lemma PositionInCharset(c: char)
    ensures Position(c).Some? <==> c in CHARSET
  {
    hide IndexFrom, Five;
    IndexFromSound(c, 0);
    IndexFromNone(c, 0);
    assert CHARSET[0..] == CHARSET;
    if c in CHARSET {
      var k :| 0 <= k < |CHARSET| && CHARSET[k] == c;
      IndexFromFound(c, 0, k);
    }
  }

  predicate FirstStranger(s: string, j: nat, c: char)
    requires j < |s|
  {
    c == s[j] && s[j] !in CHARSET && InCharset(s[..j])
  }

  /** This is the first character outside the charset. */
  predicate HasStranger(s: string, c: char) {
    exists j :: 0 <= j < |s| && FirstStranger(s, j, c)
  }

  lemma InCharsetSnoc(s: string)
    requires s != ""
    ensures InCharset(s) <==> InCharset(s[..|s| - 1]) && s[|s| - 1] in CHARSET
  {
  }

  /** Reading fails exactly at the first character outside the charset. */
  lemma {:induction false} ToBytesExact(s: string)
    ensures ToBytes(s).Ok? <==> InCharset(s)
    ensures ToBytes(s).Err? ==> HasStranger(s, ToBytes(s).error.character)
    decreases |s|
  {
    hide Position, IndexFrom;
    if s != "" {
      var init := s[..|s| - 1];
      ToBytesExact(init);
      PositionInCharset(s[|s| - 1]);
      InCharsetSnoc(s);
      if ToBytes(init).Err? {
        var j :| 0 <= j < |init| && FirstStranger(init, j, ToBytes(init).error.character);
        assert init[..j] == s[..j];
        assert FirstStranger(s, j, ToBytes(s).error.character);
      } else if ToBytes(s).Err? {
        assert FirstStranger(s, |s| - 1, ToBytes(s).error.character);
      }
    }
  }

  lemma InCharsetUpTo(s: string, n: nat, j: nat)
    requires n <= |s| && InCharset(s[..n])
    ensures j < n ==> s[j] in CHARSET
  {
    assert j < n ==> s[..n][j] == s[j];
  }

  lemma StrangersAgree(s: string, c: char, c': char)
    requires HasStranger(s, c) && HasStranger(s, c')
    ensures c == c' && !InCharset(s)
  {
    var j :| 0 <= j < |s| && FirstStranger(s, j, c);
    var j' :| 0 <= j' < |s| && FirstStranger(s, j', c');
    InCharsetUpTo(s, j', j);
    InCharsetUpTo(s, j, j');
  }

  /** The value that the writer refuses is the first one above five bits. */
  lemma {:induction false} BadByteIsFirst(data: Bytes)
    ensures BadByte(data).Some? ==>
              exists i :: 0 <= i < |data| && data[i] == BadByte(data).value && data[i] >= 32 && FiveBit(data[..i])
    decreases |data|
  {
    if BadByte(data).Some? {
      var init := data[..|data| - 1];
      if BadByte(init).Some? {
        BadByteIsFirst(init);
        var i :| 0 <= i < |init| && init[i] == BadByte(init).value && init[i] >= 32 && FiveBit(init[..i]);
        assert init[..i] == data[..i] && data[i] == init[i];
      } else {
        assert data[|data| - 1] == BadByte(data).value && FiveBit(data[..|data| - 1]);
      }
    }
  }

  // ---------------------------------------------------------------- the order of the checks

  /** What follows the separator of a lower-case string. */
  function DataPart(low: string): string {
    LastIndexSound(low, '1');
    low[LastIndexOf(low, '1') + 1..]
  }

  /** There is a prefix, and room for a checksum. */
  predicate WellSeparated(low: string) {
    1 <= LastIndexOf(low, '1') && |DataPart(low)| >= 6
  }

  /** What an error says about the string. The checks come in this order. */
  predicate Explains(bech: string, e: Error) {
    var low := ToLower(bech);
    match e
    case InvalidLength(n) => n == |bech| < 8
    case InvalidCharacter(_) => |bech| >= 8 && HasFault(bech, e)
    case MixedCase => |bech| >= 8 && HasFault(bech, e)
    case InvalidSeparatorIndex(k) => |bech| >= 8 && Clean(bech) && !WellSeparated(low) && k == LastIndexOf(low, '1')
    case NonCharsetChar(c) => |bech| >= 8 && Clean(bech) && WellSeparated(low) && HasStranger(DataPart(low), c)
    case InvalidChecksum(expected, actual) =>
      && |bech| >= 8 && Clean(bech) && WellSeparated(low) && InCharset(DataPart(low))
      && actual == low[|low| - 6..] && expected != actual && DecodeNoLimit(low[..|low| - 6] + expected).Ok?
    case _ => false
  }

  lemma ExpectedDecodes(low: string)
    requires |low| >= 8 && !HasUpper(low) && AllPrintable(low) && DecodeUnsafe(low).Ok?
    ensures var (hrp, values, _) := DecodeUnsafe(low).value;
            DecodeNoLimit(low[..|low| - 6] + Letters(Checksum(hrp, values))).Ok?
  {
    hide Five, Checksum, VerifyChecksum, Letter, ToBytes, LastIndexOf, CaseError;
    DecodeUnsafeParts(low);
    var (hrp, values, checksum) := DecodeUnsafe(low).value;
    var body := hrp + "1" + Letters(values);
    assert low[..|low| - 6] == body;
    ToLowerFixed(hrp);
    LowPrefix(low, |hrp|);
    assert low[..|hrp|] == hrp;
    EncodedIsClean(hrp, values);
    ToLowerFixed(body + Letters(Checksum(hrp, values)));
    DecodeOfEncode(hrp, values);
  }

  lemma LowPrefix(low: string, n: nat)
    requires n <= |low| && !HasUpper(low) && AllPrintable(low)
    ensures !HasUpper(low[..n]) && AllPrintable(low[..n])
  {
    HasPrefix(low, n);
  }

  /** A string is refused with an error that explains it, ... */
  lemma RefusalExplained(bech: string)
    ensures DecodeNoLimit(bech).Err? ==> Explains(bech, DecodeNoLimit(bech).error)
  {
    hide Five, Checksum, VerifyChecksum, Letters, LastIndexOf, HasFault, HasStranger, CaseError, Normalize,
         InCharset, Clean, DecodeUnsafe, ToLower, DataPart, WellSeparated;
    if |bech| >= 8 {
      FaultExplained(bech);
      CleanLowers(bech);
      if !Clean(bech) {
        FaultIsNotClean(bech, Normalize(bech).error);
      } else {
        var low := ToLower(bech);
        SplitExplained(low);
        if DecodeUnsafe(low).Ok? {
          ExpectedDecodes(low);
          if DecodeNoLimit(bech).Err? {
            ChecksumErrorIsReal(bech);
          }
        }
      }
    }
  }

  lemma FaultExplained(bech: string)
    ensures Normalize(bech).Err? <==> !Clean(bech)
    ensures Normalize(bech).Err? ==> HasFault(bech, Normalize(bech).error)
  {
    hide CaseError, Clean, HasFault;
    CaseErrorIsFirst(bech);
  }

  lemma SplitExplained(low: string)
    ensures match DecodeUnsafe(low)
            case Ok(_) => WellSeparated(low) && InCharset(DataPart(low))
            case Err(InvalidSeparatorIndex(k)) => !WellSeparated(low) && k == LastIndexOf(low, '1')
            case Err(NonCharsetChar(c)) => WellSeparated(low) && HasStranger(DataPart(low), c)
            case Err(_) => false
  {
    hide HasStranger, InCharset, LastIndexOf, ToBytes, Five, Letters;
    LastIndexSound(low, '1');
    ToBytesExact(DataPart(low));
  }

  lemma CleanLowers(bech: string)
    ensures Clean(bech) ==> Normalize(bech) == Ok((ToLower(bech), HasUpper(bech)))
    ensures Clean(bech) ==> !HasUpper(ToLower(bech)) && AllPrintable(ToLower(bech))
  {
    hide CaseError;
    NormalizeAccepts(bech);
    ToLowerFixed(bech);
  }

  /** ... and no two errors explain the same string, but for the checksum that was expected. */
  lemma OneExplanation(bech: string, e: Error, e': Error)
    requires Explains(bech, e) && Explains(bech, e')
    ensures e == e' || (e.InvalidChecksum? && e'.InvalidChecksum? && e.actual == e'.actual)
  {
    hide HasFault, HasStranger, Clean, LastIndexOf, InCharset, DecodeNoLimit;
    var data := DataPart(ToLower(bech));
    if HasFault(bech, e) {
      FaultIsNotClean(bech, e);
    }
    if HasFault(bech, e') {
      FaultIsNotClean(bech, e');
    }
    if HasFault(bech, e) && HasFault(bech, e') {
      FaultsMatch(bech, e, e');
    }
    if e.NonCharsetChar? && HasStranger(data, e.character) {
      StrangersAgree(data, e.character, e.character);
    }
    if e'.NonCharsetChar? && HasStranger(data, e'.character) {
      StrangersAgree(data, e'.character, e'.character);
    }
    if e.NonCharsetChar? && e'.NonCharsetChar? {
      StrangersAgree(data, e.character, e'.character);
    }
  }

  lemma FaultsMatch(s: string, e: Error, e': Error)
    requires HasFault(s, e) && HasFault(s, e')
    ensures e == e'
  {
    var i :| 0 <= i < |s| && FirstFault(s, i, e);
    var i' :| 0 <= i' < |s| && FirstFault(s, i', e');
    FaultsAgree(s, i, e, i', e');
  }
}
