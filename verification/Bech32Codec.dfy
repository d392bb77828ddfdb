/** Reading and writing Bech32 strings (internal/helper/sdk/bech32.go, lines 20-32 and 114-302). */
module Bech32Codec {
  import opened Bech32Checksum

  const MAX_LENGTH_BIP173 := 90
  const CHARSET := "qpzry9x8gf2tvdw0s3jn54khce6mua7l"

  datatype Error =
    | InvalidLength(length: int)
    | InvalidCharacter(character: char)
    | MixedCase
    | InvalidSeparatorIndex(index: int)
    | NonCharsetChar(character: char)
    | InvalidChecksum(expected: string, actual: string)
    | InvalidDataByte(data: Byte)
    | InvalidBitGroups
    | InvalidIncompleteGroup

  datatype Result<+T> = Ok(value: T) | Err(error: Error)

  // ---------------------------------------------------------------- the charset

  function Letter(v: Byte): char
    requires Five(v)
  {
    CHARSET[v as int]
  }

  function IndexFrom(c: char, i: nat): Option<nat>
    requires i <= |CHARSET|
    decreases |CHARSET| - i
  {
    if i == |CHARSET| then None else if CHARSET[i] == c then Some(i) else IndexFrom(c, i + 1)
  }

  lemma CharsetDistinct(i: nat, j: nat)
    requires i < j < |CHARSET|
    ensures CHARSET[i] != CHARSET[j]
  {
  }

  lemma CharsetPrintable(i: nat)
    requires i < |CHARSET|
    ensures Printable(CHARSET[i]) && CHARSET[i] != '1' && !Upper(CHARSET[i])
  {
  }

  lemma {:induction false} IndexFromFound(c: char, i: nat, k: nat)
    requires i <= k < |CHARSET| && CHARSET[k] == c
    ensures IndexFrom(c, i) == Some(k)
    decreases k - i
  {
    if i < k {
      CharsetDistinct(i, k);
      IndexFromFound(c, i + 1, k);
    }
  }

  lemma {:induction false} IndexFromSound(c: char, i: nat)
    requires i <= |CHARSET|
    ensures var r := IndexFrom(c, i); r.Some? ==> i <= r.value < |CHARSET| && CHARSET[r.value] == c
    decreases |CHARSET| - i
  {
    if i < |CHARSET| && CHARSET[i] != c {
      IndexFromSound(c, i + 1);
    }
  }

  lemma IndexFitsByte(k: nat)
    requires k < 32
    ensures Five(k as Byte) && (k as Byte) as int == k
  {
  }

  /** The value of a charset character. */
  function Position(c: char): (r: Option<Byte>)
    ensures r.Some? ==> Five(r.value)
  {
    IndexFromSound(c, 0);
    match IndexFrom(c, 0)
    case None => None
    case Some(k) => IndexFitsByte(k); Some(k as Byte)
  }

  lemma PositionOfLetter(v: Byte)
    requires Five(v)
    ensures Position(Letter(v)) == Some(v)
  {
    IndexFromFound(Letter(v), 0, v as int);
  }

  lemma LetterOfPosition(c: char)
    ensures Position(c).Some? ==> Letter(Position(c).value) == c
  {
    hide IndexFrom, Five;
    IndexFromSound(c, 0);
    if IndexFrom(c, 0).Some? {
      IndexFitsByte(IndexFrom(c, 0).value);
    }
  }

  function Letters(vs: Bytes): (s: string)
    requires FiveBit(vs)
    ensures |s| == |vs|
    ensures forall k :: 0 <= k < |vs| ==> s[k] == Letter(vs[k])
  {
    seq(|vs|, i requires 0 <= i < |vs| => Letter(vs[i]))
  }

  /** Values of a string of charset characters; the first other character is the error. */
  function ToBytes(s: string): (r: Result<Bytes>)
    ensures r.Err? ==> r.error.NonCharsetChar?
  {
    if s == "" then Ok([])
    else match ToBytes(s[..|s| - 1])
      case Err(e) => Err(e)
      case Ok(d) =>
        match Position(s[|s| - 1])
        case None => Err(NonCharsetChar(s[|s| - 1]))
        case Some(v) => Ok(d + [v])
  }

  /** Only spelled-out symbols are read, and each string spells at most one. */
  lemma {:induction false} ToBytesSpells(s: string)
    ensures var r := ToBytes(s); r.Ok? ==> FiveBit(r.value) && Letters(r.value) == s
    decreases |s|
  {
    if s != "" {
      var init := s[..|s| - 1];
      ToBytesSpells(init);
      LetterOfPosition(s[|s| - 1]);
      assert s == init + [s[|s| - 1]];
    }
  }

  lemma {:induction false} ToBytesOfLetters(vs: Bytes)
    requires FiveBit(vs)
    ensures ToBytes(Letters(vs)) == Ok(vs)
    decreases |vs|
  {
    hide Five, Letter, Position;
    if vs != [] {
      var init := vs[..|vs| - 1];
      var last := vs[|vs| - 1];
      assert Letters(vs)[..|vs| - 1] == Letters(init);
      ToBytesOfLetters(init);
      PositionOfLetter(last);
      assert vs == init + [last];
    }
  }

  lemma LettersInjective(u: Bytes, v: Bytes)
    requires FiveBit(u) && FiveBit(v)
    ensures Letters(u) == Letters(v) <==> u == v
  {
    hide Five, Letters, ToBytes;
    ToBytesOfLetters(u);
    ToBytesOfLetters(v);
  }

  method ReadBytes(chars: string) returns (r: Result<Bytes>)
    ensures r == ToBytes(chars)
  {
    var decoded: Bytes := [];
    for i := 0 to |chars|
      invariant ToBytes(chars[..i]) == Ok(decoded)
    {
      assert chars[..i + 1][..i] == chars[..i];
      var index := Position(chars[i]);
      if index.None? {
        ErrorSticks(chars, i + 1);
        return Err(NonCharsetChar(chars[i]));
      }
      decoded := decoded + [index.value];
    }
    assert chars[..|chars|] == chars;
    return Ok(decoded);
  }

  lemma {:induction false} ErrorSticks(s: string, i: nat)
    requires i <= |s| && ToBytes(s[..i]).Err?
    ensures ToBytes(s) == ToBytes(s[..i])
    decreases |s|
  {
    if i == |s| {
      assert s[..i] == s;
    } else {
      assert s[..|s| - 1][..i] == s[..i];
      ErrorSticks(s[..|s| - 1], i);
    }
  }

  // ---------------------------------------------------------------- letter case

  predicate Printable(c: char) {
    33 <= c as int <= 126
  }

  predicate Upper(c: char) {
    'A' <= c <= 'Z'
  }

  predicate Lower(c: char) {
    'a' <= c <= 'z'
  }

  predicate AllPrintable(s: string) {
    forall k :: 0 <= k < |s| ==> Printable(s[k])
  }

  predicate HasUpper(s: string) {
    exists k :: 0 <= k < |s| && Upper(s[k])
  }

  predicate HasLower(s: string) {
    exists k :: 0 <= k < |s| && Lower(s[k])
  }

  function LowerChar(c: char): char {
    if Upper(c) then (c as int + 32) as char else c
  }

  function ToLower(s: string): (r: string)
    ensures |r| == |s|
    ensures forall k :: 0 <= k < |s| ==> r[k] == LowerChar(s[k])
  {
    seq(|s|, i requires 0 <= i < |s| => LowerChar(s[i]))
  }

  lemma ToLowerFixed(s: string)
    ensures !HasUpper(ToLower(s))
    ensures !HasUpper(s) ==> ToLower(s) == s
    ensures AllPrintable(s) <==> AllPrintable(ToLower(s))
  {
  }

  /** The first reason to refuse a string, reading from the left. */
  function CaseError(s: string): (r: Option<Error>)
    ensures r.Some? ==> r.value.InvalidCharacter? || r.value.MixedCase?
  {
    if s == "" then None
    else match CaseError(s[..|s| - 1])
      case Some(e) => Some(e)
      case None =>
        if !Printable(s[|s| - 1]) then Some(InvalidCharacter(s[|s| - 1]))
        else if HasLower(s) && HasUpper(s) then Some(MixedCase)
        else None
  }

  /** The lowercase string, and whether anything had to be converted. */
  function Normalize(s: string): Result<(string, bool)> {
    match CaseError(s)
    case Some(e) => Err(e)
    case None => if HasUpper(s) then Ok((ToLower(s), true)) else Ok((s, false))
  }

  lemma HasPrefix(s: string, n: nat)
    requires n <= |s|
    ensures HasUpper(s[..n]) ==> HasUpper(s)
    ensures HasLower(s[..n]) ==> HasLower(s)
    ensures AllPrintable(s) ==> AllPrintable(s[..n])
  {
  }

  /** Accepted exactly when printable and of one case, and then simply lowercased. */
  lemma {:induction false} NormalizeAccepts(s: string)
    ensures Normalize(s).Ok? <==> AllPrintable(s) && !(HasLower(s) && HasUpper(s))
    ensures Normalize(s).Ok? ==> Normalize(s).value == (ToLower(s), HasUpper(s))
    decreases |s|
  {
    ToLowerFixed(s);
    if s != "" {
      var init := s[..|s| - 1];
      NormalizeAccepts(init);
      HasPrefix(s, |s| - 1);
      if AllPrintable(init) && Printable(s[|s| - 1]) {
        forall k | 0 <= k < |s| ensures Printable(s[k]) {
          assert k < |s| - 1 ==> s[k] == init[k];
        }
      }
    }
  }

  method NormalizeString(bech: string) returns (r: Result<(string, bool)>)
    ensures r == Normalize(bech)
  {
    var hasLower, hasUpper := false, false;
    for i := 0 to |bech|
      invariant CaseError(bech[..i]).None?
      invariant hasLower == HasLower(bech[..i]) && hasUpper == HasUpper(bech[..i])
    {
      assert bech[..i + 1][..i] == bech[..i];
      if bech[i] as int < 33 || bech[i] as int > 126 {
        CaseErrorSticks(bech, i + 1);
        return Err(InvalidCharacter(bech[i]));
      }
      HasExtend(bech, i);
      hasLower := hasLower || 'a' <= bech[i] <= 'z';
      hasUpper := hasUpper || 'A' <= bech[i] <= 'Z';
      if hasLower && hasUpper {
        CaseErrorSticks(bech, i + 1);
        return Err(MixedCase);
      }
    }
    assert bech[..|bech|] == bech;
    if hasUpper {
      return Ok((ToLower(bech), true));
    }
    return Ok((bech, false));
  }

  lemma HasExtend(s: string, i: nat)
    requires i < |s|
    ensures HasUpper(s[..i + 1]) <==> HasUpper(s[..i]) || Upper(s[i])
    ensures HasLower(s[..i + 1]) <==> HasLower(s[..i]) || Lower(s[i])
  {
  }

  lemma {:induction false} CaseErrorSticks(s: string, i: nat)
    requires i <= |s| && CaseError(s[..i]).Some?
    ensures CaseError(s) == CaseError(s[..i])
    decreases |s|
  {
    if i == |s| {
      assert s[..i] == s;
    } else {
      assert s[..|s| - 1][..i] == s[..i];
      CaseErrorSticks(s[..|s| - 1], i);
    }
  }

  // ---------------------------------------------------------------- decoding

  function LastIndexOf(s: string, c: char): int {
    if s == "" then -1
    else if s[|s| - 1] == c then |s| - 1
    else LastIndexOf(s[..|s| - 1], c)
  }

  /** The last occurrence is the only position with nothing equal to its right. */
  lemma {:induction false} LastIndexSound(s: string, c: char)
    ensures var i := LastIndexOf(s, c);
            -1 <= i < |s| && (i >= 0 ==> s[i] == c) && forall k :: i < k < |s| ==> s[k] != c
    decreases |s|
  {
    if s != "" {
      LastIndexSound(s[..|s| - 1], c);
    }
  }

  function DecodeUnsafe(bech: string): (r: Result<(string, Bytes, Bytes)>)
    ensures r.Ok? ==> |r.value.2| == 6
    ensures r.Err? ==> r.error.InvalidSeparatorIndex? || r.error.NonCharsetChar?
  {
    var one := LastIndexOf(bech, '1');
    if one < 1 || one + 7 > |bech| then Err(InvalidSeparatorIndex(one))
    else
      LastIndexSound(bech, '1');
      var data := bech[one + 1..];
      match ToBytes(data)
      case Err(e) => Err(e)
      case Ok(decoded) =>
        ToBytesSpells(data);
        Ok((bech[..one], decoded[..|decoded| - 6], decoded[|decoded| - 6..]))
  }

  function DecodeNoLimit(bech: string): Result<(string, Bytes)> {
    if |bech| < 8 then Err(InvalidLength(|bech|))
    else match Normalize(bech)
      case Err(e) => Err(e)
      case Ok((normal, _)) =>
        match DecodeUnsafe(normal)
        case Err(e) => Err(e)
        case Ok((hrp, values, checksum)) =>
          if VerifyChecksum(hrp, values, checksum) then Ok((hrp, values))
          else
            NormalizeAccepts(bech);
            Err(InvalidChecksum(Letters(Checksum(hrp, values)), normal[|normal| - 6..]))
  }

  function Decode(bech: string, limit: int): Result<(string, Bytes)> {
    if |bech| > limit then Err(InvalidLength(|bech|)) else DecodeNoLimit(bech)
  }

  /** The decoder on the word checksum. */
  method ReadString(bech: string) returns (r: Result<(string, Bytes)>)
    ensures r == DecodeNoLimit(bech)
  {
    hide Checksum, VerifyChecksum, Five, Letter, CaseError, LastIndexOf, ToBytes;
    if |bech| < 8 {
      return Err(InvalidLength(|bech|));
    }
    var normalized := NormalizeString(bech);
    if normalized.Err? {
      return Err(normalized.error);
    }
    NormalizeAccepts(bech);
    var low := normalized.value.0;
    var one := LastIndexOf(low, '1');
    LastIndexSound(low, '1');
    if one < 1 || one + 7 > |low| {
      return Err(InvalidSeparatorIndex(one));
    }
    var read := ReadBytes(low[one + 1..]);
    if read.Err? {
      return Err(read.error);
    }
    ToBytesSpells(low[one + 1..]);
    var hrp, data := low[..one], read.value;
    var n := |data| - 6;
    var values, checksum := data[..n], data[n..];
    var ok := CheckChecksum(hrp, values, checksum);
    if !ok {
      var expected := ComputeChecksum(hrp, values);
      var letters := WriteChecksum("", expected);
      assert letters == Letters(expected);
      return Err(InvalidChecksum(letters, low[|low| - 6..]));
    }
    return Ok((hrp, values));
  }

  // ---------------------------------------------------------------- encoding

  /** The first value that does not fit in five bits. */
  function BadByte(data: Bytes): (r: Option<Byte>)
    ensures r.None? <==> FiveBit(data)
    ensures r.Some? ==> r.value in data && !Five(r.value)
  {
    if data == [] then None
    else match BadByte(data[..|data| - 1])
      case Some(b) => Some(b)
      case None => if Five(data[|data| - 1]) then None else Some(data[|data| - 1])
  }

  function Encode(hrp: string, data: Bytes): Result<string> {
    match BadByte(data)
    case Some(b) => Err(InvalidDataByte(b))
    case None =>
      var low := ToLower(hrp);
      Ok(low + "1" + Letters(data) + Letters(Checksum(low, data)))
  }

  lemma {:induction false} BadByteSticks(data: Bytes, i: nat)
    requires i <= |data| && BadByte(data[..i]).Some?
    ensures BadByte(data) == BadByte(data[..i])
    decreases |data|
  {
    hide Five;
    if i == |data| {
      assert data[..i] == data;
    } else {
      assert data[..|data| - 1][..i] == data[..i];
      BadByteSticks(data[..|data| - 1], i);
    }
  }

  lemma FirstBad(data: Bytes, i: nat)
    requires i < |data| && FiveBit(data[..i]) && !Five(data[i])
    ensures BadByte(data) == Some(data[i])
  {
    hide Five, FiveBit;
    assert data[..i + 1][..i] == data[..i];
    BadByteSticks(data, i + 1);
  }

  lemma LettersNone()
    ensures FiveBit([]) && Letters([]) == ""
  {
  }

  lemma LettersSnoc(vs: Bytes, v: Byte)
    requires FiveBit(vs) && Five(v)
    ensures FiveBit(vs + [v]) && Letters(vs + [v]) == Letters(vs) + [Letter(v)]
  {
  }

  /** The data loop: appends one letter per value, or stops at the first that is too large. */
  method WriteData(start: string, data: Bytes) returns (r: Result<string>)
    ensures BadByte(data).None? ==> r == Ok(start + Letters(data))
    ensures BadByte(data).Some? ==> r == Err(InvalidDataByte(BadByte(data).value))
  {
    hide Five, FiveBit, BadByte, Letter, Letters;
    var bldr := start;
    LettersNone();
    for i := 0 to |data|
      invariant FiveBit(data[..i])
      invariant bldr == start + Letters(data[..i])
    {
      if !Five(data[i]) {
        FirstBad(data, i);
        return Err(InvalidDataByte(data[i]));
      }
      assert data[..i + 1] == data[..i] + [data[i]];
      LettersSnoc(data[..i], data[i]);
      bldr := bldr + [Letter(data[i])];
    }
    assert data[..|data|] == data;
    return Ok(bldr);
  }

  /** The checksum loop. */
  method WriteChecksum(start: string, c: Bytes) returns (bldr: string)
    requires |c| == 6 && FiveBit(c)
    ensures bldr == start + Letters(c)
  {
    hide Five, Letter;
    bldr := start;
    for i := 0 to 6
      invariant bldr == start + Letters(c)[..i]
    {
      bldr := bldr + [Letter(c[i])];
    }
    assert Letters(c)[..6] == Letters(c);
  }

  method WriteString(hrp: string, data: Bytes) returns (r: Result<string>)
    ensures r == Encode(hrp, data)
  {
    hide FiveBit, Letters, Checksum, ToLower, BadByte;
    var low := ToLower(hrp);
    r := WriteData(low + "1", data);
    if r.Ok? {
      var c := ComputeChecksum(low, data);
      var bldr := WriteChecksum(r.value, c);
      r := Ok(bldr);
    }
  }

  // ---------------------------------------------------------------- the two directions

  lemma LettersClean(vs: Bytes)
    requires FiveBit(vs)
    ensures AllPrintable(Letters(vs)) && !HasUpper(Letters(vs)) && '1' !in Letters(vs)
  {
    forall k | 0 <= k < |vs|
      ensures Printable(Letters(vs)[k]) && !Upper(Letters(vs)[k]) && Letters(vs)[k] != '1'
    {
      assert Five(vs[k]);
      CharsetPrintable(vs[k] as int);
    }
  }

  lemma LettersConcat(u: Bytes, v: Bytes)
    requires FiveBit(u) && FiveBit(v)
    ensures FiveBit(u + v) && Letters(u + v) == Letters(u) + Letters(v)
  {
  }

  /** The separator is found even when the prefix itself contains '1'. */
  lemma SplitAtSeparator(hrp: string, tail: string)
    requires '1' !in tail
    ensures LastIndexOf(hrp + "1" + tail, '1') == |hrp|
  {
    hide LastIndexOf;
    var s := hrp + "1" + tail;
    LastIndexSound(s, '1');
    var i := LastIndexOf(s, '1');
    assert s[|hrp|] == '1';
    forall k | |hrp| < k < |s| ensures s[k] != '1' {
      assert s[k] == tail[k - |hrp| - 1];
    }
  }

  lemma DecodeUnsafeOfParts(hrp: string, values: Bytes, checksum: Bytes)
    requires hrp != "" && FiveBit(values) && FiveBit(checksum) && |checksum| == 6
    ensures DecodeUnsafe(hrp + "1" + Letters(values) + Letters(checksum)) == Ok((hrp, values, checksum))
  {
    hide Five, Letter, ToBytes;
    var all := values + checksum;
    LettersConcat(values, checksum);
    LettersClean(all);
    var s := hrp + "1" + Letters(all);
    assert s == hrp + "1" + Letters(values) + Letters(checksum);
    SplitAtSeparator(hrp, Letters(all));
    ToBytesOfLetters(all);
    assert s[..|hrp|] == hrp;
    assert s[|hrp| + 1..] == Letters(all);
    assert all[..|all| - 6] == values;
    assert all[|all| - 6..] == checksum;
  }

  /** Decode undoes Encode, also for a string whose letters were all turned to upper case. */
  lemma DecodeUndoesEncode(hrp: string, data: Bytes, bech: string)
    requires hrp != "" && AllPrintable(hrp) && FiveBit(data)
    requires Encode(hrp, data) == Ok(ToLower(bech)) && !(HasLower(bech) && HasUpper(bech))
    ensures DecodeNoLimit(bech) == Ok((ToLower(hrp), data))
  {
    hide Five, Checksum, VerifyChecksum;
    var low := ToLower(hrp);
    var c := Checksum(low, data);
    EncodedIsClean(hrp, data);
    ToLowerFixed(bech);
    NormalizeAccepts(bech);
    DecodeUnsafeOfParts(low, data, c);
    ChecksumUnique(low, data, c);
  }

  lemma EncodedIsClean(hrp: string, data: Bytes)
    requires AllPrintable(hrp) && FiveBit(data)
    ensures Encode(hrp, data).Ok? && AllPrintable(Encode(hrp, data).value) && !HasUpper(Encode(hrp, data).value)
  {
    hide Five, Checksum;
    var low := ToLower(hrp);
    var c := Checksum(low, data);
    var s := low + "1" + Letters(data) + Letters(c);
    ToLowerFixed(hrp);
    LettersClean(data);
    LettersClean(c);
    forall k | 0 <= k < |s| ensures Printable(s[k]) && !Upper(s[k]) {
      if k < |low| {
        assert s[k] == low[k];
      } else if k == |low| {
        assert s[k] == '1';
      } else if k <= |low| + |data| {
        assert s[k] == Letters(data)[k - |low| - 1];
      } else {
        assert s[k] == Letters(c)[k - |low| - 1 - |data|];
      }
    }
  }

  lemma DecodeOfEncode(hrp: string, data: Bytes)
    requires hrp != "" && AllPrintable(hrp) && FiveBit(data)
    ensures Encode(hrp, data).Ok? && DecodeNoLimit(Encode(hrp, data).value) == Ok((ToLower(hrp), data))
  {
    EncodedIsClean(hrp, data);
    ToLowerFixed(Encode(hrp, data).value);
    DecodeUndoesEncode(hrp, data, Encode(hrp, data).value);
  }

  /** What DecodeUnsafe accepts is rebuilt from its parts. */
  lemma DecodeUnsafeParts(s: string)
    requires DecodeUnsafe(s).Ok?
    ensures var (hrp, values, checksum) := DecodeUnsafe(s).value;
            hrp != "" && FiveBit(values) && FiveBit(checksum) && |checksum| == 6 &&
            hrp + "1" + Letters(values) + Letters(checksum) == s && Letters(checksum) == s[|s| - 6..]
  {
    hide Five, Letter, ToBytes, LastIndexOf;
    var one := LastIndexOf(s, '1');
    LastIndexSound(s, '1');
    var (hrp, values, checksum) := DecodeUnsafe(s).value;
    ToBytesSpells(s[one + 1..]);
    var decoded := ToBytes(s[one + 1..]).value;
    assert decoded == values + checksum;
    FiveBitSlice(decoded, 0, |decoded| - 6);
    FiveBitSlice(decoded, |decoded| - 6, |decoded|);
    assert decoded[0..|decoded| - 6] == values;
    LettersConcat(values, checksum);
    Rejoin(s, one, Letters(values), Letters(checksum));
  }

  lemma Rejoin(s: string, one: nat, u: string, v: string)
    requires one < |s| && s[one] == '1' && s[one + 1..] == u + v
    ensures s[..one] + "1" + u + v == s && s[|s| - |v|..] == v
  {
    var t := u + v;
    assert t[|u|..] == v;
    assert s[|s| - |v|..] == s[one + 1..][|u|..];
    assert s == s[..one] + "1" + t;
    Associate(s[..one] + "1", u, v);
  }

  lemma Associate(a: string, b: string, c: string)
    ensures a + b + c == a + (b + c)
  {
  }

  /** Every accepted string is the encoding of what it decodes to, up to letter case. */
  lemma AcceptedIsCanonical(bech: string)
    requires DecodeNoLimit(bech).Ok?
    ensures var (hrp, data) := DecodeNoLimit(bech).value;
            hrp != "" && AllPrintable(hrp) && FiveBit(data) && Encode(hrp, data) == Ok(ToLower(bech))
  {
    hide Five, Checksum, VerifyChecksum, Letter, Normalize;
    NormalizeAccepts(bech);
    var low := ToLower(bech);
    var (hrp, values, checksum) := DecodeUnsafe(low).value;
    DecodeUnsafeParts(low);
    ChecksumUnique(hrp, values, checksum);
    ToLowerFixed(bech);
    assert hrp == low[..|hrp|];
    HasPrefix(low, |hrp|);
    ToLowerFixed(hrp);
  }

  /** Decoding returns a prefix and data if and only if they are a lower-case printable prefix and
      five-bit data whose encoding is the string in lower case, and the string is not mixed-case. */
  lemma AcceptedExactly(bech: string, hrp: string, data: Bytes)
    ensures DecodeNoLimit(bech) == Ok((hrp, data)) <==>
            && hrp != "" && AllPrintable(hrp) && !HasUpper(hrp) && FiveBit(data)
            && !(HasLower(bech) && HasUpper(bech)) && Encode(hrp, data) == Ok(ToLower(bech))
  {
    hide Five, Checksum, DecodeNoLimit, Encode, AllPrintable, HasLower, HasUpper;
    ToLowerFixed(hrp);
    if DecodeNoLimit(bech) == Ok((hrp, data)) {
      AcceptedIsCanonical(bech);
      AcceptedPrefix(bech);
    } else if && hrp != "" && AllPrintable(hrp) && FiveBit(data)
              && !(HasLower(bech) && HasUpper(bech)) && Encode(hrp, data) == Ok(ToLower(bech)) {
      DecodeUndoesEncode(hrp, data, bech);
    }
  }

  /** An accepted string has one case, and its prefix is returned in lower case. */
  lemma AcceptedPrefix(bech: string)
    requires DecodeNoLimit(bech).Ok?
    ensures !(HasLower(bech) && HasUpper(bech)) && !HasUpper(DecodeNoLimit(bech).value.0)
  {
    hide Five, Checksum, VerifyChecksum, Letter, Normalize;
    NormalizeAccepts(bech);
    var low := ToLower(bech);
    ToLowerFixed(bech);
    DecodeUnsafeParts(low);
    var hrp := DecodeUnsafe(low).value.0;
    assert hrp == low[..|hrp|];
    HasPrefix(low, |hrp|);
  }

  /** The two checksums quoted in a checksum error always differ. */
  lemma ChecksumErrorIsReal(bech: string)
    requires DecodeNoLimit(bech).Err? && DecodeNoLimit(bech).error.InvalidChecksum?
    ensures var e := DecodeNoLimit(bech).error;
            |e.expected| == |e.actual| == 6 && e.expected != e.actual
  {
    hide Five, Checksum, VerifyChecksum, Letter, DecodeUnsafe, CaseError;
    NormalizeAccepts(bech);
    var low := ToLower(bech);
    var (hrp, values, checksum) := DecodeUnsafe(low).value;
    DecodeUnsafeParts(low);
    ChecksumUnique(hrp, values, checksum);
    LettersInjective(checksum, Checksum(hrp, values));
  }

  // ---------------------------------------------------------------- damaged strings

  /** The strings agree but for the six characters from i on, which stand after the separator of s
      and hold no separator in t. */
  ghost predicate BurstAfterSeparator(s: string, t: string, i: nat) {
    && |t| == |s| && LastIndexOf(s, '1') < i
    && (forall k :: 0 <= k < |s| && !(i <= k < i + 6) ==> s[k] == t[k])
    && (forall k :: i <= k < i + 6 && k < |t| ==> t[k] != '1')
  }

  /** Parts of two strings with one separator position, symbol by symbol. */
  lemma SymbolsOfDecoded(s: string, k: nat)
    requires DecodeUnsafe(s).Ok?
    ensures var (hrp, values, checksum) := DecodeUnsafe(s).value;
            var one := LastIndexOf(s, '1');
            && 1 <= one < |s| && hrp == s[..one] && |values + checksum| == |s| - one - 1 && FiveBit(values + checksum)
            && (k < |values + checksum| ==> Letter((values + checksum)[k]) == s[one + 1 + k])
  {
    hide Five, FiveBit, Letter, Letters, ToBytes, LastIndexOf;
    LastIndexSound(s, '1');
    var one := LastIndexOf(s, '1');
    ToBytesSpells(s[one + 1..]);
    var decoded := ToBytes(s[one + 1..]).value;
    assert decoded == decoded[..|decoded| - 6] + decoded[|decoded| - 6..];
    LetterOf(decoded, k);
  }

  lemma LetterOf(vs: Bytes, k: nat)
    requires FiveBit(vs)
    ensures k < |vs| ==> Five(vs[k]) && Letters(vs)[k] == Letter(vs[k])
  {
  }

  lemma LetterDetermines(u: Byte, v: Byte)
    requires Five(u) && Five(v) && Letter(u) == Letter(v)
    ensures u == v
  {
    PositionOfLetter(u);
    PositionOfLetter(v);
  }

  lemma SameSeparator(s: string, t: string, i: nat)
    requires BurstAfterSeparator(s, t, i) && LastIndexOf(s, '1') >= 0
    ensures LastIndexOf(t, '1') == LastIndexOf(s, '1')
  {
    hide LastIndexOf;
    LastIndexSound(s, '1');
    LastIndexSound(t, '1');
    var one := LastIndexOf(s, '1');
    assert t[one] == '1';
    forall k | one < k < |t| ensures t[k] != '1' {
    }
  }

  /** Damage inside six characters of the lower-case form, at any length. */
  lemma LowerBurstDetected(s: string, t: string, i: nat)
    requires BurstAfterSeparator(s, t, i) && s != t && DecodeUnsafe(s).Ok? && DecodeUnsafe(t).Ok?
    requires var (hrp, values, checksum) := DecodeUnsafe(s).value; VerifyChecksum(hrp, values, checksum)
    ensures var (hrp, values, checksum) := DecodeUnsafe(t).value; !VerifyChecksum(hrp, values, checksum)
  {
    hide VerifyChecksum, DecodeUnsafe, LastIndexOf, Letter, Five, FiveBit;
    var one := LastIndexOf(s, '1');
    SymbolsOfDecoded(s, 0);
    SymbolsOfDecoded(t, 0);
    SameSeparator(s, t, i);
    var (hrp, values, checksum) := DecodeUnsafe(s).value;
    var (hrp', values', checksum') := DecodeUnsafe(t).value;
    assert s[..one] == t[..one];
    forall k | 0 <= k < |values + checksum|
      ensures (values + checksum)[k] == (values' + checksum')[k] <==> s[one + 1 + k] == t[one + 1 + k]
    {
      SameSymbol(s, t, k);
    }
    var d :| 0 <= d < |s| && s[d] != t[d];
    assert (values + checksum)[d - one - 1] != (values' + checksum')[d - one - 1];
    BurstDetected(hrp, values, checksum, values', checksum', i - one - 1);
  }

  lemma SameSymbol(s: string, t: string, k: nat)
    requires DecodeUnsafe(s).Ok? && DecodeUnsafe(t).Ok? && LastIndexOf(s, '1') == LastIndexOf(t, '1') && |s| == |t|
    requires k < |s| - LastIndexOf(s, '1') - 1
    ensures var (_, values, checksum) := DecodeUnsafe(s).value;
            var (_, values', checksum') := DecodeUnsafe(t).value;
            var one := LastIndexOf(s, '1');
            && k < |values + checksum| == |values' + checksum'| && one + 1 + k < |s| && one >= 0
            && ((values + checksum)[k] == (values' + checksum')[k] <==> s[one + 1 + k] == t[one + 1 + k])
  {
    hide DecodeUnsafe, LastIndexOf, Letter;
    SymbolsOfDecoded(s, k);
    SymbolsOfDecoded(t, k);
    var (_, values, checksum) := DecodeUnsafe(s).value;
    var (_, values', checksum') := DecodeUnsafe(t).value;
    if Letter((values + checksum)[k]) == Letter((values' + checksum')[k]) {
      LetterDetermines((values + checksum)[k], (values' + checksum')[k]);
    }
  }

  /** A string that decodes, damaged inside six consecutive characters after its separator, no longer
      decodes, whatever its length; only the letter case may change unnoticed. */
  lemma StringBurstDetected(s: string, t: string, i: nat)
    requires DecodeNoLimit(s).Ok? && BurstAfterSeparator(s, t, i) && ToLower(s) != ToLower(t)
    ensures DecodeNoLimit(t).Err?
  {
    hide VerifyChecksum, DecodeUnsafe, LastIndexOf, Letter, Five, Checksum, CaseError;
    var u, v := ToLower(s), ToLower(t);
    NormalizeAccepts(s);
    NormalizeAccepts(t);
    LowerKeepsSeparator(s);
    assert BurstAfterSeparator(u, v, i);
    if DecodeNoLimit(t).Ok? {
      LowerBurstDetected(u, v, i);
    }
  }

  lemma LowerKeepsSeparator(s: string)
    ensures LastIndexOf(ToLower(s), '1') == LastIndexOf(s, '1')
  {
    hide LastIndexOf;
    LastIndexSound(s, '1');
    LastIndexSound(ToLower(s), '1');
  }
}
