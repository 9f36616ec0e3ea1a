/** The byte-accounting tar reader of the package gate (scripts/check-distribution-readiness.py). */
module Tar {
  import opened Common
  import Utf8

  const BLOCK := 512
  const MAX_OUTPUT := 1_048_576
  const SPACE: Byte := 0x20

  function Zeros(n: nat): seq<Byte> {
    Repeat<Byte>(0, n)
  }

  // ---------------------------------------------------------- octal numbers

  predicate IsOctalDigit(b: Byte) {
    0x30 <= b <= 0x37
  }

  function OctalValue(s: seq<Byte>): nat
    requires forall b :: b in s ==> IsOctalDigit(b)
  {
    if s == [] then 0
    else
      assert IsOctalDigit(s[|s| - 1]);
      8 * OctalValue(s[..|s| - 1]) + (s[|s| - 1] as int - 0x30)
  }

  function Pow8(n: nat): nat {
    if n == 0 then 1 else 8 * Pow8(n - 1)
  }

  /** Python's zero-filled `{n:0<digits>o}` for a number that fits. */
  function OctalDigits(n: nat, digits: nat): (s: seq<Byte>)
    ensures |s| == digits
    ensures forall b :: b in s ==> IsOctalDigit(b)
  {
    if digits == 0 then [] else OctalDigits(n / 8, digits - 1) + [0x30 + n % 8]
  }

  function OctalField(n: nat, digits: nat): (s: seq<Byte>)
    ensures |s| == digits + 1
  {
    OctalDigits(n, digits) + [0]
  }

  /** `canonical_tar_octal` */
  function CanonicalOctal(field: seq<Byte>, digits: nat): Option<nat> {
    if |field| == digits + 1 && field[digits] == 0 && digits > 0
       && (forall b :: b in field[..digits] ==> IsOctalDigit(b))
    then Some(OctalValue(field[..digits])) else None
  }

  lemma {:induction false} OctalRoundTrip(n: nat, digits: nat)
    requires n < Pow8(digits)
    ensures OctalValue(OctalDigits(n, digits)) == n
  {
    if digits > 0 {
      OctalRoundTrip(n / 8, digits - 1);
      assert OctalDigits(n, digits)[..digits - 1] == OctalDigits(n / 8, digits - 1);
    }
  }

  lemma {:induction false} OctalUnique(s: seq<Byte>)
    requires forall b :: b in s ==> IsOctalDigit(b)
    ensures OctalDigits(OctalValue(s), |s|) == s && OctalValue(s) < Pow8(|s|)
  {
    if s != [] {
      OctalUnique(s[..|s| - 1]);
      assert IsOctalDigit(s[|s| - 1]);
      var d := s[|s| - 1] as int - 0x30;
      assert (8 * OctalValue(s[..|s| - 1]) + d) / 8 == OctalValue(s[..|s| - 1]);
      assert (8 * OctalValue(s[..|s| - 1]) + d) % 8 == d;
    }
  }

  /** A field is accepted as `n` exactly when it is the canonical spelling of `n`. */
  lemma CanonicalOctalIff(field: seq<Byte>, digits: nat, n: nat)
    requires digits > 0
    ensures CanonicalOctal(field, digits) == Some(n) <==> n < Pow8(digits) && field == OctalField(n, digits)
  {
    if CanonicalOctal(field, digits) == Some(n) {
      OctalUnique(field[..digits]);
      assert field == field[..digits] + [field[digits]];
    }
    if n < Pow8(digits) && field == OctalField(n, digits) {
      OctalRoundTrip(n, digits);
      assert field[..digits] == OctalDigits(n, digits);
    }
  }

  predicate AllOctal(s: seq<Byte>) {
    forall b :: b in s ==> IsOctalDigit(b)
  }

  lemma OctalParts(s: seq<Byte>, i: nat)
    requires AllOctal(s) && i <= |s|
    ensures AllOctal(s[..i]) && AllOctal(s[i..]) && forall j :: 0 <= j < |s| ==> IsOctalDigit(s[j])
  {
  }

  lemma OctalLast(s: seq<Byte>, d: Byte)
    requires AllOctal(s) && IsOctalDigit(d)
    ensures AllOctal(s + [d]) && OctalValue(s + [d]) == 8 * OctalValue(s) + (d as int - 0x30)
  {
    assert (s + [d])[..|s|] == s;
  }

  /** The value of octal digits, from the first digit on: each counts eight times the next. */
  lemma {:induction false} OctalValueTells(d: Byte, s: seq<Byte>)
    requires IsOctalDigit(d) && AllOctal(s)
    ensures AllOctal([d] + s) && OctalValue([d] + s) == (d as int - 0x30) * Pow8(|s|) + OctalValue(s)
    decreases |s|
  {
    hide AllOctal, OctalValue;
    if s == [] {
      NoDigits();
      OctalLast([], d);
      assert [d] + s == [] + [d];
    } else {
      var n := |s| - 1;
      OctalParts(s, n);
      var front, last := s[..n], s[n];
      OctalValueTells(d, front);
      OctalLast([d] + front, last);
      OctalLast(front, last);
      assert s == front + [last] && [d] + s == [d] + front + [last];
      EightTimes(d as int - 0x30, Pow8(n), OctalValue(front));
    }
  }

  lemma NoDigits()
    ensures AllOctal([]) && OctalValue([]) == 0
  {
  }

  lemma EightTimes(d: int, p: int, v: int)
    ensures 8 * (d * p + v) == d * (8 * p) + 8 * v
  {
  }

  // ------------------------------------------------------------------ text

  /** Text before the first NUL, and the whole field if there is none. */
  function UpToNul(field: seq<Byte>): (r: seq<Byte>)
    ensures r <= field && 0 !in r
    ensures |r| < |field| ==> field[|r|] == 0
  {
    if field == [] || field[0] == 0 then [] else [field[0]] + UpToNul(field[1..])
  }

  function TextField(text: seq<Byte>, width: nat): (s: seq<Byte>)
    requires |text| <= width
    ensures |s| == width
  {
    text + Zeros(width - |text|)
  }

  /** `canonical_tar_string` */
  function CanonicalString(field: seq<Byte>): Option<seq<Byte>> {
    var text := UpToNul(field);
    if |text| < |field| && field == TextField(text, |field|) && Utf8.Valid(text) then Some(text) else None
  }

  lemma {:induction false} UpToNulOfTextField(text: seq<Byte>, rest: seq<Byte>)
    requires 0 !in text && rest != [] && rest[0] == 0
    ensures UpToNul(text + rest) == text
  {
    if text == [] {
      assert text + rest == rest;
    } else {
      assert (text + rest)[1..] == text[1..] + rest;
      UpToNulOfTextField(text[1..], rest);
    }
  }

  lemma CanonicalStringIff(field: seq<Byte>, text: seq<Byte>)
    ensures CanonicalString(field) == Some(text) <==>
              |text| < |field| && 0 !in text && Utf8.Valid(text) && field == TextField(text, |field|)
  {
    if |text| < |field| && 0 !in text && field == TextField(text, |field|) {
      UpToNulOfTextField(text, Zeros(|field| - |text|));
    }
  }

  // -------------------------------------------------------------- checksums

  function Sum(s: seq<Byte>): nat {
    if s == [] then 0 else s[0] + Sum(s[1..])
  }

  lemma {:induction false} SumAppend(a: seq<Byte>, b: seq<Byte>)
    ensures Sum(a + b) == Sum(a) + Sum(b)
  {
    if a == [] {
      assert a + b == b;
    } else {
      assert (a + b)[1..] == a[1..] + b;
      SumAppend(a[1..], b);
    }
  }

  lemma {:induction false} SumBound(s: seq<Byte>)
    ensures Sum(s) <= 255 * |s|
  {
    if s != [] {
      SumBound(s[1..]);
    }
  }

  /** The checksum the gate computes: the stored field counts as eight spaces. */
  function Checksum(header: seq<Byte>): nat
    requires |header| == BLOCK
  {
    Sum(header[..148]) + 8 * SPACE + Sum(header[156..])
  }

  lemma ChecksumFitsSevenDigits(header: seq<Byte>)
    requires |header| == BLOCK
    ensures Checksum(header) < Pow8(7)
  {
    SumBound(header[..148]);
    SumBound(header[156..]);
    assert Pow8(7) == 2_097_152 by {
      assert Pow8(4) == 4096;
    }
  }

  function WithChecksum(header: seq<Byte>): (r: seq<Byte>)
    requires |header| == BLOCK
    ensures |r| == BLOCK
  {
    header[..148] + OctalField(Checksum(header), 7) + header[156..]
  }

  /** It is the one block that agrees with the header outside the checksum field and carries
      its own checksum in it. */
  lemma WithChecksumIff(header: seq<Byte>, other: seq<Byte>)
    requires |header| == BLOCK && |other| == BLOCK
    ensures other == WithChecksum(header)
            <==> other[..148] == header[..148] && other[156..] == header[156..]
                 && CanonicalOctal(other[148..156], 7) == Some(Checksum(other))
  {
    hide CanonicalOctal, OctalField, Sum;
    if other[..148] == header[..148] && other[156..] == header[156..] {
      assert Checksum(other) == Checksum(header);
      ChecksumFitsSevenDigits(header);
      CanonicalOctalIff(other[148..156], 7, Checksum(header));
      assert other == other[..148] + other[148..156] + other[156..];
      assert other[148..156] == OctalField(Checksum(header), 7) ==> other == WithChecksum(header);
    }
    if other == WithChecksum(header) {
      assert |OctalField(Checksum(header), 7)| == 8;
      assert other[148..156] == OctalField(Checksum(header), 7);
    }
  }

  /** `raw_header_with_checksum`: blank the field with spaces, then store the sum. */
  method RawHeaderWithChecksum(header: array<Byte>) returns (r: seq<Byte>)
    requires header.Length == BLOCK
    modifies header
    ensures header[..] == WithChecksum(old(header[..])) && r == header[..]
  {
    ghost var before := header[..];
    Store(header, 148, Repeat<Byte>(SPACE, 8));
    SumOfBlanked(before, header[..]);
    ChecksumFitsSevenDigits(before);
    var total := Sum(header[..]);
    Store(header, 148, OctalField(total, 7));
    assert header[..] == WithChecksum(before);
    r := header[..];
  }

  method Store(header: array<Byte>, at: nat, bytes: seq<Byte>)
    requires at + |bytes| <= header.Length
    modifies header
    ensures header[..] == old(header[..at]) + bytes + old(header[at + |bytes|..])
  {
    for i := 0 to |bytes|
      invariant header[at..at + i] == bytes[..i]
      invariant header[..at] == old(header[..at]) && header[at + i..] == old(header[at + i..])
    {
      header[at + i] := bytes[i];
    }
    assert header[..] == header[..at] + header[at..at + |bytes|] + header[at + |bytes|..];
  }

  lemma SumOfBlanked(header: seq<Byte>, blanked: seq<Byte>)
    requires |header| == BLOCK && blanked == header[..148] + Repeat<Byte>(SPACE, 8) + header[156..]
    ensures Sum(blanked) == Checksum(header)
  {
    SumAppend(header[..148] + Repeat<Byte>(SPACE, 8), header[156..]);
    SumAppend(header[..148], Repeat<Byte>(SPACE, 8));
    SumOfRepeat(SPACE, 8);
  }

  lemma {:induction false} SumOfRepeat(b: Byte, n: nat)
    ensures Sum(Repeat(b, n)) == b * n
  {
    if n > 0 {
      assert Repeat(b, n)[1..] == Repeat(b, n - 1);
      SumOfRepeat(b, n - 1);
    }
  }

  // ---------------------------------------------------------------- headers

  const SLASH: Byte := 0x2F
  const BACKSLASH: Byte := 0x5C
  const DOT: Byte := 0x2E
  const ZERO_DIGIT: Byte := 0x30
  const MODE: seq<Byte> := [0x30, 0x30, 0x30, 0x30, 0x36, 0x34, 0x34, 0]
  const USTAR: seq<Byte> := [0x75, 0x73, 0x74, 0x61, 0x72, SPACE]
  const VERSION: seq<Byte> := [SPACE, 0]

  /** The two accepted spellings of a zero owner or device number. */
  datatype ZeroField = Blank | Digits

  function ZeroBytes(z: ZeroField): (s: seq<Byte>)
    ensures |s| == 8
  {
    if z.Blank? then Zeros(8) else Repeat(ZERO_DIGIT, 7) + [0]
  }

  function ParseZeros(field: seq<Byte>): Option<ZeroField> {
    if field == ZeroBytes(Blank) then Some(Blank)
    else if field == ZeroBytes(Digits) then Some(Digits)
    else None
  }

  datatype Header = Header(name: seq<Byte>, uid: ZeroField, gid: ZeroField, size: nat, mtime: nat,
                           major: ZeroField, minor: ZeroField)

  // ------------------------------------------------------------------ paths

  function SplitSlash(s: seq<Byte>): (parts: seq<seq<Byte>>)
    ensures parts != []
  {
    if s == [] then [[]]
    else
      var rest := SplitSlash(s[1..]);
      if s[0] == SLASH then [[]] + rest else [[s[0]] + rest[0]] + rest[1..]
  }

  function Meaningful(parts: seq<seq<Byte>>): seq<seq<Byte>> {
    if parts == [] then []
    else (if parts[0] == [] || parts[0] == [DOT] then [] else [parts[0]]) + Meaningful(parts[1..])
  }

  function JoinSlash(parts: seq<seq<Byte>>): seq<Byte> {
    if parts == [] then []
    else if |parts| == 1 then parts[0]
    else parts[0] + [SLASH] + JoinSlash(parts[1..])
  }

  /** `PurePosixPath(s).as_posix()`: a root of one or exactly two slashes is kept, empty
      and dot components vanish, and nothing at all is a dot. */
  function PosixText(s: seq<Byte>): seq<Byte> {
    var root := if [SLASH, SLASH] <= s && !([SLASH, SLASH, SLASH] <= s) then [SLASH, SLASH]
                else if [SLASH] <= s then [SLASH] else [];
    var text := root + JoinSlash(Meaningful(SplitSlash(s)));
    if text == [] then [DOT] else text
  }

  predicate CanonicalPath(name: seq<Byte>, prefix: seq<Byte>) {
    && BACKSLASH !in name && prefix <= name
    && name[|prefix|..] != [] && PosixText(name[|prefix|..]) == name[|prefix|..]
  }

  /** A component of a path begins at `i`, and is neither empty nor a dot. */
  predicate BeginsComponent(s: seq<Byte>, i: nat) {
    i < |s| && s[i] != SLASH && (s[i] == DOT ==> i + 1 < |s| && s[i + 1] != SLASH)
  }

  /** Components, with one slash between each two. */
  predicate CleanBody(s: seq<Byte>) {
    BeginsComponent(s, 0) && forall i :: 0 <= i < |s| && s[i] == SLASH ==> BeginsComponent(s, i + 1)
  }

  /** A canonical spelling: a dot alone, or none, one or two slashes and then components; after a
      slash or two there may be nothing more. */
  predicate CleanPath(s: seq<Byte>) {
    || s == [DOT]
    || CleanBody(s)
    || (|s| > 0 && s[0] == SLASH && (s[1..] == [] || CleanBody(s[1..])))
    || (|s| > 1 && s[0] == s[1] == SLASH && (s[2..] == [] || CleanBody(s[2..])))
  }

  /** The gate's rule for a member's name, in its bytes. */
  predicate CleanName(name: seq<Byte>, prefix: seq<Byte>) {
    && (forall i :: 0 <= i < |name| ==> name[i] != BACKSLASH)
    && |prefix| <= |name| && (forall i :: 0 <= i < |prefix| ==> name[i] == prefix[i])
    && CleanPath(name[|prefix|..])
  }

  predicate GoodPart(part: seq<Byte>) {
    part != [] && part != [DOT]
  }

  predicate AllGood(parts: seq<seq<Byte>>) {
    forall p :: p in parts ==> GoodPart(p)
  }

  /** Every slash is followed by a component. */
  predicate CleanTail(s: seq<Byte>) {
    forall i :: 0 <= i < |s| && s[i] == SLASH ==> BeginsComponent(s, i + 1)
  }

  lemma FirstPart(s: seq<Byte>)
    ensures GoodPart(SplitSlash(s)[0]) <==> BeginsComponent(s, 0)
  {
    if s != [] && s[0] != SLASH {
      var rest := s[1..];
      var first := SplitSlash(rest)[0];
      assert SplitSlash(s)[0] == [s[0]] + first && |[s[0]] + first| == 1 + |first|;
      assert first == [] <==> rest == [] || rest[0] == SLASH;
      assert first == [] ==> [s[0]] + first == [s[0]];
    }
  }

  lemma TailShifts(s: seq<Byte>)
    requires s != []
    ensures CleanTail(s) <==> CleanTail(s[1..]) && (s[0] == SLASH ==> BeginsComponent(s[1..], 0))
  {
    var rest := s[1..];
    forall i | 0 <= i < |rest| && rest[i] == SLASH
      ensures BeginsComponent(rest, i + 1) <==> BeginsComponent(s, i + 2)
    {
    }
    if CleanTail(rest) && (s[0] == SLASH ==> BeginsComponent(rest, 0)) {
      forall i | 0 <= i < |s| && s[i] == SLASH
        ensures BeginsComponent(s, i + 1)
      {
        if i > 0 {
          assert rest[i - 1] == SLASH;
        }
      }
    }
    if CleanTail(s) {
      forall i | 0 <= i < |rest| && rest[i] == SLASH
        ensures BeginsComponent(rest, i + 1)
      {
        assert s[i + 1] == SLASH;
      }
    }
  }

  lemma {:induction false} TailIsGood(s: seq<Byte>)
    ensures AllGood(SplitSlash(s)[1..]) <==> CleanTail(s)
  {
    if s != [] {
      var rest := s[1..];
      TailIsGood(rest);
      TailShifts(s);
      hide CleanTail;
      if s[0] == SLASH {
        FirstPart(rest);
        assert SplitSlash(s)[1..] == SplitSlash(rest) == [SplitSlash(rest)[0]] + SplitSlash(rest)[1..];
      } else {
        assert SplitSlash(s)[1..] == SplitSlash(rest)[1..];
      }
    }
  }

  /** The parts between slashes are all good exactly in a clean body. */
  lemma PartsAreGood(s: seq<Byte>)
    ensures AllGood(SplitSlash(s)) <==> CleanBody(s)
  {
    TailIsGood(s);
    FirstPart(s);
    var parts := SplitSlash(s);
    assert parts == [parts[0]] + parts[1..];
  }

  lemma {:induction false} JoinOfSplit(s: seq<Byte>)
    ensures JoinSlash(SplitSlash(s)) == s
  {
    if s != [] {
      var rest := SplitSlash(s[1..]);
      JoinOfSplit(s[1..]);
      if s[0] == SLASH {
        assert ([[]] + rest)[1..] == rest;
        assert [] + [SLASH] + JoinSlash(rest) == [SLASH] + s[1..];
      } else {
        var parts := [[s[0]] + rest[0]] + rest[1..];
        assert parts[1..] == rest[1..];
        if |rest| > 1 {
          assert JoinSlash(parts) == [s[0]] + (rest[0] + [SLASH] + JoinSlash(rest[1..]));
        }
      }
    }
  }

  lemma {:induction false} GoodPartsStay(parts: seq<seq<Byte>>)
    ensures AllGood(parts) <==> Meaningful(parts) == parts
    ensures !AllGood(parts) ==> |Meaningful(parts)| < |parts|
    ensures |Meaningful(parts)| <= |parts|
  {
    if parts != [] {
      GoodPartsStay(parts[1..]);
      assert parts == [parts[0]] + parts[1..];
      assert AllGood(parts) <==> GoodPart(parts[0]) && AllGood(parts[1..]);
      if GoodPart(parts[0]) && Meaningful(parts) == parts {
        assert Meaningful(parts)[1..] == Meaningful(parts[1..]);
      }
    }
  }

  /** The length of the parts with one slash after each. */
  function Spread(parts: seq<seq<Byte>>): nat {
    if parts == [] then 0 else |parts[0]| + 1 + Spread(parts[1..])
  }

  lemma {:induction false} JoinLength(parts: seq<seq<Byte>>)
    ensures |JoinSlash(parts)| == if parts == [] then 0 else Spread(parts) - 1
  {
    if |parts| > 1 {
      JoinLength(parts[1..]);
    }
  }

  lemma {:induction false} MeaningfulSpread(parts: seq<seq<Byte>>)
    ensures Spread(Meaningful(parts)) + (|parts| - |Meaningful(parts)|) <= Spread(parts)
    ensures |Meaningful(parts)| <= |parts|
  {
    if parts != [] {
      MeaningfulSpread(parts[1..]);
      if GoodPart(parts[0]) {
        assert Meaningful(parts)[1..] == Meaningful(parts[1..]);
      } else {
        assert [] + Meaningful(parts[1..]) == Meaningful(parts[1..]);
      }
    }
  }

  /** Dropping what is not good shortens the text, unless there was nothing. */
  lemma CleaningShortens(s: seq<Byte>)
    ensures JoinSlash(Meaningful(SplitSlash(s))) == s <==> s == [] || CleanBody(s)
    ensures |JoinSlash(Meaningful(SplitSlash(s)))| <= |s|
  {
    hide CleanBody, AllGood;
    var parts := SplitSlash(s);
    JoinOfSplit(s);
    PartsAreGood(s);
    GoodPartsStay(parts);
    JoinLength(parts);
    JoinLength(Meaningful(parts));
    MeaningfulSpread(parts);
  }

  /** Slashes in front make empty parts, which vanish. */
  lemma {:induction false} LeadingSlashesVanish(s: seq<Byte>, n: nat)
    requires n <= |s| && forall i :: 0 <= i < n ==> s[i] == SLASH
    ensures Meaningful(SplitSlash(s)) == Meaningful(SplitSlash(s[n..]))
  {
    if n == 0 {
      assert s[0..] == s;
    } else {
      LeadingSlashesVanish(s[1..], n - 1);
      assert s[1..][n - 1..] == s[n..];
      assert ([[]] + SplitSlash(s[1..]))[1..] == SplitSlash(s[1..]);
      assert [] + Meaningful(SplitSlash(s[1..])) == Meaningful(SplitSlash(s[1..]));
    }
  }

  lemma SlashIsNoBody(s: seq<Byte>)
    requires s != [] && s[0] == SLASH
    ensures !CleanBody(s)
  {
  }

  /** `PurePosixPath` spells a text as it is exactly when it is a clean path. */
  lemma PosixTextIff(s: seq<Byte>)
    requires s != []
    ensures PosixText(s) == s <==> CleanPath(s)
  {
    hide CleanBody;
    if s[0] != SLASH {
      UnrootedIff(s);
    } else if |s| == 1 || s[1] != SLASH {
      assert [SLASH] <= s && !([SLASH, SLASH] <= s);
      RootedIff(s, 1);
    } else if |s| == 2 || s[2] != SLASH {
      assert [SLASH, SLASH] <= s && !([SLASH, SLASH, SLASH] <= s);
      RootedIff(s, 2);
    } else {
      assert [SLASH] <= s && [SLASH, SLASH, SLASH] <= s;
      LeadingSlashesVanish(s, 3);
      CleaningShortens(s[3..]);
      SlashIsNoBody(s);
      SlashIsNoBody(s[1..]);
      SlashIsNoBody(s[2..]);
    }
  }

  lemma UnrootedIff(s: seq<Byte>)
    requires s != [] && s[0] != SLASH
    ensures PosixText(s) == s <==> CleanPath(s)
  {
    hide CleanBody;
    assert !([SLASH] <= s) && !([SLASH, SLASH] <= s);
    CleaningShortens(s);
    var text := JoinSlash(Meaningful(SplitSlash(s)));
    assert [] + text == text;
    if s == [DOT] {
      DotIsNothing(s);
    }
  }

  lemma DotIsNothing(s: seq<Byte>)
    requires s == [DOT]
    ensures JoinSlash(Meaningful(SplitSlash(s))) == []
  {
    assert s[1..] == [] && SplitSlash(s[1..]) == [[]];
    assert SplitSlash(s) == [[DOT] + []] + [] && [DOT] + [] == [DOT];
    assert [[DOT]][1..] == [];
  }

  lemma RootedIff(s: seq<Byte>, n: nat)
    requires 0 < n <= 2 && n <= |s| && (forall i :: 0 <= i < n ==> s[i] == SLASH) && (n < |s| ==> s[n] != SLASH)
    ensures s[..n] + JoinSlash(Meaningful(SplitSlash(s))) == s <==> CleanPath(s)
    ensures s[..n] == if n == 1 then [SLASH] else [SLASH, SLASH]
  {
    hide CleanBody;
    LeadingSlashesVanish(s, n);
    CleaningShortens(s[n..]);
    assert s == s[..n] + s[n..];
    SlashIsNoBody(s);
    if n == 2 {
      SlashIsNoBody(s[1..]);
    } else if |s| > 1 {
      assert s[1] != SLASH;
    }
    assert forall text: seq<Byte> :: s[..n] + text == s ==> text == (s[..n] + text)[n..] == s[n..];
  }

  /** The gate's rule for names, in bytes. */
  lemma CanonicalPathIff(name: seq<Byte>, prefix: seq<Byte>)
    ensures CanonicalPath(name, prefix) <==> CleanName(name, prefix)
  {
    hide PosixText, CleanBody;
    if prefix <= name && name[|prefix|..] != [] {
      PosixTextIff(name[|prefix|..]);
      hide CleanPath;
      assert prefix == name[..|prefix|];
    }
    if CleanName(name, prefix) {
      assert name[..|prefix|] == prefix;
      NothingIsNoPath();
    }
  }

  lemma NothingIsNoPath()
    ensures !CleanPath([])
  {
  }

  // --------------------------------------------------- parsing a header block

  /** The checks made on one header block (`validate_cargo_tar_header`, and those of the
      loop in `raw_tar_paths` that look only at the header). */
  function ParseHeader(block: seq<Byte>, prefix: seq<Byte>): Option<Header>
    requires |block| == BLOCK
  {
    var name := CanonicalString(block[..100]);
    var uid := ParseZeros(block[108..116]);
    var gid := ParseZeros(block[116..124]);
    var size := CanonicalOctal(block[124..136], 11);
    var mtime := CanonicalOctal(block[136..148], 11);
    var checksum := CanonicalOctal(block[148..156], 7);
    var major := ParseZeros(block[329..337]);
    var minor := ParseZeros(block[337..345]);
    if name.None? || block[100..108] != MODE || uid.None? || gid.None? then None
    else if size.None? || mtime.None? || checksum.None? || block[157..257] != Zeros(100) then None
    else if block[257..263] != USTAR || block[263..265] != VERSION || block[265..329] != Zeros(64) then None
    else if major.None? || minor.None? || block[345..500] != Zeros(155) || block[500..] != Zeros(12) then None
    else if checksum.value != Checksum(block) || block[156] != ZERO_DIGIT then None
    else if !CanonicalPath(name.value, prefix) || size.value > MAX_OUTPUT then None
    else Some(Header(name.value, uid.value, gid.value, size.value, mtime.value, major.value, minor.value))
  }

  predicate WellFormed(h: Header, prefix: seq<Byte>) {
    && |h.name| < 100 && 0 !in h.name && Utf8.Valid(h.name) && CleanName(h.name, prefix)
    && h.size <= MAX_OUTPUT && h.mtime < Pow8(11)
  }

  function Front(h: Header): (s: seq<Byte>)
    requires |h.name| < 100
    ensures |s| == 148
  {
    TextField(h.name, 100) + MODE + ZeroBytes(h.uid) + ZeroBytes(h.gid) + OctalField(h.size, 11)
        + OctalField(h.mtime, 11)
  }

  function Back(h: Header): (s: seq<Byte>)
    ensures |s| == 356
  {
    [ZERO_DIGIT] + Zeros(100) + USTAR + VERSION + Zeros(64) + ZeroBytes(h.major) + ZeroBytes(h.minor)
      + Zeros(155) + Zeros(12)
  }

  /** The canonical block of a header, its checksum stored by `WithChecksum`. */
  function EncodeHeader(h: Header): (block: seq<Byte>)
    requires |h.name| < 100
    ensures |block| == BLOCK
  {
    WithChecksum(Front(h) + Zeros(8) + Back(h))
  }

  lemma FrontCut(p: seq<Byte>, a: seq<Byte>, b: seq<Byte>, c: seq<Byte>, d: seq<Byte>, e: seq<Byte>, f: seq<Byte>)
    requires |p| == 148 && |a| == 100 && |b| == |c| == |d| == 8 && |e| == |f| == 12
    ensures p == a + b + c + d + e + f <==>
              p[..100] == a && p[100..108] == b && p[108..116] == c && p[116..124] == d && p[124..136] == e
                  && p[136..] == f
  {
    var q := a + b + c + d + e + f;
    assert q[..100] == a && q[100..108] == b && q[108..116] == c && q[116..124] == d && q[124..136] == e
           && q[136..] == f;
    assert p == p[..100] + p[100..108] + p[108..116] + p[116..124] + p[124..136] + p[136..];
  }

  lemma BackCut(p: seq<Byte>, t: seq<Byte>, l: seq<Byte>, u: seq<Byte>, v: seq<Byte>, o: seq<Byte>,
                a: seq<Byte>, b: seq<Byte>, x: seq<Byte>, y: seq<Byte>)
    requires |p| == 356 && |t| == 1 && |l| == 100 && |u| == 6 && |v| == 2 && |o| == 64
    requires |a| == |b| == 8 && |x| == 155 && |y| == 12
    ensures p == t + l + u + v + o + a + b + x + y <==>
              p[..1] == t && p[1..101] == l && p[101..107] == u && p[107..109] == v && p[109..173] == o
              && p[173..181] == a && p[181..189] == b && p[189..344] == x && p[344..] == y
  {
    var q := t + l + u + v + o + a + b + x + y;
    assert q[..1] == t && q[1..101] == l && q[101..107] == u && q[107..109] == v && q[109..173] == o;
    assert q[173..181] == a && q[181..189] == b && q[189..344] == x && q[344..] == y;
    assert p == p[..1] + p[1..101] + p[101..107] + p[107..109] + p[109..173] + p[173..181] + p[181..189]
                + p[189..344] + p[344..];
  }

  predicate FrontParses(block: seq<Byte>, h: Header)
    requires |block| == BLOCK
  {
    && CanonicalString(block[..100]) == Some(h.name) && block[100..108] == MODE
    && ParseZeros(block[108..116]) == Some(h.uid) && ParseZeros(block[116..124]) == Some(h.gid)
    && CanonicalOctal(block[124..136], 11) == Some(h.size) && CanonicalOctal(block[136..148], 11) == Some(h.mtime)
  }

  predicate BackParses(block: seq<Byte>, h: Header)
    requires |block| == BLOCK
  {
    && block[156] == ZERO_DIGIT && block[157..257] == Zeros(100) && block[257..263] == USTAR
    && block[263..265] == VERSION && block[265..329] == Zeros(64)
    && ParseZeros(block[329..337]) == Some(h.major) && ParseZeros(block[337..345]) == Some(h.minor)
    && block[345..500] == Zeros(155) && block[500..] == Zeros(12)
  }

  lemma ParseZerosIff(field: seq<Byte>, z: ZeroField)
    ensures ParseZeros(field) == Some(z) <==> field == ZeroBytes(z)
  {
    assert ZeroBytes(Blank)[0] != ZeroBytes(Digits)[0];
  }

  lemma FrontIff(block: seq<Byte>, h: Header)
    requires |block| == BLOCK
    ensures FrontParses(block, h) <==>
              (|h.name| < 100 && 0 !in h.name && Utf8.Valid(h.name) && h.size < Pow8(11) && h.mtime < Pow8(11)
               && block[..148] == Front(h))
  {
    hide CanonicalString, CanonicalOctal, ParseZeros, UpToNul, Utf8.Valid, OctalField, ZeroBytes;
    CanonicalStringIff(block[..100], h.name);
    ParseZerosIff(block[108..116], h.uid);
    ParseZerosIff(block[116..124], h.gid);
    CanonicalOctalIff(block[124..136], 11, h.size);
    CanonicalOctalIff(block[136..148], 11, h.mtime);
    var p := block[..148];
    assert p[..100] == block[..100] && p[100..108] == block[100..108] && p[108..116] == block[108..116];
    assert p[116..124] == block[116..124] && p[124..136] == block[124..136] && p[136..] == block[136..148];
    if |h.name| < 100 {
      FrontCut(p, TextField(h.name, 100), MODE, ZeroBytes(h.uid), ZeroBytes(h.gid), OctalField(h.size, 11),
               OctalField(h.mtime, 11));
    }
  }

  lemma BackIff(block: seq<Byte>, h: Header)
    requires |block| == BLOCK
    ensures BackParses(block, h) <==> block[156..] == Back(h)
  {
    hide ParseZeros, ZeroBytes, Repeat;
    ParseZerosIff(block[329..337], h.major);
    ParseZerosIff(block[337..345], h.minor);
    var p := block[156..];
    assert p[..1] == [block[156]] && p[1..101] == block[157..257] && p[101..107] == block[257..263];
    assert p[107..109] == block[263..265] && p[109..173] == block[265..329] && p[173..181] == block[329..337];
    assert p[181..189] == block[337..345] && p[189..344] == block[345..500] && p[344..] == block[500..];
    BackCut(p, [ZERO_DIGIT], Zeros(100), USTAR, VERSION, Zeros(64), ZeroBytes(h.major), ZeroBytes(h.minor),
            Zeros(155), Zeros(12));
  }

  lemma ParseHeaderParts(block: seq<Byte>, prefix: seq<Byte>, h: Header)
    requires |block| == BLOCK
    ensures ParseHeader(block, prefix) == Some(h) <==>
              (FrontParses(block, h) && BackParses(block, h)
               && CanonicalOctal(block[148..156], 7) == Some(Checksum(block))
               && CanonicalPath(h.name, prefix) && h.size <= MAX_OUTPUT)
  {
    hide CanonicalString, CanonicalOctal, ParseZeros, CanonicalPath, Checksum, Repeat;
  }

  /** A header block is accepted as `h` exactly when it is the canonical block of `h`. */
  lemma HeaderIff(block: seq<Byte>, prefix: seq<Byte>, h: Header)
    requires |block| == BLOCK
    ensures ParseHeader(block, prefix) == Some(h) <==> WellFormed(h, prefix) && block == EncodeHeader(h)
  {
    hide ParseHeader, FrontParses, BackParses, CanonicalPath, CleanName, Utf8.Valid, Front, Back, Sum, OctalField;
    CanonicalPathIff(h.name, prefix);
    ParseHeaderParts(block, prefix, h);
    FrontIff(block, h);
    BackIff(block, h);
    CanonicalOctalIff(block[148..156], 7, Checksum(block));
    ChecksumFitsSevenDigits(block);
    assert MAX_OUTPUT < Pow8(11) by { assert Pow8(7) == 2_097_152 by { assert Pow8(4) == 4096; } }
    if |h.name| < 100 {
      var e := Front(h) + Zeros(8) + Back(h);
      assert e[..148] == Front(h) && e[156..] == Back(h);
      var x := EncodeHeader(h);
      assert x[..148] == Front(h) && x[156..] == Back(h) && x[148..156] == OctalField(Checksum(e), 7);
      assert block == block[..148] + block[148..156] + block[156..];
    }
  }

  /** A number field in octal: digits and a final NUL. */
  predicate SpellsOctal(field: seq<Byte>, n: nat) {
    && |field| > 1 && field[|field| - 1] == 0
    && var digits := field[..|field| - 1];
       (forall b :: b in digits ==> IsOctalDigit(b)) && OctalValue(digits) == n
  }

  /** An owner or device number that is zero. */
  predicate SpellsZero(field: seq<Byte>) {
    && |field| == 8
    && ((forall b :: b in field ==> b == 0) || ((forall b :: b in field[..7] ==> b == 0x30) && field[7] == 0))
  }

  predicate AllZero(field: seq<Byte>) {
    forall b :: b in field ==> b == 0
  }

  /** What an accepted header block says, at its places. */
  predicate BlockTells(block: seq<Byte>, h: Header, prefix: seq<Byte>)
    requires |block| == BLOCK
  {
    && |h.name| < 100 && block[..|h.name|] == h.name && AllZero(block[|h.name|..100]) && 0 !in h.name
    && CleanName(h.name, prefix)
    && block[100..108] == [0x30, 0x30, 0x30, 0x30, 0x36, 0x34, 0x34, 0]
    && SpellsZero(block[108..116]) && SpellsZero(block[116..124])
    && SpellsOctal(block[124..136], h.size) && h.size <= 0x10_0000 && SpellsOctal(block[136..148], h.mtime)
    && SpellsOctal(block[148..156], Sum(block[..148] + Repeat(0x20, 8) + block[156..]))
    && block[156] == 0x30 && AllZero(block[157..257])
    && block[257..265] == [0x75, 0x73, 0x74, 0x61, 0x72, 0x20, 0x20, 0] && AllZero(block[265..329])
    && SpellsZero(block[329..337]) && SpellsZero(block[337..345]) && AllZero(block[345..512])
  }

  lemma ZeroFieldTells(field: seq<Byte>)
    ensures ParseZeros(field).Some? ==> SpellsZero(field)
  {
  }

  lemma OctalTells(field: seq<Byte>, digits: nat)
    ensures CanonicalOctal(field, digits).Some? ==> SpellsOctal(field, CanonicalOctal(field, digits).value)
  {
    hide OctalValue;
  }

  lemma TextTells(field: seq<Byte>)
    ensures CanonicalString(field).Some? ==>
              var text := CanonicalString(field).value;
              |text| < |field| && field[..|text|] == text && AllZero(field[|text|..]) && 0 !in text
  {
    hide Utf8.Valid;
    if CanonicalString(field).Some? {
      var text := CanonicalString(field).value;
      assert field[|text|..] == Zeros(|field| - |text|);
    }
  }

  lemma ChecksumTells(block: seq<Byte>)
    requires |block| == BLOCK
    ensures Checksum(block) == Sum(block[..148] + Repeat(0x20, 8) + block[156..])
  {
    SumAppend(block[..148] + Repeat(0x20, 8), block[156..]);
    SumAppend(block[..148], Repeat(0x20, 8));
    SumOfRepeat(0x20, 8);
  }

  /** An accepted header block has its name, its numbers and its checksum at their places, and
      nothing else. */
  lemma AcceptedBlockTells(block: seq<Byte>, prefix: seq<Byte>)
    requires |block| == BLOCK && ParseHeader(block, prefix).Some?
    ensures BlockTells(block, ParseHeader(block, prefix).value, prefix)
  {
    hide CanonicalString, CanonicalOctal, ParseZeros, CanonicalPath, Checksum, Sum, CleanName, SpellsOctal, SpellsZero,
         OctalValue;
    var h := ParseHeader(block, prefix).value;
    TextTells(block[..100]);
    CanonicalPathIff(h.name, prefix);
    ZeroFieldTells(block[108..116]);
    ZeroFieldTells(block[116..124]);
    ZeroFieldTells(block[329..337]);
    ZeroFieldTells(block[337..345]);
    OctalTells(block[124..136], 11);
    OctalTells(block[136..148], 11);
    OctalTells(block[148..156], 7);
    ChecksumTells(block);
    NamePlaces(block, h.name);
    assert block[257..265] == block[257..263] + block[263..265];
    assert block[345..512] == block[345..500] + block[500..];
  }

  lemma NamePlaces(block: seq<Byte>, name: seq<Byte>)
    requires |block| == BLOCK
    ensures |name| < 100 ==> block[..100][..|name|] == block[..|name|] && block[..100][|name|..] == block[|name|..100]
  {
  }

  // ---------------------------------------------------------------- archives

  datatype Entry = Entry(header: Header, data: seq<Byte>)

  predicate Writable(e: Entry, prefix: seq<Byte>) {
    WellFormed(e.header, prefix) && |e.data| == e.header.size
  }

  function Padded(size: nat): (n: nat)
    ensures size <= n < size + BLOCK && n % BLOCK == 0
  {
    ((size + 511) / 512) * 512
  }

  function EncodeEntry(e: Entry): seq<Byte>
    requires |e.header.name| < 100
  {
    EncodeHeader(e.header) + e.data + Zeros(Padded(|e.data|) - |e.data|)
  }

  /** The canonical archive: each entry's header, data and zero padding, then two zero blocks. */
  function EncodeArchive(entries: seq<Entry>, prefix: seq<Byte>): seq<Byte>
    requires forall e :: e in entries ==> Writable(e, prefix)
  {
    if entries == [] then Zeros(BLOCK) + Zeros(BLOCK)
    else
      assert Writable(entries[0], prefix);
      EncodeEntry(entries[0]) + EncodeArchive(entries[1..], prefix)
  }

  function Names(entries: seq<Entry>): (names: seq<seq<Byte>>)
    ensures |names| == |entries|
    ensures forall i :: 0 <= i < |entries| ==> names[i] == entries[i].header.name
  {
    seq(|entries|, i requires 0 <= i < |entries| => entries[i].header.name)
  }

  /** The member at the start of `rest`: its header and where it ends. */
  function FirstMember(rest: seq<Byte>, prefix: seq<Byte>): (r: Option<(Header, nat)>)
    requires |rest| >= BLOCK
    ensures r.Some? ==> BLOCK <= r.value.1 <= |rest|
  {
    match ParseHeader(rest[..BLOCK], prefix)
    case None => None
    case Some(h) =>
      var end := BLOCK + Padded(h.size);
      if end > |rest| || rest[BLOCK + h.size..end] != Zeros(end - BLOCK - h.size) then None else Some((h, end))
  }

  /** What the loop does with the rest of the archive, after `zeroBlocks` zero blocks. */
  function ParseFrom(rest: seq<Byte>, zeroBlocks: nat, prefix: seq<Byte>): Option<seq<seq<Byte>>>
    decreases |rest|
  {
    if rest == [] then (if zeroBlocks >= 2 then Some([]) else None)
    else if |rest| < BLOCK then None
    else if rest[..BLOCK] == Zeros(BLOCK) then
      (if zeroBlocks + 1 <= 2 then ParseFrom(rest[BLOCK..], zeroBlocks + 1, prefix) else None)
    else if zeroBlocks != 0 then None
    else match FirstMember(rest, prefix)
      case None => None
      case Some((h, end)) => Prepend([h.name], ParseFrom(rest[end..], 0, prefix))
  }

  /** The loop body, past the zero-block tests: the member whose header is at `offset`. */
  method ReadMember(raw: seq<Byte>, offset: nat, prefix: seq<Byte>) returns (r: Option<(seq<Byte>, nat)>)
    requires offset + BLOCK <= |raw|
    ensures r == match FirstMember(raw[offset..], prefix)
                 case None => None
                 case Some((h, end)) => Some((h.name, offset + end))
  {
    hide ParseHeader;
    var rest := raw[offset..];
    assert rest[..BLOCK] == raw[offset..offset + BLOCK];
    var parsed := ParseHeader(raw[offset..offset + BLOCK], prefix);
    if parsed.None? {
      return None;
    }
    var size := parsed.value.size;
    var paddedSize := Padded(size);
    var data := offset + BLOCK;
    if data + paddedSize > |raw| {
      return None;
    }
    assert rest[BLOCK + size..BLOCK + paddedSize] == raw[data + size..data + paddedSize];
    if raw[data + size..data + paddedSize] != Zeros(paddedSize - size) {
      return None;
    }
    return Some((parsed.value.name, data + paddedSize));
  }

  /** `raw_tar_paths`: the loop over an advancing offset. */
  method RawTarPaths(raw: seq<Byte>, prefix: seq<Byte>) returns (r: Option<seq<seq<Byte>>>)
    ensures r == ParseFrom(raw, 0, prefix)
    ensures r.Some? ==> forall path :: path in r.value ==> CleanName(path, prefix)
  {
    ParsedNamesAreClean(raw, prefix);
    hide CleanName;
    hide FirstMember;
    var paths: seq<seq<Byte>> := [];
    var offset := 0;
    var zeroBlocks := 0;
    assert raw[offset..] == raw;
    ghost var all := ParseFrom(raw, 0, prefix);
    assert all.Some? ==> paths + all.value == all.value;
    while offset < |raw|
      invariant offset <= |raw|
      invariant all == Prepend(paths, ParseFrom(raw[offset..], zeroBlocks, prefix))
    {
      var rest := raw[offset..];
      if offset + BLOCK > |raw| {
        return None;
      }
      var header := raw[offset..offset + BLOCK];
      assert rest[..BLOCK] == header && rest[BLOCK..] == raw[offset + BLOCK..];
      if header == Zeros(BLOCK) {
        zeroBlocks := zeroBlocks + 1;
        if zeroBlocks > 2 {
          return None;
        }
        offset := offset + BLOCK;
      } else {
        if zeroBlocks != 0 {
          return None;
        }
        var member := ReadMember(raw, offset, prefix);
        if member.None? {
          return None;
        }
        var (name, end) := member.value;
        assert rest[end - offset..] == raw[end..];
        PrependName(paths, name, ParseFrom(raw[end..], 0, prefix));
        paths := paths + [name];
        offset := end;
      }
    }
    assert raw[offset..] == [];
    if zeroBlocks < 2 {
      return None;
    }
    assert paths + [] == paths;
    return Some(paths);
  }

  lemma ParsedNamesAreClean(raw: seq<Byte>, prefix: seq<Byte>)
    ensures ParseFrom(raw, 0, prefix).Some? ==>
              forall path :: path in ParseFrom(raw, 0, prefix).value ==> CleanName(path, prefix)
  {
    hide ParseFrom, CleanName, EncodeArchive;
    if ParseFrom(raw, 0, prefix).Some? {
      var entries := AcceptedArchiveIsCanonical(raw, prefix);
      forall path | path in Names(entries)
        ensures CleanName(path, prefix)
      {
        var i :| 0 <= i < |entries| && Names(entries)[i] == path;
        assert Writable(entries[i], prefix);
      }
    }
  }

  function Prepend(paths: seq<seq<Byte>>, rest: Option<seq<seq<Byte>>>): Option<seq<seq<Byte>>> {
    match rest case Some(more) => Some(paths + more) case None => None
  }

  lemma PrependName(paths: seq<seq<Byte>>, name: seq<Byte>, rest: Option<seq<seq<Byte>>>)
    ensures Prepend(paths, Prepend([name], rest)) == Prepend(paths + [name], rest)
  {
    if rest.Some? {
      assert paths + ([name] + rest.value) == paths + [name] + rest.value;
    }
  }

  lemma HeaderIsNotZero(h: Header)
    requires |h.name| < 100
    ensures EncodeHeader(h) != Zeros(BLOCK)
  {
    assert Front(h)[100] == MODE[0];
    assert EncodeHeader(h)[100] == Front(h)[100];
  }

  lemma EncodedEntryParses(e: Entry, more: seq<Byte>, prefix: seq<Byte>)
    requires Writable(e, prefix)
    ensures ParseFrom(EncodeEntry(e) + more, 0, prefix) == Prepend([e.header.name], ParseFrom(more, 0, prefix))
  {
    hide ParseHeader, CleanName, Utf8.Valid, EncodeHeader;
    var raw := EncodeEntry(e) + more;
    var block := EncodeHeader(e.header);
    var size := e.header.size;
    HeaderIff(block, prefix, e.header);
    HeaderIsNotZero(e.header);
    assert raw[..BLOCK] == block;
    assert raw[BLOCK + size..BLOCK + Padded(size)] == Zeros(Padded(size) - size);
    assert raw[BLOCK + Padded(size)..] == more;
  }

  lemma ZeroBlocksEnd(prefix: seq<Byte>)
    ensures ParseFrom(Zeros(BLOCK) + Zeros(BLOCK), 0, prefix) == Some([])
  {
    hide ParseHeader;
    var two := Zeros(BLOCK) + Zeros(BLOCK);
    assert two[..BLOCK] == Zeros(BLOCK) && two[BLOCK..] == Zeros(BLOCK);
    assert Zeros(BLOCK)[..BLOCK] == Zeros(BLOCK) && Zeros(BLOCK)[BLOCK..] == [];
    assert ParseFrom([], 2, prefix) == Some([]);
    assert ParseFrom(Zeros(BLOCK), 1, prefix) == Some([]);
  }

  /** Reading inverts writing. */
  lemma {:induction false} WrittenArchiveParses(entries: seq<Entry>, prefix: seq<Byte>)
    requires forall e :: e in entries ==> Writable(e, prefix)
    ensures ParseFrom(EncodeArchive(entries, prefix), 0, prefix) == Some(Names(entries))
  {
    hide ParseFrom, Writable, EncodeEntry;
    if entries == [] {
      ZeroBlocksEnd(prefix);
    } else {
      EncodedEntryParses(entries[0], EncodeArchive(entries[1..], prefix), prefix);
      WrittenArchiveParses(entries[1..], prefix);
      assert Names(entries) == [entries[0].header.name] + Names(entries[1..]);
    }
  }

  lemma EndIsTwoBlocks(rest: seq<Byte>, zeroBlocks: nat, prefix: seq<Byte>)
    requires 1 <= zeroBlocks <= 2 && ParseFrom(rest, zeroBlocks, prefix).Some?
    ensures ParseFrom(rest, zeroBlocks, prefix) == Some([])
    ensures rest == if zeroBlocks == 2 then [] else Zeros(BLOCK)
  {
    hide ParseHeader;
    if zeroBlocks == 1 {
      EndIsTwoBlocks(rest[BLOCK..], 2, prefix);
      assert rest == rest[..BLOCK] + rest[BLOCK..];
    }
  }

  /** Whatever is accepted was written canonically: every byte is accounted for. */
  lemma {:induction false} AcceptedArchiveIsCanonical(raw: seq<Byte>, prefix: seq<Byte>) returns (entries: seq<Entry>)
    requires ParseFrom(raw, 0, prefix).Some?
    ensures forall e :: e in entries ==> Writable(e, prefix)
    ensures raw == EncodeArchive(entries, prefix) && ParseFrom(raw, 0, prefix) == Some(Names(entries))
  {
    hide ParseHeader, Writable, EncodeEntry, FirstMember, Padded;
    var block := raw[..BLOCK];
    if block == Zeros(BLOCK) {
      entries := [];
      EndIsTwoBlocks(raw[BLOCK..], 1, prefix);
      assert raw == block + raw[BLOCK..];
    } else {
      var e := FirstEntry(raw, prefix);
      var end := BLOCK + Padded(e.header.size);
      var more := AcceptedArchiveIsCanonical(raw[end..], prefix);
      hide ParseFrom;
      entries := [e] + more;
      assert entries[1..] == more;
      assert Names(entries) == [e.header.name] + Names(more);
    }
  }

  /** An accepted archive that is not at its end starts with a canonical entry. */
  lemma FirstEntry(raw: seq<Byte>, prefix: seq<Byte>) returns (e: Entry)
    requires ParseFrom(raw, 0, prefix).Some? && raw[..BLOCK] != Zeros(BLOCK)
    ensures Writable(e, prefix)
    ensures var end := BLOCK + Padded(e.header.size);
            end <= |raw| && raw == EncodeEntry(e) + raw[end..]
            && ParseFrom(raw, 0, prefix) == Prepend([e.header.name], ParseFrom(raw[end..], 0, prefix))
  {
    hide ParseHeader, CleanName, Utf8.Valid, EncodeHeader;
    var h := ParseHeader(raw[..BLOCK], prefix).value;
    HeaderIff(raw[..BLOCK], prefix, h);
    var end := BLOCK + Padded(h.size);
    e := Entry(h, raw[BLOCK..BLOCK + h.size]);
    assert raw == raw[..BLOCK] + e.data + raw[BLOCK + h.size..end] + raw[end..];
  }

  /** The gate accepts `raw` with these paths exactly when `raw` is a canonical archive of
      entries with these names. */
  lemma AcceptsExactlyCanonicalArchives(raw: seq<Byte>, prefix: seq<Byte>, paths: seq<seq<Byte>>)
    ensures ParseFrom(raw, 0, prefix) == Some(paths) <==>
              exists entries: seq<Entry> :: (forall e :: e in entries ==> Writable(e, prefix))
                && raw == EncodeArchive(entries, prefix) && paths == Names(entries)
  {
    hide ParseFrom, EncodeArchive, Writable;
    if ParseFrom(raw, 0, prefix) == Some(paths) {
      var entries := AcceptedArchiveIsCanonical(raw, prefix);
      assert raw == EncodeArchive(entries, prefix) && paths == Names(entries);
    }
    forall entries: seq<Entry> | (forall e :: e in entries ==> Writable(e, prefix))
           && raw == EncodeArchive(entries, prefix)
      ensures ParseFrom(raw, 0, prefix) == Some(Names(entries))
    {
      WrittenArchiveParses(entries, prefix);
    }
  }
}
