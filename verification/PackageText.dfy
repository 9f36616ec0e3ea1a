/** Text equivalence and self-describing records of the package gate
    (scripts/check-distribution-readiness.py). */
module PackageText {
  import opened Common
  import opened Decimal
  import Utf8

  const LF: Byte := 10
  const CR: Byte := 13

  // ------------------------------------------------------------ line endings

  /** `s.replace(b"\r\n", with)`: leftmost, non-overlapping. */
  function ReplacePairs(s: seq<Byte>, with: seq<Byte>): seq<Byte> {
    if |s| < 2 then s
    else if s[0] == CR && s[1] == LF then with + ReplacePairs(s[2..], with)
    else [s[0]] + ReplacePairs(s[1..], with)
  }

  /** Every LF becomes CR LF. */
  function ToCrlf(s: seq<Byte>): seq<Byte> {
    if s == [] then [] else (if s[0] == LF then [CR, LF] else [s[0]]) + ToCrlf(s[1..])
  }

  /** `package_bytes_equivalent`, for a path whose policy pins LF or not. */
  predicate BytesEquivalent(indexed: seq<Byte>, observed: seq<Byte>, lfPolicy: bool) {
    observed == indexed
    || (lfPolicy && Utf8.Valid(indexed) && Utf8.Valid(observed)
        && 0 !in indexed && 0 !in observed && CR !in indexed
        && (var withoutPairs := ReplacePairs(observed, []);
            CR !in withoutPairs && LF !in withoutPairs)
        && ReplacePairs(observed, [LF]) == indexed)
  }

  lemma {:induction false} PairsOfCrlf(s: seq<Byte>)
    requires CR !in s
    ensures ReplacePairs(ToCrlf(s), [LF]) == s
    ensures CR !in ReplacePairs(ToCrlf(s), []) && LF !in ReplacePairs(ToCrlf(s), [])
  {
    if s != [] {
      PairsOfCrlf(s[1..]);
      var rest := ToCrlf(s[1..]);
      if s[0] == LF {
        assert ([CR, LF] + rest)[2..] == rest;
      } else {
        assert ([s[0]] + rest)[1..] == rest;
      }
    }
  }

  lemma {:induction false} CrlfOfPairs(s: seq<Byte>)
    requires CR !in ReplacePairs(s, []) && LF !in ReplacePairs(s, [])
    ensures ToCrlf(ReplacePairs(s, [LF])) == s
  {
    if |s| >= 2 {
      if s[0] == CR && s[1] == LF {
        assert ReplacePairs(s, []) == ReplacePairs(s[2..], []);
        CrlfOfPairs(s[2..]);
        assert ReplacePairs(s, [LF])[1..] == ReplacePairs(s[2..], [LF]);
        assert s == [CR, LF] + s[2..];
      } else {
        assert ReplacePairs(s, [])[1..] == ReplacePairs(s[1..], []);
        CrlfOfPairs(s[1..]);
        assert ReplacePairs(s, [LF])[1..] == ReplacePairs(s[1..], [LF]);
        assert s == [s[0]] + s[1..];
      }
    } else if |s| == 1 {
      assert s[0] in ReplacePairs(s, []);
    }
  }

  lemma {:induction false} CrlfKeepsBytes(s: seq<Byte>)
    ensures forall b :: b != CR && b in ToCrlf(s) ==> b in s
    ensures forall b :: b in s ==> b in ToCrlf(s)
  {
    if s != [] {
      CrlfKeepsBytes(s[1..]);
    }
  }

  lemma {:induction false} CrlfKeepsUtf8(s: seq<Byte>)
    ensures Utf8.Valid(s) ==> Utf8.Valid(ToCrlf(s))
  {
    if s != [] && Utf8.Valid(s) {
      var n := Utf8.ScalarLength(s);
      CrlfKeepsUtf8(s[n..]);
      CrlfOfScalar(s, n);
      var rest := ToCrlf(s[n..]);
      if s[0] == LF {
        assert ([CR, LF] + rest)[1..] == [LF] + rest && ([LF] + rest)[1..] == rest;
      } else {
        assert (s[..n] + rest)[n..] == rest;
        Utf8.ScalarLengthOfPrefix(s, n);
        Utf8.ScalarLengthOfPrefix(s[..n] + rest, n);
        assert (s[..n] + rest)[..n] == s[..n];
      }
    }
  }

  lemma {:induction false} CrlfOfPlain(s: seq<Byte>, n: nat)
    requires n <= |s| && LF !in s[..n]
    ensures ToCrlf(s) == s[..n] + ToCrlf(s[n..])
  {
    if n > 0 {
      assert s[0] == s[..n][0] && s[1..][..n - 1] == s[..n][1..];
      CrlfOfPlain(s[1..], n - 1);
      assert s[..n] == [s[0]] + s[1..][..n - 1];
    }
  }

  lemma CrlfOfScalar(s: seq<Byte>, n: nat)
    requires s != [] && n == Utf8.ScalarLength(s) > 0
    ensures s[0] == LF ==> n == 1 && ToCrlf(s) == [CR, LF] + ToCrlf(s[n..])
    ensures s[0] != LF ==> ToCrlf(s) == s[..n] + ToCrlf(s[n..])
  {
    if s[0] != LF {
      CrlfOfPlain(s, n);
    }
  }

  /** Equivalence is equality, or, for LF text without NUL or CR, exact conversion of
      every line end: no mixed endings, no stray CR or LF. */
  lemma EquivalentIffCrlfConversion(indexed: seq<Byte>, observed: seq<Byte>, lfPolicy: bool)
    ensures BytesEquivalent(indexed, observed, lfPolicy) <==>
              observed == indexed
              || (lfPolicy && Utf8.Valid(indexed) && 0 !in indexed && CR !in indexed && observed == ToCrlf(indexed))
  {
    if BytesEquivalent(indexed, observed, lfPolicy) && observed != indexed {
      CrlfOfPairs(observed);
    }
    if CR !in indexed && observed == ToCrlf(indexed) {
      PairsOfCrlf(indexed);
      CrlfKeepsBytes(indexed);
      CrlfKeepsUtf8(indexed);
    }
  }

  // ------------------------------------------------------ self-describing records

  predicate Describes(length: nat, record: seq<Byte>) {
    |Numeral(length)| + |record| == length
  }

  /** `pax_record`: the loop that finds a length counting its own digits. `characters` is
      `len(record)`, which counts characters and so at most the encoded bytes. */
  method PaxRecord(record: seq<Byte>, characters: nat) returns (r: seq<Byte>)
    requires characters <= |record|
    ensures r == Numeral(|r|) + record
    // Its length is the least that describes itself.
    ensures forall l: nat :: l < |r| ==> !Describes(l, record)
  {
    var candidateLength := characters;
    while true
      invariant candidateLength <= |Numeral(candidateLength)| + |record|
      invariant candidateLength <= 2 * |record| + 10
      invariant forall l: nat :: Describes(l, record) ==> candidateLength <= l
      decreases 2 * |record| + 10 - candidateLength
    {
      var candidate := Numeral(candidateLength) + record;
      if |candidate| == candidateLength {
        return candidate;
      }
      NumeralLengthGrows(candidateLength, |candidate|);
      NumeralLengthGrows(candidateLength, 2 * |record| + 10);
      NumeralIsShort(2 * |record| + 10);
      forall l: nat | Describes(l, record) ensures |candidate| <= l {
        NumeralLengthGrows(candidateLength, l);
      }
      candidateLength := |candidate|;
    }
  }

  /** The length is not unique: 97 bytes are described both by 99 and by 100. */
  lemma TwoLengthsCanDescribe(record: seq<Byte>)
    requires |record| == 97
    ensures Describes(99, record) && Describes(100, record)
  {
    assert |Numeral(99)| == 2;
    assert |Numeral(100)| == 3 by { assert Numeral(100) == Numeral(10) + [0x30]; }
  }
}
