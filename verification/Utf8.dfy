/** UTF-8 text (RFC 3629), and the byte cap on error messages (bin/atlas-mcp.rs). */
module Utf8 {
  import opened Common

  predicate IsContinuation(b: Byte) {
    0x80 <= b < 0xC0
  }

  /** Length of the well-formed encoded scalar at the start of `s`, zero if there is none. */
  function ScalarLength(s: seq<Byte>): (n: nat)
    ensures n <= |s| && n <= 4
    ensures forall i :: 0 < i < n ==> IsContinuation(s[i])
    ensures n > 0 ==> !IsContinuation(s[0])
  {
    if s == [] then 0
    else if s[0] < 0x80 then 1
    else if |s| >= 2 && 0xC2 <= s[0] <= 0xDF && IsContinuation(s[1]) then 2
    else if |s| >= 3 && SecondFits(s) && 0xE0 <= s[0] <= 0xEF && IsContinuation(s[2]) then 3
    else if |s| >= 4 && SecondFits(s) && 0xF0 <= s[0] <= 0xF4 && IsContinuation(s[2]) && IsContinuation(s[3]) then 4
    else 0
  }

  /** The second byte excludes overlong forms, surrogates and values above U+10FFFF. */
  predicate SecondFits(s: seq<Byte>)
    requires |s| >= 2
  {
    && IsContinuation(s[1])
    && (s[0] == 0xE0 ==> s[1] >= 0xA0) && (s[0] == 0xED ==> s[1] < 0xA0)
    && (s[0] == 0xF0 ==> s[1] >= 0x90) && (s[0] == 0xF4 ==> s[1] < 0x90)
  }

  predicate Valid(s: seq<Byte>) {
    s == [] || (ScalarLength(s) > 0 && Valid(s[ScalarLength(s)..]))
  }

  /** Rust's `str::is_char_boundary`. */
  predicate IsBoundary(s: seq<Byte>, i: nat) {
    i == 0 || i == |s| || (i < |s| && !IsContinuation(s[i]))
  }

  // ------------------------------------------- the encoding, from scalar values to bytes

  /** A Unicode scalar value: a code point that is no surrogate. */
  predicate IsScalar(u: int) {
    0 <= u < 0xD800 || 0xE000 <= u < 0x11_0000
  }

  /** RFC 3629, section 3: the bits of the value, six to each byte after the first. */
  function Encoded(u: int): (s: seq<Byte>)
    requires IsScalar(u)
    ensures s != []
  {
    if u < 0x80 then [u]
    else if u < 0x800 then [0xC0 + u / 64, 0x80 + u % 64]
    else if u < 0x1_0000 then [0xE0 + u / 4096, 0x80 + u / 64 % 64, 0x80 + u % 64]
    else [0xF0 + u / 262_144, 0x80 + u / 4096 % 64, 0x80 + u / 64 % 64, 0x80 + u % 64]
  }

  ghost predicate Scalars(us: seq<int>) {
    forall u :: u in us ==> IsScalar(u)
  }

  ghost function EncodedText(us: seq<int>): seq<Byte>
    requires Scalars(us)
  {
    if us == [] then [] else Encoded(us[0]) + EncodedText(us[1..])
  }

  /** Six bits at a time: the value is the sum, and the parts come back by division. */
  lemma SixBits(a: nat, b: nat, c: nat, d: nat)
    requires b < 64 && c < 64 && d < 64
    ensures var u := ((a * 64 + b) * 64 + c) * 64 + d;
            u / 262_144 == a && u / 4096 % 64 == b && u / 64 % 64 == c && u % 64 == d
  {
    var u := ((a * 64 + b) * 64 + c) * 64 + d;
    assert u / 64 == (a * 64 + b) * 64 + c;
    assert u / 4096 == a * 64 + b;
  }

  lemma ScalarIsEncoded(s: seq<Byte>) returns (u: int)
    requires ScalarLength(s) > 0
    ensures IsScalar(u) && Encoded(u) == s[..ScalarLength(s)]
  {
    hide IsScalar, Encoded;
    var n := ScalarLength(s);
    if n == 1 {
      u := s[0];
      OneEncoded(u);
    } else if n == 2 {
      u := TwoDecoded(s[0] - 0xC0, s[1] - 0x80);
    } else if n == 3 {
      u := ThreeDecoded(s[0] - 0xE0, s[1] - 0x80, s[2] - 0x80);
    } else {
      u := FourDecoded(s[0] - 0xF0, s[1] - 0x80, s[2] - 0x80, s[3] - 0x80);
    }
  }

  lemma OneEncoded(u: int)
    requires 0 <= u < 0x80
    ensures IsScalar(u) && Encoded(u) == [u]
  {
  }

  lemma TwoDecoded(a: nat, b: nat) returns (u: int)
    requires 2 <= a < 32 && b < 64
    ensures IsScalar(u) && Encoded(u) == [0xC0 + a, 0x80 + b]
  {
    u := a * 64 + b;
    SixBits(0, 0, a, b);
  }

  lemma ThreeDecoded(a: nat, b: nat, c: nat) returns (u: int)
    requires a < 16 && b < 64 && c < 64 && (a == 0 ==> b >= 32) && (a == 13 ==> b < 32)
    ensures IsScalar(u) && Encoded(u) == [0xE0 + a, 0x80 + b, 0x80 + c]
  {
    u := (a * 64 + b) * 64 + c;
    SixBits(0, a, b, c);
  }

  lemma FourDecoded(a: nat, b: nat, c: nat, d: nat) returns (u: int)
    requires a < 5 && b < 64 && c < 64 && d < 64 && (a == 0 ==> b >= 16) && (a == 4 ==> b < 16)
    ensures IsScalar(u) && Encoded(u) == [0xF0 + a, 0x80 + b, 0x80 + c, 0x80 + d]
  {
    u := ((a * 64 + b) * 64 + c) * 64 + d;
    SixBits(a, b, c, d);
  }

  lemma EncodedIsScalar(u: int, rest: seq<Byte>)
    requires IsScalar(u)
    ensures ScalarLength(Encoded(u) + rest) == |Encoded(u)|
  {
  }

  /** Text is valid exactly when it encodes some scalar values, one after the other. */
  lemma ValidIff(s: seq<Byte>)
    ensures Valid(s) <==> exists us :: Scalars(us) && EncodedText(us) == s
  {
    if Valid(s) {
      var us := ScalarsOf(s);
    }
    if us :| Scalars(us) && EncodedText(us) == s {
      EncodedIsValid(us);
    }
  }

  lemma {:induction false} ScalarsOf(s: seq<Byte>) returns (us: seq<int>)
    requires Valid(s)
    ensures Scalars(us) && EncodedText(us) == s
  {
    us := [];
    if s != [] {
      var n := ScalarLength(s);
      var u := ScalarIsEncoded(s);
      var rest := ScalarsOf(s[n..]);
      us := [u] + rest;
      assert us[1..] == rest;
    }
  }

  lemma {:induction false} EncodedIsValid(us: seq<int>)
    requires Scalars(us)
    ensures Valid(EncodedText(us))
  {
    if us != [] {
      var rest := EncodedText(us[1..]);
      EncodedIsValid(us[1..]);
      EncodedIsScalar(us[0], rest);
      assert (Encoded(us[0]) + rest)[|Encoded(us[0])|..] == rest;
    }
  }

  lemma ScalarLengthOfPrefix(s: seq<Byte>, k: nat)
    requires k <= |s|
    ensures ScalarLength(s) > 0 && ScalarLength(s) <= k ==> ScalarLength(s[..k]) == ScalarLength(s)
    ensures k < ScalarLength(s) ==> ScalarLength(s[..k]) == 0
  {
  }

  /** In valid text, the valid prefixes are exactly those cut at a boundary. */
  lemma {:induction false} ValidPrefixIffBoundary(s: seq<Byte>, k: nat)
    requires Valid(s) && k <= |s|
    ensures Valid(s[..k]) <==> IsBoundary(s, k)
  {
    if 0 < k < |s| {
      var n := ScalarLength(s);
      ScalarLengthOfPrefix(s, k);
      if n <= k {
        ValidPrefixIffBoundary(s[n..], k - n);
        assert s[..k][n..] == s[n..][..k - n];
      }
    } else {
      assert s[..|s|] == s;
    }
  }

  const MAX_ERROR_BYTES := 1024

  /** `capped_additive_error`: the longest valid prefix of at most 1024 bytes. */
  method CappedAdditiveError(message: seq<Byte>) returns (r: seq<Byte>)
    requires Valid(message)
    ensures r <= message && Valid(r) && |r| <= MAX_ERROR_BYTES
    ensures forall k :: |r| < k <= |message| && k <= MAX_ERROR_BYTES ==> !Valid(message[..k])
    ensures |message| <= MAX_ERROR_BYTES ==> r == message
    ensures |message| > MAX_ERROR_BYTES ==> |r| >= MAX_ERROR_BYTES - 3
  {
    if |message| <= MAX_ERROR_BYTES {
      return message;
    }
    var end: nat := MAX_ERROR_BYTES;
    while !IsBoundary(message, end)
      invariant end <= MAX_ERROR_BYTES
      invariant forall k: nat :: end < k <= MAX_ERROR_BYTES ==> !IsBoundary(message, k)
      decreases end
    {
      end := end - 1;
    }
    forall k | 0 <= k <= |message| ensures Valid(message[..k]) <==> IsBoundary(message, k) {
      ValidPrefixIffBoundary(message, k);
    }
    BoundaryIsNear(message, MAX_ERROR_BYTES);
    return message[..end];
  }

  /** A scalar has at most three continuation bytes. */
  lemma {:induction false} BoundaryIsNear(s: seq<Byte>, k: nat)
    requires Valid(s) && 3 <= k < |s|
    ensures IsBoundary(s, k) || IsBoundary(s, k - 1) || IsBoundary(s, k - 2) || IsBoundary(s, k - 3)
  {
    var n := ScalarLength(s);
    if n + 3 <= k {
      BoundaryIsNear(s[n..], k - n);
    } else if n <= k {
      assert n < |s| ==> !IsContinuation(s[n..][0]);
    }
  }
}
