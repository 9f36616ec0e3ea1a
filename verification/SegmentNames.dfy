/** Names of segment files, and which names count as segments (scripts/process-tree-memory.py). */
module SegmentNames {
  import opened Common
  import opened Decimal

  type Name = seq<Byte>

  const MAX_SEGMENTS := 1024
  const DASH: Byte := 0x2D
  const SLASH: Byte := 0x2F
  const BACKSLASH: Byte := 0x5C
  /** ".ndjson" */
  const SUFFIX: Name := [0x2E, 0x6E, 0x64, 0x6A, 0x73, 0x6F, 0x6E]
  /** "-memory-raw-v2" */
  const GENERATION: Name := [0x2D, 0x6D, 0x65, 0x6D, 0x6F, 0x72, 0x79, 0x2D, 0x72, 0x61, 0x77, 0x2D, 0x76, 0x32]

  const MAX_RAW_BYTES := 512 * 1024 * 1024
  /** "-memory-summary-v1.json", "-memory-summary-v2.json" and "-memory-raw-v1.ndjson" */
  const SUMMARY_V1: Name := [0x2D, 0x6D, 0x65, 0x6D, 0x6F, 0x72, 0x79, 0x2D, 0x73, 0x75, 0x6D, 0x6D, 0x61, 0x72, 0x79,
                             0x2D, 0x76, 0x31, 0x2E, 0x6A, 0x73, 0x6F, 0x6E]
  const SUMMARY_V2: Name := [0x2D, 0x6D, 0x65, 0x6D, 0x6F, 0x72, 0x79, 0x2D, 0x73, 0x75, 0x6D, 0x6D, 0x61, 0x72, 0x79,
                             0x2D, 0x76, 0x32, 0x2E, 0x6A, 0x73, 0x6F, 0x6E]
  const RAW_V1: Name := [0x2D, 0x6D, 0x65, 0x6D, 0x6F, 0x72, 0x79, 0x2D, 0x72, 0x61, 0x77, 0x2D, 0x76, 0x31, 0x2E,
                         0x6E, 0x64, 0x6A, 0x73, 0x6F, 0x6E]

  /** A name that is its own last path component. */
  predicate PlainName(prefix: Name) {
    prefix != [] && SLASH !in prefix && prefix != [0x2E]
  }

  /** `f"{prefix}-{order:06d}.ndjson"` */
  function SegmentName(prefix: Name, order: nat): Name {
    prefix + [DASH] + Filled(order, 6) + SUFFIX
  }

  predicate EndsWith(s: Name, t: Name) {
    |s| >= |t| && s[|s| - |t|..] == t
  }

  /** A version-2 raw name, as `classify_memory_artifact_name` tells it: something, the
      generation marker, a dash, six digits and the suffix. The marker's last occurrence
      is meant there; it cannot reach into the digits, so it is the one before them. */
  predicate IsRawName(name: Name) {
    && SLASH !in name && BACKSLASH !in name && EndsWith(name, SUFFIX)
    && var stem := name[..|name| - |SUFFIX|];
       && |stem| > 6 && (forall b :: b in stem[|stem| - 6..] ==> IsDigit(b))
       && EndsWith(stem[..|stem| - 6], GENERATION + [DASH])
       && |stem| - 6 > |GENERATION| + 1
  }

  /** The prefixes whose segments count: a plain name that ends in the generation marker. */
  predicate RawPrefix(prefix: Name) {
    SLASH !in prefix && BACKSLASH !in prefix && EndsWith(prefix, GENERATION) && |prefix| > |GENERATION|
  }

  lemma Million()
    ensures Pow10(6) == 1_000_000
  {
    assert Pow10(3) == 1000;
  }

  lemma SegmentNamesDiffer(prefix: Name, j: nat, k: nat)
    requires j < MAX_SEGMENTS && k < MAX_SEGMENTS && SegmentName(prefix, j) == SegmentName(prefix, k)
    ensures j == k
  {
    Million();
    var n := |prefix| + 1;
    assert SegmentName(prefix, j)[n..n + 6] == Fixed(j, 6);
    assert SegmentName(prefix, k)[n..n + 6] == Fixed(k, 6);
    FixedInjective(j, k, 6);
  }

  /** What must not stand beside a segmented summary: artifacts of the first generation and
      other summaries. */
  predicate Forbidden(name: Name, selected: Name) {
    && SLASH !in name && BACKSLASH !in name
    && (Marked(name, SUMMARY_V1) || Marked(name, RAW_V1) || (Marked(name, SUMMARY_V2) && name != selected))
  }

  predicate Marked(name: Name, marker: Name) {
    EndsWith(name, marker) && name != marker
  }

  lemma RawIsNotForbidden(name: Name, selected: Name)
    requires IsRawName(name)
    ensures !Forbidden(name, selected)
  {
    CharFromEnd(name, SUFFIX, 5);
    NinthIsDigit(name);
    hide IsRawName, Forbidden;
    if Forbidden(name, selected) {
      EndOfForbidden(name, selected);
    }
  }

  lemma NinthIsDigit(name: Name)
    requires IsRawName(name)
    ensures |name| > 9 && IsDigit(name[|name| - 9])
  {
    var stem := name[..|name| - |SUFFIX|];
    assert stem[|stem| - 6..][4] == name[|name| - 9];
  }

  lemma EndOfForbidden(name: Name, selected: Name)
    requires Forbidden(name, selected)
    ensures |name| > 9 && (name[|name| - 6] == 0x31 || name[|name| - 6] == 0x32 || name[|name| - 9] == 0x76)
  {
    hide EndsWith;
    if EndsWith(name, RAW_V1) {
      CharFromEnd(name, RAW_V1, 9);
      CharFromEnd(name, RAW_V1, 8);
    } else if EndsWith(name, SUMMARY_V1) {
      CharFromEnd(name, SUMMARY_V1, 9);
      CharFromEnd(name, SUMMARY_V1, 5);
    } else {
      CharFromEnd(name, SUMMARY_V2, 9);
      CharFromEnd(name, SUMMARY_V2, 5);
    }
  }

  lemma CharFromEnd(s: Name, t: Name, k: nat)
    requires EndsWith(s, t) && k < |t|
    ensures k < |s| && s[|s| - 1 - k] == t[|t| - 1 - k]
  {
    assert s[|s| - |t|..][|t| - 1 - k] == s[|s| - 1 - k];
  }

  /** A prefix whose segments do not count makes none that do. */
  lemma OnlyRawPrefixes(prefix: Name, order: nat)
    requires order < MAX_SEGMENTS && IsRawName(SegmentName(prefix, order))
    ensures RawPrefix(prefix)
  {
    Million();
    var digits := Fixed(order, 6);
    var name := SegmentName(prefix, order);
    assert name == prefix + [DASH] + digits + SUFFIX;
    var stem := name[..|name| - |SUFFIX|];
    assert stem == prefix + [DASH] + digits && stem[..|stem| - 6] == prefix + [DASH];
    var tail := (prefix + [DASH])[|prefix| - |GENERATION|..];
    assert tail == GENERATION + [DASH];
    assert prefix[|prefix| - |GENERATION|..] == tail[..|GENERATION|] == GENERATION;
    assert forall b :: b in prefix ==> b in name;
  }

  lemma SegmentNameIsRaw(prefix: Name, order: nat)
    requires order < MAX_SEGMENTS && RawPrefix(prefix)
    ensures IsRawName(SegmentName(prefix, order))
  {
    Million();
    FixedReads(order, 6);
    assert SegmentName(prefix, order) == prefix + [DASH] + Fixed(order, 6) + SUFFIX;
    hide *;
    NumberedNameIsRaw(prefix, Fixed(order, 6));
  }

  lemma NumberedNameIsRaw(prefix: Name, digits: Name)
    requires RawPrefix(prefix) && |digits| == 6 && forall b :: b in digits ==> IsDigit(b)
    ensures IsRawName(prefix + [DASH] + digits + SUFFIX)
  {
    var stem := prefix + [DASH] + digits;
    var name := stem + SUFFIX;
    assert name[..|stem|] == stem && name[|stem|..] == SUFFIX;
    assert stem[|stem| - 6..] == digits && stem[..|stem| - 6] == prefix + [DASH];
    assert (prefix + [DASH])[|prefix| - |GENERATION|..] == GENERATION + [DASH];
    NoSeparator(prefix, digits);
  }

  lemma NoSeparator(prefix: Name, digits: Name)
    requires RawPrefix(prefix) && forall b :: b in digits ==> IsDigit(b)
    ensures var name := prefix + [DASH] + digits + SUFFIX; SLASH !in name && BACKSLASH !in name
  {
    hide EndsWith;
    assert SLASH !in [DASH] && BACKSLASH !in [DASH] && SLASH !in SUFFIX && BACKSLASH !in SUFFIX;
  }

  // ------------------------------------------------------------- names, spelled out

  function Ascii(text: string): (name: Name)
    requires forall i :: 0 <= i < |text| ==> text[i] as int < 128
  {
    seq(|text|, i requires 0 <= i < |text| => text[i] as int)
  }

  /** No part of a path but the last. */
  predicate Unseparated(name: Name) {
    forall b :: b in name ==> b != '/' as int && b != '\\' as int
  }

  /** A stem, "-memory-raw-v2-", six digits and ".ndjson". */
  predicate SpellsRaw(name: Name, stem: Name, digits: Name) {
    && stem != [] && |digits| == 6 && (forall b: Byte :: b in digits ==> '0' as int <= b <= '9' as int)
    && name == stem + Ascii("-memory-raw-v2-") + digits + Ascii(".ndjson")
  }

  lemma RawNameIff(name: Name)
    ensures IsRawName(name) <==> Unseparated(name) && exists stem, digits :: SpellsRaw(name, stem, digits)
  {
    MarksAreSpelled();
    if IsRawName(name) {
      RawNameParts(name);
    }
    if Unseparated(name) && exists stem, digits :: SpellsRaw(name, stem, digits) {
      var stem, digits :| SpellsRaw(name, stem, digits);
      PartsOfRaw(name, stem, digits);
    }
  }

  lemma MarksAreSpelled()
    ensures SUFFIX == Ascii(".ndjson") && GENERATION + [DASH] == Ascii("-memory-raw-v2-")
    ensures SUMMARY_V1 == Ascii("-memory-summary-v1.json") && SUMMARY_V2 == Ascii("-memory-summary-v2.json")
    ensures RAW_V1 == Ascii("-memory-raw-v1.ndjson") && GENERATION == Ascii("-memory-raw-v2")
  {
  }

  lemma RawNameParts(name: Name)
    requires IsRawName(name) && SUFFIX == Ascii(".ndjson") && GENERATION + [DASH] == Ascii("-memory-raw-v2-")
    ensures exists stem, digits :: SpellsRaw(name, stem, digits)
  {
    var numbered := name[..|name| - |SUFFIX|];
    var digits := numbered[|numbered| - 6..];
    var marked := numbered[..|numbered| - 6];
    var stem := marked[..|marked| - |GENERATION| - 1];
    assert name == numbered + SUFFIX && numbered == marked + digits && marked == stem + (GENERATION + [DASH]);
    assert forall b :: b in digits ==> IsDigit(b);
    assert SpellsRaw(name, stem, digits);
  }

  lemma PartsOfRaw(name: Name, stem: Name, digits: Name)
    requires Unseparated(name) && SpellsRaw(name, stem, digits)
    requires SUFFIX == Ascii(".ndjson") && GENERATION + [DASH] == Ascii("-memory-raw-v2-")
    ensures IsRawName(name)
  {
    var mark := GENERATION + [DASH];
    var marked := stem + mark;
    var numbered := marked + digits;
    assert name == numbered + SUFFIX;
    assert name[..|name| - |SUFFIX|] == numbered && name[|name| - |SUFFIX|..] == SUFFIX;
    assert numbered[|numbered| - 6..] == digits && numbered[..|numbered| - 6] == marked;
    assert marked[|marked| - |mark|..] == mark;
  }

  /** A stem and then one of the marks of the first generation, or of another summary. */
  lemma ForbiddenIff(name: Name, selected: Name)
    ensures Forbidden(name, selected) <==>
            && Unseparated(name)
            && exists stem :: stem != []
                 && (|| name == stem + Ascii("-memory-summary-v1.json")
                     || name == stem + Ascii("-memory-raw-v1.ndjson")
                     || (name == stem + Ascii("-memory-summary-v2.json") && name != selected))
  {
    MarksAreSpelled();
    MarkedIff(name, SUMMARY_V1);
    MarkedIff(name, RAW_V1);
    MarkedIff(name, SUMMARY_V2);
  }

  lemma MarkedIff(name: Name, mark: Name)
    ensures Marked(name, mark) <==> exists stem :: stem != [] && name == stem + mark
  {
    if Marked(name, mark) {
      var stem := name[..|name| - |mark|];
      assert name == stem + mark;
    }
    if stem :| stem != [] && name == stem + mark {
      assert name[|name| - |mark|..] == mark;
    }
  }
}
