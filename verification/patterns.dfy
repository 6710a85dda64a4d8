/**
 * The static configuration of the patcher: the `RESOLUTIONS` choices and the
 * `PATTERNS` table of byte signatures, each with the offset of the 32-bit
 * field to overwrite and whether that field is the width or the height.
 */
module Patterns {
  import opened Wrappers
  import opened Bytes
  import opened Signature

  /** The entry's `"type"`: `"width"` selects the width, any other value the height. */
  datatype Kind = Width | Height

  /** One `PATTERNS` entry: name, regex bytes, write offset from the match start, kind. */
  datatype Pattern = Pattern(name: string, regex: seq<byte>, offset: nat, kind: Kind)

  /** A target resolution as the `RESOLUTIONS` dictionary stores it. */
  datatype Resolution = Resolution(w: uint32, h: uint32)

  /** `RESOLUTIONS`, in the order the choice box lists it. */
  const RESOLUTIONS: seq<(string, Resolution)> := [
    ("1080p (1920x1080)", Resolution(1920, 1080)),
    ("1440p (2560x1440)", Resolution(2560, 1440)),
    ("4K (3840x2160)", Resolution(3840, 2160))
  ]

  /** `RESOLUTIONS[choice]`; `None` stands for the `KeyError` an unknown label would raise. */
  function LookupResolution(choice: string): (r: Option<Resolution>)
    ensures r.Some? <==> exists k :: 0 <= k < |RESOLUTIONS| && RESOLUTIONS[k].0 == choice
    ensures r.Some? ==> exists k :: 0 <= k < |RESOLUTIONS| && RESOLUTIONS[k] == (choice, r.value)
  {
    if choice == RESOLUTIONS[0].0 then Some(RESOLUTIONS[0].1)
    else if choice == RESOLUTIONS[1].0 then Some(RESOLUTIONS[1].1)
    else if choice == RESOLUTIONS[2].0 then Some(RESOLUTIONS[2].1)
    else None
  }

  /** `PATTERNS`. The regexes are written byte for byte; 0x2E is the `.` wildcard. */
  const PATTERNS: seq<Pattern> := [
    Pattern("Init Width", [0xC7, 0x45, 0x2E, 0x00, 0x05, 0x00, 0x00], 3, Width),
    Pattern("Init Height", [0xC7, 0x45, 0x2E, 0xD0, 0x02, 0x00, 0x00], 3, Height),
    Pattern("Getter Width", [0xB8, 0x00, 0x05, 0x00, 0x00], 1, Width),
    Pattern("Getter Height", [0xB8, 0xD0, 0x02, 0x00, 0x00], 1, Height)
  ]

  /** A pattern the engine can scan with: a non-empty regex of literals and `.` only. */
  predicate ValidPattern(p: Pattern) {
    |p.regex| > 0 && IsPlainRegex(p.regex)
  }

  predicate ValidTable(table: seq<Pattern>) {
    forall j :: 0 <= j < |table| ==> ValidPattern(table[j])
  }

  /** The 4-byte field written for `p` lies inside the bytes `p` matches. */
  predicate WritesInside(p: Pattern) {
    p.offset + 4 <= |p.regex|
  }

  /** The signature `re.finditer` searches for. */
  function Sig(p: Pattern): (sig: seq<SigElem>)
    requires ValidPattern(p)
  {
    Compile(p.regex)
  }

  /** The value written for a field of kind `k`: `w if p["type"] == "width" else h`. */
  function TargetValue(k: Kind, w: uint32, h: uint32): (v: uint32) {
    match k
    case Width => w
    case Height => h
  }

  /** The value an unpatched executable holds in a field of kind `k`: 1280 wide, 720 high. */
  function DefaultValue(k: Kind): (v: uint32) {
    match k
    case Width => 1280
    case Height => 720
  }

  /** The stock values as the executable stores them: 1280 is `00 05 00 00`, 720 is `D0 02 00 00`. */
  lemma DefaultEncodings()
    ensures PackU32LE(DefaultValue(Width)) == [0x00, 0x05, 0x00, 0x00]
    ensures PackU32LE(DefaultValue(Height)) == [0xD0, 0x02, 0x00, 0x00]
  {
  }

  /** Every entry of the table is a plain, non-empty regex. */
  lemma TableValid()
    ensures ValidTable(PATTERNS)
  {
    forall j | 0 <= j < |PATTERNS|
      ensures ValidPattern(PATTERNS[j])
    {
      var re := PATTERNS[j].regex;
      forall k | 0 <= k < |re|
        ensures !IsMeta(re[k])
      {
      }
    }
  }

  /**
   * The signatures the four regexes compile to. The two "Init" signatures are
   * 7 bytes with a wildcard at index 2; the two "Getter" signatures are 5
   * literal bytes.
   */
  lemma CompiledSignatures()
    ensures ValidTable(PATTERNS)
    ensures Sig(PATTERNS[0]) == [Lit(0xC7), Lit(0x45), Any, Lit(0x00), Lit(0x05), Lit(0x00), Lit(0x00)]
    ensures Sig(PATTERNS[1]) == [Lit(0xC7), Lit(0x45), Any, Lit(0xD0), Lit(0x02), Lit(0x00), Lit(0x00)]
    ensures Sig(PATTERNS[2]) == [Lit(0xB8), Lit(0x00), Lit(0x05), Lit(0x00), Lit(0x00)]
    ensures Sig(PATTERNS[3]) == [Lit(0xB8), Lit(0xD0), Lit(0x02), Lit(0x00), Lit(0x00)]
  {
    TableValid();
  }

  /**
   * Every write window lies inside its match, and the signature bytes under
   * it are the literal little-endian encoding of the default value for the
   * pattern's kind: 1280 is `00 05 00 00`, 720 is `D0 02 00 00`.
   */
  lemma TableWindows()
    ensures ValidTable(PATTERNS)
    ensures forall j :: 0 <= j < |PATTERNS| ==> WritesInside(PATTERNS[j])
    ensures forall j, i :: 0 <= j < |PATTERNS| && 0 <= i < 4 ==>
      Sig(PATTERNS[j])[PATTERNS[j].offset + i] == Lit(PackU32LE(DefaultValue(PATTERNS[j].kind))[i])
  {
    CompiledSignatures();
    DefaultEncodings();
    forall j, i | 0 <= j < |PATTERNS| && 0 <= i < 4
      ensures Sig(PATTERNS[j])[PATTERNS[j].offset + i] == Lit(PackU32LE(DefaultValue(PATTERNS[j].kind))[i])
    {
      // One empty branch per table entry makes Dafny prove each entry separately.
      if j == 0 {
      } else if j == 1 {
      } else if j == 2 {
      } else {
      }
    }
  }

  /**
   * No table signature can occur twice with overlapping spans, so scanning
   * never skips an occurrence: shifted by `d`, the leading literal `C7` or
   * `B8` meets a different literal, except for the "Init" signatures shifted
   * by 2, where `45` meets `00` or `D0`.
   */
  lemma TableNoSelfOverlap()
    ensures ValidTable(PATTERNS)
    ensures forall j :: 0 <= j < |PATTERNS| ==> NoSelfOverlap(Sig(PATTERNS[j]))
  {
    CompiledSignatures();
    forall j | 0 <= j < |PATTERNS|
      ensures NoSelfOverlap(Sig(PATTERNS[j]))
    {
      var sig := Sig(PATTERNS[j]);
      forall d | 0 < d < |sig|
        ensures Clashes(sig, d)
      {
        if j < 2 && d == 2 {
          assert ClashAt(sig, d, 1);
        } else {
          assert ClashAt(sig, d, 0);
        }
      }
    }
  }
}
