/**
 * Worked runs of the patcher on small buffers: the wildcard of the "Init"
 * signatures matching a newline byte, and a second run on the patcher's own
 * output, which finds nothing left to patch and is refused.
 */
module Examples {
  import opened Wrappers
  import opened Bytes
  import opened Signature
  import opened Patterns
  import opened Engine
  import opened GamePatch

  /** `mov dword [ebp + 0x0A], 1280`: the displacement byte is 0x0A, a newline. */
  const INIT_WIDTH_AT_NEWLINE: seq<byte> := [0xC7, 0x45, 0x0A, 0x00, 0x05, 0x00, 0x00]

  /** `mov eax, 1280`. */
  const GETTER_WIDTH: seq<byte> := [0xB8, 0x00, 0x05, 0x00, 0x00]

  /** A mismatch at position `k` rules out an occurrence at `i`. */
  lemma MismatchAt(data: seq<byte>, sig: seq<SigElem>, i: nat, k: nat)
    requires k < |sig| && i + k < |data| && !ElemMatches(sig[k], data[i + k])
    ensures !MatchesAt(data, sig, i)
  {
  }

  /**
   * `mov dword [ebp + x], 1280` for a displacement byte `x`. Unless `x` is
   * `B8`, which would start a "Getter Width" occurrence, only the "Init Width"
   * signature occurs, once, at 0: its wildcard accepts every `x`.
   */
  function InitWidthAt(x: byte): (d: seq<byte>) {
    [0xC7, 0x45, x, 0x00, 0x05, 0x00, 0x00]
  }

  lemma InitWidthScans(x: byte)
    requires x != 0xB8
    ensures ValidTable(PATTERNS)
    ensures forall j :: 0 <= j < |PATTERNS| ==>
      FindIter(InitWidthAt(x), Sig(PATTERNS[j]), 0) == if j == 0 then [0] else []
  {
    CompiledSignatures();
    var d := InitWidthAt(x);
    var s0, s1, s2, s3 := Sig(PATTERNS[0]), Sig(PATTERNS[1]), Sig(PATTERNS[2]), Sig(PATTERNS[3]);
    assert MatchesAt(d, s0, 0) by {
      forall k | 0 <= k < |s0|
        ensures ElemMatches(s0[k], d[k])
      {
      }
    }
    assert FindIter(d, s0, 0) == [0] + FindIter(d, s0, 7);
    MismatchAt(d, s1, 0, 3);
    assert FindIter(d, s1, 0) == FindIter(d, s1, 1);
    MismatchAt(d, s2, 0, 0);
    MismatchAt(d, s2, 1, 0);
    MismatchAt(d, s2, 2, 0);
    assert FindIter(d, s2, 3) == [];
    assert FindIter(d, s2, 2) == [];
    assert FindIter(d, s2, 1) == [];
    MismatchAt(d, s3, 0, 0);
    MismatchAt(d, s3, 1, 0);
    MismatchAt(d, s3, 2, 0);
    assert FindIter(d, s3, 3) == [];
    assert FindIter(d, s3, 2) == [];
    assert FindIter(d, s3, 1) == [];
    forall j | 0 <= j < |PATTERNS|
      ensures FindIter(d, Sig(PATTERNS[j]), 0) == if j == 0 then [0] else []
    {
      // One empty branch per table entry makes Dafny prove each entry separately.
      if j == 0 {
      } else if j == 1 {
      } else if j == 2 {
      } else {
      }
    }
  }

  /** A pattern with a single match gets a single write, at the match plus its offset. */
  lemma OneMatchOneWrite(data: seq<byte>, p: Pattern, w: uint32, h: uint32, s: nat)
    requires ValidPattern(p) && FindIter(data, Sig(p), 0) == [s]
    ensures OpsFor(data, p, w, h) == [Write(s + p.offset, TargetValue(p.kind, w, h))]
  {
  }

  /** A pattern with no match gets no write. */
  lemma NoMatchNoWrite(data: seq<byte>, p: Pattern, w: uint32, h: uint32)
    requires ValidPattern(p) && FindIter(data, Sig(p), 0) == []
    ensures OpsFor(data, p, w, h) == []
  {
  }

  /**
   * When the scans find a single match, of entry `j` at `s`, and nothing for
   * the other entries, the run makes exactly that entry's one write.
   */
  lemma SinglePatternMatches(data: seq<byte>, w: uint32, h: uint32, j: nat, s: nat)
    requires ValidTable(PATTERNS) && j < |PATTERNS|
    requires forall l :: 0 <= l < |PATTERNS| ==>
      FindIter(data, Sig(PATTERNS[l]), 0) == if l == j then [s] else []
    ensures AllOps(data, PATTERNS, w, h) == [Write(s + PATTERNS[j].offset, TargetValue(PATTERNS[j].kind, w, h))]
  {
    var op := Write(s + PATTERNS[j].offset, TargetValue(PATTERNS[j].kind, w, h));
    forall l | 0 <= l < |PATTERNS|
      ensures OpsFor(data, PATTERNS[l], w, h) == if l == j then [op] else []
    {
      if l == j {
        OneMatchOneWrite(data, PATTERNS[l], w, h, s);
      } else {
        NoMatchNoWrite(data, PATTERNS[l], w, h);
      }
    }
    TableOps(data, w, h);
    var none: seq<Write> := [];
    if j == 0 {
      assert AllOps(data, PATTERNS, w, h) == [op] + none + none + none;
    } else if j == 1 {
      assert AllOps(data, PATTERNS, w, h) == none + [op] + none + none;
    } else if j == 2 {
      assert AllOps(data, PATTERNS, w, h) == none + none + [op] + none;
    } else {
      assert AllOps(data, PATTERNS, w, h) == none + none + none + [op];
    }
  }

  /** The run's writes are the four entries' writes, in table order. */
  lemma TableOps(data: seq<byte>, w: uint32, h: uint32)
    requires ValidTable(PATTERNS)
    ensures AllOps(data, PATTERNS, w, h)
      == OpsFor(data, PATTERNS[0], w, h) + OpsFor(data, PATTERNS[1], w, h)
       + OpsFor(data, PATTERNS[2], w, h) + OpsFor(data, PATTERNS[3], w, h)
  {
    AllOpsPrefixStep(data, PATTERNS, w, h, 0);
    AllOpsPrefixStep(data, PATTERNS, w, h, 1);
    AllOpsPrefixStep(data, PATTERNS, w, h, 2);
    AllOpsPrefixStep(data, PATTERNS, w, h, 3);
    assert PATTERNS[..4] == PATTERNS;
    assert AllOps(data, PATTERNS[..0], w, h) == [];
  }

  /** One write on its own. */
  lemma OneWrite(data: seq<byte>, op: Write)
    ensures ApplyAll(data, [op]) == WriteAt(data, op)
  {
    assert [op][..0] == [];
  }

  /** A run whose write list is one write succeeds with a count of one. */
  lemma SingleWriteRun(data: seq<byte>, w: uint32, h: uint32, op: Write)
    requires ValidTable(PATTERNS) && AllOps(data, PATTERNS, w, h) == [op]
    ensures PatchGame(data, w, h) == Success(Patched(ApplyAll(data, [op]), 1))
  {
  }

  lemma InitWidthWrite(x: byte)
    ensures ApplyAll(InitWidthAt(x), [Write(3, 3840)]) == [0xC7, 0x45, x, 0x00, 0x0F, 0x00, 0x00]
  {
    OneWrite(InitWidthAt(x), Write(3, 3840));
    assert PackU32LE(3840) == [0x00, 0x0F, 0x00, 0x00];
  }

  /**
   * Patching `C7 45 x 00 05 00 00` for 3840 x 2160 writes `00 0F 00 00`
   * (3840) over the field and reports one patched location, whatever the
   * displacement byte `x` other than `B8`.
   */
  lemma WildcardMatchesAnyByte(x: byte)
    requires x != 0xB8
    ensures PatchGame(InitWidthAt(x), 3840, 2160)
      == Success(Patched([0xC7, 0x45, x, 0x00, 0x0F, 0x00, 0x00], 1))
  {
    InitWidthScans(x);
    SinglePatternMatches(InitWidthAt(x), 3840, 2160, 0, 0);
    SingleWriteRun(InitWidthAt(x), 3840, 2160, Write(3, 3840));
    InitWidthWrite(x);
  }

  /** In particular the displacement 0x0A, the newline byte, is matched by the wildcard. */
  lemma WildcardMatchesNewline()
    ensures PatchGame(INIT_WIDTH_AT_NEWLINE, 3840, 2160)
      == Success(Patched([0xC7, 0x45, 0x0A, 0x00, 0x0F, 0x00, 0x00], 1))
  {
    WildcardMatchesAnyByte(0x0A);
    assert InitWidthAt(0x0A) == INIT_WIDTH_AT_NEWLINE;
  }

  /** Under the signature table, the scans of `B8 00 05 00 00` find one "Getter Width" match at 0. */
  lemma GetterScans()
    ensures ValidTable(PATTERNS)
    ensures forall j :: 0 <= j < |PATTERNS| ==>
      FindIter(GETTER_WIDTH, Sig(PATTERNS[j]), 0) == if j == 2 then [0] else []
  {
    CompiledSignatures();
    var d := GETTER_WIDTH;
    var s2, s3 := Sig(PATTERNS[2]), Sig(PATTERNS[3]);
    assert MatchesAt(d, s2, 0) by {
      forall k | 0 <= k < |s2|
        ensures ElemMatches(s2[k], d[k])
      {
      }
    }
    assert FindIter(d, s2, 0) == [0] + FindIter(d, s2, 5);
    MismatchAt(d, s3, 0, 1);
    assert FindIter(d, s3, 0) == FindIter(d, s3, 1);
    forall j | 0 <= j < |PATTERNS|
      ensures FindIter(d, Sig(PATTERNS[j]), 0) == if j == 2 then [0] else []
    {
      // One empty branch per table entry makes Dafny prove each entry separately.
      if j == 0 {
      } else if j == 1 {
      } else if j == 2 {
      } else {
      }
    }
  }

  lemma GetterWrite()
    ensures ApplyAll(GETTER_WIDTH, [Write(1, 2560)]) == [0xB8, 0x00, 0x0A, 0x00, 0x00]
  {
    OneWrite(GETTER_WIDTH, Write(1, 2560));
    assert PackU32LE(2560) == [0x00, 0x0A, 0x00, 0x00];
  }

  /** The first run on `B8 00 05 00 00` for 2560 x 1440 writes 2560 (`00 0A 00 00`). */
  lemma GetterPatched()
    ensures PatchGame(GETTER_WIDTH, 2560, 1440) == Success(Patched([0xB8, 0x00, 0x0A, 0x00, 0x00], 1))
  {
    GetterScans();
    SinglePatternMatches(GETTER_WIDTH, 2560, 1440, 2, 0);
    SingleWriteRun(GETTER_WIDTH, 2560, 1440, Write(1, 2560));
    GetterWrite();
  }

  /**
   * Patching the patched output again is refused: the run does not reproduce
   * its own output, because no signature occurs in it any more.
   */
  lemma RepatchRefused()
    ensures PatchGame([0xB8, 0x00, 0x0A, 0x00, 0x00], 2560, 1440) == Failure(NoSignatureMatch)
  {
    var d: seq<byte> := [0xB8, 0x00, 0x0A, 0x00, 0x00];
    CompiledSignatures();
    forall j, i | 0 <= j < |PATTERNS|
      ensures !MatchesAt(d, Sig(PATTERNS[j]), i)
    {
      if j == 2 && i == 0 {
        MismatchAt(d, Sig(PATTERNS[j]), 0, 2);
      } else if j == 3 && i == 0 {
        MismatchAt(d, Sig(PATTERNS[j]), 0, 1);
      }
    }
    PatchFailsIffNoMatch(d, PATTERNS, 2560, 1440);
  }
}
