/**
 * The engine run with the patcher's own `PATTERNS` table. For this table two
 * write windows never partly overlap, so the order of the writes does not
 * matter, every occurrence of a signature is found, and the patched file is
 * the input with every default 1280 / 720 field behind a matched instruction
 * replaced by the chosen width / height.
 */
module GamePatch {
  import opened Wrappers
  import opened Bytes
  import opened Signature
  import opened Patterns
  import opened Engine

  /** The signature of `PATTERNS[j]`. */
  function GameSig(j: nat): (sig: seq<SigElem>)
    requires j < |PATTERNS|
    ensures |sig| == |PATTERNS[j].regex| > 0
  {
    TableValid();
    Sig(PATTERNS[j])
  }

  /** The writes `patch_file` makes for `data` and the resolution `w` x `h`. */
  function GameOps(data: seq<byte>, w: uint32, h: uint32): (ops: seq<Write>) {
    TableValid();
    AllOps(data, PATTERNS, w, h)
  }

  /** `patch_file` on the bytes of the game executable. */
  function PatchGame(data: seq<byte>, w: uint32, h: uint32): (r: Result<Patched, PatchError>) {
    TableValid();
    PatchBytes(data, PATTERNS, w, h)
  }

  /**
   * The instruction bytes in front of a field at `a`: `B8` (`mov eax, imm32`)
   * or `C7 45 xx` (`mov dword [ebp + xx], imm32`).
   */
  predicate Anchored(data: seq<byte>, a: int) {
    || (1 <= a <= |data| && data[a - 1] == 0xB8)
    || (3 <= a <= |data| && data[a - 3] == 0xC7 && data[a - 2] == 0x45)
  }

  /** Bytes `a .. a + 3` hold the default value of kind `k`, behind an anchoring instruction. */
  predicate FieldAt(data: seq<byte>, a: int, k: Kind) {
    && 0 <= a && a + 4 <= |data|
    && Anchored(data, a)
    && forall i :: 0 <= i < 4 ==> data[a + i] == PackU32LE(DefaultValue(k))[i]
  }

  /** A match of any table signature at `s` puts a field of the pattern's kind at `s + offset`. */
  lemma MatchIsField(data: seq<byte>, j: nat, s: int)
    requires j < |PATTERNS|
    requires MatchesAt(data, GameSig(j), s)
    ensures FieldAt(data, s + PATTERNS[j].offset, PATTERNS[j].kind)
  {
    TableWindows();
    var p := PATTERNS[j];
    var sig := GameSig(j);
    forall i | 0 <= i < 4
      ensures data[s + p.offset + i] == PackU32LE(DefaultValue(p.kind))[i]
    {
      assert ElemMatches(sig[p.offset + i], data[s + (p.offset + i)]);
    }
    CompiledSignatures();
    assert ElemMatches(sig[0], data[s]);
    assert ElemMatches(sig[1], data[s + 1]);
  }

  /**
   * Two fields that overlap are the same field: the encodings of 1280 and 720
   * and the anchoring instructions leave no room for a shifted second field.
   */
  lemma OverlappingFieldsCoincide(data: seq<byte>, a: int, ka: Kind, b: int, kb: Kind)
    requires FieldAt(data, a, ka) && FieldAt(data, b, kb)
    requires a <= b < a + 4
    ensures a == b && ka == kb
  {
    DefaultEncodings();
    var pa := PackU32LE(DefaultValue(ka));
    var pb := PackU32LE(DefaultValue(kb));
    assert data[a] == pa[0] && data[a + 1] == pa[1] && data[a + 2] == pa[2] && data[a + 3] == pa[3];
    assert data[b] == pb[0] && data[b + 1] == pb[1] && data[b + 2] == pb[2] && data[b + 3] == pb[3];
  }

  /** The writes made for this table: each one overwrites a field with the value for its kind. */
  lemma GameOpsOverwriteFields(data: seq<byte>, w: uint32, h: uint32, k: nat)
    requires k < |GameOps(data, w, h)|
    ensures var op := GameOps(data, w, h)[k];
      || (FieldAt(data, op.at, Width) && op.value == w)
      || (FieldAt(data, op.at, Height) && op.value == h)
  {
    TableValid();
    OpsComeFromMatches(data, PATTERNS, w, h, k);
    var op := GameOps(data, w, h)[k];
    var j :| 0 <= j < |PATTERNS| && OpFromPattern(data, PATTERNS[j], w, h, op);
    MatchIsField(data, j, op.at - PATTERNS[j].offset);
  }

  /** Two writes of this table that touch a common byte are the same write. */
  lemma GameWritesAgree(data: seq<byte>, w: uint32, h: uint32, k: nat, l: nat, i: int)
    requires k < |GameOps(data, w, h)| && l < |GameOps(data, w, h)|
    requires Covers(GameOps(data, w, h)[k], i) && Covers(GameOps(data, w, h)[l], i)
    ensures GameOps(data, w, h)[k] == GameOps(data, w, h)[l]
  {
    var ops := GameOps(data, w, h);
    GameOpsOverwriteFields(data, w, h, k);
    GameOpsOverwriteFields(data, w, h, l);
    var ka := if FieldAt(data, ops[k].at, Width) && ops[k].value == w then Width else Height;
    var kb := if FieldAt(data, ops[l].at, Width) && ops[l].value == w then Width else Height;
    if ops[k].at <= ops[l].at {
      OverlappingFieldsCoincide(data, ops[k].at, ka, ops[l].at, kb);
    } else {
      OverlappingFieldsCoincide(data, ops[l].at, kb, ops[k].at, ka);
    }
  }

  /** Some write covering `i` is the last one to cover it. */
  lemma {:induction false} LastCoverExists(ops: seq<Write>, k: nat, i: int)
    requires k < |ops| && Covers(ops[k], i)
    ensures exists l :: k <= l < |ops| && LastCover(ops, l, i)
    decreases |ops| - k
  {
    if exists l :: k < l < |ops| && Covers(ops[l], i) {
      var l :| k < l < |ops| && Covers(ops[l], i);
      LastCoverExists(ops, l, i);
    } else {
      assert LastCover(ops, k, i);
    }
  }

  /**
   * With this table the write order is irrelevant: the patched copy has the
   * input's length, a byte no write covers is unchanged, and a covered byte
   * holds the encoding of EVERY write covering it, not only of the last one.
   */
  lemma GamePatchOrderFree(data: seq<byte>, w: uint32, h: uint32)
    requires PatchGame(data, w, h).Success?
    ensures |PatchGame(data, w, h).value.bytes| == |data|
    ensures forall i :: 0 <= i < |data| && Untouched(GameOps(data, w, h), i) ==>
      PatchGame(data, w, h).value.bytes[i] == data[i]
    ensures forall k, i :: 0 <= k < |GameOps(data, w, h)| && Covers(GameOps(data, w, h)[k], i) ==> i < |data|
    ensures forall k, i :: 0 <= k < |GameOps(data, w, h)| && Covers(GameOps(data, w, h)[k], i) && i < |data| ==>
      PatchGame(data, w, h).value.bytes[i] == PackU32LE(GameOps(data, w, h)[k].value)[i - GameOps(data, w, h)[k].at]
  {
    TableValid();
    TableWindows();
    PatchInPlace(data, PATTERNS, w, h);
    var ops := GameOps(data, w, h);
    forall k, i | 0 <= k < |ops| && Covers(ops[k], i)
      ensures i < |data|
    {
      LastCoverExists(ops, k, i);
    }
    forall k, i | 0 <= k < |ops| && Covers(ops[k], i)
      ensures i < |data| && PatchGame(data, w, h).value.bytes[i] == PackU32LE(ops[k].value)[i - ops[k].at]
    {
      LastCoverExists(ops, k, i);
      var l :| k <= l < |ops| && LastCover(ops, l, i);
      GameWritesAgree(data, w, h, k, l, i);
    }
  }

  /** Byte `i` lies in the 4-byte field that an occurrence of some table signature points at. */
  ghost predicate InMatchedField(data: seq<byte>, i: int) {
    exists j, s :: (0 <= j < |PATTERNS| && MatchesAt(data, GameSig(j), s) &&
      s + PATTERNS[j].offset <= i < s + PATTERNS[j].offset + 4)
  }

  /** Every write lands in a matched field. */
  lemma WriteInMatchedField(data: seq<byte>, w: uint32, h: uint32, k: nat, i: int)
    requires k < |GameOps(data, w, h)|
    ensures Covers(GameOps(data, w, h)[k], i) ==> InMatchedField(data, i)
  {
    TableValid();
    OpsComeFromMatches(data, PATTERNS, w, h, k);
    var op := GameOps(data, w, h)[k];
    var j :| 0 <= j < |PATTERNS| && OpFromPattern(data, PATTERNS[j], w, h, op);
    var s := op.at - PATTERNS[j].offset;
    assert MatchesAt(data, GameSig(j), s);
  }

  /** Every occurrence of every table signature gets its write, thanks to `TableNoSelfOverlap`. */
  lemma MatchGetsWrite(data: seq<byte>, w: uint32, h: uint32, j: nat, s: int)
    requires j < |PATTERNS| && MatchesAt(data, GameSig(j), s)
    ensures exists m :: (0 <= m < |GameOps(data, w, h)| &&
      GameOps(data, w, h)[m] == Write(s + PATTERNS[j].offset, TargetValue(PATTERNS[j].kind, w, h)))
  {
    TableNoSelfOverlap();
    var p := PATTERNS[j];
    assert GameSig(j) == Sig(p);
    var starts := FindIter(data, Sig(p), 0);
    FindIterComplete(data, Sig(p), s);
    var k :| 0 <= k < |starts| && starts[k] == s;
    var op := OpsFor(data, p, w, h)[k];
    assert op == Write(s + p.offset, TargetValue(p.kind, w, h));
    AllOpsContains(data, PATTERNS, w, h, j, k);
    var m :| 0 <= m < |AllOps(data, PATTERNS, w, h)| && AllOps(data, PATTERNS, w, h)[m] == op;
    assert GameOps(data, w, h)[m] == op;
  }

  /**
   * The patched file, described without the scan: it has the input's length;
   * a byte outside every matched field is unchanged; and each field an
   * occurrence of a signature points at lies inside the file and decodes, as
   * a little-endian 32-bit value, to the width or height its pattern sets.
   */
  lemma GamePatchReference(data: seq<byte>, w: uint32, h: uint32)
    requires PatchGame(data, w, h).Success?
    ensures |PatchGame(data, w, h).value.bytes| == |data|
    ensures forall i :: 0 <= i < |data| && !InMatchedField(data, i) ==> PatchGame(data, w, h).value.bytes[i] == data[i]
    ensures forall j, s :: 0 <= j < |PATTERNS| && MatchesAt(data, GameSig(j), s) ==>
      s + PATTERNS[j].offset + 4 <= |data| &&
      UnpackU32LE(PatchGame(data, w, h).value.bytes[s + PATTERNS[j].offset .. s + PATTERNS[j].offset + 4])
        == TargetValue(PATTERNS[j].kind, w, h)
  {
    GamePatchOrderFree(data, w, h);
    var ops := GameOps(data, w, h);
    var out := PatchGame(data, w, h).value.bytes;
    forall i | 0 <= i < |data| && !InMatchedField(data, i)
      ensures out[i] == data[i]
    {
      forall k | 0 <= k < |ops|
        ensures !Covers(ops[k], i)
      {
        WriteInMatchedField(data, w, h, k, i);
      }
    }
    forall j, s | 0 <= j < |PATTERNS| && MatchesAt(data, GameSig(j), s)
      ensures s + PATTERNS[j].offset + 4 <= |data|
      ensures UnpackU32LE(out[s + PATTERNS[j].offset .. s + PATTERNS[j].offset + 4]) == TargetValue(PATTERNS[j].kind, w, h)
    {
      FieldWritten(data, w, h, j, s);
    }
  }

  /** One matched field of the patched file holds the encoding of its target value. */
  lemma FieldWritten(data: seq<byte>, w: uint32, h: uint32, j: nat, s: int)
    requires PatchGame(data, w, h).Success?
    requires j < |PATTERNS| && MatchesAt(data, GameSig(j), s)
    ensures s + PATTERNS[j].offset + 4 <= |data|
    ensures UnpackU32LE(PatchGame(data, w, h).value.bytes[s + PATTERNS[j].offset .. s + PATTERNS[j].offset + 4])
      == TargetValue(PATTERNS[j].kind, w, h)
  {
    GamePatchOrderFree(data, w, h);
    MatchGetsWrite(data, w, h, j, s);
    var ops := GameOps(data, w, h);
    var out := PatchGame(data, w, h).value.bytes;
    var a := s + PATTERNS[j].offset;
    var v := TargetValue(PATTERNS[j].kind, w, h);
    var m :| 0 <= m < |ops| && ops[m] == Write(a, v);
    assert Covers(ops[m], a + 3);
    var field := out[a .. a + 4];
    forall i | 0 <= i < 4
      ensures field[i] == PackU32LE(v)[i]
    {
      assert Covers(ops[m], a + i);
    }
    assert field == PackU32LE(v);
    UnpackPack(v);
  }
}
