/**
 * The scan / encode / write / count loop of `ResolutionPatcher.patch_file`:
 * every pattern, in table order, is searched for in the unmodified input;
 * each match yields one 4-byte little-endian write into a separate copy; a
 * run with no match at all is refused.
 */
module Engine {
  import opened Wrappers
  import opened Bytes
  import opened Signature
  import opened Patterns

  /** One patch operation: `patched_data[at:at + 4] = struct.pack('<I', value)`. */
  datatype Write = Write(at: nat, value: uint32)

  /** What a successful run produces: the patched copy and the number of matches. */
  datatype Patched = Patched(bytes: seq<byte>, count: nat)

  /** The failure reported when no signature occurs in the input. */
  datatype PatchError = NoSignatureMatch

  /** Byte `i` lies in the 4-byte window `op` overwrites. */
  predicate Covers(op: Write, i: int) {
    op.at <= i < op.at + 4
  }

  /** No write of `ops` covers byte `i`. */
  predicate Untouched(ops: seq<Write>, i: int) {
    forall k :: 0 <= k < |ops| ==> !Covers(ops[k], i)
  }

  /** `ops[k]` is the last write of `ops` covering byte `i`. */
  predicate LastCover(ops: seq<Write>, k: int, i: int) {
    0 <= k < |ops| && Covers(ops[k], i) && forall l :: k < l < |ops| ==> !Covers(ops[l], i)
  }

  /** Every write's window lies inside a buffer of `n` bytes. */
  predicate InBounds(ops: seq<Write>, n: nat) {
    forall k :: 0 <= k < |ops| ==> ops[k].at + 4 <= n
  }

  /**
   * Python's `buf[lo:hi] = v` on a `bytearray`, for `lo <= hi`: both bounds
   * are clipped to the buffer, the clipped slice is replaced by `v`, and a
   * slice running past the end therefore grows the buffer.
   */
  function SliceAssign(buf: seq<byte>, lo: nat, hi: nat, v: seq<byte>): (r: seq<byte>)
    requires lo <= hi
    ensures |r| == |buf| - ((if hi < |buf| then hi else |buf|) - (if lo < |buf| then lo else |buf|)) + |v|
  {
    var lo' := if lo < |buf| then lo else |buf|;
    var hi' := if hi < |buf| then hi else |buf|;
    buf[..lo'] + v + buf[hi'..]
  }

  /**
   * What `buf[lo:hi] = v` leaves at one position: bytes before `lo` are kept;
   * when the slice lies inside the buffer, `v` sits at `lo` and the bytes from
   * `hi` on follow it, shifted by the change in length. A slice that starts at
   * or past the end appends `v`; one that starts inside and runs past the end
   * replaces the tail from `lo` with `v`.
   */
  lemma SliceAssignAt(buf: seq<byte>, lo: nat, hi: nat, v: seq<byte>, i: int)
    requires lo <= hi
    ensures 0 <= i < lo && i < |buf| ==> SliceAssign(buf, lo, hi, v)[i] == buf[i]
    ensures hi <= |buf| && 0 <= i < |v| ==> SliceAssign(buf, lo, hi, v)[lo + i] == v[i]
    ensures hi <= |buf| && hi <= i < |buf| ==> SliceAssign(buf, lo, hi, v)[i - (hi - lo) + |v|] == buf[i]
    ensures |buf| <= lo && 0 <= i < |v| ==> SliceAssign(buf, lo, hi, v)[|buf| + i] == v[i]
    ensures lo < |buf| < hi && 0 <= i < |v| ==> SliceAssign(buf, lo, hi, v)[lo + i] == v[i]
    ensures lo < |buf| < hi ==> |SliceAssign(buf, lo, hi, v)| == lo + |v|
  {
  }

  /** Performs one write on the buffer. */
  function WriteAt(buf: seq<byte>, op: Write): (r: seq<byte>)
    ensures |r| >= |buf|
  {
    SliceAssign(buf, op.at, op.at + 4, PackU32LE(op.value))
  }

  /**
   * One write keeps the length of a buffer it fits in, leaves every byte
   * outside its window alone, and puts the little-endian encoding of its value
   * into the window.
   */
  lemma WriteAtSpec(buf: seq<byte>, op: Write, i: int)
    ensures op.at + 4 <= |buf| ==> |WriteAt(buf, op)| == |buf|
    ensures 0 <= i < |buf| && !Covers(op, i) ==> WriteAt(buf, op)[i] == buf[i]
    ensures op.at + 4 <= |buf| && Covers(op, i) ==> WriteAt(buf, op)[i] == PackU32LE(op.value)[i - op.at]
  {
    var v := PackU32LE(op.value);
    if 0 <= i < op.at && i < |buf| {
      SliceAssignAt(buf, op.at, op.at + 4, v, i);
    } else if op.at + 4 <= |buf| && Covers(op, i) {
      SliceAssignAt(buf, op.at, op.at + 4, v, i - op.at);
    } else if op.at + 4 <= i < |buf| {
      SliceAssignAt(buf, op.at, op.at + 4, v, i);
    }
  }

  /** Performs the writes in order, starting from `buf`. */
  function ApplyAll(buf: seq<byte>, ops: seq<Write>): (r: seq<byte>)
    ensures |r| >= |buf|
    decreases |ops|
  {
    if ops == [] then buf
    else WriteAt(ApplyAll(buf, ops[..|ops| - 1]), ops[|ops| - 1])
  }

  /** Dropping the last write keeps the rest inside the buffer. */
  lemma InBoundsFront(ops: seq<Write>, n: nat)
    requires |ops| > 0 && InBounds(ops, n)
    ensures InBounds(ops[..|ops| - 1], n)
  {
    var front := ops[..|ops| - 1];
    forall l | 0 <= l < |front|
      ensures front[l].at + 4 <= n
    {
      assert front[l] == ops[l];
    }
  }

  /** Writes that all lie inside the buffer never change its length. */
  lemma {:induction false} ApplyAllLength(buf: seq<byte>, ops: seq<Write>)
    requires InBounds(ops, |buf|)
    ensures |ApplyAll(buf, ops)| == |buf|
    decreases |ops|
  {
    if ops != [] {
      InBoundsFront(ops, |buf|);
      ApplyAllLength(buf, ops[..|ops| - 1]);
      WriteAtSpec(ApplyAll(buf, ops[..|ops| - 1]), ops[|ops| - 1], 0);
    }
  }

  /** A byte no write covers keeps its original value. */
  lemma {:induction false} ApplyAllFrame(buf: seq<byte>, ops: seq<Write>, i: nat)
    requires i < |buf|
    requires Untouched(ops, i)
    ensures ApplyAll(buf, ops)[i] == buf[i]
    decreases |ops|
  {
    if ops != [] {
      var front := ops[..|ops| - 1];
      assert forall k :: 0 <= k < |front| ==> front[k] == ops[k];
      ApplyAllFrame(buf, front, i);
      WriteAtSpec(ApplyAll(buf, front), ops[|ops| - 1], i);
    }
  }

  /** The last write covering `i`, when it is not the final write, is still the last one without it. */
  lemma LastCoverFront(ops: seq<Write>, k: nat, i: int)
    requires LastCover(ops, k, i) && k < |ops| - 1
    ensures LastCover(ops[..|ops| - 1], k, i)
    ensures !Covers(ops[|ops| - 1], i)
  {
    var front := ops[..|ops| - 1];
    forall l | k < l < |front|
      ensures !Covers(front[l], i)
    {
      assert front[l] == ops[l];
    }
    assert front[k] == ops[k];
  }

  /** A covered byte holds what the last write covering it put there. */
  lemma {:induction false} ApplyAllLastWriteWins(buf: seq<byte>, ops: seq<Write>, k: nat, i: int)
    requires InBounds(ops, |buf|)
    requires LastCover(ops, k, i)
    ensures 0 <= i < |ApplyAll(buf, ops)|
    ensures ApplyAll(buf, ops)[i] == PackU32LE(ops[k].value)[i - ops[k].at]
    decreases |ops|
  {
    var n := |ops| - 1;
    var front := ops[..n];
    var last := ops[n];
    InBoundsFront(ops, |buf|);
    ApplyAllLength(buf, front);
    var before := ApplyAll(buf, front);
    WriteAtSpec(before, last, i);
    if k < n {
      LastCoverFront(ops, k, i);
      ApplyAllLastWriteWins(buf, front, k, i);
    }
  }

  /** One write of `value`, `offset` bytes into each listed match. */
  function WritesAt(starts: seq<nat>, offset: nat, value: uint32): (ops: seq<Write>)
    ensures |ops| == |starts|
    ensures forall k :: 0 <= k < |starts| ==> ops[k] == Write(starts[k] + offset, value)
  {
    seq(|starts|, k requires 0 <= k < |starts| => Write(starts[k] + offset, value))
  }

  /** The writes for one pattern: one per `re.finditer` match in the original data. */
  function OpsFor(data: seq<byte>, p: Pattern, w: uint32, h: uint32): (ops: seq<Write>)
    requires ValidPattern(p)
    ensures |ops| == |FindIter(data, Sig(p), 0)|
  {
    WritesAt(FindIter(data, Sig(p), 0), p.offset, TargetValue(p.kind, w, h))
  }

  /** The `k`-th write of a pattern comes from its `k`-th match. */
  lemma OpsForAt(data: seq<byte>, p: Pattern, w: uint32, h: uint32, k: nat)
    requires ValidPattern(p) && k < |FindIter(data, Sig(p), 0)|
    ensures OpsFor(data, p, w, h)[k] == Write(FindIter(data, Sig(p), 0)[k] + p.offset, TargetValue(p.kind, w, h))
  {
  }

  /** `op` is the write `p` makes for one of its matches in `data`. */
  ghost predicate OpFromPattern(data: seq<byte>, p: Pattern, w: uint32, h: uint32, op: Write)
    requires ValidPattern(p)
  {
    && p.offset <= op.at
    && MatchesAt(data, Sig(p), op.at - p.offset)
    && op.value == TargetValue(p.kind, w, h)
  }

  /**
   * Each write of a pattern sits `offset` bytes into a match of the pattern
   * in the ORIGINAL data and carries the target value for the pattern's kind;
   * when the window lies inside the match, it lies inside the data.
   */
  lemma OpsForFromMatches(data: seq<byte>, p: Pattern, w: uint32, h: uint32, k: nat)
    requires ValidPattern(p) && k < |OpsFor(data, p, w, h)|
    ensures OpFromPattern(data, p, w, h, OpsFor(data, p, w, h)[k])
    ensures WritesInside(p) ==> OpsFor(data, p, w, h)[k].at + 4 <= |data|
  {
    FindIterSpec(data, Sig(p), 0);
    OpsForAt(data, p, w, h, k);
    assert MatchesAt(data, Sig(p), FindIter(data, Sig(p), 0)[k]);
  }

  /** The writes for a whole table, pattern by pattern in table order. */
  function AllOps(data: seq<byte>, table: seq<Pattern>, w: uint32, h: uint32): (ops: seq<Write>)
    requires ValidTable(table)
    decreases |table|
  {
    if table == [] then []
    else AllOps(data, table[..|table| - 1], w, h) + OpsFor(data, table[|table| - 1], w, h)
  }

  /** When every pattern's window lies inside its match, every write lies inside the data. */
  lemma {:induction false} AllOpsInBounds(data: seq<byte>, table: seq<Pattern>, w: uint32, h: uint32)
    requires ValidTable(table)
    requires forall j :: 0 <= j < |table| ==> WritesInside(table[j])
    ensures InBounds(AllOps(data, table, w, h), |data|)
    decreases |table|
  {
    if table != [] {
      var front := table[..|table| - 1];
      var last := table[|table| - 1];
      assert ValidTable(front);
      AllOpsInBounds(data, front, w, h);
      var a := AllOps(data, front, w, h);
      var b := OpsFor(data, last, w, h);
      var ops: seq<Write> := a + b;
      forall k | 0 <= k < |ops|
        ensures ops[k].at + 4 <= |data|
      {
        if k >= |a| {
          assert ops[k] == b[k - |a|];
          OpsForFromMatches(data, last, w, h, k - |a|);
        }
      }
    }
  }

  /** The number of `re.finditer` matches, summed over the table. */
  function TotalMatches(data: seq<byte>, table: seq<Pattern>): (n: nat)
    requires ValidTable(table)
    decreases |table|
  {
    if table == [] then 0
    else TotalMatches(data, table[..|table| - 1]) + |FindIter(data, Sig(table[|table| - 1]), 0)|
  }

  /** The signature of `p` occurs nowhere in `data`. */
  ghost predicate Absent(data: seq<byte>, p: Pattern)
    requires ValidPattern(p)
  {
    forall i :: !MatchesAt(data, Sig(p), i)
  }

  /** No signature of the table occurs anywhere in `data`. */
  ghost predicate NoMatchAnywhere(data: seq<byte>, table: seq<Pattern>)
    requires ValidTable(table)
  {
    forall j :: 0 <= j < |table| ==> Absent(data, table[j])
  }

  /** The patcher's result: the patched copy and the match count, or `NoSignatureMatch`. */
  function PatchBytes(data: seq<byte>, table: seq<Pattern>, w: uint32, h: uint32): (r: Result<Patched, PatchError>)
    requires ValidTable(table)
    ensures r.Failure? ==> r.error == NoSignatureMatch
    ensures r.Success? ==> r.value.count > 0 && |r.value.bytes| >= |data|
  {
    var ops := AllOps(data, table, w, h);
    if |ops| == 0 then Failure(NoSignatureMatch)
    else Success(Patched(ApplyAll(data, ops), |ops|))
  }

  /** The write list holds exactly one write per match: its length is the total match count. */
  lemma {:induction false} OpsCountMatches(data: seq<byte>, table: seq<Pattern>, w: uint32, h: uint32)
    requires ValidTable(table)
    ensures |AllOps(data, table, w, h)| == TotalMatches(data, table)
    decreases |table|
  {
    if table != [] {
      var front := table[..|table| - 1];
      assert ValidTable(front);
      OpsCountMatches(data, front, w, h);
    }
  }

  /** Every write sits `offset` bytes into a match, in the original data, of some pattern of the table. */
  lemma {:induction false} OpsComeFromMatches(data: seq<byte>, table: seq<Pattern>, w: uint32, h: uint32, k: nat)
    requires ValidTable(table)
    requires k < |AllOps(data, table, w, h)|
    ensures exists j :: 0 <= j < |table| && OpFromPattern(data, table[j], w, h, AllOps(data, table, w, h)[k])
    decreases |table|
  {
    var front := table[..|table| - 1];
    var last := table[|table| - 1];
    assert ValidTable(front);
    var ops := AllOps(data, table, w, h);
    var n := |AllOps(data, front, w, h)|;
    if k < n {
      OpsComeFromMatches(data, front, w, h, k);
      var j :| 0 <= j < |front| && OpFromPattern(data, front[j], w, h, AllOps(data, front, w, h)[k]);
      assert table[j] == front[j] && ops[k] == AllOps(data, front, w, h)[k];
    } else {
      assert ops[k] == OpsFor(data, last, w, h)[k - n];
      OpsForFromMatches(data, last, w, h, k - n);
    }
  }

  /** Every write of every pattern is among the table's writes. */
  lemma {:induction false} AllOpsContains(data: seq<byte>, table: seq<Pattern>, w: uint32, h: uint32, j: nat, k: nat)
    requires ValidTable(table) && j < |table|
    requires k < |OpsFor(data, table[j], w, h)|
    ensures exists m :: 0 <= m < |AllOps(data, table, w, h)| && AllOps(data, table, w, h)[m] == OpsFor(data, table[j], w, h)[k]
    decreases |table|
  {
    var front := table[..|table| - 1];
    assert ValidTable(front);
    var a := AllOps(data, front, w, h);
    var ops := AllOps(data, table, w, h);
    if j < |front| {
      assert front[j] == table[j];
      AllOpsContains(data, front, w, h, j, k);
      var m :| 0 <= m < |a| && a[m] == OpsFor(data, front[j], w, h)[k];
      assert ops[m] == a[m];
    } else {
      assert ops[|a| + k] == OpsFor(data, table[j], w, h)[k];
    }
  }

  /** The table yields no write exactly when none of its signatures occurs in `data`. */
  lemma {:induction false} NoOpsIffNoMatch(data: seq<byte>, table: seq<Pattern>, w: uint32, h: uint32)
    requires ValidTable(table)
    ensures |AllOps(data, table, w, h)| == 0 <==> NoMatchAnywhere(data, table)
    decreases |table|
  {
    if table != [] {
      var front := table[..|table| - 1];
      var last := table[|table| - 1];
      assert ValidTable(front);
      NoOpsIffNoMatch(data, front, w, h);
      FindIterEmptyIff(data, Sig(last));
      assert |OpsFor(data, last, w, h)| == 0 <==> Absent(data, last);
      assert NoMatchAnywhere(data, table) <==> NoMatchAnywhere(data, front) && Absent(data, last) by {
        assert forall j :: 0 <= j < |front| ==> table[j] == front[j];
      }
    }
  }

  /**
   * `patch_file` fails with "No resolution patterns found." exactly when no
   * signature occurs in the input; otherwise the count it reports is the
   * total number of matches over the table.
   */
  lemma PatchFailsIffNoMatch(data: seq<byte>, table: seq<Pattern>, w: uint32, h: uint32)
    requires ValidTable(table)
    ensures PatchBytes(data, table, w, h) == Failure(NoSignatureMatch) <==> NoMatchAnywhere(data, table)
    ensures PatchBytes(data, table, w, h).Success? ==>
      PatchBytes(data, table, w, h).value.count == TotalMatches(data, table) > 0
  {
    NoOpsIffNoMatch(data, table, w, h);
    OpsCountMatches(data, table, w, h);
  }

  /**
   * When every pattern's window lies inside its match, the patched copy has
   * the input's length, every byte outside all windows is unchanged, and every
   * covered byte holds the encoding written by the last write covering it.
   */
  lemma PatchInPlace(data: seq<byte>, table: seq<Pattern>, w: uint32, h: uint32)
    requires ValidTable(table)
    requires forall j :: 0 <= j < |table| ==> WritesInside(table[j])
    requires PatchBytes(data, table, w, h).Success?
    ensures |PatchBytes(data, table, w, h).value.bytes| == |data|
    ensures forall i :: 0 <= i < |data| && Untouched(AllOps(data, table, w, h), i) ==>
      PatchBytes(data, table, w, h).value.bytes[i] == data[i]
    ensures forall k, i :: LastCover(AllOps(data, table, w, h), k, i) ==>
      i < |data| && PatchBytes(data, table, w, h).value.bytes[i] == PackU32LE(AllOps(data, table, w, h)[k].value)[i - AllOps(data, table, w, h)[k].at]
  {
    var ops := AllOps(data, table, w, h);
    var out := ApplyAll(data, ops);
    assert PatchBytes(data, table, w, h).value.bytes == out;
    AllOpsInBounds(data, table, w, h);
    ApplyAllLength(data, ops);
    forall i | 0 <= i < |data| && Untouched(ops, i)
      ensures out[i] == data[i]
    {
      ApplyAllFrame(data, ops, i);
    }
    forall k, i | LastCover(ops, k, i)
      ensures 0 <= i < |out| && out[i] == PackU32LE(ops[k].value)[i - ops[k].at]
    {
      ApplyAllLastWriteWins(data, ops, k, i);
    }
  }

  /** Extending the table prefix by one pattern appends that pattern's writes. */
  lemma AllOpsPrefixStep(data: seq<byte>, table: seq<Pattern>, w: uint32, h: uint32, n: nat)
    requires ValidTable(table) && n < |table|
    ensures ValidTable(table[..n]) && ValidTable(table[..n + 1])
    ensures AllOps(data, table[..n + 1], w, h) == AllOps(data, table[..n], w, h) + OpsFor(data, table[n], w, h)
  {
    assert table[..n + 1][..n] == table[..n];
  }

  /** Performing `a` and then `b` is performing `a + b`. */
  lemma {:induction false} ApplyAllAppend(buf: seq<byte>, a: seq<Write>, b: seq<Write>)
    ensures ApplyAll(buf, a + b) == ApplyAll(ApplyAll(buf, a), b)
    decreases |b|
  {
    if b == [] {
      assert a + b == a;
    } else {
      var front := b[..|b| - 1];
      assert (a + b)[..|a + b| - 1] == a + front;
      ApplyAllAppend(buf, a, front);
    }
  }

  /** Writes `value` `offset` bytes into each listed match, in list order. */
  method WriteEach(buf: seq<byte>, starts: seq<nat>, offset: nat, value: uint32) returns (r: seq<byte>)
    ensures r == ApplyAll(buf, WritesAt(starts, offset, value))
  {
    ghost var ops := WritesAt(starts, offset, value);
    r := buf;
    var j := 0;
    assert ops[..0] == [];
    while j < |starts|
      invariant 0 <= j <= |starts|
      invariant r == ApplyAll(buf, ops[..j])
    {
      assert ops[..j + 1][..j] == ops[..j];
      r := WriteAt(r, Write(starts[j] + offset, value));
      j := j + 1;
    }
    assert ops[..j] == ops;
  }

  /**
   * The inner loop of `patch_file` for one pattern: scan the ORIGINAL `data`
   * and, for each match, overwrite four bytes of the separate copy `patched`.
   */
  method PatchPattern(data: seq<byte>, p: Pattern, w: uint32, h: uint32, patched: seq<byte>)
    returns (patched': seq<byte>, added: nat)
    requires ValidPattern(p)
    ensures patched' == ApplyAll(patched, OpsFor(data, p, w, h))
    ensures added == |FindIter(data, Sig(p), 0)|
  {
    var starts := Scan(data, Sig(p));
    patched' := WriteEach(patched, starts, p.offset, TargetValue(p.kind, w, h));
    added := |starts|;
  }

  /** Extending the table prefix by one pattern adds that pattern's match count. */
  lemma TotalMatchesPrefixStep(data: seq<byte>, table: seq<Pattern>, n: nat)
    requires ValidTable(table) && n < |table|
    ensures ValidTable(table[..n]) && ValidTable(table[..n + 1])
    ensures TotalMatches(data, table[..n + 1]) == TotalMatches(data, table[..n]) + |FindIter(data, Sig(table[n]), 0)|
  {
    assert table[..n + 1][..n] == table[..n];
  }

  /** What the loop has built once every pattern is done is `PatchBytes`'s answer. */
  lemma LoopResult(data: seq<byte>, table: seq<Pattern>, w: uint32, h: uint32, patched: seq<byte>, count: nat)
    requires ValidTable(table)
    requires patched == ApplyAll(data, AllOps(data, table, w, h))
    requires count == TotalMatches(data, table)
    ensures PatchBytes(data, table, w, h) == if count == 0 then Failure(NoSignatureMatch) else Success(Patched(patched, count))
  {
    OpsCountMatches(data, table, w, h);
  }

  /**
   * `patch_file`'s nested loop: every pattern in table order, every match of
   * it in the original data, one write and one count each; a run without
   * matches is refused.
   */
  method PatchFile(data: seq<byte>, table: seq<Pattern>, w: uint32, h: uint32)
    returns (r: Result<Patched, PatchError>)
    requires ValidTable(table)
    ensures r == PatchBytes(data, table, w, h)
    ensures r.Success? ==> r.value.count == TotalMatches(data, table)
  {
    var patched := data;
    var count := 0;
    var pi := 0;
    while pi < |table|
      invariant 0 <= pi <= |table|
      invariant ValidTable(table[..pi])
      invariant patched == ApplyAll(data, AllOps(data, table[..pi], w, h))
      invariant count == TotalMatches(data, table[..pi])
    {
      AllOpsPrefixStep(data, table, w, h, pi);
      TotalMatchesPrefixStep(data, table, pi);
      ApplyAllAppend(data, AllOps(data, table[..pi], w, h), OpsFor(data, table[pi], w, h));
      var added;
      patched, added := PatchPattern(data, table[pi], w, h, patched);
      count := count + added;
      pi := pi + 1;
    }
    assert table[..pi] == table;
    LoopResult(data, table, w, h, patched, count);
    if count == 0 {
      r := Failure(NoSignatureMatch);
    } else {
      r := Success(Patched(patched, count));
    }
  }
}
