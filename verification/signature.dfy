/**
 * Fixed-length byte signatures and the scan `re.finditer(regex, data, re.DOTALL)`
 * performs with them. The patcher's regexes are plain byte strings in which the
 * only metacharacter is `.`, so a compiled signature is a sequence of literal
 * bytes and single-byte wildcards.
 */
module Signature {
  import opened Bytes

  /** One signature position: a literal byte, or `.`, which under `re.DOTALL` matches every byte. */
  datatype SigElem = Lit(b: byte) | Any

  /** The byte `.` (0x2E). */
  const DOT: byte := 0x2E

  /** Bytes with a special meaning in a Python regex besides `.`: `$ ( ) * + ? [ \ ] ^ { | }`. */
  predicate IsMeta(b: byte) {
    || b == 0x24
    || 0x28 <= b <= 0x2B
    || b == 0x3F
    || 0x5B <= b <= 0x5E
    || 0x7B <= b <= 0x7D
  }

  /** A regex whose bytes are all literals or `.`: the shape of every entry of the pattern table. */
  predicate IsPlainRegex(re: seq<byte>) {
    forall k :: 0 <= k < |re| ==> !IsMeta(re[k])
  }

  /** Reads a plain regex as a signature: `.` becomes a wildcard, every other byte stands for itself. */
  function Compile(re: seq<byte>): (sig: seq<SigElem>)
    requires IsPlainRegex(re)
    ensures |sig| == |re|
    ensures forall k :: 0 <= k < |re| ==> (sig[k].Any? <==> re[k] == DOT)
    ensures forall k :: 0 <= k < |re| && re[k] != DOT ==> sig[k] == Lit(re[k])
  {
    seq(|re|, k requires 0 <= k < |re| => if re[k] == DOT then Any else Lit(re[k]))
  }

  predicate ElemMatches(e: SigElem, b: byte) {
    match e
    case Any => true
    case Lit(x) => x == b
  }

  /** The signature occurs in `data` starting at byte `i`. */
  predicate MatchesAt(data: seq<byte>, sig: seq<SigElem>, i: int) {
    && 0 <= i
    && i + |sig| <= |data|
    && forall k :: 0 <= k < |sig| ==> ElemMatches(sig[k], data[i + k])
  }

  /** Some listed match's span `[s, s + len)` contains `p`. */
  predicate Covered(starts: seq<nat>, len: nat, p: int) {
    exists k :: 0 <= k < |starts| && starts[k] <= p < starts[k] + len
  }

  /**
   * What `re.finditer` promises about the match starts it yields from `from` on:
   * every start is a match at or after `from`, the matched spans are listed in
   * ascending order without overlapping, and every match at or after `from`
   * lies inside one of the listed spans (it was yielded, or skipped because an
   * earlier yielded match consumed its first byte).
   */
  ghost predicate IsFindIterResult(data: seq<byte>, sig: seq<SigElem>, from: nat, starts: seq<nat>) {
    && AllMatch(data, sig, from, starts)
    && Spaced(starts, |sig|)
    && Exhaustive(data, sig, from, starts)
  }

  /** Every listed start is a match at or after `from`. */
  predicate AllMatch(data: seq<byte>, sig: seq<SigElem>, from: nat, starts: seq<nat>) {
    forall k :: 0 <= k < |starts| ==> from <= starts[k] && MatchesAt(data, sig, starts[k])
  }

  /** The listed spans `[s, s + len)` ascend without overlapping. */
  predicate Spaced(starts: seq<nat>, len: nat) {
    forall k, l :: 0 <= k < l < |starts| ==> starts[k] + len <= starts[l]
  }

  /** Every match at or after `from` lies inside a listed span. */
  ghost predicate Exhaustive(data: seq<byte>, sig: seq<SigElem>, from: nat, starts: seq<nat>) {
    forall p {:trigger Covered(starts, |sig|, p)} :: from <= p && MatchesAt(data, sig, p) ==> Covered(starts, |sig|, p)
  }

  /**
   * `re.finditer` for a non-empty fixed-length signature, resuming at `from`:
   * try each position left to right; after a match, continue right after it.
   */
  function FindIter(data: seq<byte>, sig: seq<SigElem>, from: nat): (starts: seq<nat>)
    requires |sig| > 0
    decreases |data| - from
  {
    if from + |sig| > |data| then []
    else if MatchesAt(data, sig, from) then [from] + FindIter(data, sig, from + |sig|)
    else FindIter(data, sig, from + 1)
  }

  /** `FindIter` keeps the `re.finditer` contract. */
  lemma {:induction false} FindIterSpec(data: seq<byte>, sig: seq<SigElem>, from: nat)
    requires |sig| > 0
    ensures IsFindIterResult(data, sig, from, FindIter(data, sig, from))
    decreases |data| - from
  {
    if from + |sig| > |data| {
      NothingPastEnd(data, sig, from);
    } else if MatchesAt(data, sig, from) {
      FindIterSpec(data, sig, from + |sig|);
      ExtendAtMatch(data, sig, from, FindIter(data, sig, from + |sig|));
    } else {
      FindIterSpec(data, sig, from + 1);
      SkipNonMatch(data, sig, from, FindIter(data, sig, from + 1));
    }
  }

  /** No room is left for the signature: the scan ends with nothing more. */
  lemma NothingPastEnd(data: seq<byte>, sig: seq<SigElem>, from: nat)
    requires from + |sig| > |data|
    ensures IsFindIterResult(data, sig, from, [])
  {
  }

  /** A match at `from` is yielded, and the scan resumes right after it. */
  lemma ExtendAtMatch(data: seq<byte>, sig: seq<SigElem>, from: nat, rest: seq<nat>)
    requires MatchesAt(data, sig, from)
    requires IsFindIterResult(data, sig, from + |sig|, rest)
    ensures IsFindIterResult(data, sig, from, [from] + rest)
  {
    ExtendAllMatch(data, sig, from, rest);
    ExtendSpaced(from, |sig|, rest);
    ExtendExhaustive(data, sig, from, rest);
  }

  lemma ExtendAllMatch(data: seq<byte>, sig: seq<SigElem>, from: nat, rest: seq<nat>)
    requires MatchesAt(data, sig, from)
    requires AllMatch(data, sig, from + |sig|, rest)
    ensures AllMatch(data, sig, from, [from] + rest)
  {
    var starts := [from] + rest;
    forall k | 0 <= k < |starts|
      ensures from <= starts[k] && MatchesAt(data, sig, starts[k])
    {
      if k > 0 {
        assert starts[k] == rest[k - 1];
      }
    }
  }

  lemma ExtendSpaced(from: nat, len: nat, rest: seq<nat>)
    requires forall k :: 0 <= k < |rest| ==> from + len <= rest[k]
    requires Spaced(rest, len)
    ensures Spaced([from] + rest, len)
  {
    var starts := [from] + rest;
    forall k, l | 0 <= k < l < |starts|
      ensures starts[k] + len <= starts[l]
    {
      assert starts[l] == rest[l - 1];
      if k > 0 {
        assert starts[k] == rest[k - 1];
      }
    }
  }

  lemma ExtendExhaustive(data: seq<byte>, sig: seq<SigElem>, from: nat, rest: seq<nat>)
    requires Exhaustive(data, sig, from + |sig|, rest)
    ensures Exhaustive(data, sig, from, [from] + rest)
  {
    var starts := [from] + rest;
    forall p | from <= p && MatchesAt(data, sig, p)
      ensures Covered(starts, |sig|, p)
    {
      if p < from + |sig| {
        assert starts[0] <= p < starts[0] + |sig|;
      } else {
        assert Covered(rest, |sig|, p);
        var k :| 0 <= k < |rest| && rest[k] <= p < rest[k] + |sig|;
        assert starts[k + 1] == rest[k];
      }
    }
  }

  /** No match at `from`: the scan resumes one byte later. */
  lemma SkipNonMatch(data: seq<byte>, sig: seq<SigElem>, from: nat, rest: seq<nat>)
    requires !MatchesAt(data, sig, from)
    requires IsFindIterResult(data, sig, from + 1, rest)
    ensures IsFindIterResult(data, sig, from, rest)
  {
    forall p | from <= p && MatchesAt(data, sig, p)
      ensures Covered(rest, |sig|, p)
    {
      assert p != from;
      assert Covered(rest, |sig|, p);
    }
  }

  /** `re.finditer` yields nothing exactly when the signature occurs nowhere in `data`. */
  lemma FindIterEmptyIff(data: seq<byte>, sig: seq<SigElem>)
    requires |sig| > 0
    ensures FindIter(data, sig, 0) == [] <==> forall i :: !MatchesAt(data, sig, i)
  {
    var starts := FindIter(data, sig, 0);
    FindIterSpec(data, sig, 0);
    if starts != [] {
      assert MatchesAt(data, sig, starts[0]);
    }
    if exists i :: MatchesAt(data, sig, i) {
      var i :| MatchesAt(data, sig, i);
      assert Covered(starts, |sig|, i);
    }
  }

  /**
   * The finditer contract determines the scan: any list of match starts that
   * satisfies it is the one `FindIter` yields.
   */
  lemma {:induction false} FindIterUnique(data: seq<byte>, sig: seq<SigElem>, from: nat, starts: seq<nat>)
    requires |sig| > 0
    requires IsFindIterResult(data, sig, from, starts)
    ensures starts == FindIter(data, sig, from)
    decreases |data| - from
  {
    if from + |sig| > |data| {
      NoStartPastEnd(data, sig, from, starts);
    } else if MatchesAt(data, sig, from) {
      HeadIsMatch(data, sig, from, starts);
      FindIterUnique(data, sig, from + |sig|, starts[1..]);
      ConsTail(starts, from, FindIter(data, sig, from + |sig|));
    } else {
      TailFromNext(data, sig, from, starts);
      FindIterUnique(data, sig, from + 1, starts);
    }
  }

  lemma ConsTail(starts: seq<nat>, x: nat, tail: seq<nat>)
    requires |starts| > 0 && starts[0] == x && starts[1..] == tail
    ensures starts == [x] + tail
  {
  }

  /** With no room left for the signature, nothing can be listed. */
  lemma NoStartPastEnd(data: seq<byte>, sig: seq<SigElem>, from: nat, starts: seq<nat>)
    requires from + |sig| > |data|
    requires IsFindIterResult(data, sig, from, starts)
    ensures starts == []
  {
    FirstStartFits(data, sig, from, starts);
  }

  /** The first listed start, if any, is a whole match at or after `from`. */
  lemma FirstStartFits(data: seq<byte>, sig: seq<SigElem>, from: nat, starts: seq<nat>)
    requires IsFindIterResult(data, sig, from, starts)
    ensures |starts| > 0 ==> from <= starts[0] && starts[0] + |sig| <= |data|
  {
  }

  /** A match at `from` must be the first listed start, and the rest describe the scan after it. */
  lemma HeadIsMatch(data: seq<byte>, sig: seq<SigElem>, from: nat, starts: seq<nat>)
    requires |sig| > 0
    requires MatchesAt(data, sig, from)
    requires IsFindIterResult(data, sig, from, starts)
    ensures |starts| > 0 && starts[0] == from
    ensures IsFindIterResult(data, sig, from + |sig|, starts[1..])
  {
    assert Covered(starts, |sig|, from);
    var k :| 0 <= k < |starts| && starts[k] <= from < starts[k] + |sig|;
    assert starts[0] <= starts[k];
    assert starts[0] == from;
    var rest := starts[1..];
    forall j | 0 <= j < |rest|
      ensures from + |sig| <= rest[j] && MatchesAt(data, sig, rest[j])
    {
      assert rest[j] == starts[j + 1];
    }
    forall j, l | 0 <= j < l < |rest|
      ensures rest[j] + |sig| <= rest[l]
    {
      assert rest[j] == starts[j + 1] && rest[l] == starts[l + 1];
    }
    forall p | from + |sig| <= p && MatchesAt(data, sig, p)
      ensures Covered(rest, |sig|, p)
    {
      assert Covered(starts, |sig|, p);
      var m :| 0 <= m < |starts| && starts[m] <= p < starts[m] + |sig|;
      assert m != 0;
      assert rest[m - 1] == starts[m];
    }
  }

  /** Without a match at `from`, the same starts describe the scan from the next byte. */
  lemma TailFromNext(data: seq<byte>, sig: seq<SigElem>, from: nat, starts: seq<nat>)
    requires !MatchesAt(data, sig, from)
    requires IsFindIterResult(data, sig, from, starts)
    ensures IsFindIterResult(data, sig, from + 1, starts)
  {
    forall j | 0 <= j < |starts|
      ensures from + 1 <= starts[j]
    {
      assert MatchesAt(data, sig, starts[j]);
    }
    forall p | from + 1 <= p && MatchesAt(data, sig, p)
      ensures Covered(starts, |sig|, p)
    {
      assert Covered(starts, |sig|, p);
    }
  }

  /**
   * Two occurrences `d` bytes apart would have to agree at position `k` of the
   * later one: the byte there is `sig[d + k]` for the earlier occurrence and
   * `sig[k]` for the later one, and two different literals cannot both match.
   */
  predicate ClashAt(sig: seq<SigElem>, d: int, k: int) {
    && 0 <= d && 0 <= k && d + k < |sig|
    && sig[k].Lit? && sig[d + k].Lit?
    && sig[k].b != sig[d + k].b
  }

  /** Two occurrences `d` bytes apart disagree somewhere. */
  ghost predicate Clashes(sig: seq<SigElem>, d: int) {
    exists k :: ClashAt(sig, d, k)
  }

  /** No occurrence of the signature can start strictly inside another one. */
  ghost predicate NoSelfOverlap(sig: seq<SigElem>) {
    forall d :: 0 < d < |sig| ==> Clashes(sig, d)
  }

  /** An occurrence at `s` rules out one `d` bytes later when the shift `d` clashes. */
  lemma ClashForbidsShift(data: seq<byte>, sig: seq<SigElem>, s: nat, d: int)
    requires MatchesAt(data, sig, s)
    requires Clashes(sig, d)
    ensures !MatchesAt(data, sig, s + d)
  {
    var k :| ClashAt(sig, d, k);
    assert ElemMatches(sig[d + k], data[s + (d + k)]);
    assert s + d + k < |data| ==> !ElemMatches(sig[k], data[(s + d) + k]);
  }

  /** For a signature without self-overlap, two occurrences that overlap coincide. */
  lemma OverlappingMatchesCoincide(data: seq<byte>, sig: seq<SigElem>, s: nat, t: int)
    requires NoSelfOverlap(sig)
    requires MatchesAt(data, sig, s) && MatchesAt(data, sig, t)
    requires s <= t < s + |sig|
    ensures s == t
  {
    if s < t {
      ClashForbidsShift(data, sig, s, t - s);
    }
  }

  /**
   * For a signature without self-overlap, `re.finditer` yields every
   * occurrence: no occurrence is skipped because an earlier one consumed it.
   */
  lemma FindIterComplete(data: seq<byte>, sig: seq<SigElem>, i: int)
    requires |sig| > 0 && NoSelfOverlap(sig)
    ensures MatchesAt(data, sig, i) <==> i in FindIter(data, sig, 0)
  {
    var starts := FindIter(data, sig, 0);
    FindIterSpec(data, sig, 0);
    if MatchesAt(data, sig, i) {
      assert Covered(starts, |sig|, i);
      var k :| 0 <= k < |starts| && starts[k] <= i < starts[k] + |sig|;
      OverlappingMatchesCoincide(data, sig, starts[k], i);
    }
    if i in starts {
      var k :| 0 <= k < |starts| && starts[k] == i;
      assert MatchesAt(data, sig, starts[k]);
    }
  }

  /** Compares the signature with `data` at `i`, position by position. */
  method MatchAt(data: seq<byte>, sig: seq<SigElem>, i: nat) returns (hit: bool)
    ensures hit <==> MatchesAt(data, sig, i)
  {
    if i + |sig| > |data| {
      return false;
    }
    var k := 0;
    while k < |sig|
      invariant 0 <= k <= |sig|
      invariant forall j :: 0 <= j < k ==> ElemMatches(sig[j], data[i + j])
    {
      if !ElemMatches(sig[k], data[i + k]) {
        return false;
      }
      k := k + 1;
    }
    return true;
  }

  /** The scanning loop behind `for m in re.finditer(regex, data, re.DOTALL)`. */
  method Scan(data: seq<byte>, sig: seq<SigElem>) returns (starts: seq<nat>)
    requires |sig| > 0
    ensures starts == FindIter(data, sig, 0)
  {
    starts := [];
    var pos := 0;
    while pos + |sig| <= |data|
      invariant starts + FindIter(data, sig, pos) == FindIter(data, sig, 0)
      decreases |data| - pos
    {
      var hit := MatchAt(data, sig, pos);
      if hit {
        starts := starts + [pos];
        pos := pos + |sig|;
      } else {
        pos := pos + 1;
      }
    }
  }
}
